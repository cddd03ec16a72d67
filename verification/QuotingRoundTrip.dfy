/** Which argument vectors survive being printed and read back. */
module QuotingRoundTrip {
  import opened Switches
  import opened Text
  import opened Wrappers
  import opened Quoting

  // ----- the condition -----

  /** Printed bare, `s` is one stretch of text that the reader will not break up. */
  predicate Solid(s: string) {
    ' ' !in s && '\t' !in s && '"' !in s
  }

  /** The tab is the one separator that quoting does not look for. */
  predicate TabSafe(s: string, placeholders: bool) {
    '\t' in s ==> NeedsQuotes(s, placeholders)
  }

  predicate Good(arg: string, parseSwitches: bool, slash: bool, placeholders: bool) {
    if parseSwitches && IsSwitch(arg, slash) then
      && Solid(SwitchName(arg))
      && (HasEquals(arg) ==> SwitchValue(arg) != "" && TabSafe(SwitchValue(arg), placeholders))
    else
      arg != "" && TabSafe(arg, placeholders)
  }

  predicate AllGood(args: seq<string>, parseSwitches: bool, slash: bool, placeholders: bool) {
    args == [] ||
    var ps := parseSwitches && args[0] != TERMINATOR;
    Good(args[0], ps, slash, placeholders) && AllGood(args[1..], ps, slash, placeholders)
  }

  // ----- good arguments survive -----

  predicate EndsHere(syms: seq<Symbol>) {
    syms == [] || syms[0] == Char(' ')
  }

  function Join(cur: Option<string>, s: string): Option<string> {
    Some((if cur.Some? then cur.value else "") + s)
  }

  /** Inside quotes, or without blanks, characters are taken as they are. */
  lemma {:induction false} SplitChars(
      s: string, rest: seq<Symbol>, cur: Option<string>, quoted: bool, rule: PairRule)
    requires quoted || (' ' !in s && '\t' !in s)
    requires s != "" || cur.Some?
    ensures Split(Chars(s) + rest, cur, quoted, rule) == Split(rest, Join(cur, s), quoted, rule)
    decreases |s|
  {
    if s == "" {
      assert Chars(s) + rest == rest;
      assert cur.value + "" == cur.value;
    } else {
      var cur' := Push(cur, s[0]);
      assert s == [s[0]] + s[1..];
      assert (Chars(s) + rest)[1..] == Chars(s[1..]) + rest;
      SplitChars(s[1..], rest, cur', quoted, rule);
      Associative(if cur.Some? then cur.value else "", [s[0]], s[1..]);
    }
  }

  lemma SplitMarked(a: string, rest: seq<Symbol>, cur: Option<string>, rule: PairRule)
    requires EndsHere(rest)
    ensures Split([Mark] + Chars(a) + [Mark] + rest, cur, false, rule) == Split(rest, Join(cur, a), false, rule)
  {
    var tail := [Mark] + rest;
    var syms := [Mark] + (Chars(a) + tail);
    assert [Mark] + Chars(a) + [Mark] + rest == syms;
    assert syms[1..] == Chars(a) + tail;
    SplitChars(a, tail, Some(if cur.Some? then cur.value else ""), true, rule);
    assert tail[1..] == rest;
  }

  /** A quoted argument, whatever it contains, is read as one piece. */
  lemma SplitQuote(a: string, placeholders: bool, rest: seq<Symbol>, cur: Option<string>, rule: PairRule)
    requires TabSafe(a, placeholders) && (a != "" || cur.Some?) && EndsHere(rest)
    ensures Split(Lex(Quote(a, placeholders)) + rest, cur, false, rule) == Split(rest, Join(cur, a), false, rule)
  {
    LexQuote(a, placeholders);
    if NeedsQuotes(a, placeholders) {
      SplitMarked(a, rest, cur, rule);
    } else {
      SplitChars(a, rest, cur, false, rule);
    }
  }

  lemma SplitSwitch(name: string, value: string, placeholders: bool, rest: seq<Symbol>, rule: PairRule)
    requires Solid(name) && value != "" && TabSafe(value, placeholders) && EndsHere(rest)
    ensures Split(Lex(name + ("=" + Quote(value, placeholders))) + rest, None, false, rule)
         == Split(rest, Some(name + ("=" + value)), false, rule)
  {
    var printed := "=" + Quote(value, placeholders);
    var start := name + "=";
    var tail := Lex(Quote(value, placeholders)) + rest;
    PlainText(name);
    LexConcat(name, 0, printed);
    LexLiteral('=', Quote(value, placeholders));
    CharsConcat(name, "=");
    assert Chars("=") == [Char('=')];
    SymbolsAssociative(Chars(name), [Char('=')], Lex(Quote(value, placeholders)));
    SymbolsAssociative(Chars(start), Lex(Quote(value, placeholders)), rest);
    SplitChars(start, tail, None, false, rule);
    assert "" + start == start;
    SplitQuote(value, placeholders, rest, Some(start), rule);
    Associative(name, "=", value);
  }

  lemma SplitArg(
      a: string, ps: bool, slash: bool, placeholders: bool, rest: seq<Symbol>, rule: PairRule)
    requires Good(a, ps, slash, placeholders) && EndsHere(rest)
    ensures Split(Lex(PrintArg(a, ps, slash, placeholders)) + rest, None, false, rule) == Split(rest, Some(a), false, rule)
  {
    if ps && IsSwitch(a, slash) {
      SwitchParts(a);
      if HasEquals(a) {
        SplitSwitch(SwitchName(a), SwitchValue(a), placeholders, rest, rule);
      } else {
        assert SwitchName(a) + "" == a;
        PlainText(a);
        SplitChars(a, rest, None, false, rule);
        assert "" + a == a;
      }
    } else {
      SplitQuote(a, placeholders, rest, None, rule);
      assert "" + a == a;
    }
  }

  lemma LexPrint(args: seq<string>, parseSwitches: bool, slash: bool, placeholders: bool)
    requires args != []
    ensures var ps := parseSwitches && args[0] != TERMINATOR;
            Lex(Print(args, parseSwitches, slash, placeholders)) ==
              Lex(PrintArg(args[0], ps, slash, placeholders))
              + if |args| == 1 then [] else [Char(' ')] + Lex(Print(args[1..], ps, slash, placeholders))
  {
    var ps := parseSwitches && args[0] != TERMINATOR;
    var p := PrintArg(args[0], ps, slash, placeholders);
    if |args| == 1 {
      assert p + "" == p;
      assert args[1..] == [];
    } else {
      var tail := " " + Print(args[1..], ps, slash, placeholders);
      LexConcat(p, 0, tail);
      LexLiteral(' ', Print(args[1..], ps, slash, placeholders));
    }
  }

  lemma {:induction false} GoodSurvive(
      args: seq<string>, parseSwitches: bool, slash: bool, placeholders: bool, rule: PairRule)
    requires AllGood(args, parseSwitches, slash, placeholders)
    ensures Tokenise(Print(args, parseSwitches, slash, placeholders), rule) == args
    decreases |args|
  {
    if args != [] {
      var ps := parseSwitches && args[0] != TERMINATOR;
      LexPrint(args, parseSwitches, slash, placeholders);
      var rest := if |args| == 1 then [] else [Char(' ')] + Lex(Print(args[1..], ps, slash, placeholders));
      SplitArg(args[0], ps, slash, placeholders, rest, rule);
      GoodSurvive(args[1..], ps, slash, placeholders, rule);
      assert args == [args[0]] + args[1..];
      if |args| > 1 {
        assert rest[1..] == Lex(Print(args[1..], ps, slash, placeholders));
      }
    }
  }

  // ----- and no others do: an accounting of characters -----

  /** The characters of a list of arguments, with one separator for each. */
  function Total(args: seq<string>): nat {
    if args == [] then 0 else |args[0]| + 1 + Total(args[1..])
  }

  /** The most characters and separators that the reader can make of `syms`: marks yield
      something only in pairs. */
  function Yield(syms: seq<Symbol>): nat {
    if syms == [] then 0
    else (if syms[0].Char? || (|syms| > 1 && syms[1] == Mark) then 1 else 0) + Yield(syms[1..])
  }

  lemma {:induction false} SplitBound(syms: seq<Symbol>, cur: Option<string>, quoted: bool, rule: PairRule)
    ensures Total(Split(syms, cur, quoted, rule)) <= (if cur.Some? then |cur.value| else 0) + Yield(syms) + 1
    decreases |syms|
  {
    if syms != [] {
      match syms[0]
      case Char(c) =>
        if !quoted && Blank(c) {
          SplitBound(syms[1..], None, false, rule);
          var tail := Split(syms[1..], None, false, rule);
          if cur.Some? {
            assert ([cur.value] + tail)[1..] == tail;
          } else {
            assert Flush(cur) + tail == tail;
          }
        } else {
          SplitBound(syms[1..], Push(cur, c), quoted, rule);
        }
      case Mark =>
        if quoted && rule != Separate && |syms| > 1 && syms[1] == Mark {
          assert syms[2..] == syms[1..][1..];
          SplitBound(syms[2..], Push(cur, '"'), rule == LiteralAndStay, rule);
        } else {
          SplitBound(syms[1..], Some(if cur.Some? then cur.value else ""), !quoted, rule);
        }
    }
  }

  /** A separator at the start is wasted. */
  lemma LeadingBlank(syms: seq<Symbol>, rule: PairRule)
    requires syms == [] || (syms[0].Char? && Blank(syms[0].c))
    ensures Total(Split(syms, None, false, rule)) <= Yield(syms)
  {
    if syms != [] {
      SplitBound(syms[1..], None, false, rule);
      assert Flush(None) + Split(syms[1..], None, false, rule) == Split(syms[1..], None, false, rule);
    }
  }

  lemma {:induction false} YieldConcat(a: seq<Symbol>, b: seq<Symbol>)
    requires b == [] || b[0].Char?
    ensures Yield(a + b) == Yield(a) + Yield(b)
  {
    if a == [] {
      assert a + b == b;
    } else {
      assert (a + b)[1..] == a[1..] + b;
      YieldConcat(a[1..], b);
    }
  }

  lemma {:induction false} YieldChars(s: string, b: seq<Symbol>)
    ensures Yield(Chars(s) + b) == |s| + Yield(b)
    decreases |s|
  {
    if s == "" {
      assert Chars(s) + b == b;
    } else {
      assert (Chars(s) + b)[1..] == Chars(s[1..]) + b;
      YieldChars(s[1..], b);
    }
  }

  /** A marked run of backslashes yields less than it takes up. */
  lemma YieldRun(n: nat, tail: seq<Symbol>)
    ensures Yield(RunSymbols(n, true) + tail)
         <= n / 2 + (if n % 2 == 1 || (tail != [] && tail[0] == Mark) then 1 else 0) + Yield(tail)
  {
    var m := [if n % 2 == 1 then Char('"') else Mark];
    assert RunSymbols(n, true) + tail == Chars(Slashes(n / 2)) + (m + tail);
    YieldChars(Slashes(n / 2), m + tail);
    assert (m + tail)[1..] == tail;
  }

  lemma {:induction false} MarkAtHead(s: string, n: nat)
    ensures LexFrom(s, n) != [] && LexFrom(s, n)[0] == Mark ==> '"' in s
    decreases |s|
  {
    if s != "" && s[0] == '\\' {
      MarkAtHead(s[1..], n + 1);
    }
  }

  /** Resolving backslashes never gains, and loses wherever there is a quotation mark. */
  lemma {:induction false} YieldLex(s: string, n: nat)
    ensures Yield(LexFrom(s, n)) <= n + |s| && ('"' in s ==> Yield(LexFrom(s, n)) < n + |s|)
    decreases |s|
  {
    if s == "" {
      YieldChars(Slashes(n), []);
      assert Chars(Slashes(n)) + [] == Chars(Slashes(n));
    } else if s[0] == '\\' {
      YieldLex(s[1..], n + 1);
    } else {
      var tail := LexFrom(s[1..], 0);
      YieldLex(s[1..], 0);
      if s[0] == '"' {
        YieldRun(n, tail);
        MarkAtHead(s[1..], 0);
      } else {
        YieldChars(Slashes(n), [Char(s[0])] + tail);
        assert ([Char(s[0])] + tail)[1..] == tail;
      }
    }
  }

  lemma YieldQuote(a: string, placeholders: bool)
    ensures Yield(Lex(Quote(a, placeholders))) == |a|
  {
    LexQuote(a, placeholders);
    if NeedsQuotes(a, placeholders) {
      var syms := [Mark] + (Chars(a) + [Mark]);
      assert [Mark] + Chars(a) + [Mark] == syms;
      assert syms[1..] == Chars(a) + [Mark];
      YieldChars(a, [Mark]);
    } else {
      YieldChars(a, []);
      assert Chars(a) + [] == Chars(a);
    }
  }

  /** Switches whose printed form is too short: a mark in the name, or nothing after the `=`. */
  predicate Lossy(arg: string, parseSwitches: bool, slash: bool) {
    && parseSwitches && IsSwitch(arg, slash)
    && ('"' in SwitchName(arg) || (HasEquals(arg) && SwitchValue(arg) == ""))
  }

  lemma YieldArg(a: string, ps: bool, slash: bool, placeholders: bool)
    ensures Yield(Lex(PrintArg(a, ps, slash, placeholders))) <= |a|
    ensures Lossy(a, ps, slash) ==> Yield(Lex(PrintArg(a, ps, slash, placeholders))) < |a|
  {
    if ps && IsSwitch(a, slash) {
      var name, value := SwitchName(a), SwitchValue(a);
      SwitchParts(a);
      YieldLex(name, 0);
      if value != "" {
        var quoted := Quote(value, placeholders);
        var printed := "=" + quoted;
        LexConcat(name, 0, printed);
        LexLiteral('=', quoted);
        YieldQuote(value, placeholders);
        var syms := [Char('=')] + Lex(quoted);
        assert syms[1..] == Lex(quoted);
        YieldConcat(Lex(name), syms);
      } else {
        assert name + "" == name;
      }
    } else {
      YieldQuote(a, placeholders);
    }
  }

  predicate NoneLossy(args: seq<string>, parseSwitches: bool, slash: bool) {
    args == [] ||
    var ps := parseSwitches && args[0] != TERMINATOR;
    !Lossy(args[0], ps, slash) && NoneLossy(args[1..], ps, slash)
  }

  lemma {:induction false} YieldPrint(args: seq<string>, parseSwitches: bool, slash: bool, placeholders: bool)
    requires args != []
    ensures Yield(Lex(Print(args, parseSwitches, slash, placeholders))) <= Total(args) - 1
    ensures !NoneLossy(args, parseSwitches, slash) ==>
              Yield(Lex(Print(args, parseSwitches, slash, placeholders))) < Total(args) - 1
    decreases |args|
  {
    var ps := parseSwitches && args[0] != TERMINATOR;
    var head := Lex(PrintArg(args[0], ps, slash, placeholders));
    LexPrint(args, parseSwitches, slash, placeholders);
    YieldArg(args[0], ps, slash, placeholders);
    assert NoneLossy(args, parseSwitches, slash) <==> !Lossy(args[0], ps, slash) && NoneLossy(args[1..], ps, slash);
    if |args| == 1 {
      assert head + [] == head && args[1..] == [] && NoneLossy([], ps, slash);
    } else {
      var tail := Lex(Print(args[1..], ps, slash, placeholders));
      YieldPrint(args[1..], ps, slash, placeholders);
      YieldConcat(head, [Char(' ')] + tail);
      assert ([Char(' ')] + tail)[1..] == tail;
    }
  }

  /** Bare text with a blank in it comes apart, or wastes a separator. */
  lemma BrokenText(u: string, tail: seq<Symbol>, rule: PairRule)
    requires ' ' in u || '\t' in u
    ensures var args := Split(Chars(u) + tail, None, false, rule);
            (args != [] && |args[0]| < |u|) || Total(args) <= Yield(Chars(u) + tail)
  {
    var j := FirstBlank(u);
    var syms := Chars(u) + tail;
    if j == 0 {
      assert syms[0] == Char(u[0]);
      LeadingBlank(syms, rule);
    } else {
      var rest := Chars(u[j..]) + tail;
      assert u == u[..j] + u[j..];
      CharsConcat(u[..j], u[j..]);
      SymbolsAssociative(Chars(u[..j]), Chars(u[j..]), tail);
      SplitChars(u[..j], rest, None, false, rule);
      assert "" + u[..j] == u[..j];
      assert rest[0] == Char(u[j..][0]) && u[j..][0] == u[j];
    }
  }

  function FirstBlank(u: string): (j: nat)
    requires ' ' in u || '\t' in u
    ensures j < |u| && Blank(u[j]) && ' ' !in u[..j] && '\t' !in u[..j]
  {
    if Blank(u[0]) then 0
    else
      var j := FirstBlank(u[1..]);
      assert u[..j + 1] == [u[0]] + u[1..][..j];
      j + 1
  }

  /** A switch that is not good, though not lossy either, prints as text that comes apart. */
  lemma BadSwitch(a: string, placeholders: bool, slash: bool, rest: seq<Symbol>, rule: PairRule)
    requires IsSwitch(a, slash) && !Good(a, true, slash, placeholders) && !Lossy(a, true, slash)
    ensures var syms := Lex(PrintArg(a, true, slash, placeholders)) + rest;
            var args := Split(syms, None, false, rule);
            (args != [] && |args[0]| < |a|) || Total(args) <= Yield(syms)
  {
    var name, value := SwitchName(a), SwitchValue(a);
    SwitchParts(a);
    PlainText(name);
    if !Solid(name) {
      var printed := if HasEquals(a) then "=" + Quote(value, placeholders) else "";
      LexConcat(name, 0, printed);
      assert name + "" == name;
      assert PrintArg(a, true, slash, placeholders) == name + printed;
      SymbolsAssociative(Chars(name), Lex(printed), rest);
      BrokenText(name, Lex(printed) + rest, rule);
    } else {
      assert PrintArg(a, true, slash, placeholders) == a;
      assert '"' !in a;
      PlainText(a);
      BrokenText(a, rest, rule);
    }
  }

  lemma BadArgument(a: string, placeholders: bool, rest: seq<Symbol>, rule: PairRule)
    requires a == "" || !TabSafe(a, placeholders)
    requires rest == [] || rest[0] == Char(' ')
    ensures var syms := Lex(Quote(a, placeholders)) + rest;
            var args := Split(syms, None, false, rule);
            (args != [] && |args[0]| < |a|) || Total(args) <= Yield(syms)
  {
    PlainText(a);
    if a == "" {
      assert Chars(a) + rest == rest;
      LeadingBlank(rest, rule);
    } else {
      BrokenText(a, rest, rule);
    }
  }

  /** The first argument of a list that survives is good. */
  lemma FirstIsGood(args: seq<string>, parseSwitches: bool, slash: bool, placeholders: bool, rule: PairRule)
    requires args != [] && NoneLossy(args, parseSwitches, slash)
    requires Tokenise(Print(args, parseSwitches, slash, placeholders), rule) == args
    ensures Good(args[0], parseSwitches && args[0] != TERMINATOR, slash, placeholders)
  {
    var ps := parseSwitches && args[0] != TERMINATOR;
    var rest := if |args| == 1 then [] else [Char(' ')] + Lex(Print(args[1..], ps, slash, placeholders));
    LexPrint(args, parseSwitches, slash, placeholders);
    YieldPrint(args, parseSwitches, slash, placeholders);
    if !Good(args[0], ps, slash, placeholders) {
      if ps && IsSwitch(args[0], slash) {
        BadSwitch(args[0], placeholders, slash, rest, rule);
      } else {
        BadArgument(args[0], placeholders, rest, rule);
      }
    }
  }

  lemma {:induction false} SurvivorsAreGood(
      args: seq<string>, parseSwitches: bool, slash: bool, placeholders: bool, rule: PairRule)
    requires NoneLossy(args, parseSwitches, slash)
    requires Tokenise(Print(args, parseSwitches, slash, placeholders), rule) == args
    ensures AllGood(args, parseSwitches, slash, placeholders)
    decreases |args|
  {
    if args != [] {
      var ps := parseSwitches && args[0] != TERMINATOR;
      FirstIsGood(args, parseSwitches, slash, placeholders, rule);
      LexPrint(args, parseSwitches, slash, placeholders);
      var tail := if |args| == 1 then [] else Lex(Print(args[1..], ps, slash, placeholders));
      var rest := if |args| == 1 then [] else [Char(' ')] + tail;
      SplitArg(args[0], ps, slash, placeholders, rest, rule);
      assert |args| > 1 ==> rest[1..] == tail;
      assert Split(rest, Some(args[0]), false, rule) == [args[0]] + Split(tail, None, false, rule);
      assert args[1..] == Split(tail, None, false, rule);
      SurvivorsAreGood(args[1..], ps, slash, placeholders, rule);
    }
  }

  /** The command line a `CommandLine` prints for its arguments is read back as those arguments
      exactly when every switch has a name free of blanks and quotation marks and a value after
      its `=`, every other argument is nonempty, and any tab is in text that gets quoted.  This
      holds in both placeholder modes, for both settings of the slash prefix, and for every
      reading of doubled quotation marks. */
  lemma RoundTrip(args: seq<string>, slash: bool, placeholders: bool, rule: PairRule)
    ensures Tokenise(Print(args, true, slash, placeholders), rule) == args
       <==> AllGood(args, true, slash, placeholders)
  {
    if AllGood(args, true, slash, placeholders) {
      GoodSurvive(args, true, slash, placeholders, rule);
    } else if Tokenise(Print(args, true, slash, placeholders), rule) == args {
      SplitBound(Lex(Print(args, true, slash, placeholders)), None, false, rule);
      YieldPrint(args, true, slash, placeholders);
      SurvivorsAreGood(args, true, slash, placeholders, rule);
    }
  }

  /** A concrete vector that does not survive: a switch with nothing after its `=` loses the `=`. */
  lemma BareEqualsIsLost(rule: PairRule)
    ensures Tokenise(Print(["--a="], true, true, false), rule) != ["--a="]
  {
    var arg := "--a=";
    assert arg[..3] == "--a" && '=' !in arg[..3];
    assert IndexOf(arg, '=') == 3;
    RoundTrip([arg], true, false, rule);
    assert !Good([arg][0], true, true, false);
  }
}
