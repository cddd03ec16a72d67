/** What quoting for placeholders is for: whatever is put in for a `%` later, the command line keeps
    its arguments. */
module Placeholders {
  import opened Switches
  import opened Text
  import opened Wrappers
  import opened Quoting
  import opened QuotingRoundTrip

  /** The text with `t` in place of every percent sign. */
  function Fill(s: string, t: string): string {
    if s == "" then "" else (if s[0] == '%' then t else [s[0]]) + Fill(s[1..], t)
  }

  function FillAll(args: seq<string>, t: string): (r: seq<string>)
    ensures |r| == |args|
  {
    if args == [] then [] else [Fill(args[0], t)] + FillAll(args[1..], t)
  }

  /** What may be put in: any text without marks that does not end in a backslash, blanks and all. */
  predicate Fits(t: string) {
    t != "" && '"' !in t && t[|t| - 1] != '\\'
  }

  lemma {:induction false} FillConcat(a: string, b: string, t: string)
    ensures Fill(a + b, t) == Fill(a, t) + Fill(b, t)
  {
    if a == "" {
      assert a + b == b;
    } else {
      assert (a + b)[1..] == a[1..] + b;
      FillConcat(a[1..], b, t);
      Associative(if a[0] == '%' then t else [a[0]], Fill(a[1..], t), Fill(b, t));
    }
  }

  lemma {:induction false} FillNone(a: string, t: string)
    requires '%' !in a
    ensures Fill(a, t) == a
  {
    if a != "" {
      FillNone(a[1..], t);
    }
  }

  lemma FillSlashes(n: nat, t: string)
    ensures Fill(Slashes(n), t) == Slashes(n)
  {
    NoPercent(n);
    FillNone(Slashes(n), t);
  }

  lemma {:induction false} NoPercent(n: nat)
    ensures '%' !in Slashes(n) && '"' !in Slashes(n)
  {
    if n > 0 {
      NoPercent(n - 1);
    }
  }

  /** The front of a filled text: what the first character becomes. */
  lemma FillFirst(c: char, rest: string, t: string)
    ensures Fill([c] + rest, t) == (if c == '%' then t else [c]) + Fill(rest, t)
  {
    assert ([c] + rest)[1..] == rest;
  }

  /** Text without marks that does not end in a backslash stands as it is between the quotes. */
  lemma {:induction false} BodyOfPlain(u: string, w: string)
    requires '"' !in u && (u != "" ==> u[|u| - 1] != '\\')
    ensures Body(u + w) == u + Body(w)
    decreases |u|
  {
    var s := u + w;
    if u == "" {
      assert s == w;
    } else if u[0] == '\\' {
      var n := SlashRun(u);
      RunIsSlashes(u);
      LastOfSlashes(u, n);
      assert s[..n] == u[..n] && s[n] == u[n] != '\\';
      RunLength(s, n);
      assert s[n..] == u[n..] + w;
      BodyOfPlain(u[n..], w);
      Associative(Slashes(n), u[n..], Body(w));
    } else {
      assert s[1..] == u[1..] + w;
      BodyOfPlain(u[1..], w);
      Associative([u[0]], u[1..], Body(w));
      assert [u[0]] + u[1..] == u;
    }
  }

  /** A run at the front of a text that does not end in a backslash is not all of it. */
  lemma LastOfSlashes(u: string, n: nat)
    requires u != "" && u[|u| - 1] != '\\' && u[0] == '\\' && n == SlashRun(u)
    ensures 0 < n < |u| && u[n] != '\\' && forall k :: 0 <= k < n ==> u[k] == '\\'
  {
    RunIsSlashes(u);
    AllSlashes(n);
    assert forall k :: 0 <= k < n ==> u[k] == Slashes(n)[k];
  }

  lemma {:induction false} AllSlashes(n: nat)
    ensures forall k :: 0 <= k < n ==> Slashes(n)[k] == '\\'
  {
    if n > 0 {
      AllSlashes(n - 1);
    }
  }

  /** Filling and escaping can change places. */
  lemma {:induction false} FillBody(a: string, t: string)
    requires Fits(t)
    ensures Fill(Body(a), t) == Body(Fill(a, t))
    decreases |a|
  {
    if a != "" {
      var n, rest := SlashRun(a), a[SlashRun(a)..];
      RunIsSlashes(a);
      FillConcat(Slashes(n), rest, t);
      FillSlashes(n, t);
      if rest == "" {
        assert Slashes(n) + "" == Slashes(n) && Fill(rest, t) == "";
        BodyOfSlashes(n);
        FillSlashes(2 * n, t);
      } else if rest[0] == '"' {
        FillBody(rest[1..], t);
        assert rest == "\"" + rest[1..];
        FillEscaped(n, rest[1..], t);
      } else {
        FillBody(rest[1..], t);
        assert rest == [rest[0]] + rest[1..];
        FillLiteral(n, rest[0], rest[1..], t);
      }
    }
  }

  lemma BodyOfMark(n: nat, after: string)
    ensures Body(Slashes(n) + ("\"" + after)) == Slashes(2 * n) + ("\\\"" + Body(after))
  {
    var rest := "\"" + after;
    assert rest[1..] == after;
    if n > 0 {
      BodyOfRun(n, rest);
    } else {
      assert Slashes(0) + rest == rest;
    }
  }

  lemma FillEscaped(n: nat, after: string, t: string)
    requires Fill(Body(after), t) == Body(Fill(after, t))
    ensures Fill(Body(Slashes(n) + ("\"" + after)), t) == Body(Slashes(n) + Fill("\"" + after, t))
  {
    BodyOfMark(n, after);
    BodyOfMark(n, Fill(after, t));
    FillFirst('"', after, t);
    FillConcat(Slashes(2 * n), "\\\"" + Body(after), t);
    FillSlashes(2 * n, t);
    FillConcat("\\\"", Body(after), t);
    FillNone("\\\"", t);
  }

  function Filled(c: char, t: string): string {
    if c == '%' then t else [c]
  }

  lemma FillOfLiteral(n: nat, c: char, after: string, t: string)
    requires c != '"' && c != '\\'
    ensures Fill(Body(Slashes(n) + ([c] + after)), t) == Slashes(n) + Filled(c, t) + Fill(Body(after), t)
  {
    var u := Slashes(n) + [c];
    NoPercent(n);
    Associative(Slashes(n), [c], after);
    BodyOfPlain(u, after);
    Associative(Slashes(n), [c], Body(after));
    FillConcat(Slashes(n), [c] + Body(after), t);
    FillSlashes(n, t);
    FillFirst(c, Body(after), t);
    Associative(Slashes(n), Filled(c, t), Fill(Body(after), t));
  }

  lemma BodyOfFilled(n: nat, c: char, after: string, t: string)
    requires Fits(t) && c != '"' && c != '\\'
    ensures Body(Slashes(n) + Fill([c] + after, t)) == Slashes(n) + Filled(c, t) + Body(Fill(after, t))
  {
    NoPercent(n);
    FillFirst(c, after, t);
    Associative(Slashes(n), Filled(c, t), Fill(after, t));
    BodyOfPlain(Slashes(n) + Filled(c, t), Fill(after, t));
  }

  lemma FillLiteral(n: nat, c: char, after: string, t: string)
    requires Fits(t) && c != '"' && c != '\\'
    requires Fill(Body(after), t) == Body(Fill(after, t))
    ensures Fill(Body(Slashes(n) + ([c] + after)), t) == Body(Slashes(n) + Fill([c] + after, t))
  {
    FillOfLiteral(n, c, after, t);
    BodyOfFilled(n, c, after, t);
  }

  /** What fills a quoted argument stays inside it. */
  lemma SplitFilledQuote(a: string, t: string, rest: seq<Symbol>, cur: Option<string>, rule: PairRule)
    requires Fits(t) && TabSafe(a, true) && (a != "" || cur.Some?) && EndsHere(rest)
    ensures Split(Lex(Fill(Quote(a, true), t)) + rest, cur, false, rule) == Split(rest, Join(cur, Fill(a, t)), false, rule)
  {
    if NeedsQuotes(a, true) {
      var b := Fill(a, t);
      assert Quote(a, true) == "\"" + (Body(a) + "\"");
      FillFirst('"', Body(a) + "\"", t);
      FillConcat(Body(a), "\"", t);
      FillNone("\"", t);
      FillBody(a, t);
      LexBody(b);
      NoRun();
      var s := "\"" + (Body(b) + "\"");
      assert s[1..] == Body(b) + "\"";
      assert Lex(s) == [Mark] + Chars(b) + [Mark];
      SplitMarked(b, rest, cur, rule);
    } else {
      FillNone(a, t);
      SplitQuote(a, true, rest, cur, rule);
    }
  }

  /** A percent sign in the name of a switch is not quoted. */
  predicate PlainName(arg: string, parseSwitches: bool, slash: bool) {
    parseSwitches && IsSwitch(arg, slash) ==> '%' !in SwitchName(arg)
  }

  predicate PlainNames(args: seq<string>, parseSwitches: bool, slash: bool) {
    args == [] ||
    var ps := parseSwitches && args[0] != TERMINATOR;
    PlainName(args[0], ps, slash) && PlainNames(args[1..], ps, slash)
  }

  lemma SplitFilledSwitch(name: string, value: string, t: string, rest: seq<Symbol>, rule: PairRule)
    requires Fits(t) && Solid(name) && '%' !in name && value != "" && TabSafe(value, true) && EndsHere(rest)
    ensures Split(Lex(Fill(name + ("=" + Quote(value, true)), t)) + rest, None, false, rule)
         == Split(rest, Some(Fill(name + ("=" + value), t)), false, rule)
  {
    var quoted := Fill(Quote(value, true), t);
    var start := name + "=";
    FillConcat(name, "=" + Quote(value, true), t);
    FillConcat(name, "=" + value, t);
    FillFirst('=', Quote(value, true), t);
    FillFirst('=', value, t);
    FillNone(name, t);
    PlainText(name);
    LexConcat(name, 0, "=" + quoted);
    LexLiteral('=', quoted);
    CharsConcat(name, "=");
    assert Chars("=") == [Char('=')];
    SymbolsAssociative(Chars(name), [Char('=')], Lex(quoted));
    SymbolsAssociative(Chars(start), Lex(quoted), rest);
    SplitChars(start, Lex(quoted) + rest, None, false, rule);
    assert "" + start == start;
    SplitFilledQuote(value, t, rest, Some(start), rule);
    Associative(name, "=", Fill(value, t));
  }

  lemma SplitFilledArg(a: string, ps: bool, slash: bool, t: string, rest: seq<Symbol>, rule: PairRule)
    requires Fits(t) && Good(a, ps, slash, true) && PlainName(a, ps, slash) && EndsHere(rest)
    ensures Split(Lex(Fill(PrintArg(a, ps, slash, true), t)) + rest, None, false, rule)
         == Split(rest, Some(Fill(a, t)), false, rule)
  {
    if ps && IsSwitch(a, slash) {
      SwitchParts(a);
      if HasEquals(a) {
        SplitFilledSwitch(SwitchName(a), SwitchValue(a), t, rest, rule);
      } else {
        assert SwitchName(a) + "" == a;
        FillNone(a, t);
        SplitArg(a, ps, slash, true, rest, rule);
      }
    } else {
      SplitFilledQuote(a, t, rest, None, rule);
      assert "" + Fill(a, t) == Fill(a, t);
    }
  }

  lemma LexFilledPrint(args: seq<string>, parseSwitches: bool, slash: bool, t: string)
    requires args != []
    ensures var ps := parseSwitches && args[0] != TERMINATOR;
            Lex(Fill(Print(args, parseSwitches, slash, true), t)) ==
              Lex(Fill(PrintArg(args[0], ps, slash, true), t))
              + if |args| == 1 then [] else [Char(' ')] + Lex(Fill(Print(args[1..], ps, slash, true), t))
  {
    var ps := parseSwitches && args[0] != TERMINATOR;
    var p := PrintArg(args[0], ps, slash, true);
    if |args| == 1 {
      assert p + "" == p && args[1..] == [];
    } else {
      var tail := Print(args[1..], ps, slash, true);
      FillConcat(p, " " + tail, t);
      FillFirst(' ', tail, t);
      LexConcat(Fill(p, t), 0, " " + Fill(tail, t));
      LexLiteral(' ', Fill(tail, t));
    }
  }

  lemma {:induction false} FilledSurvive(args: seq<string>, parseSwitches: bool, slash: bool, t: string, rule: PairRule)
    requires Fits(t) && AllGood(args, parseSwitches, slash, true) && PlainNames(args, parseSwitches, slash)
    ensures Tokenise(Fill(Print(args, parseSwitches, slash, true), t), rule) == FillAll(args, t)
    decreases |args|
  {
    if args != [] {
      var ps := parseSwitches && args[0] != TERMINATOR;
      LexFilledPrint(args, parseSwitches, slash, t);
      var rest := if |args| == 1 then [] else [Char(' ')] + Lex(Fill(Print(args[1..], ps, slash, true), t));
      SplitFilledArg(args[0], ps, slash, t, rest, rule);
      FilledSurvive(args[1..], ps, slash, t, rule);
      if |args| > 1 {
        assert rest[1..] == Lex(Fill(Print(args[1..], ps, slash, true), t));
      }
    }
  }

  // ----- and no name with a percent sign does -----

  lemma {:induction false} FillHas(a: string, t: string, c: char)
    ensures c in Fill(a, t) <==> (c in a && c != '%') || ('%' in a && c in t)
  {
    if a != "" {
      FillHas(a[1..], t, c);
    }
  }

  /** A filled switch begins with its filled name. */
  lemma FilledSwitchText(a: string, slash: bool, t: string) returns (tail: string)
    requires IsSwitch(a, slash)
    ensures Fill(PrintArg(a, true, slash, true), t) == Fill(SwitchName(a), t) + tail && (tail == "" || tail[0] == '=')
    ensures |Fill(SwitchName(a), t)| <= |Fill(a, t)|
  {
    var name, value := SwitchName(a), SwitchValue(a);
    var printed := if value != "" then "=" + Quote(value, true) else "";
    SwitchParts(a);
    FillConcat(name, printed, t);
    FillConcat(name, "=" + value, t);
    FillFirst('=', Quote(value, true), t);
    tail := Fill(printed, t);
  }

  /** With a blank in what is put in, a name with a percent sign is no stretch of text any more. */
  lemma FilledName(a: string, slash: bool, t: string)
    requires t == "a b" && IsSwitch(a, slash) && Solid(SwitchName(a)) && '%' in SwitchName(a)
    ensures var u := Fill(SwitchName(a), t); ' ' in u && '"' !in u && !Blank(u[0])
  {
    var name := SwitchName(a);
    assert t[1] == ' ';
    FillHas(name, t, '"');
    FillHas(name, t, ' ');
    assert name == [name[0]] + name[1..] && name[0] == a[0];
    FillFirst(name[0], name[1..], t);
  }

  lemma FilledNameBreaks(a: string, slash: bool, t: string, rest: seq<Symbol>, rule: PairRule)
    requires t == "a b" && IsSwitch(a, slash) && Solid(SwitchName(a)) && '%' in SwitchName(a)
    ensures var read := Split(Lex(Fill(PrintArg(a, true, slash, true), t)) + rest, None, false, rule);
            read != [] && |read[0]| < |Fill(a, t)|
  {
    var u := Fill(SwitchName(a), t);
    var tail := FilledSwitchText(a, slash, t);
    FilledName(a, slash, t);
    PlainText(u);
    LexConcat(u, 0, tail);
    SymbolsAssociative(Chars(u), Lex(tail), rest);
    FirstPiece(u, Lex(tail) + rest, rule);
  }

  lemma FirstPiece(u: string, tail: seq<Symbol>, rule: PairRule)
    requires (' ' in u || '\t' in u) && !Blank(u[0])
    ensures var read := Split(Chars(u) + tail, None, false, rule); read != [] && |read[0]| < |u|
  {
    var j := FirstBlank(u);
    var rest := Chars(u[j..]) + tail;
    assert u == u[..j] + u[j..];
    CharsConcat(u[..j], u[j..]);
    SymbolsAssociative(Chars(u[..j]), Chars(u[j..]), tail);
    SplitChars(u[..j], rest, None, false, rule);
    assert "" + u[..j] == u[..j];
    assert rest[0] == Char(u[j..][0]) && u[j..][0] == u[j];
  }

  lemma {:induction false} FilledBreaks(args: seq<string>, parseSwitches: bool, slash: bool, t: string, rule: PairRule)
    requires t == "a b" && AllGood(args, parseSwitches, slash, true) && !PlainNames(args, parseSwitches, slash)
    ensures Tokenise(Fill(Print(args, parseSwitches, slash, true), t), rule) != FillAll(args, t)
    decreases |args|
  {
    var ps := parseSwitches && args[0] != TERMINATOR;
    LexFilledPrint(args, parseSwitches, slash, t);
    var tail := if |args| == 1 then [] else Lex(Fill(Print(args[1..], ps, slash, true), t));
    var rest := if |args| == 1 then [] else [Char(' ')] + tail;
    if PlainName(args[0], ps, slash) {
      SplitFilledArg(args[0], ps, slash, t, rest, rule);
      FilledBreaks(args[1..], ps, slash, t, rule);
      assert rest[1..] == tail;
      assert FillAll(args, t)[1..] == FillAll(args[1..], t);
    } else {
      FilledNameBreaks(args[0], slash, t, rest, rule);
    }
  }

  /** Of a vector that survives printing, every argument stays one argument, with the text put in,
      whatever fitting text is put in for the percent signs of the printed command line, exactly
      when no switch has a percent sign in its name. */
  lemma PlaceholdersAreSafe(args: seq<string>, slash: bool, rule: PairRule)
    requires AllGood(args, true, slash, true)
    ensures (forall t :: Fits(t) ==> Tokenise(Fill(Print(args, true, slash, true), t), rule) == FillAll(args, t))
       <==> PlainNames(args, true, slash)
  {
    if PlainNames(args, true, slash) {
      forall t | Fits(t) ensures Tokenise(Fill(Print(args, true, slash, true), t), rule) == FillAll(args, t) {
        FilledSurvive(args, true, slash, t, rule);
      }
    } else {
      var t := "a b";
      assert Fits(t);
      FilledBreaks(args, true, slash, t, rule);
    }
  }

  /** The name of the switch `--%1` is printed bare, and comes apart when a blank is put in. */
  lemma PercentNameBreaks(arg: string, rule: PairRule)
    requires arg == "--%1"
    ensures Tokenise(Fill(Print([arg], true, true, true), "a b"), rule) != FillAll([arg], "a b")
  {
    assert '=' !in arg && ' ' !in arg && '\t' !in arg && '"' !in arg && arg[2] == '%';
    IndexOfIs(arg, '=', |arg|);
    assert arg[..|arg|] == arg;
    assert [arg][1..] == [];
    FilledBreaks([arg], true, true, "a b", rule);
  }
}
