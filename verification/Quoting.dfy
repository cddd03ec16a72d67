/** Printing an argument vector as a command line, and reading it back.

    The printer is the one of `CommandLine`; the reader follows the documented rules for parsing
    command-line arguments, which the printer is written against.  The main result says exactly
    which argument vectors survive the trip. */
module Quoting {
  import opened Switches
  import opened Wrappers

  // ----- the printer -----

  function Slashes(n: nat): (s: string)
    ensures |s| == n
  {
    if n == 0 then "" else "\\" + Slashes(n - 1)
  }

  /** The length of the run of backslashes at the start of `s`. */
  function SlashRun(s: string): (n: nat)
    ensures n <= |s|
  {
    if s == "" || s[0] != '\\' then 0 else 1 + SlashRun(s[1..])
  }

  lemma {:induction false} RunLength(s: string, n: nat)
    requires n <= |s| && (forall k :: 0 <= k < n ==> s[k] == '\\') && (n < |s| ==> s[n] != '\\')
    ensures SlashRun(s) == n
  {
    if n > 0 {
      RunLength(s[1..], n - 1);
    }
  }

  lemma {:induction false} RunIsSlashes(s: string)
    ensures var n := SlashRun(s);
            s == Slashes(n) + s[n..] && (n < |s| ==> s[n] != '\\')
  {
    if s != "" && s[0] == '\\' {
      RunIsSlashes(s[1..]);
      assert s == "\\" + s[1..];
    }
  }

  lemma {:induction false} SlashesThen(n: nat, rest: string)
    requires rest == "" || rest[0] != '\\'
    ensures SlashRun(Slashes(n) + rest) == n && (Slashes(n) + rest)[n..] == rest
    ensures n > 0 ==> (Slashes(n) + rest)[0] == '\\'
  {
    var s := Slashes(n) + rest;
    if n == 0 {
      assert s == rest;
    } else {
      SlashesThen(n - 1, rest);
      assert s[1..] == Slashes(n - 1) + rest;
    }
  }

  lemma {:induction false} SlashesSnoc(n: nat)
    ensures Slashes(n + 1) == Slashes(n) + "\\"
  {
    if n > 0 {
      SlashesSnoc(n - 1);
      assert "\\" + (Slashes(n - 1) + "\\") == ("\\" + Slashes(n - 1)) + "\\";
    }
  }

  predicate NeedsQuotes(arg: string, placeholders: bool) {
    ' ' in arg || '\\' in arg || '"' in arg || (placeholders && '%' in arg)
  }

  /** The text between the quotes. */
  function Body(arg: string): string
    decreases |arg|
  {
    if arg == "" then ""
    else if arg[0] == '\\' then
      var n := SlashRun(arg);
      Slashes(if n == |arg| || arg[n] == '"' then 2 * n else n) + Body(arg[n..])
    else if arg[0] == '"' then "\\\"" + Body(arg[1..])
    else [arg[0]] + Body(arg[1..])
  }

  function Quote(arg: string, placeholders: bool): string {
    if NeedsQuotes(arg, placeholders) then "\"" + Body(arg) + "\"" else arg
  }

  lemma {:induction false} BodyIsNoShorter(arg: string)
    ensures |Body(arg)| >= |arg|
    decreases |arg|
  {
    if arg != "" {
      BodyIsNoShorter(if arg[0] == '\\' then arg[SlashRun(arg)..] else arg[1..]);
    }
  }

  /** Text with a blank, a backslash or a mark in it, or a percent sign where that is a placeholder,
      is put between marks; any other is left as it is. */
  lemma QuoteShows(arg: string, placeholders: bool)
    ensures var out := Quote(arg, placeholders);
            && (out == arg <==> ' ' !in arg && '\\' !in arg && '"' !in arg && !(placeholders && '%' in arg))
            && (out != arg ==> |out| >= |arg| + 2 && out[0] == '"' && out[|out| - 1] == '"')
  {
    BodyIsNoShorter(arg);
  }

  function PrintArg(arg: string, parseSwitches: bool, slash: bool, placeholders: bool): string {
    if parseSwitches && IsSwitch(arg, slash) then
      SwitchName(arg) + if SwitchValue(arg) != "" then "=" + Quote(SwitchValue(arg), placeholders) else ""
    else Quote(arg, placeholders)
  }

  /** The printed arguments, separated by single spaces.  The first terminator switches the
      recognition of switches off, for itself and everything after it. */
  function Print(args: seq<string>, parseSwitches: bool, slash: bool, placeholders: bool): string {
    if args == [] then ""
    else
      var ps := parseSwitches && args[0] != TERMINATOR;
      PrintArg(args[0], ps, slash, placeholders)
      + if args[1..] == [] then "" else " " + Print(args[1..], ps, slash, placeholders)
  }

  /** The end of the run of backslashes that begins at `start`. */
  method EndOfRun(arg: string, start: nat) returns (end: nat)
    requires start < |arg| && arg[start] == '\\'
    ensures start < end <= |arg| && (forall k :: start <= k < end ==> arg[k] == '\\')
    ensures end < |arg| ==> arg[end] != '\\'
  {
    end := start + 1;
    while end < |arg| && arg[end] == '\\'
      invariant start < end <= |arg|
      invariant forall k :: start <= k < end ==> arg[k] == '\\'
    {
      end := end + 1;
    }
  }

  method PushBackslashes(before: string, count: nat) returns (out: string)
    ensures out == before + Slashes(count)
  {
    out := before;
    assert before + Slashes(0) == before;
    var j := 0;
    while j < count
      invariant j <= count && out == before + Slashes(j)
    {
      SlashesSnoc(j);
      Associative(before, Slashes(j), "\\");
      out := out + "\\";
      j := j + 1;
    }
  }

  method QuoteForCommandLineToArgvW(arg: string, quotePlaceholders: bool) returns (out: string)
    ensures out == Quote(arg, quotePlaceholders)
    ensures out == arg
       <==> ' ' !in arg && '\\' !in arg && '"' !in arg && !(quotePlaceholders && '%' in arg)
    ensures out != arg ==> |out| >= |arg| + 2 && out[0] == '"' && out[|out| - 1] == '"'
  {
    QuoteShows(arg, quotePlaceholders);
    if !NeedsQuotes(arg, quotePlaceholders) {
      return arg;
    }
    out := OpenQuote(arg);
    out := out + "\"";
  }

  /** The opening mark and everything between the marks. */
  method OpenQuote(arg: string) returns (out: string)
    ensures out == "\"" + Body(arg)
  {
    out := "\"";
    var i := 0;
    assert arg[0..] == arg;
    while i < |arg|
      invariant i <= |arg|
      invariant out + Body(arg[i..]) == "\"" + Body(arg)
    {
      if arg[i] == '\\' {
        var end := EndOfRun(arg, i);
        var count := end - i;
        if end == |arg| || arg[end] == '"' {
          count := count * 2;
        }
        BodyRun(out, arg, i, end);
        out := PushBackslashes(out, count);
        i := end;
      } else if arg[i] == '"' {
        BodyMark(out, arg, i);
        out := out + "\\\"";
        i := i + 1;
      } else {
        BodyPlain(out, arg, i);
        out := out + [arg[i]];
        i := i + 1;
      }
    }
  }

  lemma Associative(a: string, b: string, c: string)
    ensures a + (b + c) == (a + b) + c
  {
  }

  lemma BodyRun(before: string, arg: string, start: nat, end: nat)
    requires start < end <= |arg| && (forall k :: start <= k < end ==> arg[k] == '\\')
    requires end < |arg| ==> arg[end] != '\\'
    ensures var n := if end == |arg| || arg[end] == '"' then 2 * (end - start) else end - start;
            before + Body(arg[start..]) == (before + Slashes(n)) + Body(arg[end..])
  {
    var n := end - start;
    RunLength(arg[start..], n);
    assert arg[start..][n..] == arg[end..];
    Associative(before, Slashes(if end == |arg| || arg[end] == '"' then 2 * n else n), Body(arg[end..]));
  }

  lemma BodyMark(before: string, arg: string, i: nat)
    requires i < |arg| && arg[i] == '"'
    ensures before + Body(arg[i..]) == (before + "\\\"") + Body(arg[i + 1..])
  {
    assert arg[i..][1..] == arg[i + 1..];
    Associative(before, "\\\"", Body(arg[i + 1..]));
  }

  lemma BodyPlain(before: string, arg: string, i: nat)
    requires i < |arg| && arg[i] != '"' && arg[i] != '\\'
    ensures before + Body(arg[i..]) == (before + [arg[i]]) + Body(arg[i + 1..])
  {
    assert arg[i..][1..] == arg[i + 1..];
    Associative(before, [arg[i]], Body(arg[i + 1..]));
  }

  /** The body of the printing loop: one switch or argument. */
  method PrintOne(arg: string, parseSwitches: bool, slash: bool, quotePlaceholders: bool) returns (piece: string)
    ensures piece == PrintArg(arg, parseSwitches, slash, quotePlaceholders)
  {
    if parseSwitches && IsSwitch(arg, slash) {
      piece := SwitchName(arg);
      if SwitchValue(arg) != "" {
        var value := QuoteForCommandLineToArgvW(SwitchValue(arg), quotePlaceholders);
        piece := piece + ("=" + value);
      }
    } else {
      piece := QuoteForCommandLineToArgvW(arg, quotePlaceholders);
    }
  }

  method GetArgumentsString(argv: seq<string>, slash: bool, quotePlaceholders: bool) returns (params: string)
    requires argv != []
    ensures params == Print(argv[1..], true, slash, quotePlaceholders)
  {
    params := "";
    var parseSwitches := true;
    var i := 1;
    ghost var all := Print(argv[1..], true, slash, quotePlaceholders);
    assert all == params + Remaining(argv[1..], false, true, slash, quotePlaceholders);
    while i < |argv|
      invariant 1 <= i <= |argv|
      invariant all == params + Remaining(argv[i..], i > 1, parseSwitches, slash, quotePlaceholders)
    {
      PrintStep(argv, i, params, parseSwitches, slash, quotePlaceholders);
      parseSwitches := parseSwitches && argv[i] != TERMINATOR;
      params := AppendOne(params, i > 1, argv[i], parseSwitches, slash, quotePlaceholders);
      i := i + 1;
    }
  }

  method AppendOne(before: string, separated: bool, arg: string, parseSwitches: bool, slash: bool, quotePlaceholders: bool)
    returns (params: string)
    ensures params == (if separated then before + " " else before) + PrintArg(arg, parseSwitches, slash, quotePlaceholders)
  {
    params := before;
    if separated {
      params := params + " ";
    }
    var piece := PrintOne(arg, parseSwitches, slash, quotePlaceholders);
    params := params + piece;
  }

  lemma PrintStep(argv: seq<string>, i: nat, before: string, parseSwitches: bool, slash: bool, placeholders: bool)
    requires i < |argv|
    ensures var ps := parseSwitches && argv[i] != TERMINATOR;
            before + Remaining(argv[i..], i > 1, parseSwitches, slash, placeholders)
            == (if i > 1 then before + " " else before) + PrintArg(argv[i], ps, slash, placeholders)
               + Remaining(argv[i + 1..], true, ps, slash, placeholders)
  {
    var ps := parseSwitches && argv[i] != TERMINATOR;
    var piece := PrintArg(argv[i], ps, slash, placeholders);
    var tail := Remaining(argv[i + 1..], true, ps, slash, placeholders);
    assert Print(argv[i..], parseSwitches, slash, placeholders) == piece + tail by {
      assert argv[i..][1..] == argv[i + 1..];
    }
    Associative(before, " ", piece + tail);
    Associative(if i > 1 then before + " " else before, piece, tail);
  }

  function Remaining(args: seq<string>, separated: bool, parseSwitches: bool, slash: bool, placeholders: bool): string {
    if args == [] then "" else (if separated then " " else "") + Print(args, parseSwitches, slash, placeholders)
  }

  // ----- the reader -----

  /** What is left of the text once backslashes are resolved: characters to be taken as they are
      (spaces and tabs still separate outside quotes) and unescaped quotation marks. */
  datatype Symbol = Char(c: char) | Mark

  function Chars(s: string): (cs: seq<Symbol>)
    ensures |cs| == |s|
  {
    if s == "" then [] else [Char(s[0])] + Chars(s[1..])
  }

  /** What a run of `n` backslashes, and the mark after it if there is one, resolve to: literal
      backslashes, unless a mark follows; then each pair stands for one backslash, and a backslash
      left over makes the mark literal. */
  function RunSymbols(n: nat, marked: bool): seq<Symbol> {
    if marked then Chars(Slashes(n / 2)) + [if n % 2 == 1 then Char('"') else Mark] else Chars(Slashes(n))
  }

  /** Resolves `s` when the `n` characters before it are backslashes still to be resolved. */
  function LexFrom(s: string, n: nat): seq<Symbol>
    decreases |s|
  {
    if s == "" then RunSymbols(n, false)
    else if s[0] == '\\' then LexFrom(s[1..], n + 1)
    else if s[0] == '"' then RunSymbols(n, true) + LexFrom(s[1..], 0)
    else RunSymbols(n, false) + ([Char(s[0])] + LexFrom(s[1..], 0))
  }

  function Lex(s: string): seq<Symbol> {
    LexFrom(s, 0)
  }

  /** What two unescaped marks in a row mean inside quotes: nothing special, a literal mark inside
      a quotation that goes on, or a literal mark that also ends the quotation.  Runtime versions
      differ; every result below holds for all three. */
  datatype PairRule = Separate | LiteralAndStay | LiteralAndLeave

  predicate Blank(c: char) {
    c == ' ' || c == '\t'
  }

  function Flush(cur: Option<string>): seq<string> {
    if cur.Some? then [cur.value] else []
  }

  function Push(cur: Option<string>, c: char): Option<string> {
    Some((if cur.Some? then cur.value else "") + [c])
  }

  /** Splits at blanks outside quotation marks; `cur` is the argument being read. */
  function Split(syms: seq<Symbol>, cur: Option<string>, quoted: bool, rule: PairRule): seq<string>
    decreases |syms|
  {
    if syms == [] then Flush(cur)
    else match syms[0]
      case Char(c) =>
        if !quoted && Blank(c) then Flush(cur) + Split(syms[1..], None, false, rule)
        else Split(syms[1..], Push(cur, c), quoted, rule)
      case Mark =>
        if quoted && rule != Separate && |syms| > 1 && syms[1] == Mark then
          Split(syms[2..], Push(cur, '"'), rule == LiteralAndStay, rule)
        else Split(syms[1..], Some(if cur.Some? then cur.value else ""), !quoted, rule)
  }

  function Tokenise(s: string, rule: PairRule): seq<string> {
    Split(Lex(s), None, false, rule)
  }

  // ----- resolving the backslashes of a printed argument -----

  lemma SymbolsAssociative(a: seq<Symbol>, b: seq<Symbol>, c: seq<Symbol>)
    ensures a + (b + c) == (a + b) + c
  {
  }

  lemma NoRun()
    ensures RunSymbols(0, false) == [] && RunSymbols(0, true) == [Mark]
  {
  }

  lemma RunEven(n: nat)
    ensures RunSymbols(2 * n, true) == Chars(Slashes(n)) + [Mark]
  {
    assert (2 * n) / 2 == n && (2 * n) % 2 == 0;
  }

  lemma RunOdd(n: nat)
    ensures RunSymbols(2 * n + 1, true) == Chars(Slashes(n)) + [Char('"')]
  {
    assert (2 * n + 1) / 2 == n && (2 * n + 1) % 2 == 1;
  }

  lemma {:induction false} LexRun(k: nat, rest: string, n: nat)
    ensures LexFrom(Slashes(k) + rest, n) == LexFrom(rest, n + k)
    decreases k
  {
    if k == 0 {
      assert Slashes(0) + rest == rest;
    } else {
      var s := Slashes(k) + rest;
      assert s[0] == '\\' && s[1..] == Slashes(k - 1) + rest;
      LexRun(k - 1, rest, n + 1);
    }
  }

  /** `Lex` may be cut at any point where no run of backslashes runs into a mark. */
  lemma {:induction false} LexConcat(a: string, n: nat, b: string)
    requires b == "" || (b[0] != '"' && b[0] != '\\')
    ensures LexFrom(a + b, n) == LexFrom(a, n) + Lex(b)
    decreases |a|
  {
    NoRun();
    if a == "" {
      assert a + b == b;
      if b != "" {
        assert LexFrom(b, 0) == [Char(b[0])] + LexFrom(b[1..], 0);
      }
    } else {
      assert (a + b)[1..] == a[1..] + b;
      if a[0] == '\\' {
        LexConcat(a[1..], n + 1, b);
      } else {
        LexConcat(a[1..], 0, b);
        var tail := LexFrom(a[1..], 0);
        SymbolsAssociative(RunSymbols(n, true), tail, Lex(b));
        SymbolsAssociative([Char(a[0])], tail, Lex(b));
        SymbolsAssociative(RunSymbols(n, false), [Char(a[0])] + tail, Lex(b));
      }
    }
  }

  lemma LexLiteral(c: char, tail: string)
    requires c != '"' && c != '\\'
    ensures Lex([c] + tail) == [Char(c)] + Lex(tail)
  {
    NoRun();
    assert ([c] + tail)[1..] == tail;
  }

  lemma {:induction false} CharsConcat(a: string, b: string)
    ensures Chars(a + b) == Chars(a) + Chars(b)
  {
    if a == "" {
      assert a + b == b;
    } else {
      assert (a + b)[1..] == a[1..] + b;
      CharsConcat(a[1..], b);
    }
  }

  lemma {:induction false} LexPlain(a: string, n: nat)
    requires '"' !in a
    ensures LexFrom(a, n) == Chars(Slashes(n)) + Chars(a)
    decreases |a|
  {
    if a == "" {
      assert Chars(a) == [];
    } else {
      assert a == [a[0]] + a[1..];
      CharsConcat([a[0]], a[1..]);
      assert Chars([a[0]]) == [Char(a[0])];
      if a[0] == '\\' {
        LexPlain(a[1..], n + 1);
        SlashesSnoc(n);
        CharsConcat(Slashes(n), [a[0]]);
        SymbolsAssociative(Chars(Slashes(n)), [Char(a[0])], Chars(a[1..]));
      } else {
        LexPlain(a[1..], 0);
        NoRun();
        assert Chars(Slashes(0)) + Chars(a[1..]) == Chars(a[1..]);
      }
    }
  }

  lemma PlainText(a: string)
    requires '"' !in a
    ensures Lex(a) == Chars(a)
  {
    LexPlain(a, 0);
    assert Chars(Slashes(0)) + Chars(a) == Chars(a);
  }

  lemma BodyOfRun(n: nat, rest: string)
    requires n > 0 && (rest == "" || rest[0] != '\\')
    ensures Body(Slashes(n) + rest) == Slashes(if rest == "" || rest[0] == '"' then 2 * n else n) + Body(rest)
  {
    SlashesThen(n, rest);
    var s := Slashes(n) + rest;
    assert rest != "" ==> s[n] == s[n..][0];
  }

  /** Quoting is undone by resolving the backslashes: between the two marks stands the argument. */
  lemma {:induction false} LexBody(a: string)
    ensures Lex(Body(a) + "\"") == Chars(a) + [Mark]
    decreases |a|
  {
    if a == "" {
      LexBodyAllSlashes(0);
    } else if a[0] == '\\' {
      var n := SlashRun(a);
      var rest := a[n..];
      RunIsSlashes(a);
      if rest == "" {
        assert Slashes(n) + rest == Slashes(n);
        LexBodyAllSlashes(n);
      } else if rest[0] == '"' {
        LexBody(rest[1..]);
        assert rest == "\"" + rest[1..];
        LexBodyEscaped(n, rest[1..]);
      } else {
        LexBody(rest[1..]);
        assert rest == [rest[0]] + rest[1..];
        LexBodyLiteral(n, rest[0], rest[1..]);
      }
    } else if a[0] == '"' {
      LexBody(a[1..]);
      assert a == Slashes(0) + ("\"" + a[1..]);
      LexBodyEscaped(0, a[1..]);
    } else {
      LexBody(a[1..]);
      assert a == Slashes(0) + ([a[0]] + a[1..]);
      LexBodyLiteral(0, a[0], a[1..]);
    }
  }

  lemma BodyOfSlashes(n: nat)
    ensures Body(Slashes(n)) == Slashes(2 * n)
  {
    if n > 0 {
      BodyOfRun(n, "");
      assert Slashes(n) + "" == Slashes(n);
      assert Slashes(2 * n) + Body("") == Slashes(2 * n);
    }
  }

  /** A mark closes the run before it. */
  lemma LexMark(n: nat, tail: string)
    ensures LexFrom("\"" + tail, n) == RunSymbols(n, true) + Lex(tail)
  {
    assert ("\"" + tail)[1..] == tail;
  }

  lemma LexEvenRun(n: nat)
    ensures Lex(Slashes(2 * n) + "\"") == Chars(Slashes(n)) + [Mark]
  {
    LexRun(2 * n, "\"", 0);
    assert "\"" + "" == "\"";
    LexMark(2 * n, "");
    NoRun();
    RunEven(n);
  }

  lemma LexOddRun(n: nat, tail: string)
    ensures Lex(Slashes(2 * n + 1) + ("\"" + tail)) == Chars(Slashes(n)) + [Char('"')] + Lex(tail)
  {
    LexRun(2 * n + 1, "\"" + tail, 0);
    LexMark(2 * n + 1, tail);
    RunOdd(n);
  }

  lemma LexBodyAllSlashes(n: nat)
    ensures Lex(Body(Slashes(n)) + "\"") == Chars(Slashes(n)) + [Mark]
  {
    BodyOfSlashes(n);
    LexEvenRun(n);
  }

  lemma LexBodyLiteral(n: nat, c: char, after: string)
    requires c != '\\' && c != '"'
    requires Lex(Body(after) + "\"") == Chars(after) + [Mark]
    ensures Lex(Body(Slashes(n) + ([c] + after)) + "\"") == Chars(Slashes(n) + ([c] + after)) + [Mark]
  {
    var rest := [c] + after;
    var tail := Body(after) + "\"";
    assert rest[1..] == after && Body(rest) == [c] + Body(after);
    assert Body(Slashes(n) + rest) == Slashes(n) + Body(rest) by {
      if n > 0 {
        BodyOfRun(n, rest);
      } else {
        assert Slashes(0) + rest == rest && Slashes(0) + Body(rest) == Body(rest);
      }
    }
    Associative(Slashes(n), Body(rest), "\"");
    Associative([c], Body(after), "\"");
    LexRun(n, [c] + tail, 0);
    assert ([c] + tail)[1..] == tail;
    CharsLiteral(n, c, after);
  }

  lemma CharsLiteral(n: nat, c: char, after: string)
    ensures Chars(Slashes(n) + ([c] + after)) + [Mark] == Chars(Slashes(n)) + ([Char(c)] + (Chars(after) + [Mark]))
  {
    CharsConcat(Slashes(n), [c] + after);
    CharsConcat([c], after);
    assert Chars([c]) == [Char(c)];
  }

  lemma BodyEscaped(n: nat, after: string)
    ensures Body(Slashes(n) + ("\"" + after)) + "\"" == Slashes(2 * n + 1) + ("\"" + (Body(after) + "\""))
  {
    var rest := "\"" + after;
    assert rest[1..] == after;
    assert Body(Slashes(n) + rest) == Slashes(2 * n) + ("\\\"" + Body(after)) by {
      if n > 0 {
        BodyOfRun(n, rest);
      } else {
        assert Slashes(0) + rest == rest;
      }
    }
    SlashesSnoc(2 * n);
    assert "\\\"" + Body(after) + "\"" == "\\" + ("\"" + (Body(after) + "\""));
    Associative(Slashes(2 * n), "\\\"" + Body(after), "\"");
    Associative(Slashes(2 * n), "\\", "\"" + (Body(after) + "\""));
  }

  lemma LexBodyEscaped(n: nat, after: string)
    requires Lex(Body(after) + "\"") == Chars(after) + [Mark]
    ensures Lex(Body(Slashes(n) + ("\"" + after)) + "\"") == Chars(Slashes(n) + ("\"" + after)) + [Mark]
  {
    var tail := Body(after) + "\"";
    BodyEscaped(n, after);
    LexOddRun(n, tail);
    CharsEscaped(n, after);
  }

  lemma CharsEscaped(n: nat, after: string)
    ensures Chars(Slashes(n) + ("\"" + after)) + [Mark] == Chars(Slashes(n)) + [Char('"')] + (Chars(after) + [Mark])
  {
    CharsConcat(Slashes(n), "\"" + after);
    CharsConcat("\"", after);
    assert Chars("\"") == [Char('"')];
    SymbolsAssociative(Chars(Slashes(n)), [Char('"')], Chars(after));
    SymbolsAssociative(Chars(Slashes(n)) + [Char('"')], Chars(after), [Mark]);
  }

  lemma LexQuote(a: string, placeholders: bool)
    ensures Lex(Quote(a, placeholders)) ==
              if NeedsQuotes(a, placeholders) then [Mark] + Chars(a) + [Mark] else Chars(a)
  {
    if NeedsQuotes(a, placeholders) {
      var s := "\"" + (Body(a) + "\"");
      assert Quote(a, placeholders) == s;
      LexBody(a);
      NoRun();
      assert s[1..] == Body(a) + "\"";
    } else {
      PlainText(a);
    }
  }
}
