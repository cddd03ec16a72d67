/** The three fields of a command line, and how the operations keep them in step.

    `argv` is the program, then the switches, then the arguments; `beginArgs` is where the
    arguments start; `switches` files the switches by key.  Text conversions between narrow and
    wide strings are the identity here, as they are for the ASCII names the class accepts. */
module CommandLines {
  import opened Switches
  import opened Text

  datatype State = State(argv: seq<string>, switches: map<string, string>, beginArgs: nat)

  // ----- text -----

  function LowerChar(c: char): char {
    if 'A' <= c <= 'Z' then (c as int + 32) as char else c
  }

  function Lower(s: string): (r: string)
    ensures |r| == |s| && forall k :: 0 <= k < |s| ==> r[k] == LowerChar(s[k])
  {
    if s == "" then "" else [LowerChar(s[0])] + Lower(s[1..])
  }

  /** The characters of `kWhitespaceUTF16`. */
  predicate IsSpace(c: char) {
    var n := c as int;
    || 0x09 <= n <= 0x0D || n == 0x20 || n == 0x85 || n == 0xA0 || n == 0x1680
    || 0x2000 <= n <= 0x200A || n == 0x2028 || n == 0x2029 || n == 0x202F || n == 0x205F || n == 0x3000
  }

  predicate Trimmed(s: string) {
    s == "" || (!IsSpace(s[0]) && !IsSpace(s[|s| - 1]))
  }

  function Trim(s: string): (r: string)
    ensures Trimmed(r) && |r| <= |s|
    ensures Trimmed(s) <==> r == s
    ensures |r| == |s| ==> r == s
    decreases |s|
  {
    if s == "" then ""
    else if IsSpace(s[0]) then Trim(s[1..])
    else if IsSpace(s[|s| - 1]) then Trim(s[..|s| - 1])
    else s
  }

  const UPPER := "ABCDEFGHIJKLMNOPQRSTUVWXYZ"
  const LOWER := "abcdefghijklmnopqrstuvwxyz"

  /** The same but for the case of letters. */
  ghost predicate SameLetters(a: string, b: string) {
    |a| == |b| && forall k :: 0 <= k < |a| ==> SameLetter(a[k], b[k])
  }

  ghost predicate SameLetter(c: char, d: char) {
    c == d || exists n: nat :: InBothCases(c, d, n) || InBothCases(d, c, n)
  }

  predicate InBothCases(c: char, d: char, n: nat) {
    n < 26 && c == UPPER[n] && d == LOWER[n]
  }

  lemma LettersPair(n: nat)
    requires n < 26
    ensures UPPER[n] as int == 'A' as int + n && LOWER[n] as int == 'a' as int + n
  {
  }

  lemma PairLowers(c: char, d: char, n: nat)
    requires InBothCases(c, d, n)
    ensures LowerChar(c) == d == LowerChar(d)
  {
    LettersPair(n);
  }

  lemma UpperPairs(c: char)
    requires LowerChar(c) != c
    ensures InBothCases(c, LowerChar(c), c as int - 'A' as int)
  {
    LettersPair(c as int - 'A' as int);
  }

  lemma SameLetterLower(c: char, d: char)
    ensures SameLetter(c, d) <==> LowerChar(c) == LowerChar(d)
  {
    if n: nat :| InBothCases(c, d, n) {
      PairLowers(c, d, n);
    } else if n: nat :| InBothCases(d, c, n) {
      PairLowers(d, c, n);
    } else if LowerChar(c) == LowerChar(d) {
      if LowerChar(c) != c {
        UpperPairs(c);
      }
      if LowerChar(d) != d {
        UpperPairs(d);
      }
    }
  }

  /** Lowering forgets exactly the case of letters. */
  lemma LowerForgetsCase(a: string, b: string)
    ensures Lower(a) == Lower(b) <==> SameLetters(a, b)
  {
    if |a| == |b| {
      forall k | 0 <= k < |a| ensures SameLetter(a[k], b[k]) <==> Lower(a)[k] == Lower(b)[k] {
        SameLetterLower(a[k], b[k]);
      }
    }
  }

  /** And gives small letters. */
  lemma LowerIsLower(s: string)
    ensures SameLetters(Lower(s), s) && forall c :: c in Lower(s) ==> c !in UPPER
  {
    LowerTwice(s);
    LowerForgetsCase(Lower(s), s);
    forall n: nat | n < 26 ensures UPPER[n] !in Lower(s) {
      LettersPair(n);
    }
  }

  predicate Blanks(s: string) {
    forall k :: 0 <= k < |s| ==> IsSpace(s[k])
  }

  lemma Widened(c: string, front: string, middle: string, back: string)
    ensures c + (front + middle + back) == (c + front) + middle + back
    ensures (front + middle + back) + c == front + middle + (back + c)
  {
  }

  /** Trimming takes away blanks at both ends, and nothing else. */
  lemma {:induction false} TrimTakesBlanks(s: string) returns (front: string, back: string)
    ensures s == front + Trim(s) + back && Blanks(front) && Blanks(back)
    decreases |s|
  {
    if s == "" || (!IsSpace(s[0]) && !IsSpace(s[|s| - 1])) {
      front, back := "", "";
    } else if IsSpace(s[0]) {
      front, back := TrimTakesBlanks(s[1..]);
      assert s == [s[0]] + s[1..];
      Widened([s[0]], front, Trim(s), back);
      front := [s[0]] + front;
    } else {
      front, back := TrimTakesBlanks(s[..|s| - 1]);
      assert s == s[..|s| - 1] + [s[|s| - 1]];
      Widened([s[|s| - 1]], front, Trim(s), back);
      back := back + [s[|s| - 1]];
    }
  }

  // ----- one operation at a time -----

  /** The element `AppendSwitchNative` puts into `argv`. */
  function SwitchText(name: string, value: string, slash: bool): string {
    (if PrefixLength(Lower(name), slash) == 0 then "--" else "")
    + Lower(name) + (if value == "" then "" else "=" + value)
  }

  /** The key it files the value under. */
  function NameKey(name: string, slash: bool): string {
    Lower(name)[PrefixLength(Lower(name), slash)..]
  }

  predicate InBounds(s: State) {
    1 <= s.beginArgs <= |s.argv|
  }

  function WithSwitch(s: State, name: string, value: string, slash: bool): State
    requires InBounds(s)
  {
    State(s.argv[..s.beginArgs] + [SwitchText(name, value, slash)] + s.argv[s.beginArgs..],
          s.switches[NameKey(name, slash) := value], s.beginArgs + 1)
  }

  function WithArg(s: State, value: string): State {
    s.(argv := s.argv + [value])
  }

  predicate HasKey(arg: string, key: string, slash: bool) {
    IsSwitch(arg, slash) && SwitchKey(arg, slash) == key
  }

  function DropKey(args: seq<string>, key: string, slash: bool): seq<string> {
    if args == [] then []
    else
      var front := DropKey(args[..|args| - 1], key, slash);
      if HasKey(args[|args| - 1], key, slash) then front else front + [args[|args| - 1]]
  }

  /** A view of a text: its first `length` characters.  `data` is all there is from where the view
      begins, and a terminator follows it. */
  datatype Piece = Piece(data: string, length: nat)

  type View = v: Piece | v.length <= |v.data| witness Piece("", 0)

  function Key(v: View): string {
    v.data[..v.length]
  }

  /** What is read through the bare pointer: everything up to the first terminator. */
  function Whole(v: View): string {
    v.data[..IndexOf(v.data, '\0')]
  }

  predicate EndsAtTerminator(v: View) {
    IndexOf(v.data, '\0') == v.length
  }

  /** The filing loses what the bare pointer reads, and `argv` loses the switches with the key viewed.
      If the filing has nothing to lose, nothing happens. */
  function WithoutSwitch(s: State, v: View, slash: bool): State
    requires InBounds(s)
  {
    if Whole(v) !in s.switches then s
    else
      var kept := DropKey(s.argv[1..s.beginArgs], Key(v), slash);
      if |kept| == s.beginArgs - 1 then s.(switches := s.switches - {Whole(v)})
      else State(s.argv[..1] + kept + s.argv[s.beginArgs..], s.switches - {Whole(v)}, 1 + |kept|)
  }

  /** Something was filed, and no switch goes: the branch that the source marks as not reached. */
  predicate ReachesNotReached(s: State, v: View, slash: bool)
    requires InBounds(s)
  {
    Whole(v) in s.switches && |DropKey(s.argv[1..s.beginArgs], Key(v), slash)| == s.beginArgs - 1
  }

  // ----- what the fields promise each other -----

  /** The filing that a list of switches amounts to: for each key, the last value. */
  function Filed(args: seq<string>, slash: bool): map<string, string> {
    if args == [] then map[]
    else
      var last := args[|args| - 1];
      Filed(args[..|args| - 1], slash)[SwitchKey(last, slash) := SwitchValue(last)]
  }

  predicate OnlySwitches(args: seq<string>, slash: bool) {
    forall k :: 0 <= k < |args| ==> IsSwitch(args[k], slash)
  }

  predicate Inv(s: State, slash: bool) {
    && InBounds(s)
    && OnlySwitches(s.argv[1..s.beginArgs], slash)
    && s.switches == Filed(s.argv[1..s.beginArgs], slash)
  }

  /** A name that stays a name when it is printed: no `=` in its key, and something after the prefix. */
  predicate NameOk(name: string, value: string, slash: bool) {
    '=' !in NameKey(name, slash) && (NameKey(name, slash) != "" || value != "")
  }

  lemma LowerKeepsPrefix(s: string, slash: bool)
    ensures PrefixLength(Lower(s), slash) == PrefixLength(s, slash)
  {
  }

  /** The part of the text before the value: the name, behind a prefix if it had none. */
  function SwitchHead(name: string, slash: bool): string {
    (if PrefixLength(Lower(name), slash) == 0 then "--" else "") + Lower(name)
  }

  lemma HeadIsPlain(name: string, value: string, slash: bool)
    requires NameOk(name, value, slash)
    ensures '=' !in SwitchHead(name, slash)
    ensures SwitchText(name, value, slash) == SwitchHead(name, slash) + (if value != "" then "=" + value else "")
  {
    var low := Lower(name);
    var n := PrefixLength(low, slash);
    assert low == low[..n] + NameKey(name, slash);
    assert '=' !in low[..n];
  }

  /** A well-formed name prints as a switch that reads back as the same name, key and value. */
  lemma SwitchTextReads(name: string, value: string, slash: bool)
    requires NameOk(name, value, slash)
    ensures var text := SwitchText(name, value, slash);
            && IsSwitch(text, slash)
            && SwitchKey(text, slash) == NameKey(name, slash)
            && SwitchValue(text) == value
            && SwitchName(text) == SwitchHead(name, slash)
  {
    var head := SwitchHead(name, slash);
    var text := SwitchText(name, value, slash);
    HeadIsPlain(name, value, slash);
    assert text[..|head|] == head;
    IndexOfIs(text, '=', |head|);
    if value != "" {
      assert text[|head| + 1..] == value;
    }
    var n := PrefixLength(Lower(name), slash);
    assert PrefixLength(text, slash) == if n == 0 then 2 else n;
  }

  /** How a switch is printed: its name in small letters, behind `--` if it has no prefix of its own,
      and its value behind `=` if it has one. */
  lemma SwitchTextIs(name: string, value: string, slash: bool)
    ensures var own := "-" <= name || (slash && "/" <= name);
            var low := if own then Lower(name) else "--" + Lower(name);
            SwitchText(name, value, slash) == if value == "" then low else low + "=" + value
  {
    LowerKeepsPrefix(name, slash);
    assert "" + Lower(name) == Lower(name);
    assert "--" + Lower(name) + "" == "--" + Lower(name) && Lower(name) + "" == Lower(name);
    assert "--" + Lower(name) + ("=" + value) == "--" + Lower(name) + "=" + value;
    assert Lower(name) + ("=" + value) == Lower(name) + "=" + value;
  }

  /** Names that differ in case only append the same switch. */
  lemma CaseDoesNotMatter(s: State, a: string, b: string, value: string, slash: bool)
    requires InBounds(s) && SameLetters(a, b)
    ensures WithSwitch(s, a, value, slash) == WithSwitch(s, b, value, slash)
  {
    LowerForgetsCase(a, b);
  }

  lemma {:induction false} FiledHasPlainKeys(args: seq<string>, slash: bool, key: string)
    ensures key in Filed(args, slash) ==> '=' !in key
    decreases |args|
  {
    if args != [] {
      var last := args[|args| - 1];
      FiledHasPlainKeys(args[..|args| - 1], slash, key);
      var n := PrefixLength(last, slash);
      assert SwitchKey(last, slash) == last[..IndexOf(last, '=')][n..];
    }
  }

  /** Appending a switch keeps the fields in step exactly when its name is well formed. */
  lemma AppendSwitchKeepsInv(s: State, name: string, value: string, slash: bool)
    requires Inv(s, slash)
    ensures Inv(WithSwitch(s, name, value, slash), slash) <==> NameOk(name, value, slash)
  {
    var t := WithSwitch(s, name, value, slash);
    var text := SwitchText(name, value, slash);
    var section := s.argv[1..s.beginArgs];
    assert t.argv[1..t.beginArgs] == section + [text];
    assert (section + [text])[..|section|] == section;
    if NameOk(name, value, slash) {
      SwitchTextReads(name, value, slash);
    } else if '=' in NameKey(name, slash) {
      FiledHasPlainKeys(t.argv[1..t.beginArgs], slash, NameKey(name, slash));
      assert NameKey(name, slash) in t.switches;
    } else {
      assert (section + [text])[|section|] == text;
      assert text == (if PrefixLength(Lower(name), slash) == 0 then "--" else Lower(name));
      assert !IsSwitch(text, slash);
    }
  }

  lemma AppendArgKeepsInv(s: State, value: string, slash: bool)
    requires Inv(s, slash)
    ensures Inv(WithArg(s, value), slash)
  {
    assert WithArg(s, value).argv[1..s.beginArgs] == s.argv[1..s.beginArgs];
  }

  lemma PutRemoved(m: map<string, string>, k: string, v: string, key: string)
    ensures m[k := v] - {key} == if k == key then m - {key} else (m - {key})[k := v]
  {
  }

  lemma {:induction false} DropKeyFiles(args: seq<string>, key: string, slash: bool)
    requires OnlySwitches(args, slash)
    ensures Filed(DropKey(args, key, slash), slash) == Filed(args, slash) - {key}
    decreases |args|
  {
    if args != [] {
      var n := |args| - 1;
      var last := args[n];
      DropKeyFiles(args[..n], key, slash);
      var kept, filed := DropKey(args[..n], key, slash), Filed(args[..n], slash);
      PutRemoved(filed, SwitchKey(last, slash), SwitchValue(last), key);
      assert (kept + [last])[..|kept|] == kept;
    }
  }

  lemma {:induction false} DropKeyCounts(args: seq<string>, key: string, slash: bool)
    requires OnlySwitches(args, slash)
    ensures OnlySwitches(DropKey(args, key, slash), slash)
    ensures |DropKey(args, key, slash)| <= |args|
    ensures |DropKey(args, key, slash)| == |args| <==> key !in Filed(args, slash)
    decreases |args|
  {
    if args != [] {
      DropKeyCounts(args[..|args| - 1], key, slash);
    }
  }

  lemma ViewEnds(v: View)
    ensures Whole(v) == Key(v) <==> EndsAtTerminator(v)
  {
  }

  /** What a removal leaves. */
  lemma WithoutSwitchIs(s: State, v: View, slash: bool)
    requires Inv(s, slash)
    ensures var section, t := s.argv[1..s.beginArgs], WithoutSwitch(s, v, slash);
            && t.switches == s.switches - {Whole(v)}
            && InBounds(t) && t.argv[..1] == s.argv[..1] && t.argv[t.beginArgs..] == s.argv[s.beginArgs..]
            && t.argv[1..t.beginArgs] == if Whole(v) in s.switches then DropKey(section, Key(v), slash) else section
  {
    var t := WithoutSwitch(s, v, slash);
    var section := s.argv[1..s.beginArgs];
    var kept := DropKey(section, Key(v), slash);
    DropKeyCounts(section, Key(v), slash);
    if Whole(v) !in s.switches {
      assert s.switches - {Whole(v)} == s.switches;
    } else if |kept| == s.beginArgs - 1 {
      DropKeyNothing(section, Key(v), slash);
    } else {
      assert t.argv == s.argv[..1] + kept + s.argv[s.beginArgs..];
      assert t.argv[1..t.beginArgs] == kept;
    }
  }

  /** Removing a switch keeps the fields in step exactly when the view ends where its text does, or
      nothing is filed under the whole text.  Otherwise, if the key itself is not filed, the branch
      marked as not reached is reached, and only then. */
  lemma RemoveSwitchKeepsInv(s: State, v: View, slash: bool)
    requires Inv(s, slash)
    ensures Inv(WithoutSwitch(s, v, slash), slash) <==> EndsAtTerminator(v) || Whole(v) !in s.switches
    ensures ReachesNotReached(s, v, slash) <==> Whole(v) in s.switches && Key(v) !in s.switches
  {
    var t := WithoutSwitch(s, v, slash);
    var section := s.argv[1..s.beginArgs];
    WithoutSwitchIs(s, v, slash);
    ViewEnds(v);
    DropKeyFiles(section, Key(v), slash);
    DropKeyCounts(section, Key(v), slash);
    if Whole(v) in s.switches && Whole(v) != Key(v) {
      assert Whole(v) in s.switches - {Key(v)} && Whole(v) !in t.switches;
    }
  }

  /** And it removes the key, all of it and nothing else, exactly when the view ends where its text
      does, or neither is filed. */
  lemma RemoveSwitchRemovesKey(s: State, v: View, slash: bool)
    requires Inv(s, slash)
    ensures var section, t := s.argv[1..s.beginArgs], WithoutSwitch(s, v, slash);
            t.switches == s.switches - {Key(v)} && t.argv[1..t.beginArgs] == DropKey(section, Key(v), slash)
            <==> EndsAtTerminator(v) || (Whole(v) !in s.switches && Key(v) !in s.switches)
  {
    var section := s.argv[1..s.beginArgs];
    WithoutSwitchIs(s, v, slash);
    ViewEnds(v);
    if EndsAtTerminator(v) {
      if Key(v) !in s.switches {
        DropKeyNothing(section, Key(v), slash);
      }
    } else if Whole(v) in s.switches {
      assert Whole(v) in s.switches - {Key(v)};
    } else if Key(v) in s.switches {
      assert Key(v) !in s.switches - {Key(v)};
    } else {
      DropKeyNothing(section, Key(v), slash);
      assert s.switches - {Key(v)} == s.switches - {Whole(v)};
    }
  }

  function JustProgram(): State {
    State(["prog"], map[], 1)
  }

  lemma PlainText(name: string)
    requires Lower(name) == name && '=' !in name && PrefixLength(name, true) == 0
    ensures NameKey(name, true) == name && SwitchText(name, "", true) == "--" + name
  {
    assert "--" + name + "" == "--" + name;
  }

  lemma OneSwitch(name: string)
    requires Lower(name) == name && name != "" && '=' !in name && PrefixLength(name, true) == 0
    ensures Inv(WithSwitch(JustProgram(), name, "", true), true)
    ensures WithSwitch(JustProgram(), name, "", true) == State(["prog", "--" + name], map[name := ""], 2)
  {
    var start := JustProgram();
    PlainText(name);
    assert start.argv[1..1] == [];
    AppendSwitchKeepsInv(start, name, "", true);
    assert start.argv[..1] + ["--" + name] + start.argv[1..] == ["prog", "--" + name];
  }

  /** A view of part of a name: the filing loses the whole name, and `argv` keeps it. */
  lemma PartOfAName(s: State, name: string, length: nat)
    requires Inv(s, true) && s.switches == map[name := ""] && length < |name| && '\0' !in name
    ensures var v := Piece(name, length);
            && ReachesNotReached(s, v, true) && WithoutSwitch(s, v, true) == s.(switches := map[])
            && !Inv(WithoutSwitch(s, v, true), true)
  {
    var v := Piece(name, length);
    IndexOfIs(name, '\0', |name|);
    assert Whole(v) == name && |Key(v)| < |name|;
    RemoveSwitchKeepsInv(s, v, true);
    assert map[name := ""] - {name} == map[];
  }

  lemma SmallLetters(name: string)
    requires forall k :: 0 <= k < |name| ==> 'a' <= name[k] <= 'z'
    ensures Lower(name) == name && '\0' !in name && '=' !in name && PrefixLength(name, true) == 0
  {
  }

  /** So `foo`, as a view of `foobar`, takes `foobar` out of step. */
  lemma PartOfANameIsRemoved(name: string)
    requires name == "foobar"
    ensures var s, v := WithSwitch(JustProgram(), name, "", true), Piece(name, 3);
            && Key(v) == "foo" && Inv(s, true) && ReachesNotReached(s, v, true)
            && WithoutSwitch(s, v, true) == State(["prog", "--" + name], map[], 2)
            && !Inv(WithoutSwitch(s, v, true), true)
  {
    SmallLetters(name);
    OneSwitch(name);
    PartOfAName(WithSwitch(JustProgram(), name, "", true), name, 3);
  }

  lemma {:induction false} DropKeyNothing(args: seq<string>, key: string, slash: bool)
    requires OnlySwitches(args, slash) && key !in Filed(args, slash)
    ensures DropKey(args, key, slash) == args
    decreases |args|
  {
    if args != [] {
      var n := |args| - 1;
      DropKeyNothing(args[..n], key, slash);
      assert args == args[..n] + [args[n]];
    }
  }

  // ----- a wrapper in front -----

  /** `PrependWrapper`, with the words of the wrapper given. */
  function WithWrapper(s: State, words: seq<string>): State {
    State(words + s.argv, s.switches, s.beginArgs + |words|)
  }

  /** What comes to stand where switches are: all but the first word, and the old program. */
  function MovedIn(s: State, words: seq<string>): seq<string>
    requires InBounds(s)
  {
    if words == [] then [] else words[1..] + [s.argv[0]]
  }

  predicate AlreadyFiled(args: seq<string>, switches: map<string, string>, slash: bool) {
    forall k :: 0 <= k < |args| ==> IsSwitch(args[k], slash) && SwitchKey(args[k], slash) in switches
  }

  lemma {:induction false} FiledConcat(a: seq<string>, b: seq<string>, slash: bool)
    ensures Filed(a + b, slash) == Filed(a, slash) + Filed(b, slash)
    decreases |b|
  {
    if b == [] {
      assert a + b == a;
    } else {
      assert (a + b)[..|a + b| - 1] == a + b[..|b| - 1];
      FiledConcat(a, b[..|b| - 1], slash);
    }
  }

  lemma {:induction false} FiledHas(args: seq<string>, slash: bool, k: nat)
    requires k < |args|
    ensures SwitchKey(args[k], slash) in Filed(args, slash)
    decreases |args|
  {
    if k < |args| - 1 {
      assert args[..|args| - 1][k] == args[k];
      FiledHas(args[..|args| - 1], slash, k);
    }
  }

  lemma {:induction false} FiledFromSome(args: seq<string>, slash: bool, key: string)
    requires key in Filed(args, slash)
    ensures exists k :: 0 <= k < |args| && SwitchKey(args[k], slash) == key
    decreases |args|
  {
    var n := |args| - 1;
    if SwitchKey(args[n], slash) != key {
      FiledFromSome(args[..n], slash, key);
      var k :| 0 <= k < n && SwitchKey(args[..n][k], slash) == key;
      assert args[k] == args[..n][k];
    }
  }

  lemma InFrontChangesNothing(front: seq<string>, section: seq<string>, slash: bool)
    ensures Filed(front + section, slash) == Filed(section, slash)
       <==> forall k :: 0 <= k < |front| ==> SwitchKey(front[k], slash) in Filed(section, slash)
  {
    FiledConcat(front, section, slash);
    var a, b := Filed(front, slash), Filed(section, slash);
    if forall k :: 0 <= k < |front| ==> SwitchKey(front[k], slash) in b {
      forall key | key in a ensures key in b {
        FiledFromSome(front, slash, key);
      }
      assert a + b == b;
    } else {
      var k :| 0 <= k < |front| && SwitchKey(front[k], slash) !in b;
      FiledHas(front, slash, k);
      assert SwitchKey(front[k], slash) in a + b;
    }
  }

  /** A wrapper keeps the fields in step exactly when it is blank, or what it moves in among the
      switches are switches with keys that are filed already. */
  lemma WrapperKeepsInv(s: State, words: seq<string>, slash: bool)
    requires Inv(s, slash)
    ensures Inv(WithWrapper(s, words), slash) <==> AlreadyFiled(MovedIn(s, words), s.switches, slash)
  {
    var t, front, section := WithWrapper(s, words), MovedIn(s, words), s.argv[1..s.beginArgs];
    if words == [] {
      assert [] + s.argv == s.argv;
    } else {
      assert t.argv[1..t.beginArgs] == front + section;
      OnlySwitchesConcat(front, section, slash);
      InFrontChangesNothing(front, section, slash);
    }
  }

  lemma OnlySwitchesConcat(a: seq<string>, b: seq<string>, slash: bool)
    ensures OnlySwitches(a + b, slash) <==> OnlySwitches(a, slash) && OnlySwitches(b, slash)
  {
    var all := a + b;
    if OnlySwitches(all, slash) {
      forall k | 0 <= k < |a| ensures IsSwitch(a[k], slash) {
        assert all[k] == a[k];
      }
      forall k | 0 <= k < |b| ensures IsSwitch(b[k], slash) {
        assert all[|a| + k] == b[k];
      }
    }
  }

  /** A program name that is no switch ends up among the switches. */
  lemma WrapperBreaksInv()
    ensures Inv(JustProgram(), true) && !Inv(WithWrapper(JustProgram(), ["wrapper"]), true)
  {
    assert MovedIn(JustProgram(), ["wrapper"]) == ["prog"];
    assert !IsSwitch(["prog"][0], true);
    WrapperKeepsInv(JustProgram(), ["wrapper"], true);
  }

  // ----- reading a whole argument vector -----

  /** `AppendSwitchesAndArguments` from some state on: trim, then file as a switch or an argument. */
  function Parsed(s: State, args: seq<string>, parseSwitches: bool, slash: bool): State
    requires InBounds(s)
    decreases |args|
  {
    if args == [] then s
    else
      var arg := Trim(args[0]);
      var ps := parseSwitches && arg != TERMINATOR;
      Parsed(if ps && IsSwitch(arg, slash) then WithSwitch(s, SwitchName(arg), SwitchValue(arg), slash)
             else WithArg(s, arg), args[1..], ps, slash)
  }

  function AfterProgram(argv: seq<string>): seq<string> {
    if argv == [] then [] else argv[1..]
  }

  /** `InitFromArgv`. */
  function Init(argv: seq<string>, slash: bool): State {
    Parsed(State([if argv == [] then "" else Trim(argv[0])], map[], 1), AfterProgram(argv), true, slash)
  }

  /** The elements that are filed as switches, and the rest, each trimmed and in order. */
  function SwitchesOf(args: seq<string>, parseSwitches: bool, slash: bool): seq<string>
    decreases |args|
  {
    if args == [] then []
    else
      var arg := Trim(args[0]);
      var ps := parseSwitches && arg != TERMINATOR;
      var rest := SwitchesOf(args[1..], ps, slash);
      if ps && IsSwitch(arg, slash) then [arg] + rest else rest
  }

  function ArgsOf(args: seq<string>, parseSwitches: bool, slash: bool): seq<string>
    decreases |args|
  {
    if args == [] then []
    else
      var arg := Trim(args[0]);
      var ps := parseSwitches && arg != TERMINATOR;
      var rest := ArgsOf(args[1..], ps, slash);
      if ps && IsSwitch(arg, slash) then rest else [arg] + rest
  }

  function TrimAll(args: seq<string>): seq<string> {
    if args == [] then [] else [Trim(args[0])] + TrimAll(args[1..])
  }

  lemma {:induction false} OffIsArguments(args: seq<string>, slash: bool)
    ensures SwitchesOf(args, false, slash) == [] && ArgsOf(args, false, slash) == TrimAll(args)
  {
    if args != [] {
      OffIsArguments(args[1..], slash);
    }
  }

  /** Behind the first terminator everything is an argument, and so is the terminator. */
  lemma {:induction false} BehindTerminator(before: seq<string>, mark: string, after: seq<string>, slash: bool)
    requires Trim(mark) == TERMINATOR && forall k :: 0 <= k < |before| ==> Trim(before[k]) != TERMINATOR
    ensures var all := before + [mark] + after;
            && SwitchesOf(all, true, slash) == SwitchesOf(before, true, slash)
            && ArgsOf(all, true, slash) == ArgsOf(before, true, slash) + (["--"] + TrimAll(after))
    decreases |before|
  {
    var all := before + [mark] + after;
    if before == [] {
      assert all[0] == mark && all[1..] == after;
      OffIsArguments(after, slash);
      assert [] + (["--"] + TrimAll(after)) == ["--"] + TrimAll(after);
    } else {
      assert all[0] == before[0] && all[1..] == before[1..] + [mark] + after;
      BehindTerminator(before[1..], mark, after, slash);
      Associative([Trim(before[0])], ArgsOf(before[1..], true, slash), ["--"] + TrimAll(after));
    }
  }

  /** Before it, exactly the switches count as switches, and the order is kept on both sides. */
  lemma {:induction false} BeforeTerminator(args: seq<string>, slash: bool)
    requires forall k :: 0 <= k < |args| ==> Trim(args[k]) != TERMINATOR
    ensures SwitchesOf(args, true, slash) == Chosen(TrimAll(args), slash, true)
    ensures ArgsOf(args, true, slash) == Chosen(TrimAll(args), slash, false)
    decreases |args|
  {
    if args != [] {
      BeforeTerminator(args[1..], slash);
      assert TrimAll(args)[1..] == TrimAll(args[1..]);
    }
  }

  /** Those that are switches, or those that are not. */
  function Chosen(args: seq<string>, slash: bool, switches: bool): seq<string> {
    if args == [] then []
    else (if IsSwitch(args[0], slash) == switches then [args[0]] else []) + Chosen(args[1..], slash, switches)
  }

  function TextOf(arg: string, slash: bool): string {
    SwitchText(SwitchName(arg), SwitchValue(arg), slash)
  }

  function Texts(switches: seq<string>, slash: bool): seq<string> {
    if switches == [] then [] else [TextOf(switches[0], slash)] + Texts(switches[1..], slash)
  }

  /** Filing switches one after the other, by the names they were given under. */
  function FiledFrom(m: map<string, string>, switches: seq<string>, slash: bool): map<string, string>
    decreases |switches|
  {
    if switches == [] then m
    else FiledFrom(m[NameKey(SwitchName(switches[0]), slash) := SwitchValue(switches[0])], switches[1..], slash)
  }

  lemma Associative(a: seq<string>, b: seq<string>, c: seq<string>)
    ensures a + (b + c) == (a + b) + c
  {
  }

  lemma WithSwitchIs(front: seq<string>, back: seq<string>, m: map<string, string>, arg: string, slash: bool)
    requires front != []
    ensures var next, m' := front + [TextOf(arg, slash)], m[NameKey(SwitchName(arg), slash) := SwitchValue(arg)];
            WithSwitch(State(front + back, m, |front|), SwitchName(arg), SwitchValue(arg), slash) == State(next + back, m', |next|)
  {
    assert (front + back)[..|front|] == front && (front + back)[|front|..] == back;
  }

  lemma SwitchAhead(front: seq<string>, m: map<string, string>, arg: string, sw: seq<string>, slash: bool)
    ensures front + Texts([arg] + sw, slash) == front + [TextOf(arg, slash)] + Texts(sw, slash)
    ensures FiledFrom(m, [arg] + sw, slash)
         == FiledFrom(m[NameKey(SwitchName(arg), slash) := SwitchValue(arg)], sw, slash)
  {
    assert ([arg] + sw)[1..] == sw;
    Associative(front, [TextOf(arg, slash)], Texts(sw, slash));
  }

  /** What reading comes to: the switches move ahead of the arguments, and nothing else moves. */
  lemma {:induction false} ParsedIs(
      front: seq<string>, back: seq<string>, m: map<string, string>,
      args: seq<string>, parseSwitches: bool, slash: bool)
    requires front != []
    ensures var sw := SwitchesOf(args, parseSwitches, slash);
            Parsed(State(front + back, m, |front|), args, parseSwitches, slash) ==
              State(front + Texts(sw, slash) + (back + ArgsOf(args, parseSwitches, slash)),
                    FiledFrom(m, sw, slash), |front| + |sw|)
    decreases |args|
  {
    if args == [] {
      assert front + [] == front && back + [] == back;
    } else {
      var arg := Trim(args[0]);
      var ps := parseSwitches && arg != TERMINATOR;
      if ps && IsSwitch(arg, slash) {
        WithSwitchIs(front, back, m, arg, slash);
        ParsedIs(front + [TextOf(arg, slash)], back, m[NameKey(SwitchName(arg), slash) := SwitchValue(arg)], args[1..], ps, slash);
        SwitchAhead(front, m, arg, SwitchesOf(args[1..], ps, slash), slash);
      } else {
        Associative(front, back, [arg]);
        ParsedIs(front, back + [arg], m, args[1..], ps, slash);
        Associative(back, [arg], ArgsOf(args[1..], ps, slash));
      }
    }
  }

  /** The state that reading `args` after `program` comes to. */
  function Reading(program: string, args: seq<string>, slash: bool): State {
    var sw := SwitchesOf(args, true, slash);
    State([Trim(program)] + (Texts(sw, slash) + ArgsOf(args, true, slash)), FiledFrom(map[], sw, slash), 1 + |sw|)
  }

  lemma InitIs(argv: seq<string>, slash: bool)
    requires argv != []
    ensures Init(argv, slash) == Reading(argv[0], argv[1..], slash)
  {
    var program := [Trim(argv[0])];
    var rest := ArgsOf(argv[1..], true, slash);
    assert program + [] == program && [] + rest == rest;
    ParsedIs(program, [], map[], argv[1..], true, slash);
    Associative(program, Texts(SwitchesOf(argv[1..], true, slash), slash), rest);
  }

  // ----- reading again -----

  /** A switch that reads back from `argv` as the same switch: it has a value, or else something
      after its prefix and no blank at the end of its name. */
  predicate Stable(arg: string, slash: bool) {
    SwitchValue(arg) != "" || (SwitchKey(arg, slash) != "" && Trimmed(SwitchName(arg)))
  }

  predicate AllStable(switches: seq<string>, slash: bool) {
    forall k :: 0 <= k < |switches| ==> Stable(switches[k], slash)
  }

  lemma {:induction false} SwitchesAreSwitches(args: seq<string>, parseSwitches: bool, slash: bool)
    ensures forall k :: 0 <= k < |SwitchesOf(args, parseSwitches, slash)| ==>
              var sw := SwitchesOf(args, parseSwitches, slash)[k]; IsSwitch(sw, slash) && Trimmed(sw)
    decreases |args|
  {
    if args != [] {
      SwitchesAreSwitches(args[1..], parseSwitches && Trim(args[0]) != TERMINATOR, slash);
    }
  }

  lemma LowerTwice(s: string)
    ensures Lower(Lower(s)) == Lower(s)
  {
  }

  lemma SwitchNameParts(arg: string, slash: bool)
    requires IsSwitch(arg, slash)
    ensures PrefixLength(SwitchName(arg), slash) == PrefixLength(arg, slash)
    ensures |NameKey(SwitchName(arg), slash)| == |SwitchKey(arg, slash)|
    ensures '=' !in Lower(SwitchName(arg))
    ensures TextOf(arg, slash) == Lower(SwitchName(arg)) + if SwitchValue(arg) == "" then "" else "=" + SwitchValue(arg)
  {
    LowerKeepsPrefix(SwitchName(arg), slash);
    var low := Lower(SwitchName(arg));
    forall k | 0 <= k < |low| ensures low[k] != '=' {
      assert SwitchName(arg)[k] in SwitchName(arg);
    }
    assert "" + low == low;
  }

  lemma StableNameOk(arg: string, slash: bool)
    requires IsSwitch(arg, slash) && Stable(arg, slash)
    ensures NameOk(SwitchName(arg), SwitchValue(arg), slash)
  {
    SwitchNameParts(arg, slash);
    var low := Lower(SwitchName(arg));
    var n := PrefixLength(low, slash);
    assert forall k :: 0 <= k < |low| - n ==> low[n..][k] == low[n + k];
  }

  lemma LowerEnds(s: string)
    requires s != ""
    ensures IsSpace(Lower(s)[0]) <==> IsSpace(s[0])
    ensures IsSpace(Lower(s)[|s| - 1]) <==> IsSpace(s[|s| - 1])
    ensures Trimmed(Lower(s)) <==> Trimmed(s)
  {
  }

  lemma StartsWithPrefix(arg: string, slash: bool)
    requires IsSwitch(arg, slash)
    ensures SwitchName(arg) != "" && !IsSpace(arg[0]) && SwitchName(arg)[0] == arg[0]
  {
  }

  lemma StableTrimmed(arg: string, slash: bool)
    requires IsSwitch(arg, slash) && Trimmed(arg) && Stable(arg, slash)
    ensures Trimmed(TextOf(arg, slash))
  {
    var name, value := SwitchName(arg), SwitchValue(arg);
    StartsWithPrefix(arg, slash);
    LowerEnds(name);
    SwitchNameParts(arg, slash);
    if value == "" {
      assert Lower(name) + "" == Lower(name);
    } else {
      SwitchParts(arg);
      ValueEnds(name, value);
      ValueEnds(Lower(name), value);
    }
  }

  lemma ValueEnds(name: string, value: string)
    requires name != "" && value != ""
    ensures var s := name + ("=" + value); s[0] == name[0] && s[|s| - 1] == value[|value| - 1]
  {
  }

  /** A stable switch reads back as itself. */
  lemma StableReadsBack(arg: string, slash: bool)
    requires IsSwitch(arg, slash) && Trimmed(arg) && Stable(arg, slash)
    ensures var text := TextOf(arg, slash);
            && Trim(text) == text && IsSwitch(text, slash)
            && TextOf(text, slash) == text
            && NameKey(SwitchName(text), slash) == NameKey(SwitchName(arg), slash)
            && SwitchValue(text) == SwitchValue(arg)
  {
    var name, text := SwitchName(arg), TextOf(arg, slash);
    StableNameOk(arg, slash);
    StableTrimmed(arg, slash);
    SwitchTextReads(name, SwitchValue(arg), slash);
    SwitchNameParts(arg, slash);
    LowerKeepsPrefix(name, slash);
    assert "" + Lower(name) == Lower(name);
    LowerTwice(name);
    SwitchNameParts(text, slash);
  }

  lemma {:induction false} StableTextsReadBack(switches: seq<string>, rest: seq<string>, slash: bool)
    requires AllStable(switches, slash)
    requires forall k :: 0 <= k < |switches| ==> IsSwitch(switches[k], slash) && Trimmed(switches[k])
    ensures var texts := Texts(switches, slash);
            && SwitchesOf(texts + rest, true, slash) == texts + SwitchesOf(rest, true, slash)
            && ArgsOf(texts + rest, true, slash) == ArgsOf(rest, true, slash)
    decreases |switches|
  {
    var texts := Texts(switches, slash);
    if switches == [] {
      assert texts + rest == rest;
      assert texts + SwitchesOf(rest, true, slash) == SwitchesOf(rest, true, slash);
    } else {
      var text, tail := TextOf(switches[0], slash), Texts(switches[1..], slash);
      StableReadsBack(switches[0], slash);
      StableTextsReadBack(switches[1..], rest, slash);
      Associative([text], tail, rest);
      ReadSwitchFirst(text, tail + rest, slash);
      Associative([text], tail, SwitchesOf(rest, true, slash));
    }
  }

  lemma ReadSwitchFirst(text: string, rest: seq<string>, slash: bool)
    requires Trim(text) == text && IsSwitch(text, slash)
    ensures SwitchesOf([text] + rest, true, slash) == [text] + SwitchesOf(rest, true, slash)
    ensures ArgsOf([text] + rest, true, slash) == ArgsOf(rest, true, slash)
  {
    assert ([text] + rest)[1..] == rest;
    assert [] + ArgsOf(rest, true, slash) == ArgsOf(rest, true, slash);
  }

  lemma {:induction false} StableTextsFileAlike(switches: seq<string>, m: map<string, string>, slash: bool)
    requires AllStable(switches, slash)
    requires forall k :: 0 <= k < |switches| ==> IsSwitch(switches[k], slash) && Trimmed(switches[k])
    ensures var texts := Texts(switches, slash);
            Texts(texts, slash) == texts && FiledFrom(m, texts, slash) == FiledFrom(m, switches, slash)
    decreases |switches|
  {
    if switches != [] {
      var text, tail := TextOf(switches[0], slash), Texts(switches[1..], slash);
      StableReadsBack(switches[0], slash);
      StableTextsFileAlike(switches[1..], m[NameKey(SwitchName(text), slash) := SwitchValue(text)], slash);
      assert ([text] + tail)[1..] == tail;
    }
  }

  /** Arguments stay arguments. */
  lemma {:induction false} ArgsReadBack(args: seq<string>, parseSwitches: bool, slash: bool)
    ensures SwitchesOf(ArgsOf(args, parseSwitches, slash), parseSwitches, slash) == []
    ensures ArgsOf(ArgsOf(args, parseSwitches, slash), parseSwitches, slash) == ArgsOf(args, parseSwitches, slash)
    decreases |args|
  {
    if args != [] {
      var arg := Trim(args[0]);
      var ps := parseSwitches && arg != TERMINATOR;
      var rest := ArgsOf(args[1..], ps, slash);
      ArgsReadBack(args[1..], ps, slash);
      if ps && IsSwitch(arg, slash) {
      } else {
        assert ([arg] + rest)[1..] == rest;
      }
    }
  }

  function Size(args: seq<string>): nat {
    if args == [] then 0 else |args[0]| + Size(args[1..])
  }

  lemma {:induction false} SizeConcat(a: seq<string>, b: seq<string>)
    ensures Size(a + b) == Size(a) + Size(b)
  {
    if a == [] {
      assert a + b == b;
    } else {
      assert (a + b)[1..] == a[1..] + b;
      SizeConcat(a[1..], b);
    }
  }

  lemma TextIsNoLonger(arg: string, slash: bool)
    requires IsSwitch(arg, slash)
    ensures |TextOf(arg, slash)| <= |arg|
  {
    SwitchNameParts(arg, slash);
    SwitchParts(arg);
  }

  /** The size of what is printed once `args` has been read. */
  function ReadSize(args: seq<string>, parseSwitches: bool, slash: bool): nat {
    Size(Texts(SwitchesOf(args, parseSwitches, slash), slash)) + Size(ArgsOf(args, parseSwitches, slash))
  }

  lemma ReadSizeStep(args: seq<string>, parseSwitches: bool, slash: bool)
    requires args != []
    ensures var ps := parseSwitches && Trim(args[0]) != TERMINATOR;
            ReadSize(args, parseSwitches, slash) <= |Trim(args[0])| + ReadSize(args[1..], ps, slash)
  {
    var arg := Trim(args[0]);
    var ps := parseSwitches && arg != TERMINATOR;
    var sw, rest := SwitchesOf(args[1..], ps, slash), ArgsOf(args[1..], ps, slash);
    if ps && IsSwitch(arg, slash) {
      TextIsNoLonger(arg, slash);
      assert ([arg] + sw)[1..] == sw;
      assert Texts([arg] + sw, slash)[1..] == Texts(sw, slash);
    } else {
      assert ([arg] + rest)[1..] == rest;
    }
  }

  /** Reading never makes the text longer, and makes it shorter if it trims anything. */
  lemma {:induction false} ReadingShrinks(args: seq<string>, parseSwitches: bool, slash: bool)
    ensures ReadSize(args, parseSwitches, slash) <= Size(args)
    ensures (exists k :: 0 <= k < |args| && !Trimmed(args[k])) ==> ReadSize(args, parseSwitches, slash) < Size(args)
    decreases |args|
  {
    if args != [] {
      ReadSizeStep(args, parseSwitches, slash);
      ReadingShrinks(args[1..], parseSwitches && Trim(args[0]) != TERMINATOR, slash);
      assert forall k :: 0 < k < |args| ==> args[k] == args[1..][k - 1];
    }
  }

  /** Each element gives at most one switch, and an element that is no switch gives none. */
  lemma {:induction false} SwitchesCounted(args: seq<string>, rest: seq<string>, parseSwitches: bool, slash: bool)
    requires SwitchesOf(rest, true, slash) == []
    ensures var n := |SwitchesOf(args + rest, parseSwitches, slash)|;
            && n <= |args|
            && (!parseSwitches ==> n == 0)
            && ((exists k :: 0 <= k < |args| && !IsSwitch(Trim(args[k]), slash)) ==> n < |args|)
    decreases |args|
  {
    if args == [] {
      assert args + rest == rest;
      NoSwitchesWhenOff(rest, slash);
    } else {
      var ps := parseSwitches && Trim(args[0]) != TERMINATOR;
      assert (args + rest)[1..] == args[1..] + rest;
      SwitchesCounted(args[1..], rest, ps, slash);
      assert forall k :: 0 < k < |args| ==> args[k] == args[1..][k - 1];
    }
  }

  lemma {:induction false} NoSwitchesWhenOff(args: seq<string>, slash: bool)
    ensures SwitchesOf(args, false, slash) == []
    decreases |args|
  {
    if args != [] {
      NoSwitchesWhenOff(args[1..], slash);
    }
  }

  lemma {:induction false} TextsAt(switches: seq<string>, slash: bool, k: nat)
    requires k < |switches|
    ensures |Texts(switches, slash)| == |switches| && Texts(switches, slash)[k] == TextOf(switches[k], slash)
    decreases |switches|
  {
    if |switches| > 1 {
      TextsAt(switches[1..], slash, if k == 0 then 0 else k - 1);
    }
  }

  /** The text of an unstable switch is either blank at its end or no switch at all. */
  lemma UnstableText(arg: string, slash: bool)
    requires IsSwitch(arg, slash) && !Stable(arg, slash)
    ensures !Trimmed(TextOf(arg, slash)) || !IsSwitch(Trim(TextOf(arg, slash)), slash)
  {
    var name := SwitchName(arg);
    SwitchNameParts(arg, slash);
    StartsWithPrefix(arg, slash);
    LowerKeepsPrefix(name, slash);
    LowerEnds(name);
    assert Lower(name) + "" == Lower(name);
  }

  /** Reading a copy of the vector that reading produced gives the same command line exactly when every
      switch given without a value has a key, and no blank at the end of it. */
  lemma InitTwice(argv: seq<string>, slash: bool)
    ensures Init(Init(argv, slash).argv, slash) == Init(argv, slash)
       <==> AllStable(SwitchesOf(AfterProgram(argv), true, slash), slash)
  {
    if argv == [] {
      return;
    }
    var sw, rest := SwitchesOf(argv[1..], true, slash), ArgsOf(argv[1..], true, slash);
    var texts := Texts(sw, slash);
    InitIs(argv, slash);
    var s := Init(argv, slash);
    assert s.argv[0] == Trim(argv[0]) && s.argv[1..] == texts + rest;
    InitIs(s.argv, slash);
    SwitchesAreSwitches(argv[1..], true, slash);
    ArgsReadBack(argv[1..], true, slash);
    SameReading(argv[0], sw, rest, slash);
  }

  /** A concrete vector that does not survive being read twice: `--=` is filed as the empty switch,
      put into `argv` as `--`, and read again as the terminator. */
  lemma BareEqualsIsLost()
    ensures var s := Init(["prog", "--="], true); Init(s.argv, true) != s
  {
    var argv := ["prog", "--="];
    assert argv[1..] == ["--="] && Trim("--=") == "--=";
    IndexOfIs("--=", '=', 2);
    assert SwitchesOf(["--="], true, true) == ["--="] by {
      assert ["--="][1..] == [];
    }
    assert !Stable("--=", true);
    assert !AllStable(["--="], true) by {
      assert !Stable(["--="][0], true);
    }
    InitTwice(argv, true);
  }

  lemma SameReading(program: string, sw: seq<string>, rest: seq<string>, slash: bool)
    requires forall k :: 0 <= k < |sw| ==> IsSwitch(sw[k], slash) && Trimmed(sw[k])
    requires SwitchesOf(rest, true, slash) == [] && ArgsOf(rest, true, slash) == rest
    ensures var texts := Texts(sw, slash);
            Reading(Trim(program), texts + rest, slash)
              == State([Trim(program)] + (texts + rest), FiledFrom(map[], sw, slash), 1 + |sw|)
            <==> AllStable(sw, slash)
  {
    var texts := Texts(sw, slash);
    if AllStable(sw, slash) {
      StableTextsReadBack(sw, rest, slash);
      StableTextsFileAlike(sw, map[], slash);
      assert texts + [] == texts;
      TextsCount(sw, slash);
    } else {
      var sw', rest' := SwitchesOf(texts + rest, true, slash), ArgsOf(texts + rest, true, slash);
      UnstableChanges(sw, rest, slash);
      SizeConcat(Texts(sw', slash), rest');
      var p := [Trim(program)];
      assert (p + (texts + rest))[1..] == texts + rest;
      assert (p + (Texts(sw', slash) + rest'))[1..] == Texts(sw', slash) + rest';
    }
  }

  lemma {:induction false} TextsCount(switches: seq<string>, slash: bool)
    ensures |Texts(switches, slash)| == |switches|
    decreases |switches|
  {
    if switches != [] {
      TextsCount(switches[1..], slash);
    }
  }

  lemma UnstableChanges(switches: seq<string>, rest: seq<string>, slash: bool)
    requires forall k :: 0 <= k < |switches| ==> IsSwitch(switches[k], slash)
    requires !AllStable(switches, slash) && SwitchesOf(rest, true, slash) == []
    ensures var args := Texts(switches, slash) + rest;
            || |SwitchesOf(args, true, slash)| < |switches|
            || ReadSize(args, true, slash) < Size(args)
  {
    var k :| 0 <= k < |switches| && !Stable(switches[k], slash);
    var texts := Texts(switches, slash);
    var args := texts + rest;
    UnstableText(switches[k], slash);
    TextsAt(switches, slash, k);
    assert args[k] == texts[k];
    ReadingShrinks(args, true, slash);
    SwitchesCounted(texts, rest, true, slash);
  }

  // ----- reading one's own vector -----

  /** Where the loop of `AppendSwitchesAndArguments` has come to. */
  datatype Reader = Reader(s: State, i: nat, parseSwitches: bool)

  /** One turn of it.  The vector is passed by reference, so it may be the one that is appended to. */
  function ReadOne(r: Reader, vector: seq<string>, slash: bool): Reader
    requires InBounds(r.s) && r.i < |vector|
  {
    var arg := Trim(vector[r.i]);
    var ps := r.parseSwitches && arg != TERMINATOR;
    Reader(if ps && IsSwitch(arg, slash) then WithSwitch(r.s, SwitchName(arg), SwitchValue(arg), slash)
           else WithArg(r.s, arg), r.i + 1, ps)
  }

  predicate Done(r: Reader, vector: seq<string>) {
    r.i >= |vector|
  }

  /** Reading another vector to its end. */
  function ReadOther(r: Reader, vector: seq<string>, slash: bool): State
    requires InBounds(r.s)
    decreases |vector| - r.i
  {
    if Done(r, vector) then r.s else ReadOther(ReadOne(r, vector, slash), vector, slash)
  }

  lemma {:induction false} OtherIsParsed(r: Reader, vector: seq<string>, slash: bool)
    requires InBounds(r.s) && r.i <= |vector|
    ensures ReadOther(r, vector, slash) == Parsed(r.s, vector[r.i..], r.parseSwitches, slash)
    decreases |vector| - r.i
  {
    if r.i < |vector| {
      assert vector[r.i..][1..] == vector[r.i + 1..];
      OtherIsParsed(ReadOne(r, vector, slash), vector, slash);
    }
  }

  lemma ReadFromStart(s: State, vector: seq<string>, slash: bool)
    requires InBounds(s)
    ensures ReadOther(Reader(s, 1, true), vector, slash) == Parsed(s, AfterProgram(vector), true, slash)
  {
    if vector != [] {
      OtherIsParsed(Reader(s, 1, true), vector, slash);
    }
  }

  /** Reading one's own vector, for `n` turns at most. */
  function ReadOwn(r: Reader, n: nat, slash: bool): Reader
    requires InBounds(r.s)
    decreases n
  {
    if n == 0 || Done(r, r.s.argv) then r else ReadOwn(ReadOne(r, r.s.argv, slash), n - 1, slash)
  }

  /** Every turn appends one element, so the end moves on as fast as the reader. */
  lemma {:induction false} OwnVectorGrows(r: Reader, n: nat, slash: bool)
    requires InBounds(r.s) && !Done(r, r.s.argv)
    ensures var t := ReadOwn(r, n, slash); t.i == r.i + n && |t.s.argv| == |r.s.argv| + n
    decreases n
  {
    if n > 0 {
      OwnVectorGrows(ReadOne(r, r.s.argv, slash), n - 1, slash);
    }
  }

  predicate OwnEnds(s: State, n: nat, slash: bool)
    requires InBounds(s)
  {
    var r := ReadOwn(Reader(s, 1, true), n, slash);
    Done(r, r.s.argv)
  }

  /** Appending a command line to itself ends exactly when there is nothing to append. */
  lemma AppendingToItselfEnds(s: State, slash: bool)
    requires InBounds(s)
    ensures (exists n: nat :: OwnEnds(s, n, slash)) <==> |s.argv| == 1
  {
    if |s.argv| == 1 {
      assert OwnEnds(s, 0, slash);
    } else {
      forall n: nat ensures !OwnEnds(s, n, slash) {
        OwnVectorGrows(Reader(s, 1, true), n, slash);
      }
    }
  }

  /** `InitFromArgv` with the command line's own vector, which has been emptied when it is read. */
  function InitOwn(slash: bool): State {
    Init([""], slash)
  }

  lemma {:induction false} ParsedCounts(s: State, args: seq<string>, parseSwitches: bool, slash: bool)
    requires InBounds(s)
    ensures |Parsed(s, args, parseSwitches, slash).argv| == |s.argv| + |args|
    decreases |args|
  {
    if args != [] {
      var arg := Trim(args[0]);
      var ps := parseSwitches && arg != TERMINATOR;
      ParsedCounts(if ps && IsSwitch(arg, slash) then WithSwitch(s, SwitchName(arg), SwitchValue(arg), slash)
                   else WithArg(s, arg), args[1..], ps, slash);
    }
  }

  /** That gives the empty command line, and so what reading a copy of the vector gives exactly when
      the vector is a blank program and nothing else. */
  lemma OwnVectorIsLost(s: State, slash: bool)
    requires InBounds(s)
    ensures InitOwn(slash) == State([""], map[], 1) && Inv(InitOwn(slash), slash)
    ensures InitOwn(slash) == Init(s.argv, slash) <==> |s.argv| == 1 && Trim(s.argv[0]) == ""
  {
    ParsedCounts(State([Trim(s.argv[0])], map[], 1), s.argv[1..], true, slash);
    assert AfterProgram([""]) == [];
    if |s.argv| == 1 {
      assert AfterProgram(s.argv) == [];
    }
  }

  /** So a program name is lost, and one argument is appended forever. */
  lemma OwnVectorFails()
    ensures InitOwn(true) != Init(["prog"], true)
    ensures forall n: nat :: !OwnEnds(State(["prog", "x"], map[], 1), n, true)
  {
    assert !IsSpace("prog"[0]) && !IsSpace("prog"[3]);
    OwnVectorIsLost(State(["prog"], map[], 1), true);
    AppendingToItselfEnds(State(["prog", "x"], map[], 1), true);
  }

  // ----- runs -----

  predicate NamesOk(switches: seq<string>, slash: bool) {
    forall k :: 0 <= k < |switches| ==> NameOk(SwitchName(switches[k]), SwitchValue(switches[k]), slash)
  }

  lemma NamesOkTail(switches: seq<string>, slash: bool)
    requires switches != [] && NamesOk(switches, slash)
    ensures NameOk(SwitchName(switches[0]), SwitchValue(switches[0]), slash) && NamesOk(switches[1..], slash)
  {
  }

  lemma {:induction false} GoodNamesKeepInv(s: State, args: seq<string>, parseSwitches: bool, slash: bool)
    requires Inv(s, slash) && NamesOk(SwitchesOf(args, parseSwitches, slash), slash)
    ensures Inv(Parsed(s, args, parseSwitches, slash), slash)
    decreases |args|
  {
    if args != [] {
      var arg := Trim(args[0]);
      var ps := parseSwitches && arg != TERMINATOR;
      var sw, rest := SwitchesOf(args, parseSwitches, slash), SwitchesOf(args[1..], ps, slash);
      if ps && IsSwitch(arg, slash) {
        assert sw[0] == arg && sw[1..] == rest;
        NamesOkTail(sw, slash);
        AppendSwitchKeepsInv(s, SwitchName(arg), SwitchValue(arg), slash);
        GoodNamesKeepInv(WithSwitch(s, SwitchName(arg), SwitchValue(arg), slash), args[1..], ps, slash);
      } else {
        AppendArgKeepsInv(s, arg, slash);
        assert sw == rest;
        GoodNamesKeepInv(WithArg(s, arg), args[1..], ps, slash);
      }
    }
  }

  /** A switch read from an argument vector has a bad name only if it is a prefix followed by a
      bare `=`, and then it is printed as no switch at all. */
  lemma BadNameText(arg: string, slash: bool)
    requires IsSwitch(arg, slash) && !NameOk(SwitchName(arg), SwitchValue(arg), slash)
    ensures !IsSwitch(TextOf(arg, slash), slash)
  {
    var low := Lower(SwitchName(arg));
    SwitchNameParts(arg, slash);
    assert '=' !in NameKey(SwitchName(arg), slash);
    assert low + "" == low;
  }

  /** What is read is filed and printed behind the switches there were. */
  lemma ParsedSection(s: State, args: seq<string>, slash: bool)
    requires InBounds(s)
    ensures var sw, t := SwitchesOf(args, true, slash), Parsed(s, args, true, slash);
            InBounds(t) && t.argv[1..t.beginArgs] == s.argv[1..s.beginArgs] + Texts(sw, slash)
  {
    var front, back := s.argv[..s.beginArgs], s.argv[s.beginArgs..];
    var sw := SwitchesOf(args, true, slash);
    ParsedIs(front, back, s.switches, args, true, slash);
    TextsCount(sw, slash);
    assert s.argv == front + back;
    Section(front, Texts(sw, slash), back + ArgsOf(args, true, slash));
  }

  lemma Section(front: seq<string>, texts: seq<string>, back: seq<string>)
    requires front != []
    ensures (front + texts + back)[1..|front| + |texts|] == front[1..] + texts
  {
  }

  lemma BadNameShows(front: seq<string>, switches: seq<string>, k: nat, slash: bool)
    requires k < |switches| && IsSwitch(switches[k], slash)
    requires !NameOk(SwitchName(switches[k]), SwitchValue(switches[k]), slash)
    ensures !OnlySwitches(front + Texts(switches, slash), slash)
  {
    BadNameText(switches[k], slash);
    TextsAt(switches, slash, k);
    assert (front + Texts(switches, slash))[|front| + k] == TextOf(switches[k], slash);
  }

  /** Reading an argument vector keeps the fields in step exactly when every switch read has a key
      or a value. */
  lemma ReadingKeepsInv(s: State, args: seq<string>, slash: bool)
    requires Inv(s, slash)
    ensures Inv(Parsed(s, args, true, slash), slash) <==> NamesOk(SwitchesOf(args, true, slash), slash)
  {
    var sw := SwitchesOf(args, true, slash);
    if NamesOk(sw, slash) {
      GoodNamesKeepInv(s, args, true, slash);
    } else {
      var k :| 0 <= k < |sw| && !NameOk(SwitchName(sw[k]), SwitchValue(sw[k]), slash);
      SwitchesAreSwitches(args, true, slash);
      BadNameShows(s.argv[1..s.beginArgs], sw, k, slash);
      ParsedSection(s, args, slash);
    }
  }

  datatype Edit =
    | AppendSwitch(name: string, value: string)
    | AppendArg(value: string)
    | RemoveSwitch(key: View)
    | AppendArguments(argv: seq<string>)
    | InitFromArgv(argv: seq<string>)
    | InitFromOwnArgv
    | PrependWrapper(words: seq<string>)

  function Edited(s: State, e: Edit, slash: bool): State
    requires InBounds(s)
  {
    match e
    case AppendSwitch(name, value) => WithSwitch(s, name, value, slash)
    case AppendArg(value) => WithArg(s, value)
    case RemoveSwitch(key) => WithoutSwitch(s, key, slash)
    case AppendArguments(argv) => Parsed(s, AfterProgram(argv), true, slash)
    case InitFromArgv(argv) => Init(argv, slash)
    case InitFromOwnArgv => InitOwn(slash)
    case PrependWrapper(words) => WithWrapper(s, words)
  }

  /** What a caller has to see to before an edit: names that are well formed, keys that end where
      their text does if the text is filed, and wrappers that move in nothing new. */
  predicate EditOk(s: State, e: Edit, slash: bool)
    requires InBounds(s)
  {
    match e
    case RemoveSwitch(key) => EndsAtTerminator(key) || Whole(key) !in s.switches
    case PrependWrapper(words) => AlreadyFiled(MovedIn(s, words), s.switches, slash)
    case AppendSwitch(name, value) => NameOk(name, value, slash)
    case AppendArguments(argv) => NamesOk(SwitchesOf(AfterProgram(argv), true, slash), slash)
    case InitFromArgv(argv) => NamesOk(SwitchesOf(AfterProgram(argv), true, slash), slash)
    case _ => true
  }

  lemma {:induction false} ParsedInBounds(s: State, args: seq<string>, parseSwitches: bool, slash: bool)
    requires InBounds(s)
    ensures InBounds(Parsed(s, args, parseSwitches, slash))
    decreases |args|
  {
    if args != [] {
      var arg := Trim(args[0]);
      var ps := parseSwitches && arg != TERMINATOR;
      ParsedInBounds(if ps && IsSwitch(arg, slash) then WithSwitch(s, SwitchName(arg), SwitchValue(arg), slash)
                     else WithArg(s, arg), args[1..], ps, slash);
    }
  }

  lemma EditedInBounds(s: State, e: Edit, slash: bool)
    requires InBounds(s)
    ensures InBounds(Edited(s, e, slash))
  {
    match e
    case AppendArguments(argv) => ParsedInBounds(s, AfterProgram(argv), true, slash);
    case InitFromArgv(argv) =>
      ParsedInBounds(State([if argv == [] then "" else Trim(argv[0])], map[], 1), AfterProgram(argv), true, slash);
    case RemoveSwitch(key) => DropKeyNoLonger(s.argv[1..s.beginArgs], Key(key), slash);
    case InitFromOwnArgv => OwnVectorIsLost(s, slash);
    case _ =>
  }

  lemma {:induction false} DropKeyNoLonger(args: seq<string>, key: string, slash: bool)
    ensures |DropKey(args, key, slash)| <= |args|
    decreases |args|
  {
    if args != [] {
      DropKeyNoLonger(args[..|args| - 1], key, slash);
    }
  }

  /** Each edit keeps the fields in step exactly when its caller sees to that. */
  lemma EditKeepsInv(s: State, e: Edit, slash: bool)
    requires Inv(s, slash)
    ensures Inv(Edited(s, e, slash), slash) <==> EditOk(s, e, slash)
  {
    match e
    case AppendSwitch(name, value) => AppendSwitchKeepsInv(s, name, value, slash);
    case AppendArg(value) => AppendArgKeepsInv(s, value, slash);
    case RemoveSwitch(key) => RemoveSwitchKeepsInv(s, key, slash);
    case AppendArguments(argv) => ReadingKeepsInv(s, AfterProgram(argv), slash);
    case InitFromArgv(argv) =>
      ReadingKeepsInv(State([if argv == [] then "" else Trim(argv[0])], map[], 1), AfterProgram(argv), slash);
    case InitFromOwnArgv => OwnVectorIsLost(s, slash);
    case PrependWrapper(words) => WrapperKeepsInv(s, words, slash);
  }

  function Edits(s: State, es: seq<Edit>, slash: bool): State
    requires InBounds(s)
    decreases |es|
  {
    if es == [] then s
    else
      EditedInBounds(s, es[0], slash);
      Edits(Edited(s, es[0], slash), es[1..], slash)
  }

  /** Every edit of the run is as it should be at its time. */
  predicate AllOk(s: State, es: seq<Edit>, slash: bool)
    requires InBounds(s)
    decreases |es|
  {
    es == [] || (EditOk(s, es[0], slash)
                 && (EditedInBounds(s, es[0], slash); AllOk(Edited(s, es[0], slash), es[1..], slash)))
  }

  /** The fields are in step before the run and after each edit. */
  predicate AlwaysInv(s: State, es: seq<Edit>, slash: bool)
    requires InBounds(s)
    decreases |es|
  {
    Inv(s, slash)
    && (es == [] || (EditedInBounds(s, es[0], slash); AlwaysInv(Edited(s, es[0], slash), es[1..], slash)))
  }

  /** A run of edits keeps `argv`, `switches` and `beginArgs` in step at every moment exactly when
      every edit is as it should be at its time. */
  lemma {:induction false} EditsKeepInv(s: State, es: seq<Edit>, slash: bool)
    requires Inv(s, slash)
    ensures AlwaysInv(s, es, slash) <==> AllOk(s, es, slash)
    ensures AllOk(s, es, slash) ==> Inv(Edits(s, es, slash), slash)
    decreases |es|
  {
    if es != [] {
      EditKeepsInv(s, es[0], slash);
      EditedInBounds(s, es[0], slash);
      if EditOk(s, es[0], slash) {
        EditsKeepInv(Edited(s, es[0], slash), es[1..], slash);
      }
    }
  }

  // ----- the class -----

  class CommandLine {
    const slash: bool
    var argv: seq<string>
    var switches: map<string, string>
    var beginArgs: nat

    function Abs(): State
      reads this
    {
      State(argv, switches, beginArgs)
    }

    constructor (slash: bool)
      ensures this.slash == slash && Abs() == State([""], map[], 1) && Inv(Abs(), slash)
    {
      this.slash := slash;
      argv, switches, beginArgs := [""], map[], 1;
    }

    method InitFromArgv(args: seq<string>)
      modifies this
      ensures Abs() == Init(args, slash)
    {
      argv, switches, beginArgs := [if args == [] then "" else Trim(args[0])], map[], 1;
      AppendSwitchesAndArguments(args);
    }

    /** With the object's own vector by reference: what is read has been emptied before. */
    method InitFromOwnArgv()
      modifies this
      ensures Abs() == InitOwn(slash)
    {
      argv, switches, beginArgs := [""], map[], 1;
      argv := [Trim(argv[0])];
      OwnVectorIsLost(Abs(), slash);
      AppendSwitchesAndArguments(argv);
      assert AfterProgram([""]) == [];
    }

    /** The vector is another one than the object's own. */
    method AppendSwitchesAndArguments(args: seq<string>)
      requires InBounds(Abs())
      modifies this
      ensures Abs() == Parsed(old(Abs()), AfterProgram(args), true, slash)
    {
      var parseSwitches := true;
      var i := 1;
      ReadFromStart(Abs(), args, slash);
      while i < |args|
        invariant 1 <= i
        invariant InBounds(Abs())
        invariant ReadOther(Reader(Abs(), i, parseSwitches), args, slash) == Parsed(old(Abs()), AfterProgram(args), true, slash)
      {
        var arg := Trim(args[i]);
        parseSwitches := parseSwitches && arg != TERMINATOR;
        AppendSwitchOrArg(arg, parseSwitches);
        i := i + 1;
      }
    }

    method AppendSwitchOrArg(arg: string, parseSwitches: bool)
      requires InBounds(Abs())
      modifies this
      ensures InBounds(Abs())
      ensures Abs() == if parseSwitches && IsSwitch(arg, slash)
                       then WithSwitch(old(Abs()), SwitchName(arg), SwitchValue(arg), slash)
                       else WithArg(old(Abs()), arg)
    {
      if parseSwitches && IsSwitch(arg, slash) {
        AppendSwitchNative(SwitchName(arg), SwitchValue(arg));
      } else {
        AppendArgNative(arg);
      }
    }

    method AppendSwitchNative(name: string, value: string)
      requires InBounds(Abs())
      modifies this
      ensures InBounds(Abs()) && Abs() == WithSwitch(old(Abs()), name, value, slash)
    {
      var key := Lower(name);
      var combined := key;
      var prefixLength := PrefixLength(combined, slash);
      switches := switches[key[prefixLength..] := value];
      if prefixLength == 0 {
        combined := "--" + combined;
      } else {
        assert combined == "" + combined;
      }
      if value != "" {
        combined := combined + ("=" + value);
      } else {
        assert combined == combined + "";
      }
      argv := argv[..beginArgs] + [combined] + argv[beginArgs..];
      beginArgs := beginArgs + 1;
    }

    method AppendArgNative(value: string)
      requires InBounds(Abs())
      modifies this`argv
      ensures InBounds(Abs()) && Abs() == WithArg(old(Abs()), value)
    {
      argv := argv + [value];
    }

    method RemoveSwitch(key: View)
      requires InBounds(Abs())
      modifies this
      ensures InBounds(Abs()) && Abs() == WithoutSwitch(old(Abs()), key, slash)
      ensures Inv(old(Abs()), slash) ==> argv[beginArgs..] == old(argv[beginArgs..])
      ensures Inv(old(Abs()), slash) && EndsAtTerminator(key) ==> Inv(Abs(), slash) && Key(key) !in switches
    {
      if Inv(Abs(), slash) {
        RemoveSwitchKeepsInv(Abs(), key, slash);
        WithoutSwitchIs(Abs(), key, slash);
        ViewEnds(key);
      }
      var erased := Whole(key);
      if erased !in switches {
        return;
      }
      switches := switches - {erased};
      var kept := Kept(Key(key));
      DropKeyNoLonger(argv[1..beginArgs], Key(key), slash);
      if |kept| == beginArgs - 1 {
        return;
      }
      argv := argv[..1] + kept + argv[beginArgs..];
      beginArgs := 1 + |kept|;
    }

    /** The switches that are left when one is removed. */
    method Kept(key: string) returns (kept: seq<string>)
      requires InBounds(Abs())
      ensures kept == DropKey(argv[1..beginArgs], key, slash)
    {
      ghost var section := argv[1..beginArgs];
      kept := [];
      var i := 1;
      while i < beginArgs
        invariant 1 <= i <= beginArgs
        invariant kept == DropKey(section[..i - 1], key, slash)
      {
        assert section[..i][..i - 1] == section[..i - 1] && section[i - 1] == argv[i];
        if !HasKey(argv[i], key, slash) {
          kept := kept + [argv[i]];
        }
        i := i + 1;
      }
      assert section[..beginArgs - 1] == section;
    }

    method PrependWrapper(words: seq<string>)
      requires InBounds(Abs())
      modifies this`argv, this`beginArgs
      ensures InBounds(Abs()) && Abs() == WithWrapper(old(Abs()), words)
    {
      argv := words + argv;
      beginArgs := beginArgs + |words|;
    }

    /** The arguments, without the first terminator. */
    method GetArgs() returns (args: seq<string>)
      requires InBounds(Abs())
      ensures var all := argv[beginArgs..];
              if TERMINATOR in all then
                exists k :: 0 <= k < |all| && all[k] == TERMINATOR && TERMINATOR !in all[..k]
                            && args == all[..k] + all[k + 1..]
              else args == all
    {
      args := argv[beginArgs..];
      var k := 0;
      while k < |args| && args[k] != TERMINATOR
        invariant k <= |args| && TERMINATOR !in args[..k]
      {
        k := k + 1;
      }
      if k < |args| {
        args := args[..k] + args[k + 1..];
      }
    }

    /** In a command line that is in step, the last value the key has in `argv`. */
    method GetSwitchValueNative(key: string) returns (value: string)
      ensures key !in switches ==> value == ""
      ensures key in switches ==> value == switches[key]
      ensures Inv(Abs(), slash) ==>
                var filed := Filed(argv[1..beginArgs], slash);
                value == if key in filed then filed[key] else ""
    {
      value := if key in switches then switches[key] else "";
    }
  }
}
