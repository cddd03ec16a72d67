/** Versions: dotted numbers, compared as if both went on with zeros for ever. */
module Versions {
  import opened Wrappers
  import opened Text

  const UINT32_MAX := 0xFFFF_FFFF

  // ----- the order -----

  /** The number at a position; zero past the end. */
  function At(v: seq<nat>, i: nat): nat {
    if i < |v| then v[i] else 0
  }

  ghost predicate Same(a: seq<nat>, b: seq<nat>) {
    forall i: nat :: At(a, i) == At(b, i)
  }

  /** The first difference is at `i`, and there `a` is smaller. */
  ghost predicate LessAt(a: seq<nat>, b: seq<nat>, i: nat) {
    At(a, i) < At(b, i) && forall j: nat :: j < i ==> At(a, j) == At(b, j)
  }

  ghost predicate Less(a: seq<nat>, b: seq<nat>) {
    exists i: nat :: LessAt(a, b, i)
  }

  /** Only one of smaller, same and greater holds. */
  lemma Exclusive(a: seq<nat>, b: seq<nat>)
    ensures !(Less(a, b) && Less(b, a)) && !(Less(a, b) && Same(a, b))
  {
    if Less(a, b) {
      var i: nat :| LessAt(a, b, i);
      assert At(a, i) != At(b, i);
    }
  }

  /** Versions in order stay in order when equals are put in their place. */
  lemma Transitive(a: seq<nat>, b: seq<nat>, c: seq<nat>)
    requires (Less(a, b) || Same(a, b)) && (Less(b, c) || Same(b, c))
    ensures if Same(a, b) && Same(b, c) then Same(a, c) else Less(a, c)
  {
    if Same(a, b) {
      if Less(b, c) {
        var j: nat :| LessAt(b, c, j);
        assert LessAt(a, c, j);
      }
    } else {
      Exclusive(a, b);
      var i: nat :| LessAt(a, b, i);
      if Same(b, c) {
        assert LessAt(a, c, i);
      } else {
        var j: nat :| LessAt(b, c, j);
        assert LessAt(a, c, if i < j then i else j);
      }
    }
  }

  /** `CompareVersionComponents` decides which of the three holds. */
  method CompareVersionComponents(a: seq<nat>, b: seq<nat>) returns (r: int)
    ensures -1 <= r <= 1
    ensures r == 0 <==> Same(a, b)
    ensures r == -1 <==> Less(a, b)
    ensures r == 1 <==> Less(b, a)
  {
    Exclusive(a, b);
    Exclusive(b, a);
    var count := if |a| < |b| then |a| else |b|;
    for i := 0 to count
      invariant forall j: nat :: j < i ==> At(a, j) == At(b, j)
    {
      if a[i] > b[i] {
        assert LessAt(b, a, i);
        return 1;
      }
      if a[i] < b[i] {
        assert LessAt(a, b, i);
        return -1;
      }
    }
    if |a| > |b| {
      for i := count to |a|
        invariant forall j: nat :: j < i ==> At(a, j) == At(b, j)
      {
        if a[i] > 0 {
          assert LessAt(b, a, i);
          return 1;
        }
      }
    } else if |a| < |b| {
      for i := count to |b|
        invariant forall j: nat :: j < i ==> At(a, j) == At(b, j)
      {
        if b[i] > 0 {
          assert LessAt(a, b, i);
          return -1;
        }
      }
    }
    return 0;
  }

  /** Comparing is a total preorder whose ties are the versions that pad to the same numbers: exactly
      one of three holds, swapping turns it around, and it is transitive. */
  lemma ComparisonIsTotalPreorder(a: seq<nat>, b: seq<nat>, c: seq<nat>)
    ensures Less(a, b) || Same(a, b) || Less(b, a)
    ensures !(Less(a, b) && Same(a, b)) && !(Less(a, b) && Less(b, a))
    ensures !Less(b, a) && !Less(c, b) ==> !Less(c, a)
  {
    Exclusive(a, b);
    Decided(a, b, 0);
    Decided(b, c, 0);
    if !Less(b, a) && !Less(c, b) {
      Transitive(a, b, c);
      Exclusive(a, c);
    }
  }

  lemma {:induction false} Decided(a: seq<nat>, b: seq<nat>, i: nat)
    requires forall j: nat :: j < i ==> At(a, j) == At(b, j)
    ensures Less(a, b) || Same(a, b) || Less(b, a)
    decreases |a| + |b| - i
  {
    if At(a, i) < At(b, i) {
      assert LessAt(a, b, i);
    } else if At(b, i) < At(a, i) {
      assert LessAt(b, a, i);
    } else if i < |a| + |b| {
      Decided(a, b, i + 1);
    }
  }

  // ----- wildcards -----

  /** The version starts with the numbers, counting zeros past its end. */
  ghost predicate StartsWith(v: seq<nat>, numbers: seq<nat>) {
    forall i :: 0 <= i < |numbers| ==> At(v, i) == numbers[i]
  }

  /** Comparing with `numbers.*`. */
  method CompareToWildcard(components: seq<nat>, parsed: seq<nat>) returns (r: int)
    requires components != [] && parsed != []
    ensures -1 <= r <= 1
    ensures r == 0 <==> StartsWith(components, parsed)
    ensures r == -1 ==> Less(components, parsed)
    ensures r == 1 ==> Less(parsed, components)
  {
    Exclusive(components, parsed);
    r := CompareVersionComponents(components, parsed);
    if r == -1 || r == 0 {
      assert r == 0 ==> forall i :: 0 <= i < |parsed| ==> At(parsed, i) == parsed[i];
      if r == -1 {
        ghost var i: nat :| LessAt(components, parsed, i);
        assert At(components, i) != parsed[i];
      }
      return r;
    }
    ghost var difference: nat :| LessAt(parsed, components, difference);
    var minNumComp := if |components| < |parsed| then |components| else |parsed|;
    for i := 0 to minNumComp
      invariant forall j :: 0 <= j < i ==> components[j] == parsed[j]
    {
      if components[i] != parsed[i] {
        assert At(components, i) != parsed[i];
        return 1;
      }
    }
    return 0;
  }

  // ----- numbers in text -----

  predicate IsDigit(c: char) {
    '0' <= c <= '9'
  }

  predicate AllDigits(s: string) {
    forall i :: 0 <= i < |s| ==> IsDigit(s[i])
  }

  function FromDigits(s: string): nat
    requires AllDigits(s)
  {
    if s == "" then 0 else 10 * FromDigits(s[..|s| - 1]) + (s[|s| - 1] - '0') as int
  }

  function ToDigit(n: nat): (c: char)
    requires n < 10
    ensures IsDigit(c) && (c - '0') as int == n
  {
    '0' + n as char
  }

  /** `NumberToString`. */
  function ToDigits(n: nat): (s: string)
    ensures s != "" && AllDigits(s)
  {
    if n < 10 then [ToDigit(n)] else ToDigits(n / 10) + [ToDigit(n % 10)]
  }

  lemma {:induction false} ReadsDigits(n: nat)
    ensures FromDigits(ToDigits(n)) == n
  {
    if n >= 10 {
      ReadsDigits(n / 10);
      assert ToDigits(n)[..|ToDigits(n)| - 1] == ToDigits(n / 10);
    } else {
      assert [ToDigit(n)][..0] == "";
      assert FromDigits("") == 0;
    }
  }

  predicate LeadingZero(s: string) {
    |s| > 1 && s[0] == '0'
  }

  lemma {:induction false} NoLeadingZero(n: nat)
    ensures !LeadingZero(ToDigits(n)) && (ToDigits(n)[0] == '0' <==> n == 0)
  {
    if n >= 10 {
      NoLeadingZero(n / 10);
    }
  }

  lemma {:induction false} PositiveDigits(s: string)
    requires s != "" && AllDigits(s) && s[0] != '0'
    ensures FromDigits(s) > 0
  {
    if |s| > 1 {
      PositiveDigits(s[..|s| - 1]);
    }
  }

  /** Printing what was read gives the same text, exactly when it has no leading zero. */
  lemma {:induction false} WritesDigits(s: string)
    requires s != "" && AllDigits(s)
    ensures ToDigits(FromDigits(s)) == s <==> !LeadingZero(s)
  {
    if LeadingZero(s) {
      NoLeadingZero(FromDigits(s));
    } else {
      var front, last := s[..|s| - 1], s[|s| - 1];
      assert s == front + [last];
      if |s| == 1 {
        assert FromDigits(front) == 0;
      } else {
        WritesDigits(front);
        PositiveDigits(front);
        assert FromDigits(s) / 10 == FromDigits(front);
      }
    }
  }

  lemma {:induction false} DigitsGrow(s: string, i: nat)
    requires AllDigits(s) && i <= |s|
    ensures FromDigits(s[..i]) <= FromDigits(s)
    decreases |s|
  {
    if i == |s| {
      assert s[..i] == s;
    } else {
      DigitsGrow(s[..|s| - 1], i);
      assert s[..|s| - 1][..i] == s[..i];
    }
  }

  /** Digits only, and their value fits. */
  predicate IsNumber(s: string) {
    s != "" && AllDigits(s) && FromDigits(s) <= UINT32_MAX
  }

  function AfterPlus(s: string): string {
    if s != "" && s[0] == '+' then s[1..] else s
  }

  /** Multiplies and adds, and gives up just before the number would not fit any more. */
  method StringToUint(input: string) returns (output: Option<nat>)
    ensures var digits := if "+" <= input then input[1..] else input;
            output == if IsNumber(digits) then Some(FromDigits(digits)) else None
  {
    var s := AfterPlus(input);
    if s == "" {
      return None;
    }
    var n: nat := 0;
    assert s[..0] == "";
    for i := 0 to |s|
      invariant AllDigits(s[..i]) && n == FromDigits(s[..i]) && n <= UINT32_MAX
    {
      if !IsDigit(s[i]) {
        return None;
      }
      var digit := (s[i] - '0') as int;
      assert s[..i + 1][..i] == s[..i];
      assert FromDigits(s[..i + 1]) == 10 * n + digit;
      if i != 0 && (n > UINT32_MAX / 10 || (n == UINT32_MAX / 10 && digit > UINT32_MAX % 10)) {
        if AllDigits(s) {
          DigitsGrow(s, i + 1);
        }
        return None;
      }
      n := 10 * n + digit;
    }
    assert s[..|s|] == s;
    return Some(n);
  }

  // ----- versions in text -----

  /** Splits at the dots; nothing splits into nothing. */
  function Split(s: string): seq<string> {
    if s == "" then [] else Pieces(s)
  }

  function Pieces(s: string): (r: seq<string>)
    ensures r != []
    decreases |s|
  {
    var dot := IndexOf(s, '.');
    if dot == |s| then [s] else [s[..dot]] + Pieces(s[dot + 1..])
  }

  predicate AllNumbers(pieces: seq<string>) {
    forall i :: 0 <= i < |pieces| ==> IsNumber(pieces[i])
  }

  function Values(pieces: seq<string>): (r: seq<nat>)
    requires AllNumbers(pieces)
    ensures |r| == |pieces|
  {
    if pieces == [] then [] else [FromDigits(pieces[0])] + Values(pieces[1..])
  }

  lemma {:induction false} ValuesSnoc(pieces: seq<string>, piece: string)
    requires AllNumbers(pieces) && IsNumber(piece)
    ensures AllNumbers(pieces + [piece]) && Values(pieces + [piece]) == Values(pieces) + [FromDigits(piece)]
  {
    if pieces != [] {
      assert (pieces + [piece])[1..] == pieces[1..] + [piece];
      ValuesSnoc(pieces[1..], piece);
    }
  }

  /** Numbers between dots, the first without leading zeros. */
  predicate IsVersion(pieces: seq<string>) {
    pieces != [] && AllNumbers(pieces) && !LeadingZero(pieces[0])
  }

  function Parse(s: string): Option<seq<nat>> {
    if IsVersion(Split(s)) then Some(Values(Split(s))) else None
  }

  method ParseVersionNumbers(versionStr: string) returns (parsed: Option<seq<nat>>)
    ensures parsed == Parse(versionStr)
  {
    var numbers := Split(versionStr);
    if numbers == [] {
      return None;
    }
    var values: seq<nat> := [];
    for i := 0 to |numbers|
      invariant AllNumbers(numbers[..i]) && values == Values(numbers[..i])
      invariant i > 0 ==> !LeadingZero(numbers[0])
    {
      var it := numbers[i];
      if it != "" && it[0] == '+' {
        assert !IsDigit(it[0]);
        return None;
      }
      var num := StringToUint(it);
      if num.None? {
        return None;
      }
      WritesDigits(it);
      if i == 0 && ToDigits(num.value) != it {
        return None;
      }
      ValuesSnoc(numbers[..i], it);
      assert numbers[..i + 1] == numbers[..i] + [it];
      values := values + [num.value];
    }
    assert numbers[..|numbers|] == numbers;
    return Some(values);
  }

  function Joined(pieces: seq<string>): string
    requires pieces != []
  {
    if |pieces| == 1 then pieces[0] else pieces[0] + "." + Joined(pieces[1..])
  }

  function Texts(components: seq<nat>): (r: seq<string>)
    ensures |r| == |components|
  {
    if components == [] then [] else [ToDigits(components[0])] + Texts(components[1..])
  }

  function Printed(components: seq<nat>): string
    requires components != []
  {
    Joined(Texts(components))
  }

  method GetString(components: seq<nat>) returns (versionStr: string)
    requires components != []
    ensures versionStr == Printed(components)
  {
    versionStr := "";
    var count := |components|;
    for i := 0 to count - 1
      invariant versionStr + Printed(components[i..]) == Printed(components)
    {
      var rest := components[i..];
      assert rest[1..] == components[i + 1..];
      assert Texts(rest)[1..] == Texts(rest[1..]);
      assert versionStr + (ToDigits(components[i]) + "." + Printed(rest[1..]))
          == versionStr + ToDigits(components[i]) + "." + Printed(rest[1..]);
      versionStr := versionStr + ToDigits(components[i]);
      versionStr := versionStr + ".";
    }
    versionStr := versionStr + ToDigits(components[count - 1]);
  }

  predicate Undotted(pieces: seq<string>) {
    forall i :: 0 <= i < |pieces| ==> '.' !in pieces[i]
  }

  lemma NumbersAreUndotted(pieces: seq<string>)
    requires AllNumbers(pieces)
    ensures Undotted(pieces)
  {
    forall i | 0 <= i < |pieces| ensures '.' !in pieces[i] {
      assert IsNumber(pieces[i]);
    }
  }

  lemma {:induction false} ValueAt(pieces: seq<string>, i: nat)
    requires AllNumbers(pieces) && i < |pieces|
    ensures Values(pieces)[i] == FromDigits(pieces[i])
  {
    if i > 0 {
      ValueAt(pieces[1..], i - 1);
    }
  }

  /** What is a version: text between dots that is all digits, none of it empty, each number of 32 bits,
      and no zero in front of the first.  Its numbers are those between the dots. */
  lemma ParsesExactly(pieces: seq<string>)
    requires pieces != [] && Undotted(pieces)
    ensures Parse(Joined(pieces)).Some?
       <==> && (forall i :: 0 <= i < |pieces| ==>
                  pieces[i] != "" && AllDigits(pieces[i]) && FromDigits(pieces[i]) < 0x1_0000_0000)
            && !(|pieces[0]| > 1 && pieces[0][0] == '0')
    ensures Parse(Joined(pieces)).Some? ==>
              var v := Parse(Joined(pieces)).value;
              |v| == |pieces| && forall i :: 0 <= i < |pieces| ==> v[i] == FromDigits(pieces[i])
  {
    SplitJoined(pieces);
    if Joined(pieces) == "" {
      assert pieces[0] == "";
    } else if Parse(Joined(pieces)).Some? {
      forall i | 0 <= i < |pieces| ensures Values(pieces)[i] == FromDigits(pieces[i]) {
        ValueAt(pieces, i);
        assert IsNumber(pieces[i]);
      }
    } else if forall i :: 0 <= i < |pieces| ==>
                pieces[i] != "" && AllDigits(pieces[i]) && FromDigits(pieces[i]) < 0x1_0000_0000 {
      assert AllNumbers(pieces);
    }
  }

  lemma {:induction false} SplitJoined(pieces: seq<string>)
    requires pieces != [] && Undotted(pieces)
    ensures Pieces(Joined(pieces)) == pieces
  {
    var s := Joined(pieces);
    var dot := IndexOf(s, '.');
    if |pieces| == 1 {
      assert dot == |s|;
    } else {
      var rest := Joined(pieces[1..]);
      IndexOfIs(s, '.', |pieces[0]|);
      assert s[..dot] == pieces[0] && s[dot + 1..] == rest;
      SplitJoined(pieces[1..]);
    }
  }

  lemma PiecesFirst(s: string, head: string, tail: string)
    requires IndexOf(s, '.') < |s| && head == s[..IndexOf(s, '.')] && tail == s[IndexOf(s, '.') + 1..]
    ensures Pieces(s) == [head] + Pieces(tail) && s == head + "." + tail
  {
  }

  lemma JoinedFirst(head: string, rest: seq<string>)
    requires rest != []
    ensures Joined([head] + rest) == head + "." + Joined(rest)
  {
    assert ([head] + rest)[1..] == rest;
  }

  lemma {:induction false} JoinedSplit(s: string)
    ensures Joined(Pieces(s)) == s
    decreases |s|
  {
    var dot := IndexOf(s, '.');
    if dot < |s| {
      var head, tail := s[..dot], s[dot + 1..];
      PiecesFirst(s, head, tail);
      JoinedSplit(tail);
      JoinedFirst(head, Pieces(tail));
    }
  }

  predicate Fit(components: seq<nat>) {
    forall i :: 0 <= i < |components| ==> components[i] <= UINT32_MAX
  }

  predicate NoLeadingZeros(pieces: seq<string>) {
    pieces == [] || (!LeadingZero(pieces[0]) && NoLeadingZeros(pieces[1..]))
  }

  lemma {:induction false} TextsAreNumbers(components: seq<nat>)
    requires Fit(components)
    ensures AllNumbers(Texts(components)) && Values(Texts(components)) == components
    ensures NoLeadingZeros(Texts(components))
  {
    if components != [] {
      ReadsDigits(components[0]);
      NoLeadingZero(components[0]);
      TextsAreNumbers(components[1..]);
      assert Texts(components)[1..] == Texts(components[1..]);
    }
  }

  /** Parsing what `GetString` printed gives the version back. */
  lemma ParsePrinted(components: seq<nat>)
    requires components != [] && Fit(components)
    ensures Parse(Printed(components)) == Some(components)
  {
    TextsAreNumbers(components);
    NumbersAreUndotted(Texts(components));
    SplitJoined(Texts(components));
  }

  /** Printing what was parsed gives the text back, exactly when no number in it has a leading zero. */
  lemma PrintParsed(s: string)
    requires Parse(s).Some?
    ensures Printed(Parse(s).value) == s <==> NoLeadingZeros(Split(s))
  {
    var pieces := Split(s);
    var values := Values(pieces);
    TextsOfValues(pieces);
    JoinedSplit(s);
    TextsAreNumbers(values);
    if Printed(values) == s {
      NumbersAreUndotted(Texts(values));
      SplitJoined(Texts(values));
      assert Texts(values) == pieces;
    }
  }

  lemma {:induction false} TextsOfValues(pieces: seq<string>)
    requires AllNumbers(pieces)
    ensures Fit(Values(pieces))
    ensures Texts(Values(pieces)) == pieces <==> NoLeadingZeros(pieces)
  {
    if pieces != [] {
      var first, rest := pieces[0], pieces[1..];
      assert IsNumber(first);
      WritesDigits(first);
      TextsOfValues(rest);
      ValuesFirst(first, rest);
      assert pieces == [first] + rest;
      assert ([ToDigits(FromDigits(first))] + Texts(Values(rest)))[1..] == Texts(Values(rest));
    }
  }

  lemma ValuesFirst(first: string, rest: seq<string>)
    requires IsNumber(first) && AllNumbers(rest)
    ensures AllNumbers([first] + rest) && Values([first] + rest) == [FromDigits(first)] + Values(rest)
    ensures Texts(Values([first] + rest)) == [ToDigits(FromDigits(first))] + Texts(Values(rest))
  {
    assert ([first] + rest)[1..] == rest;
    assert ([FromDigits(first)] + Values(rest))[1..] == Values(rest);
  }

  // ----- comparing with a wildcard string -----

  predicate HasWildcard(s: string) {
    |s| >= 2 && s[|s| - 2..] == ".*"
  }

  function Numbers(wildcard: string): Option<seq<nat>> {
    Parse(if HasWildcard(wildcard) then wildcard[..|wildcard| - 2] else wildcard)
  }

  /** A star behind a dot at the end makes a wildcard, and then the text itself is no version. */
  lemma WildcardIs(wildcard: string)
    ensures HasWildcard(wildcard) <==> exists start :: wildcard == start + ".*"
    ensures forall start :: wildcard == start + ".*" ==> wildcard[..|wildcard| - 2] == start
    ensures HasWildcard(wildcard) ==> Parse(wildcard) == None
  {
    if HasWildcard(wildcard) {
      var start := wildcard[..|wildcard| - 2];
      assert wildcard == start + ".*";
      var i := LastPiece(wildcard);
      assert !AllNumbers(Pieces(wildcard));
    }
  }

  lemma StarIsNoNumber(s: string)
    requires s != "" && s[|s| - 1] == '*'
    ensures !IsNumber(s)
  {
    assert !IsDigit(s[|s| - 1]);
  }

  lemma {:induction false} LastPiece(s: string) returns (i: nat)
    requires s != "" && s[|s| - 1] == '*'
    ensures i < |Pieces(s)| && !IsNumber(Pieces(s)[i])
    decreases |s|
  {
    var dot := IndexOf(s, '.');
    if dot == |s| {
      StarIsNoNumber(s);
      i := 0;
    } else {
      PiecesFirst(s, s[..dot], s[dot + 1..]);
      i := LastPiece(s[dot + 1..]);
      i := i + 1;
    }
  }

  method CompareToWildcardString(components: seq<nat>, wildcard: string) returns (r: int)
    requires components != [] && Numbers(wildcard).Some?
    ensures Parse(wildcard).Some? ==>
              var numbers := Parse(wildcard).value;
              && (r == 0 <==> Same(components, numbers))
              && (r < 0 ==> Less(components, numbers)) && (r > 0 ==> Less(numbers, components))
    ensures forall start :: wildcard == start + ".*" ==>
              Parse(start).Some?
              && var numbers := Parse(start).value;
              && (r == 0 <==> StartsWith(components, numbers))
              && (r < 0 ==> Less(components, numbers)) && (r > 0 ==> Less(numbers, components))
    ensures Parse(wildcard).Some? || exists start :: wildcard == start + ".*"
  {
    WildcardIs(wildcard);
    if !HasWildcard(wildcard) {
      var version := ParseVersionNumbers(wildcard);
      r := CompareVersionComponents(components, version.value);
    } else {
      var parsed := ParseVersionNumbers(wildcard[..|wildcard| - 2]);
      r := CompareToWildcard(components, parsed.value);
    }
  }

  /** A leading zero behind the first dot is accepted and not printed again. */
  lemma LeadingZeroIsLost()
    ensures Parse("1.01") == Some([1, 1]) && Printed([1, 1]) != "1.01"
  {
    IndexOfIs("1.01", '.', 1);
    IndexOfIs("01", '.', 2);
    assert "1.01"[2..] == "01" && "1.01"[..1] == "1";
    assert Split("1.01") == ["1", "01"];
    assert FromDigits("") == 0;
    assert "1"[..0] == "" && FromDigits("1") == 1;
    assert "0"[..0] == "" && FromDigits("0") == 0;
    assert "01"[..1] == "0" && FromDigits("01") == 1;
    assert ["1", "01"][1..] == ["01"] && ["01"][1..] == [];
    assert Values(["1", "01"]) == [1, 1];
    PrintParsed("1.01");
    assert LeadingZero("01");
    assert !NoLeadingZeros(["01"]);
  }
}
