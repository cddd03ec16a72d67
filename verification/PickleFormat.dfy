/** The bytes of a pickle: how values are laid out, and how they are read back. */
module PickleFormat {
  import opened Wrappers
  import opened Bits

  type Byte = n: int | 0 <= n < 256

  const INT_MAX := 0x7FFF_FFFF
  const UINT32_LIMIT := 0x1_0000_0000

  // ----- numbers in little-endian order -----

  function Pow256(k: nat): (r: nat)
    ensures r > 0
  {
    if k == 0 then 1 else 256 * Pow256(k - 1)
  }

  function Little(n: nat, k: nat): (bs: seq<Byte>)
    ensures |bs| == k
  {
    if k == 0 then [] else [n % 256] + Little(n / 256, k - 1)
  }

  function FromLittle(bs: seq<Byte>): nat {
    if bs == [] then 0 else bs[0] + 256 * FromLittle(bs[1..])
  }

  lemma {:induction false} LittleReads(n: nat, k: nat)
    requires n < Pow256(k)
    ensures FromLittle(Little(n, k)) == n
  {
    if k > 0 {
      LittleReads(n / 256, k - 1);
      assert Little(n, k)[1..] == Little(n / 256, k - 1);
    }
  }

  lemma Powers()
    ensures Pow256(1) == 0x100 && Pow256(2) == 0x1_0000
    ensures Pow256(4) == 0x1_0000_0000 && Pow256(8) == 0x1_0000_0000_0000_0000
  {
    assert Pow256(2) == 256 * Pow256(1);
    assert Pow256(3) == 256 * Pow256(2);
    assert Pow256(4) == 256 * Pow256(3);
    assert Pow256(5) == 256 * Pow256(4);
    assert Pow256(6) == 256 * Pow256(5);
    assert Pow256(7) == 256 * Pow256(6);
    assert Pow256(8) == 256 * Pow256(7);
  }

  /** How many numbers fit into a word of `k` bytes. */
  function Limit(k: nat): (r: nat)
    ensures r > 0
  {
    if k == 2 then 0x1_0000 else if k == 4 then 0x1_0000_0000 else 0x1_0000_0000_0000_0000
  }

  /** Two's complement. */
  function Unsigned(n: int, k: nat): nat
    requires -(Limit(k) as int) <= n
  {
    if n < 0 then n + Limit(k) else n
  }

  function Signed(n: nat, k: nat): int {
    if 2 * n < Limit(k) then n else n - Limit(k)
  }

  predicate Fits(n: int, k: nat) {
    -(Limit(k) as int) <= 2 * n < Limit(k)
  }

  // ----- the values that can be written -----

  /** The types there are readers and writers for.  To read plain bytes one has to know how many. */
  datatype Kind =
    | BoolKind | IntKind | UInt16Kind | UInt32Kind | Int64Kind | UInt64Kind
    | FloatKind | DoubleKind | StringKind | String16Kind | DataKind | BytesKind(length: int)

  /** A value of a type: a number, or an image.  Floating-point values are their byte images; wide
      strings are the images of their code units, two bytes each. */
  datatype Item = Number(kind: Kind, n: int) | Image(kind: Kind, bs: seq<Byte>)

  predicate Numeric(kind: Kind) {
    kind.BoolKind? || kind.IntKind? || kind.UInt16Kind? || kind.UInt32Kind? || kind.Int64Kind? || kind.UInt64Kind?
  }

  predicate IsSigned(kind: Kind) {
    kind.IntKind? || kind.Int64Kind?
  }

  /** Strings and data carry their length; everything else has a size the reader knows. */
  predicate Counted(kind: Kind) {
    kind.StringKind? || kind.String16Kind? || kind.DataKind?
  }

  /** How many bytes a number is written in.  A boolean is written as an int. */
  function Stored(kind: Kind): nat {
    match kind
    case UInt16Kind => 2
    case Int64Kind => 8
    case UInt64Kind => 8
    case _ => 4
  }

  /** How many bytes a reader takes; a boolean is read as one. */
  function Width(kind: Kind): int {
    match kind
    case BoolKind => 1
    case DoubleKind => 8
    case BytesKind(length) => length
    case _ => Stored(kind)
  }

  predicate InRange(x: Item) {
    match x
    case Number(kind, n) =>
      Numeric(kind) && if kind.BoolKind? then n == 0 || n == 1
                       else if IsSigned(kind) then Fits(n, Stored(kind))
                       else 0 <= n < Limit(Stored(kind))
    case Image(kind, bs) =>
      !Numeric(kind) && if Counted(kind) then |bs| <= INT_MAX && (kind.String16Kind? ==> |bs| % 2 == 0)
                        else |bs| == Width(kind)
  }

  // ----- writing -----

  function Zeros(n: nat): (z: seq<Byte>)
    ensures |z| == n
  {
    if n == 0 then [] else [0] + Zeros(n - 1)
  }

  /** Every write is padded with zeros to a multiple of four. */
  function Padded(bs: seq<Byte>): (r: seq<Byte>)
    ensures |r| == Align4(|bs|)
  {
    bs + Zeros(Align4(|bs|) - |bs|)
  }

  /** The length that is written: bytes, or two-byte code units. */
  function Length(size: nat, wide: bool): nat {
    if wide then size / 2 else size
  }

  function Raw(x: Item): seq<Byte>
    requires InRange(x)
  {
    match x
    case Number(kind, n) => Little(Unsigned(n, Stored(kind)), Stored(kind))
    case Image(_, bs) => bs
  }

  function Encode(x: Item): seq<Byte>
    requires InRange(x)
  {
    var bs := Raw(x);
    if Counted(x.kind) then Padded(Little(Length(|bs|, x.kind.String16Kind?), 4)) + Padded(bs) else Padded(bs)
  }

  predicate AllInRange(xs: seq<Item>) {
    forall k :: 0 <= k < |xs| ==> InRange(xs[k])
  }

  function EncodeAll(xs: seq<Item>): seq<Byte>
    requires AllInRange(xs)
  {
    if xs == [] then [] else Encode(xs[0]) + EncodeAll(xs[1..])
  }

  // ----- reading: what is left of the payload gets shorter -----

  /** Moves on by the padded size, but never past the end. */
  function Advance(rest: seq<Byte>, size: nat): seq<Byte> {
    if |rest| < Align4(size) then [] else rest[Align4(size)..]
  }

  /** The next `size` bytes; a read that does not fit moves to the end and gives nothing. */
  function Take(rest: seq<Byte>, size: int): (Option<seq<Byte>>, seq<Byte>) {
    if size < 0 || |rest| < size then (None, []) else (Some(rest[..size]), Advance(rest, size))
  }

  function TakeInt(rest: seq<Byte>): (Option<int>, seq<Byte>) {
    var (bs, next) := Take(rest, 4);
    (if bs.None? then None else Some(Signed(FromLittle(bs.value), 4)), next)
  }

  /** A length and then that many bytes, or two-byte units.  A length of units whose number of
      bytes is negative or overflows is refused without moving to the end. */
  function TakeCounted(rest: seq<Byte>, wide: bool): (Option<seq<Byte>>, seq<Byte>) {
    var (count, next) := TakeInt(rest);
    if count.None? then (None, next)
    else if wide then
      if 0 <= 2 * count.value <= INT_MAX then Take(next, 2 * count.value) else (None, next)
    else Take(next, count.value)
  }

  /** The value in the bytes. */
  function Make(kind: Kind, bs: seq<Byte>): Item {
    if !Numeric(kind) then Image(kind, bs)
    else if kind.BoolKind? then Number(kind, if FromLittle(bs) != 0 then 1 else 0)
    else if IsSigned(kind) then Number(kind, Signed(FromLittle(bs), Stored(kind)))
    else Number(kind, FromLittle(bs))
  }

  function Read(rest: seq<Byte>, kind: Kind): (Option<Item>, seq<Byte>) {
    var (bs, next) := if Counted(kind) then TakeCounted(rest, kind.String16Kind?) else Take(rest, Width(kind));
    (if bs.None? then None else Some(Make(kind, bs.value)), next)
  }

  function ReadAll(rest: seq<Byte>, kinds: seq<Kind>): (Option<seq<Item>>, seq<Byte>)
    decreases |kinds|
  {
    if kinds == [] then (Some([]), rest)
    else
      var (x, next) := Read(rest, kinds[0]);
      if x.None? then (None, next)
      else
        var (xs, last) := ReadAll(next, kinds[1..]);
        (if xs.None? then None else Some([x.value] + xs.value), last)
  }

  // ----- what was written is read -----

  lemma SignedUnsigned(n: int, k: nat)
    requires Fits(n, k)
    ensures Unsigned(n, k) < Limit(k) && Signed(Unsigned(n, k), k) == n
  {
  }

  lemma MakeNumber(x: Item)
    requires InRange(x) && x.Number? && !x.kind.BoolKind?
    ensures Make(x.kind, Raw(x)) == x
  {
    var k := Stored(x.kind);
    if IsSigned(x.kind) {
      SignedUnsigned(x.n, k);
    }
    Powers();
    LittleReads(Unsigned(x.n, k), k);
  }

  /** The reader's bytes are the front of the writer's, padded alike, and hold the value. */
  lemma MakeRaw(x: Item)
    requires InRange(x) && !Counted(x.kind)
    ensures var bs := Raw(x);
            0 <= Width(x.kind) <= |bs| && Align4(Width(x.kind)) == Align4(|bs|)
            && Make(x.kind, bs[..Width(x.kind)]) == x
  {
    var bs := Raw(x);
    if x.kind.BoolKind? {
      assert bs[0] == x.n;
      assert bs[..1] == [x.n];
      assert FromLittle([x.n]) == x.n + 256 * FromLittle([]);
    } else {
      assert bs[..|bs|] == bs;
      if x.Number? {
        MakeNumber(x);
      }
    }
  }

  lemma Assoc<T>(a: seq<T>, b: seq<T>, c: seq<T>)
    ensures (a + b) + c == a + (b + c)
  {
  }

  lemma TakeWritten(bs: seq<Byte>, width: nat, after: seq<Byte>)
    requires width <= |bs| && Align4(width) == Align4(|bs|)
    ensures Take(Padded(bs) + after, width) == (Some(bs[..width]), after)
  {
    var all := Padded(bs) + after;
    assert all[..width] == bs[..width];
    assert all[|Padded(bs)|..] == after;
  }

  lemma TakeCountedWritten(bs: seq<Byte>, wide: bool, after: seq<Byte>)
    requires |bs| <= INT_MAX && (wide ==> |bs| % 2 == 0)
    ensures TakeCounted(Padded(Little(Length(|bs|, wide), 4)) + Padded(bs) + after, wide) == (Some(bs), after)
  {
    var count := Little(Length(|bs|, wide), 4);
    Assoc(Padded(count), Padded(bs), after);
    TakeWritten(count, 4, Padded(bs) + after);
    assert count[..4] == count;
    assert Signed(FromLittle(count), 4) == Length(|bs|, wide) by {
      Powers();
      LittleReads(Length(|bs|, wide), 4);
    }
    TakeWritten(bs, |bs|, after);
    assert bs[..|bs|] == bs;
  }

  /** A value reads back, whatever was written after it. */
  lemma ReadEncoded(x: Item, after: seq<Byte>)
    requires InRange(x)
    ensures Read(Encode(x) + after, x.kind) == (Some(x), after)
  {
    if Counted(x.kind) {
      TakeCountedWritten(Raw(x), x.kind.String16Kind?, after);
    } else {
      MakeRaw(x);
      TakeWritten(Raw(x), Width(x.kind), after);
    }
  }

  function Kinds(xs: seq<Item>): seq<Kind> {
    if xs == [] then [] else [xs[0].kind] + Kinds(xs[1..])
  }

  lemma ReadAllStep(rest: seq<Byte>, x: Item, next: seq<Byte>, xs: seq<Item>, last: seq<Byte>)
    requires Read(rest, x.kind) == (Some(x), next)
    requires ReadAll(next, Kinds(xs)) == (Some(xs), last)
    ensures ReadAll(rest, Kinds([x] + xs)) == (Some([x] + xs), last)
  {
    assert ([x] + xs)[1..] == xs;
    assert Kinds([x] + xs)[1..] == Kinds(xs);
  }

  /** Any sequence of writes, read back with the matching reads, gives the same values and stops
      where the writes stopped. */
  lemma {:induction false} RoundTrip(xs: seq<Item>, after: seq<Byte>)
    requires AllInRange(xs)
    ensures ReadAll(EncodeAll(xs) + after, Kinds(xs)) == (Some(xs), after)
    decreases |xs|
  {
    if xs == [] {
      assert [] + after == after;
    } else {
      var x, rest := xs[0], xs[1..];
      RoundTrip(rest, after);
      ReadEncoded(x, EncodeAll(rest) + after);
      Assoc(Encode(x), EncodeAll(rest), after);
      ReadAllStep(EncodeAll(xs) + after, x, EncodeAll(rest) + after, rest, after);
      assert xs == [x] + rest;
    }
  }

  /** Different values of the same kinds have different bytes. */
  lemma EncodingIsInjective(xs: seq<Item>, ys: seq<Item>)
    requires AllInRange(xs) && AllInRange(ys) && Kinds(xs) == Kinds(ys)
    requires EncodeAll(xs) == EncodeAll(ys)
    ensures xs == ys
  {
    RoundTrip(xs, []);
    RoundTrip(ys, []);
  }

  lemma {:induction false} EncodeOneMore(xs: seq<Item>, x: Item)
    requires AllInRange(xs) && InRange(x)
    ensures AllInRange(xs + [x]) && EncodeAll(xs + [x]) == EncodeAll(xs) + Encode(x)
    decreases |xs|
  {
    if xs == [] {
      assert [] + [x] == [x];
      assert EncodeAll([x]) == Encode(x) + EncodeAll([]);
      assert Encode(x) + [] == Encode(x);
    } else {
      EncodeOneMore(xs[1..], x);
      assert (xs + [x])[1..] == xs[1..] + [x];
      Assoc(Encode(xs[0]), EncodeAll(xs[1..]), Encode(x));
    }
  }

  // ----- what any payload reads as -----

  lemma {:induction false} ReadsWritten(bs: seq<Byte>)
    ensures FromLittle(bs) < Pow256(|bs|) && Little(FromLittle(bs), |bs|) == bs
    decreases |bs|
  {
    if bs != [] {
      ReadsWritten(bs[1..]);
      assert FromLittle(bs) % 256 == bs[0] && FromLittle(bs) / 256 == FromLittle(bs[1..]);
      assert bs == [bs[0]] + bs[1..];
    }
  }

  /** Whatever bytes a number is read from, they are the ones it is written as; any byte but zero
      reads as true. */
  lemma MakeWrites(kind: Kind, bs: seq<Byte>)
    requires Numeric(kind) && |bs| == Width(kind)
    ensures InRange(Make(kind, bs)) && Make(kind, bs).kind == kind
    ensures if kind.BoolKind? then Make(kind, bs).n == 1 <==> bs != [0] else Raw(Make(kind, bs)) == bs
  {
    ReadsWritten(bs);
    Powers();
    if kind.BoolKind? {
      assert bs == [bs[0]] && FromLittle(bs) == bs[0] + 256 * FromLittle(bs[1..]) && bs[1..] == [];
    }
  }

  lemma Digits(a: Byte, b: Byte, c: Byte, d: Byte)
    ensures FromLittle([a, b, c, d]) == a + 256 * b + 0x1_0000 * c + 0x100_0000 * d
  {
    assert [a, b, c, d][1..] == [b, c, d] && [b, c, d][1..] == [c, d] && [c, d][1..] == [d] && [d][1..] == [];
    assert FromLittle([d]) == d;
    assert FromLittle([c, d]) == c + 256 * d;
    assert FromLittle([b, c, d]) == b + 256 * FromLittle([c, d]);
  }

  /** The bytes in the buffer: numbers low byte first, short ones and strings padded with zeros, and a
      string behind the number of its bytes. */
  lemma Layout(a: Byte, b: Byte, c: Byte, d: Byte, text: seq<Byte>)
    requires |text| == 3
    ensures var n := a + 256 * b + 0x1_0000 * c + 0x100_0000 * d;
            InRange(Number(UInt32Kind, n)) && Encode(Number(UInt32Kind, n)) == [a, b, c, d]
    ensures InRange(Number(UInt16Kind, a + 256 * b)) && Encode(Number(UInt16Kind, a + 256 * b)) == [a, b, 0, 0]
    ensures InRange(Image(StringKind, text)) && Encode(Image(StringKind, text)) == [3, 0, 0, 0] + text + [0]
  {
    Digits(a, b, c, d);
    ReadsWritten([a, b, c, d]);
    Powers();
    ShortLayout(a, b);
    StringLayout(text);
  }

  lemma ShortLayout(a: Byte, b: Byte)
    ensures InRange(Number(UInt16Kind, a + 256 * b)) && Encode(Number(UInt16Kind, a + 256 * b)) == [a, b, 0, 0]
  {
    var n := a + 256 * b;
    assert n % 256 == a && n / 256 == b;
    assert Little(n, 2) == [a] + Little(b, 1) && Little(b, 1) == [b] + Little(0, 0);
    TwoZeros();
  }

  lemma TwoZeros()
    ensures Zeros(1) == [0] && Zeros(2) == [0, 0]
  {
    assert Zeros(2) == [0] + Zeros(1) && Zeros(1) == [0] + Zeros(0);
  }

  lemma StringLayout(text: seq<Byte>)
    requires |text| == 3
    ensures InRange(Image(StringKind, text)) && Encode(Image(StringKind, text)) == [3, 0, 0, 0] + text + [0]
  {
    Digits(3, 0, 0, 0);
    ReadsWritten([3, 0, 0, 0]);
    assert Little(3, 4) == [3, 0, 0, 0];
    assert Padded(Little(3, 4)) == Little(3, 4) + Zeros(0);
    TwoZeros();
  }

  /** What a value of each type may be, and how many bytes a reader takes for it. */
  lemma Sizes(n: int, bs: seq<Byte>)
    ensures InRange(Number(BoolKind, n)) <==> n == 0 || n == 1
    ensures InRange(Number(UInt16Kind, n)) <==> 0 <= n < 0x1_0000
    ensures InRange(Number(IntKind, n)) <==> -0x8000_0000 <= n <= 0x7FFF_FFFF
    ensures InRange(Number(UInt32Kind, n)) <==> 0 <= n <= 0xFFFF_FFFF
    ensures InRange(Number(Int64Kind, n)) <==> -0x8000_0000_0000_0000 <= n <= 0x7FFF_FFFF_FFFF_FFFF
    ensures InRange(Number(UInt64Kind, n)) <==> 0 <= n <= 0xFFFF_FFFF_FFFF_FFFF
    ensures (InRange(Image(FloatKind, bs)) <==> |bs| == 4) && (InRange(Image(DoubleKind, bs)) <==> |bs| == 8)
    ensures Width(BoolKind) == 1 && Width(UInt16Kind) == 2 && Width(IntKind) == Width(UInt32Kind) == Width(FloatKind) == 4
    ensures Width(Int64Kind) == Width(UInt64Kind) == Width(DoubleKind) == 8 && Width(BytesKind(n)) == n
  {
  }

  /** The bytes of the value, where they begin, and whether they are all there. */
  predicate Holds(rest: seq<Byte>, from: nat, size: int) {
    0 <= size && from + size <= |rest|
  }

  /** A value of known size reads exactly when its bytes are there; padding that is missing at the end
      does not matter. */
  lemma ReadsPlain(rest: seq<Byte>, kind: Kind)
    requires !Counted(kind)
    ensures var (x, next), size := Read(rest, kind), Width(kind);
            if Holds(rest, 0, size) then
              x == Some(Make(kind, rest[..size])) && next == if Align4(size) <= |rest| then rest[Align4(size)..] else []
            else x == None && next == []
  {
  }

  /** A string or data reads exactly when its length is there, is not negative, counts as an int in
      bytes, and so many bytes follow it. */
  lemma ReadsCounted(rest: seq<Byte>, kind: Kind)
    requires Counted(kind)
    ensures var (x, next), wide := Read(rest, kind), kind.String16Kind?;
            if |rest| < 4 then x == None
            else
              var count := Signed(FromLittle(rest[..4]), 4);
              var size := if wide then 2 * count else count;
              if Holds(rest, 4, size) && size <= INT_MAX then
                x == Some(Image(kind, rest[4..4 + size]))
                && next == if 4 + Align4(size) <= |rest| then rest[4 + Align4(size)..] else []
              else x == None
  {
    if |rest| >= 4 {
      var count := Signed(FromLittle(rest[..4]), 4);
      FourBytes(rest[..4]);
      assert Align4(4) == 4;
      var size := if kind.String16Kind? then 2 * count else count;
      if Holds(rest, 4, size) {
        assert rest[4..][..size] == rest[4..4 + size];
        if Align4(size) <= |rest| - 4 {
          assert rest[4..][Align4(size)..] == rest[4 + Align4(size)..];
        }
      }
    }
  }

  lemma FourBytes(bs: seq<Byte>)
    requires |bs| == 4
    ensures -0x8000_0000 <= Signed(FromLittle(bs), 4) <= INT_MAX
  {
    ReadsWritten(bs);
    Powers();
  }

  // ----- reads that fail -----

  /** The length of a wide string is there, but the bytes it asks for cannot be counted in an int. */
  predicate Overflows(rest: seq<Byte>, kind: Kind) {
    kind.String16Kind? && TakeInt(rest).0.Some? && !(0 <= 2 * TakeInt(rest).0.value <= INT_MAX)
  }

  /** A failed read uses up the whole payload, except that a wide string whose length overflows
      leaves what follows the length. */
  lemma FailureExhausts(rest: seq<Byte>, kind: Kind)
    requires Read(rest, kind).0 == None
    ensures Read(rest, kind).1 == if Overflows(rest, kind) then TakeInt(rest).1 else []
  {
  }

  /** At the end nothing can be read but no bytes at all. */
  lemma NothingAtEnd(kind: Kind)
    ensures Read([], kind).0.Some? <==> kind == BytesKind(0)
  {
  }

  /** So a reader may go on after a failure: a wide string of length -1 is refused, and the int
      behind it is read all the same. */
  lemma ReadsOnAfterFailure()
    ensures var rest := Encode(Number(IntKind, -1)) + Encode(Number(IntKind, 7));
            Read(rest, String16Kind) == (None, Encode(Number(IntKind, 7)))
            && Read(Read(rest, String16Kind).1, IntKind) == (Some(Number(IntKind, 7)), [])
  {
    var first, second := Number(IntKind, -1), Number(IntKind, 7);
    ReadEncoded(first, Encode(second));
    ReadEncoded(second, []);
    assert Encode(second) + [] == Encode(second);
  }

  // ----- the data of a pickle, and wrapping it again -----

  /** Header and payload.  The header holds the payload size in its first four bytes; it may not be
      longer than the data, whose size is cut to 32 bits for this comparison.  A payload size above
      that of the data wraps to a header size that no such number reaches. */
  function HeaderSize(data: seq<Byte>): nat {
    if |data| < 4 then 0
    else
      var size := |data| - FromLittle(data[..4]);
      if size < 0 || size > |data| % UINT32_LIMIT || size % 4 != 0 then 0 else size
  }

  /** The payload of a read-only pickle over `data`: a null pointer if anything is wrong with the
      header. */
  function WrappedPayload(data: seq<Byte>): Option<seq<Byte>> {
    if HeaderSize(data) == 0 then None else Some(data[HeaderSize(data)..])
  }

  /** Which data is taken for a pickle: exactly that whose header promises a payload shorter than the
      data, leaving a header of whole words that is not longer than the data, its size cut to 32 bits;
      the payload is then as many bytes as promised, the last ones. */
  lemma WrapAccepts(data: seq<Byte>)
    ensures WrappedPayload(data).Some?
       <==> |data| >= 4
            && var promised := FromLittle(data[..4]);
               && promised < |data| && |data| - promised <= |data| % UINT32_LIMIT && (|data| - promised) % 4 == 0
    ensures WrappedPayload(data).Some? ==>
              var promised := FromLittle(data[..4]);
              && HeaderSize(data) == |data| - promised && |WrappedPayload(data).value| == promised
              && data == data[..HeaderSize(data)] + WrappedPayload(data).value
  {
  }

  /** A pickle cut short is refused. */
  lemma ShortDataIsRefused(data: seq<Byte>)
    requires data == [12, 0, 0, 0, 1, 2, 3, 4]
    ensures WrappedPayload(data) == None
  {
    Digits(data[0], data[1], data[2], data[3]);
    assert data[..4] == [data[0], data[1], data[2], data[3]];
    WrapAccepts(data);
  }

  lemma CutSize(header: nat, payload: nat)
    requires payload < UINT32_LIMIT
    ensures header <= (header + payload) % UINT32_LIMIT <==> header + payload < UINT32_LIMIT
  {
  }

  /** Wrapping a pickle's data recovers its header size and its payload exactly when together they
      have less than 2 to the 32 bytes; otherwise the data is refused. */
  lemma WrapRecovers(header: seq<Byte>, payload: seq<Byte>)
    requires |header| >= 4 && |header| % 4 == 0
    requires FromLittle(header[..4]) == |payload| < UINT32_LIMIT
    ensures HeaderSize(header + payload) == |header| <==> |header| + |payload| < UINT32_LIMIT
    ensures WrappedPayload(header + payload) == if |header| + |payload| < UINT32_LIMIT then Some(payload) else None
  {
    var data := header + payload;
    assert data[..4] == header[..4];
    CutSize(|header|, |payload|);
    assert data[|header|..] == payload;
  }

  /** `FindNext`: where the pickle at the start of `range` ends, if all of it is there. */
  function FindNext(headerSize: nat, range: seq<Byte>): Option<nat> {
    if |range| < 4 || |range| < headerSize then None
    else
      var size := headerSize + FromLittle(range[..4]);
      if size > |range| then None else Some(size)
  }

  /** The end of a pickle is found whatever follows it, and not before all of it is there. */
  lemma FindNextFindsEnd(header: seq<Byte>, payload: seq<Byte>, after: seq<Byte>, cut: nat)
    requires |header| >= 4 && FromLittle(header[..4]) == |payload|
    requires cut < |header| + |payload|
    ensures FindNext(|header|, header + payload + after) == Some(|header| + |payload|)
    ensures FindNext(|header|, (header + payload)[..cut]) == None
  {
    var range := header + payload + after;
    assert range[..4] == header[..4];
    if cut >= |header| {
      assert (header + payload)[..cut][..4] == header[..4];
    }
  }
}
