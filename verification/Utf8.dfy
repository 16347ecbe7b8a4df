/** The UTF-8 reader and writer.  Shifts are written as divisions and multiplications, masks as
    remainders; an `|` joins parts without a common bit and is written as a sum. */
module Utf8 {

  type Byte = x: int | 0 <= x < 256
  /** Code points with an encoding of at most six bytes. */
  type Code = x: int | 0 <= x <= 0x7FFF_FFFF

  const BOUNDS: seq<int> := [0x7F, 0x7FF, 0xFFFF, 0x1F_FFFF, 0x3FF_FFFF, 0x7FFF_FFFF, 0xFFFF_FFFF]

  /** 64 to the k. */
  function Pow64(k: nat): (r: int)
    ensures r > 0
  {
    if k == 0 then 1 else 64 * Pow64(k - 1)
  }

  function Pow2(k: nat): (r: int)
    ensures r > 0
  {
    if k == 0 then 1 else 2 * Pow2(k - 1)
  }

  // ---------------------------------------------------------------------
  // Lengths
  // ---------------------------------------------------------------------

  /** By the table of bounds. */
  function Utf8Bytes(v: Code): (n: nat)
    ensures 1 <= n <= 6
  {
    if v < 0x80 then 1
    else if v < 0x800 then 2
    else if v < 0x1_0000 then 3
    else if v < 0x20_0000 then 4
    else if v < 0x400_0000 then 5
    else 6
  }

  /** The loop over the table. */
  method CountBytes(v: Code) returns (n: nat)
    ensures n == Utf8Bytes(v)
  {
    if v < 128 {
      return 1;
    }
    n := 0;
    while BOUNDS[n] < v
      invariant n <= 5 && forall k :: 0 <= k < n ==> BOUNDS[k] < v
      decreases 6 - n
    {
      n := n + 1;
    }
    assert n in {0, 1, 2, 3, 4, 5};
    assert n > 0 ==> BOUNDS[n - 1] < v;
    n := n + 1;
  }

  /** The index of the highest bit set, as the bsr instruction finds it. */
  function Bsr(v: nat): nat
    requires v > 0
  {
    if v == 1 then 0 else 1 + Bsr(v / 2)
  }

  lemma {:induction false} BsrBounds(v: nat)
    requires v > 0
    ensures Pow2(Bsr(v)) <= v < 2 * Pow2(Bsr(v))
  {
    if v > 1 {
      BsrBounds(v / 2);
    }
  }

  lemma {:induction false} Pow2Grows(a: nat, b: nat)
    requires a <= b
    ensures Pow2(a) <= Pow2(b)
    decreases b
  {
    if a < b {
      Pow2Grows(a, b - 1);
    }
  }

  lemma Pow2Values()
    ensures Pow2(7) == 0x80 && Pow2(11) == 0x800 && Pow2(16) == 0x1_0000 && Pow2(21) == 0x20_0000
    ensures Pow2(26) == 0x400_0000 && Pow2(31) == 0x8000_0000
  {
    assert Pow2(4) == 16;
    assert Pow2(8) == 256;
    assert Pow2(12) == 0x1000;
    assert Pow2(16) == 0x1_0000;
    assert Pow2(20) == 0x10_0000;
    assert Pow2(24) == 0x100_0000;
    assert Pow2(28) == 0x1000_0000;
  }

  /** The length by bit scan is the length by table. */
  lemma BitScanLength(v: Code)
    requires v >= 128
    ensures (Bsr(v) + 4) / 5 == Utf8Bytes(v)
  {
    BsrBounds(v);
    Pow2Values();
    var b := Bsr(v);
    if b < 7 { Pow2Grows(b + 1, 7); } else { Pow2Grows(7, b); }
    if b < 11 { Pow2Grows(b + 1, 11); } else { Pow2Grows(11, b); }
    if b < 16 { Pow2Grows(b + 1, 16); } else { Pow2Grows(16, b); }
    if b < 21 { Pow2Grows(b + 1, 21); } else { Pow2Grows(21, b); }
    if b < 26 { Pow2Grows(b + 1, 26); } else { Pow2Grows(26, b); }
    if b >= 31 { Pow2Grows(31, b); }
  }

  /** The number of leading one bits, at least 1. */
  function SequenceBytes(c: Byte): (n: nat)
    ensures 1 <= n <= 8
  {
    if c < 0xC0 then 1
    else if c < 0xE0 then 2
    else if c < 0xF0 then 3
    else if c < 0xF8 then 4
    else if c < 0xFC then 5
    else if c < 0xFE then 6
    else if c < 0xFF then 7
    else 8
  }

  method CountLeadingBits(c: Byte) returns (n: nat)
    ensures n == SequenceBytes(c)
  {
    var mask := 0x80;
    n := 0;
    while mask > 0 && (c / mask) % 2 == 1
      invariant 0 <= n <= 8 && mask == [0x80, 0x40, 0x20, 0x10, 8, 4, 2, 1, 0][n]
      invariant c >= [0, 0x80, 0xC0, 0xE0, 0xF0, 0xF8, 0xFC, 0xFE, 0xFF][n]
      decreases 8 - n
    {
      mask, n := mask / 2, n + 1;
    }
    n := if n != 0 then n else 1;
  }

  // ---------------------------------------------------------------------
  // One character
  // ---------------------------------------------------------------------

  /** 0xFF << (8 - n), as a byte. */
  function Header(n: nat): Byte
    requires 2 <= n <= 6
  {
    [0xC0, 0xE0, 0xF0, 0xF8, 0xFC][n - 2]
  }

  /** Byte k of n: six bits of v each, behind a header or a continuation mark. */
  function EncodedByte(v: Code, n: nat, k: nat): int
    requires 2 <= n <= 6 && k < n
  {
    (v / Pow64(n - 1 - k)) % 64 + if k == 0 then Header(n) else 0x80
  }

  function Encode(v: Code): (r: seq<int>)
    ensures |r| == Utf8Bytes(v)
  {
    var n := Utf8Bytes(v);
    if n == 1 then [v] else seq(n, k requires 0 <= k < n => EncodedByte(v, n, k))
  }

  /** The writer's loop, six bits at a time from the top. */
  method Write(v: Code) returns (r: seq<int>)
    ensures r == Encode(v)
  {
    var n := CountBytes(v);
    if n == 1 {
      return [v];
    }
    var k := 0;
    r := [];
    while k < n
      invariant k <= n && |r| == k && forall j :: 0 <= j < k ==> r[j] == EncodedByte(v, n, j)
    {
      r := r + [(v / Pow64(n - 1 - k)) % 64 + if k == 0 then Header(n) else 0x80];
      k := k + 1;
    }
  }

  // ---------------------------------------------------------------------
  // The table of section 2 of RFC 2279
  // ---------------------------------------------------------------------

  /** A byte 10xxxxxx. */
  predicate Continuation(b: int) {
    0x80 <= b < 0xC0
  }

  /** The bits of a first byte behind its mark, and six more of each that follows. */
  function Bits(s: seq<int>, mark: int): int
    requires s != []
  {
    if |s| == 1 then s[0] - mark else 64 * Bits(s[..|s| - 1], mark) + (s[|s| - 1] - 0x80)
  }

  /** A row of the table: so many bytes, for this range, the first one from `mark` up to the next mark. */
  predicate Row(v: Code, s: seq<int>, n: nat, low: int, high: int, mark: int, next: int) {
    && |s| == n > 0 && low <= v <= high && mark <= s[0] < next
    && (forall k :: 0 < k < n ==> Continuation(s[k])) && Bits(s, mark) == v
  }

  predicate IsUtf8(v: Code, s: seq<int>) {
    || Row(v, s, 1, 0, 0x7F, 0, 0x80)
    || Row(v, s, 2, 0x80, 0x7FF, 0xC0, 0xE0)
    || Row(v, s, 3, 0x800, 0xFFFF, 0xE0, 0xF0)
    || Row(v, s, 4, 0x1_0000, 0x1F_FFFF, 0xF0, 0xF8)
    || Row(v, s, 5, 0x20_0000, 0x3FF_FFFF, 0xF8, 0xFC)
    || Row(v, s, 6, 0x400_0000, 0x7FFF_FFFF, 0xFC, 0xFE)
  }

  /** The bits of an encoding are those of the code point, from the top. */
  lemma {:induction false} BitsOfEncoding(v: Code, n: nat, k: nat, s: seq<int>)
    requires 2 <= n == Utf8Bytes(v) && k < n && |s| == k + 1
    requires forall j :: 0 <= j <= k ==> s[j] == EncodedByte(v, n, j)
    ensures Bits(s, Header(n)) == v / Pow64(n - 1 - k)
  {
    if k == 0 {
      TopBits(v);
      TopIsSmall(v);
    } else {
      BitsOfEncoding(v, n, k - 1, s[..k]);
      SixBits(v, n - 1 - k);
    }
  }

  lemma TopIsSmall(v: Code)
    requires Utf8Bytes(v) > 1
    ensures v / Pow64(Utf8Bytes(v) - 1) % 64 == v / Pow64(Utf8Bytes(v) - 1)
  {
    TopBits(v);
    HeaderTells(Utf8Bytes(v), v / Pow64(Utf8Bytes(v) - 1));
  }

  /** Bytes with the same number of bits, marks and bits are the same. */
  lemma {:induction false} BitsDetermine(a: seq<int>, b: seq<int>, mark: int)
    requires |a| == |b| > 0 && Bits(a, mark) == Bits(b, mark)
    requires forall k :: 0 < k < |a| ==> Continuation(a[k]) && Continuation(b[k])
    ensures a == b
  {
    var n := |a| - 1;
    if n > 0 {
      BitsDetermine(a[..n], b[..n], mark);
      assert a == a[..n] + [a[n]] && b == b[..n] + [b[n]];
    }
  }

  /** The encoding is in the row of its length. */
  lemma EncodingInRow(v: Code)
    ensures IsUtf8(v, Encode(v))
  {
    var n, s := Utf8Bytes(v), Encode(v);
    if n > 1 {
      BitsOfEncoding(v, n, n - 1, s);
      Pow64Values();
      assert s[0] == EncodedByte(v, n, 0);
      TopBits(v);
      TopIsSmall(v);
      Pow2Small();
      hide Pow64, Pow2, Bits, Encode;
      assert forall k :: 0 < k < n ==> s[k] == EncodedByte(v, n, k);
    }
  }

  /** And it is the only sequence of bytes that the table allows. */
  lemma EncodeIffTable(v: Code, s: seq<int>)
    ensures s == Encode(v) <==> IsUtf8(v, s)
  {
    EncodingInRow(v);
    if IsUtf8(v, s) {
      hide Bits, Encode, Continuation;
      var e := Encode(v);
      var mark := if |s| == 1 then 0 else Header(|s|);
      assert |e| == |s| && Bits(s, mark) == v == Bits(e, mark);
      BitsDetermine(s, e, mark);
    }
  }

  /** Text for the reader: bytes with a NUL behind them. */
  predicate Text(s: seq<Byte>) {
    s != [] && s[|s| - 1] == 0
  }

  /** Six more bits, in a 32-bit word. */
  function WithSixBits(v: int, b: Byte): int {
    (64 * v + b % 64) % 0x1_0000_0000
  }

  /** The loop of Read with `left` bytes to go: it stops at a NUL. */
  function ReadTail(s: seq<Byte>, i: nat, v: int, left: nat): (r: (int, nat))
    requires Text(s) && i < |s| && (left > 0 ==> s[i] != 0)
    ensures i <= r.1 < |s|
    decreases left
  {
    if left == 0 then (v, i)
    else if s[i + 1] == 0 then (v, i + 1)
    else ReadTail(s, i + 1, WithSixBits(v, s[i + 1]), left - 1)
  }

  /** The character at i, and the index of its last byte. */
  function ReadAt(s: seq<Byte>, i: nat): (r: (int, nat))
    requires Text(s) && i < |s|
    ensures i <= r.1 < |s|
  {
    var n := SequenceBytes(s[i]);
    ReadTail(s, i, s[i] % Pow2(8 - n), n - 1)
  }

  // ---------------------------------------------------------------------
  // Round trip
  // ---------------------------------------------------------------------

  /** Taking six more bits. */
  lemma SixBits(v: Code, m: nat)
    requires m <= 4
    ensures v / Pow64(m) == 64 * (v / Pow64(m + 1)) + (v / Pow64(m)) % 64
  {
    Pow64Values();
    if m == 0 { assert Pow64(0) == 1 && Pow64(1) == 64; }
    else if m == 1 { assert v / 4096 == (v / 64) / 64; }
    else if m == 2 { assert v / 0x4_0000 == (v / 4096) / 64; }
    else if m == 3 { assert v / 0x100_0000 == (v / 0x4_0000) / 64; }
    else { assert v / 0x4000_0000 == (v / 0x100_0000) / 64; }
  }

  lemma Pow64Values()
    ensures Pow64(0) == 1 && Pow64(1) == 64 && Pow64(2) == 0x1000 && Pow64(3) == 0x4_0000 && Pow64(4) == 0x100_0000 && Pow64(5) == 0x4000_0000
  {
    assert Pow64(2) == 4096;
    assert Pow64(4) == 0x100_0000;
  }

  /** The top bits fit behind the header. */
  lemma TopBits(v: Code)
    requires Utf8Bytes(v) > 1
    ensures 0 <= v / Pow64(Utf8Bytes(v) - 1) < Pow2(7 - Utf8Bytes(v))
  {
    Pow64Values();
    Pow2Small();
    hide Pow64, Pow2;
  }

  /** A header with top bits behind it tells the length. */
  lemma HeaderTells(n: nat, top: nat)
    requires 2 <= n <= 6 && top < Pow2(7 - n)
    ensures top < 64 && Header(n) + top < 256
    ensures SequenceBytes(Header(n) + top) == n && (Header(n) + top) % Pow2(8 - n) == top
  {
    Pow2Small();
    hide Pow2;
  }

  /** The first byte tells the length, and carries the top bits. */
  lemma FirstByte(v: Code)
    ensures var c := Encode(v)[0];
            var n := Utf8Bytes(v);
            0 <= c < 256 && SequenceBytes(c) == n && c % Pow2(8 - n) == v / Pow64(n - 1)
  {
    hide Pow2, Pow64, Utf8Bytes, SequenceBytes, Header;
    var n := Utf8Bytes(v);
    if n > 1 {
      TopBits(v);
      HeaderTells(n, v / Pow64(n - 1));
      assert Encode(v)[0] == EncodedByte(v, n, 0);
    } else {
      SingleByte(v);
    }
  }

  lemma SingleByte(v: Code)
    requires Utf8Bytes(v) == 1
    ensures v < 0x80 && SequenceBytes(v) == 1 && v % Pow2(7) == v == v / Pow64(0)
  {
    Pow2Small();
  }

  lemma Pow2Small()
    ensures Pow2(2) == 4 && Pow2(3) == 8 && Pow2(4) == 16 && Pow2(5) == 32 && Pow2(6) == 64 && Pow2(7) == 128 && Pow2(1) == 2
  {
    assert Pow2(2) == 4;
    assert Pow2(4) == 16;
    assert Pow2(6) == 64;
  }

  /** Behind i come the last `left` bytes of the encoding of v. */
  predicate Continues(s: seq<Byte>, i: nat, v: Code, left: nat)
    requires i + left < |s|
    decreases left
  {
    left > 0 ==> s[i + 1] == (v / Pow64(left - 1)) % 64 + 0x80 && Continues(s, i + 1, v, left - 1)
  }

  lemma NextValue(v: Code, m: nat, b: Byte)
    requires m <= 4 && b == (v / Pow64(m)) % 64 + 0x80
    ensures b != 0 && WithSixBits(v / Pow64(m + 1), b) == v / Pow64(m)
  {
    SixBits(v, m);
    assert b % 64 == (v / Pow64(m)) % 64;
    QuotientSmall(v, m);
  }

  lemma QuotientSmall(v: Code, m: nat)
    requires m <= 4
    ensures 0 <= v / Pow64(m) <= v
  {
    Pow64Values();
    if m == 0 { assert v / 1 == v; }
    else if m == 1 { assert v / 64 <= v; }
    else if m == 2 { assert v / 4096 <= v; }
    else if m == 3 { assert v / 0x4_0000 <= v; }
    else { assert v / 0x100_0000 <= v; }
  }

  lemma NextByte(s: seq<Byte>, i: nat, v: Code, left: nat)
    requires i + left < |s| && 0 < left <= 5 && Continues(s, i, v, left)
    ensures s[i + 1] != 0 && WithSixBits(v / Pow64(left), s[i + 1]) == v / Pow64(left - 1)
    ensures Continues(s, i + 1, v, left - 1)
  {
    hide Pow64, WithSixBits;
    NextValue(v, left - 1, s[i + 1]);
  }

  lemma {:induction false} TailIs(s: seq<Byte>, i: nat, v: Code, left: nat)
    requires Text(s) && i + left < |s| && left <= 5 && (left > 0 ==> s[i] != 0)
    requires Continues(s, i, v, left)
    ensures ReadTail(s, i, v / Pow64(left), left) == (v, i + left)
    decreases left
  {
    hide Pow64, WithSixBits, Continues;
    if left == 0 {
      Pow64Values();
    } else {
      NextByte(s, i, v, left);
      TailIs(s, i + 1, v, left - 1);
    }
  }

  lemma {:induction false} EncodingContinues(s: seq<Byte>, start: nat, v: Code, n: nat, left: nat)
    requires 2 <= n == Utf8Bytes(v) && left < n && start + n <= |s| && s[start..start + n] == Encode(v)
    ensures Continues(s, start + n - 1 - left, v, left)
    decreases left
  {
    if left > 0 {
      EncodingContinues(s, start, v, n, left - 1);
      assert s[start..start + n][n - left] == EncodedByte(v, n, n - left);
    }
  }

  /** Reading where the encoding of v stands gives v, and stops at its last byte. */
  lemma ReadsBack(s: seq<Byte>, i: nat, v: Code)
    requires Text(s) && i + Utf8Bytes(v) < |s| && s[i..i + Utf8Bytes(v)] == Encode(v)
    ensures ReadAt(s, i) == (v, i + Utf8Bytes(v) - 1)
  {
    var n := Utf8Bytes(v);
    FirstByte(v);
    assert s[i] == s[i..i + n][0];
    if n > 1 {
      EncodingContinues(s, i, v, n, n - 1);
    }
    hide Encode, Pow2;
    TailIs(s, i, v, n - 1);
  }

  /** Encoded characters one after the other. */
  function EncodeAll(cs: seq<Code>): seq<int> {
    if cs == [] then [] else Encode(cs[0]) + EncodeAll(cs[1..])
  }

  /** Where character k begins. */
  function Offset(cs: seq<Code>, k: nat): nat
    requires k <= |cs|
  {
    if k == 0 then 0 else Offset(cs, k - 1) + Utf8Bytes(cs[k - 1])
  }

  /** s is an encoding of cs with a NUL behind it. */
  ghost predicate Encodes(s: seq<Byte>, cs: seq<Code>) {
    Text(s) && s[..|s| - 1] == EncodeAll(cs)
  }

  lemma {:induction false} EncodeAllSplit(cs: seq<Code>, k: nat)
    requires k <= |cs|
    ensures EncodeAll(cs) == EncodeAll(cs[..k]) + EncodeAll(cs[k..])
    decreases |cs|
  {
    if k > 0 {
      EncodeAllSplit(cs[1..], k - 1);
      assert cs[..k][1..] == cs[1..][..k - 1] && cs[k..] == cs[1..][k - 1..];
      assert EncodeAll(cs[..k]) == Encode(cs[0]) + EncodeAll(cs[..k][1..]);
    }
  }

  lemma {:induction false} EncodeAllLength(cs: seq<Code>, k: nat)
    requires k <= |cs|
    ensures |EncodeAll(cs[..k])| == Offset(cs, k)
  {
    hide Encode, Utf8Bytes;
    if k > 0 {
      EncodeAllLength(cs, k - 1);
      hide EncodeAll;
      EncodeAllSplit(cs[..k], k - 1);
      EncodeOne(cs[k - 1]);
      assert cs[..k][..k - 1] == cs[..k - 1] && cs[..k][k - 1..] == [cs[k - 1]];
    }
  }

  lemma EncodeOne(c: Code)
    ensures EncodeAll([c]) == Encode(c)
  {
    hide Encode;
    assert EncodeAll([c][1..]) == [];
  }

  /** Character k stands at its offset. */
  lemma CharacterAt(s: seq<Byte>, cs: seq<Code>, k: nat)
    requires Encodes(s, cs) && k < |cs|
    ensures var o, n := Offset(cs, k), Utf8Bytes(cs[k]);
            o + n < |s| && s[o..o + n] == Encode(cs[k]) && Offset(cs, k + 1) == o + n
  {
    var o, n := Offset(cs, k), Utf8Bytes(cs[k]);
    EncodeAllLength(cs, k);
    EncodeAllThree(cs, k);
    hide EncodeAll, Encode, Utf8Bytes;
    Middle(s, EncodeAll(cs[..k]), Encode(cs[k]), EncodeAll(cs[k + 1..]));
  }

  lemma Middle(s: seq<Byte>, a: seq<int>, b: seq<int>, c: seq<int>)
    requires s != [] && s[..|s| - 1] == a + b + c
    ensures |a| + |b| < |s| && s[|a|..|a| + |b|] == b
  {
    assert |s| - 1 == |a + b + c|;
    assert s[|a|..|a| + |b|] == s[..|s| - 1][|a|..|a| + |b|];
  }

  lemma EncodeAllThree(cs: seq<Code>, k: nat)
    requires k < |cs|
    ensures EncodeAll(cs) == EncodeAll(cs[..k]) + Encode(cs[k]) + EncodeAll(cs[k + 1..])
  {
    hide Encode;
    EncodeAllSplit(cs, k);
    assert cs[k..][0] == cs[k] && cs[k..][1..] == cs[k + 1..];
    var a, b, c := EncodeAll(cs[..k]), Encode(cs[k]), EncodeAll(cs[k + 1..]);
    assert EncodeAll(cs[k..]) == b + c;
    hide EncodeAll;
    assert a + (b + c) == a + b + c;
  }

  lemma TextLength(s: seq<Byte>, cs: seq<Code>)
    requires Encodes(s, cs)
    ensures |s| - 1 == Offset(cs, |cs|)
  {
    EncodeAllLength(cs, |cs|);
    assert cs[..|cs|] == cs;
  }

  /** Reads characters until the reader stands at the NUL behind the text. */
  method ReadAll(s: seq<Byte>, ghost cs: seq<Code>) returns (r: seq<int>)
    requires Text(s)
    ensures Encodes(s, cs) ==> r == cs
  {
    hide Encodes, Offset, ReadTail, ReadAt;
    r := [];
    var it := ReadAt(s, 0);
    ghost var k := 0;
    NoOffset(cs);
    if Encodes(s, cs) { TextLength(s, cs); ReadNext(s, cs, 0); }
    while it.1 != |s| - 1
      invariant it.1 < |s|
      invariant Encodes(s, cs) ==> k <= |cs| && r == cs[..k]
      invariant Encodes(s, cs) && k < |cs| ==> it == (cs[k], Offset(cs, k + 1) - 1)
      invariant Encodes(s, cs) && k == |cs| ==> it.1 == |s| - 1
      decreases |s| - it.1
    {
      r := r + [it.0];
      it := ReadAt(s, it.1 + 1);
      if Encodes(s, cs) {
        k := k + 1;
        ReadNext(s, cs, k);
      }
    }
    if Encodes(s, cs) {
      if k < |cs| {
        TextLength(s, cs);
        OffsetsGrow(cs, k + 1, |cs|);
      }
      assert cs[..|cs|] == cs;
    }
  }

  lemma NoOffset(cs: seq<Code>)
    ensures Offset(cs, 0) == 0
  {
  }

  lemma {:induction false} OffsetsGrow(cs: seq<Code>, j: nat, k: nat)
    requires j <= k <= |cs|
    ensures Offset(cs, j) + (k - j) <= Offset(cs, k)
    decreases k
  {
    if j < k {
      OffsetsGrow(cs, j, k - 1);
    }
  }

  /** The reader at character k, or at the NUL behind the last. */
  lemma ReadNext(s: seq<Byte>, cs: seq<Code>, k: nat)
    requires Encodes(s, cs) && k <= |cs|
    ensures Offset(cs, k) < |s|
    ensures k < |cs| ==> ReadAt(s, Offset(cs, k)) == (cs[k], Offset(cs, k + 1) - 1)
    ensures k == |cs| ==> ReadAt(s, Offset(cs, k)).1 == |s| - 1
  {
    TextLength(s, cs);
    if k < |cs| {
      CharacterAt(s, cs, k);
      ReadsBack(s, Offset(cs, k), cs[k]);
    }
  }

  // ---------------------------------------------------------------------
  // Distance
  // ---------------------------------------------------------------------

  /** Steps of whole characters from index `first` until `target` is reached or passed. */
  function Steps(s: seq<Byte>, first: nat, target: nat): nat
    requires target <= |s|
    decreases target - first
  {
    if first >= target then 0 else 1 + Steps(s, first + SequenceBytes(s[first]), target)
  }

  /** operator-: `_i` of the reader is at the last byte of its character. */
  method Distance(s: seq<Byte>, last: nat, i: nat) returns (dist: nat)
    requires last < |s| && i < |s|
    ensures dist == Steps(s, last, i)
  {
    dist := 0;
    var first := last;
    while first < i
      invariant dist + Steps(s, first, i) == Steps(s, last, i)
      decreases i - first
    {
      first, dist := first + SequenceBytes(s[first]), dist + 1;
    }
  }

  /** `_i` of a reader at character k, or at the NUL behind the last. */
  function ReaderIndex(cs: seq<Code>, k: nat): nat
    requires k <= |cs|
  {
    if k < |cs| then Offset(cs, k + 1) - 1 else Offset(cs, k)
  }

  lemma {:induction false} StepsFromStart(s: seq<Byte>, cs: seq<Code>, j: nat, k: nat)
    requires Encodes(s, cs) && j <= k <= |cs|
    ensures Offset(cs, k) < |s| && ReaderIndex(cs, k) < |s|
    ensures Steps(s, Offset(cs, j), ReaderIndex(cs, k)) == k - j + if k < |cs| && Utf8Bytes(cs[k]) > 1 then 1 else 0
    decreases k - j
  {
    hide Encodes, Encode, Utf8Bytes, SequenceBytes;
    TextLength(s, cs);
    if k < |cs| { CharacterAt(s, cs, k); }
    if j < k {
      OffsetsGrow(cs, j + 1, k);
      StartsWith(s, cs, j);
      StepsFromStart(s, cs, j + 1, k);
    } else if k < |cs| {
      StartsWith(s, cs, k);
    }
  }

  lemma StartsWith(s: seq<Byte>, cs: seq<Code>, j: nat)
    requires Encodes(s, cs) && j < |cs|
    ensures Offset(cs, j) < |s| && SequenceBytes(s[Offset(cs, j)]) == Utf8Bytes(cs[j])
  {
    CharacterAt(s, cs, j);
    FirstByte(cs[j]);
    assert s[Offset(cs, j)] == s[Offset(cs, j)..Offset(cs, j) + Utf8Bytes(cs[j])][0];
  }

  /** The last byte of a character counts as one step, to the next character. */
  lemma LastByteIsOneStep(s: seq<Byte>, cs: seq<Code>, j: nat)
    requires Encodes(s, cs) && j < |cs|
    ensures Offset(cs, j + 1) - 1 < |s| && SequenceBytes(s[Offset(cs, j + 1) - 1]) == 1
  {
    hide Encodes, Encode, Utf8Bytes;
    var o, n := Offset(cs, j), Utf8Bytes(cs[j]);
    CharacterAt(s, cs, j);
    LastByte(cs[j]);
    assert s[o + n - 1] == s[o..o + n][n - 1];
  }

  /** The last byte of an encoding is no header. */
  lemma LastByte(v: Code)
    ensures 0 <= Encode(v)[Utf8Bytes(v) - 1] < 0xC0
  {
    hide Pow64;
    var n := Utf8Bytes(v);
    if n > 1 {
      assert Encode(v)[n - 1] == EncodedByte(v, n, n - 1);
    }
  }

  /** The distance from the reader at character j to the one at k: the number of characters between
      them, and one more exactly if the character at k takes several bytes, as the count runs up to
      its last byte. */
  lemma CharacterDistance(s: seq<Byte>, cs: seq<Code>, j: nat, k: nat)
    requires Encodes(s, cs) && j <= k <= |cs|
    ensures ReaderIndex(cs, j) < |s| && ReaderIndex(cs, k) < |s|
    ensures Steps(s, ReaderIndex(cs, j), ReaderIndex(cs, k)) ==
            k - j + if j < k < |cs| && Utf8Bytes(cs[k]) > 1 then 1 else 0
  {
    hide Encodes, SequenceBytes, Offset, Utf8Bytes, Steps;
    StepsFromStart(s, cs, j, j);
    StepsFromStart(s, cs, j, k);
    if j < k {
      LastByteIsOneStep(s, cs, j);
      StepsFromStart(s, cs, j + 1, k);
      IndexGrows(s, cs, j, k);
      OneStep(s, ReaderIndex(cs, j), ReaderIndex(cs, k));
    } else {
      NoSteps(s, ReaderIndex(cs, k));
    }
  }

  lemma NoSteps(s: seq<Byte>, i: nat)
    requires i <= |s|
    ensures Steps(s, i, i) == 0
  {
  }

  lemma IndexGrows(s: seq<Byte>, cs: seq<Code>, j: nat, k: nat)
    requires Encodes(s, cs) && j < k <= |cs|
    ensures ReaderIndex(cs, j) < ReaderIndex(cs, k)
  {
    OffsetsGrow(cs, j + 1, k);
    if k < |cs| { CharacterAt(s, cs, k); }
  }

  lemma OneStep(s: seq<Byte>, first: nat, target: nat)
    requires first < target <= |s| && SequenceBytes(s[first]) == 1
    ensures Steps(s, first, target) == 1 + Steps(s, first + 1, target)
  {
  }

  /** So the length of a whole text is counted right, and a distance between two characters exactly
      if they are the same or the second has one byte. */
  lemma DistanceIsRightIff(s: seq<Byte>, cs: seq<Code>, j: nat, k: nat)
    requires Encodes(s, cs) && j <= k <= |cs|
    ensures ReaderIndex(cs, j) < |s| && ReaderIndex(cs, k) < |s|
    ensures Steps(s, ReaderIndex(cs, j), ReaderIndex(cs, k)) == k - j <==> j == k || k == |cs| || Utf8Bytes(cs[k]) == 1
  {
    CharacterDistance(s, cs, j, k);
  }

  /** Two characters, the second of two bytes: the distance comes out as 2. */
  lemma DistanceTooLong()
    ensures var cs := [0x41, 0xE9];
            var s := [0x41, 0xC3, 0xA9, 0];
            Encodes(s, cs) && Steps(s, ReaderIndex(cs, 0), ReaderIndex(cs, 1)) == 2
  {
    var cs: seq<Code> := [0x41, 0xE9];
    Pow64Values();
    assert Encode(0x41) == [0x41];
    assert Encode(0xE9) == [0xC3, 0xA9];
    assert cs[1..] == [0xE9] && cs[1..][1..] == [];
    assert EncodeAll(cs) == [0x41, 0xC3, 0xA9];
    CharacterDistance([0x41, 0xC3, 0xA9, 0], cs, 0, 1);
  }
}
