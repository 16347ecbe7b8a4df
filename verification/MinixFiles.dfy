/** Reading a file of the Minix file system into memory, with the 32-bit arithmetic of the source. */
module MinixFiles {

  type Byte = bv8
  type u32 = x: int | 0 <= x < 0x1_0000_0000

  const TWO_31: int := 0x8000_0000
  const TWO_32: int := 0x1_0000_0000
  const ZONE_SIZE: nat := 1024
  /** Direct, indirect and doubly indirect zones of a file. */
  const MAX_ZONES: nat := 7 + 512 + 512 * 512

  /** `disk` is what the zones of the file hold, one after the other; `size` is i_size_. */
  datatype Inode = Inode(disk: seq<Byte>, size: nat)

  function Zones(f: Inode): nat {
    |f.disk| / ZONE_SIZE
  }

  /** A file that is not empty has a zone more than it needs. */
  ghost predicate Valid(f: Inode) {
    && |f.disk| % ZONE_SIZE == 0 && Zones(f) <= MAX_ZONES && f.size <= |f.disk|
    && (f.size > 0 ==> f.size < |f.disk|)
  }

  /** The zones writeData allocates for n bytes at an offset, before it writes them. */
  function NewZones(size: nat, offset: nat, n: nat): nat {
    if offset + n > size then (offset + n - size) / ZONE_SIZE + 1 else 0
  }

  /** That is why there is always a zone more. */
  lemma WriteKeepsSpareZone(size: nat, zones: nat, offset: nat, n: nat)
    requires size > 0 ==> size < zones * ZONE_SIZE
    ensures var size' := if size < offset + n then offset + n else size;
            size' > 0 ==> size' < (zones + NewZones(size, offset, n)) * ZONE_SIZE
  {
  }

  // ---------------------------------------------------------------------
  // What readData does
  // ---------------------------------------------------------------------

  function Min(a: nat, b: nat): nat {
    if a < b then a else b
  }

  /** Nothing to read.  The end of the range is a 32-bit sum. */
  predicate PastEnd(f: Inode, offset: u32, count: u32) {
    (count + offset) % TWO_32 > f.size && f.size <= offset
  }

  /** The bytes asked for, clipped to the size of the file by the same sum. */
  function Clipped(f: Inode, offset: u32, count: u32): (n: nat)
    requires !PastEnd(f, offset, count)
    ensures n <= count
  {
    if (count + offset) % TWO_32 > f.size then f.size - offset else count
  }

  /** The zone behind the last one to be read, from a 32-bit sum. */
  function EndZone(offset: u32, n: nat): nat {
    offset / ZONE_SIZE + ((offset % ZONE_SIZE + n) % TWO_32) / ZONE_SIZE + 1
  }

  /** A zone that the file does not have fails the assert of getZone. */
  predicate Asserts(f: Inode, offset: u32, count: u32) {
    !PastEnd(f, offset, count) && EndZone(offset, Clipped(f, offset, count)) > Zones(f)
  }

  /** How many of n bytes lie before a zone. */
  function BytesBefore(offset: u32, n: nat, zone: nat): (r: nat)
    ensures r <= n
    ensures r > 0 ==> offset + r <= zone * ZONE_SIZE
  {
    if zone * ZONE_SIZE <= offset then 0 else Min(n, zone * ZONE_SIZE - offset)
  }

  /** What is copied of n bytes by a loop that goes up to a zone, as far as the file has zones. */
  function UpTo(f: Inode, offset: u32, n: nat, end: nat): (r: nat)
    ensures r > 0 ==> offset + r <= |f.disk|
  {
    BytesBefore(offset, n, Min(end, Zones(f)))
  }

  /** How many bytes are copied to the buffer. */
  function Stored(f: Inode, offset: u32, count: u32): (r: nat)
    ensures r > 0 ==> offset + r <= |f.disk|
    ensures r <= count
  {
    if PastEnd(f, offset, count) then 0
    else UpTo(f, offset, Clipped(f, offset, count), EndZone(offset, Clipped(f, offset, count)))
  }

  /** As a signed 32-bit number. */
  function ToInt32(x: int): int {
    if x < TWO_31 then x else x - TWO_32
  }

  /** What it returns, unless an assert fails. */
  function Result(f: Inode, offset: u32, count: u32): int {
    if PastEnd(f, offset, count) then 0 else ToInt32(Clipped(f, offset, count))
  }

  /** Without a wrap the end zone is the one behind that of the end. */
  lemma EndZoneOf(offset: u32, n: nat)
    requires offset % ZONE_SIZE + n < TWO_32
    ensures EndZone(offset, n) == (offset + n) / ZONE_SIZE + 1
  {
    assert (offset % ZONE_SIZE + n) % TWO_32 == offset % ZONE_SIZE + n;
  }

  /** Without a wrap a read delivers what the file has of the bytes asked for, and returns their number. */
  lemma ReadIsClipped(f: Inode, offset: u32, count: u32)
    requires Valid(f) && 0 < count && offset + count < TWO_32
    ensures var n := if f.size <= offset then 0 else Min(count, f.size - offset);
            !Asserts(f, offset, count) && Stored(f, offset, count) == n && Result(f, offset, count) == n
  {
    hide EndZone;
    assert (count + offset) % TWO_32 == offset + count;
    if offset < f.size {
      EndZoneOf(offset, Clipped(f, offset, count));
    }
  }

  /** n bytes of the zones from an offset on. */
  function Bytes(f: Inode, offset: nat, n: nat): (d: seq<Byte>)
    requires n > 0 ==> offset + n <= |f.disk|
    ensures |d| == n
  {
    if n == 0 then [] else f.disk[offset..offset + n]
  }

  /** Memory with d stored at an address, as far as memory goes. */
  function Overwrite(m: seq<Byte>, at: nat, d: seq<Byte>): (r: seq<Byte>)
    requires at <= |m|
    ensures |r| == |m|
    ensures forall x :: 0 <= x < |m| ==> r[x] == if at <= x < at + |d| then d[x - at] else m[x]
  {
    if at + |d| <= |m| then m[..at] + d + m[at + |d|..] else m[..at] + d[..|m| - at]
  }

  lemma OverwriteOn(m: seq<Byte>, at: nat, a: seq<Byte>, b: seq<Byte>)
    requires at + |a| <= |m|
    ensures Overwrite(Overwrite(m, at, a), at + |a|, b) == Overwrite(m, at, a + b)
  {
    hide Overwrite;
  }

  /** A copy to memory; false stands for the fault behind its end. */
  method Memcpy(memory: array<Byte>, to: nat, d: seq<Byte>) returns (ok: bool)
    requires to <= memory.Length
    modifies memory
    ensures ok <==> to + |d| <= memory.Length
    ensures memory[..] == Overwrite(old(memory[..]), to, d)
  {
    var k := 0;
    while k < |d|
      invariant k <= |d| && to + k <= memory.Length
      invariant forall x :: 0 <= x < memory.Length ==> memory[x] == if to <= x < to + k then d[x - to] else old(memory[x])
    {
      if to + k == memory.Length {
        return false;
      }
      memory[to + k] := d[k];
      k := k + 1;
    }
    return true;
  }

  lemma BytesPrefix(f: Inode, offset: nat, a: nat, b: nat)
    requires a <= b && (b > 0 ==> offset + b <= |f.disk|)
    ensures Bytes(f, offset, a) == Bytes(f, offset, b)[..a]
  {
    if a > 0 {
      var x, y := f.disk[offset..offset + a], f.disk[offset..offset + b][..a];
      forall k | 0 <= k < a ensures x[k] == y[k] {
        assert x[k] == f.disk[offset + k];
      }
    }
  }

  /** What lies behind the end of memory makes no difference. */
  lemma OverwriteEnd(m: seq<Byte>, at: nat, a: seq<Byte>, b: seq<Byte>)
    requires at <= |m| <= at + |a| && |a| <= |b| && a == b[..|a|]
    ensures Overwrite(m, at, a) == Overwrite(m, at, b)
  {
    hide Overwrite;
  }

  /** Where the loop stands at a zone of the file, and what it copies from there. */
  ghost predicate At(f: Inode, offset: u32, n: nat, zone: nat, from: nat, index: nat) {
    && offset / ZONE_SIZE <= zone && index == BytesBefore(offset, n, zone)
    && from == if zone == offset / ZONE_SIZE then offset % ZONE_SIZE else 0
  }

  lemma OneZone(f: Inode, offset: u32, n: nat, zone: nat, from: nat, index: nat)
    requires At(f, offset, n, zone, from, index) && zone < Zones(f)
    ensures index <= n && from < ZONE_SIZE && (index > 0 ==> offset + index <= |f.disk|)
    ensures zone * ZONE_SIZE + from + Min(n - index, ZONE_SIZE - from) <= |f.disk|
    ensures var d := Bytes(f, zone * ZONE_SIZE + from, Min(n - index, ZONE_SIZE - from));
            && At(f, offset, n, zone + 1, 0, index + |d|)
            && (index + |d| > 0 ==> offset + index + |d| <= |f.disk|)
            && Bytes(f, offset, index + |d|) == Bytes(f, offset, index) + d
  {
  }

  /** At each zone the loop has copied a part of that, and behind the last zone there is, all of it. */
  lemma CopiedSoFar(f: Inode, offset: u32, n: nat, end: nat, zone: nat, from: nat, index: nat)
    requires At(f, offset, n, zone, from, index) && zone <= end
    requires zone > offset / ZONE_SIZE ==> zone <= Zones(f)
    ensures zone <= Zones(f) ==> index <= UpTo(f, offset, n, end)
    ensures zone == end <= Zones(f) || zone >= Zones(f) ==> index == UpTo(f, offset, n, end)
  {
  }

  /** One turn of the loop; false stands for a fault. */
  method CopyZone(f: Inode, offset: u32, size: nat, zone: nat, from: nat, index: nat, memory: array<Byte>, at: nat,
                  ghost m: seq<Byte>)
    returns (ok: bool, n: nat)
    requires At(f, offset, size, zone, from, index) && zone < Zones(f) && at + index <= memory.Length == |m|
    requires index > 0 ==> offset + index <= |f.disk|
    requires memory[..] == Overwrite(m, at, Bytes(f, offset, index))
    modifies memory
    ensures At(f, offset, size, zone + 1, 0, index + n)
    ensures index + n > 0 ==> offset + index + n <= |f.disk|
    ensures ok <==> at + index + n <= memory.Length
    ensures memory[..] == Overwrite(m, at, Bytes(f, offset, index + n))
  {
    hide Overwrite, Bytes, At;
    OneZone(f, offset, size, zone, from, index);
    n := Min(size - index, ZONE_SIZE - from);
    var d := Bytes(f, zone * ZONE_SIZE + from, n);
    OverwriteOn(m, at, Bytes(f, offset, index), d);
    ok := Memcpy(memory, at + index, d);
  }

  /** The loop of readData over the zones before `end`. */
  method CopyZones(f: Inode, offset: u32, size: nat, end: nat, memory: array<Byte>, at: nat) returns (stopped: bool)
    requires offset / ZONE_SIZE < end && at <= memory.Length
    modifies memory
    ensures stopped <==> end > Zones(f) || at + UpTo(f, offset, size, end) > memory.Length
    ensures memory[..] == Overwrite(old(memory[..]), at, Bytes(f, offset, UpTo(f, offset, size, end)))
  {
    hide Overwrite, Bytes, At, UpTo;
    ghost var m, all := memory[..], UpTo(f, offset, size, end);
    NothingCopied(f, offset, size, m, at);
    var zone: nat, from: nat, index: nat := offset / ZONE_SIZE, offset % ZONE_SIZE, 0;
    while zone < end
      invariant zone <= end && At(f, offset, size, zone, from, index) && at + index <= memory.Length
      invariant index > 0 ==> offset + index <= |f.disk|
      invariant memory[..] == Overwrite(m, at, Bytes(f, offset, index))
      invariant zone > offset / ZONE_SIZE ==> zone <= Zones(f)
    {
      if zone >= Zones(f) {
        CopiedSoFar(f, offset, size, end, zone, from, index);
        return true;
      }
      var ok, n := CopyZone(f, offset, size, zone, from, index, memory, at, m);
      index, from, zone := index + n, 0, zone + 1;
      CopiedSoFar(f, offset, size, end, zone, from, index);
      if !ok {
        BytesPrefix(f, offset, index, all);
        OverwriteEnd(m, at, Bytes(f, offset, index), Bytes(f, offset, all));
        return true;
      }
    }
    CopiedSoFar(f, offset, size, end, zone, from, index);
    return false;
  }

  lemma NothingCopied(f: Inode, offset: u32, n: nat, m: seq<Byte>, at: nat)
    requires at <= |m|
    ensures Overwrite(m, at, Bytes(f, offset, 0)) == m
    ensures At(f, offset, n, offset / ZONE_SIZE, offset % ZONE_SIZE, 0)
  {
  }

  /** readData.  `stopped` stands for a failed assert or a fault, which stop the kernel. */
  method ReadData(f: Inode, offset: u32, count: u32, memory: array<Byte>, at: nat) returns (stopped: bool, result: int)
    requires Valid(f) && at <= memory.Length
    modifies memory
    ensures stopped <==> Asserts(f, offset, count) || at + Stored(f, offset, count) > memory.Length
    ensures memory[..] == Overwrite(old(memory[..]), at, Bytes(f, offset, Stored(f, offset, count)))
    ensures !stopped ==> result == Result(f, offset, count)
  {
    hide Overwrite, Bytes, UpTo;
    var size: nat := count;
    if (size + offset) % TWO_32 > f.size {
      if f.size <= offset {
        NothingCopied(f, offset, 0, memory[..], at);
        return false, 0;
      }
      size := f.size - offset;
    }
    var startZone, zoneOffset := offset / ZONE_SIZE, offset % ZONE_SIZE;
    var numZones := ((zoneOffset + size) % TWO_32) / ZONE_SIZE + 1;
    stopped := CopyZones(f, offset, size, startZone + numZones, memory, at);
    result := ToInt32(size);
  }
}
