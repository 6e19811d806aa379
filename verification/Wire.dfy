/** Byte order: htonl and htonll on a little-endian machine, and edge records as packets carry them. */
module Wire {
  import opened Base
  import opened SortedList

  type byte = x: int | 0 <= x < 0x100

  // ---- memcmp ----

  function BigEndian(b: seq<byte>): nat {
    if |b| == 0 then 0 else BigEndian(b[..|b| - 1]) * 0x100 + b[|b| - 1]
  }

  // memcmp finds a smaller: at the first byte that differs, a's is smaller.
  ghost predicate MemLess(a: seq<byte>, b: seq<byte>)
    requires |a| == |b|
  {
    exists i :: 0 <= i < |a| && a[..i] == b[..i] && a[i] < b[i]
  }

  lemma MemLessSnoc(a: seq<byte>, b: seq<byte>)
    requires |a| == |b| > 0
    ensures var n := |a| - 1; MemLess(a, b) <==> MemLess(a[..n], b[..n]) || (a[..n] == b[..n] && a[n] < b[n])
  {
    var n := |a| - 1;
    assert forall i :: 0 <= i <= n ==> a[..n][..i] == a[..i] && b[..n][..i] == b[..i];
    if MemLess(a[..n], b[..n]) {
      var i :| 0 <= i < n && a[..n][..i] == b[..n][..i] && a[..n][i] < b[..n][i];
      assert a[..i] == b[..i] && a[i] < b[i];
    }
    if MemLess(a, b) {
      var i :| 0 <= i < |a| && a[..i] == b[..i] && a[i] < b[i];
      if i < n {
        assert a[..n][..i] == b[..n][..i] && a[..n][i] < b[..n][i];
      }
    }
  }

  // Comparing addresses byte by byte is comparing the numbers that Mac stands for.
  lemma {:induction false} MemcmpIsNumeric(a: seq<byte>, b: seq<byte>)
    requires |a| == |b|
    ensures MemLess(a, b) <==> BigEndian(a) < BigEndian(b)
    ensures a == b <==> BigEndian(a) == BigEndian(b)
  {
    if |a| > 0 {
      var n := |a| - 1;
      MemcmpIsNumeric(a[..n], b[..n]);
      MemLessSnoc(a, b);
      assert a == a[..n] + [a[n]] && b == b[..n] + [b[n]];
    }
  }

  // The first byte is the most significant one.
  lemma {:induction false} BigEndianHead(b: seq<byte>)
    requires |b| > 0
    ensures BigEndian(b) == b[0] * Power256(|b| - 1) + BigEndian(b[1..])
  {
    if |b| > 1 {
      var front, last := b[..|b| - 1], b[|b| - 1];
      BigEndianHead(front);
      assert front[1..] == b[1..][..|b| - 2] && b[1..][|b| - 2] == last;
    }
  }

  function Power256(n: nat): nat { if n == 0 then 1 else 0x100 * Power256(n - 1) }

  lemma {:induction false} BigEndianBound(b: seq<byte>)
    ensures BigEndian(b) < Power256(|b|)
  {
    if |b| > 0 {
      BigEndianBound(b[..|b| - 1]);
    }
  }

  // ---- byte order ----

  function Swap32(x: u32): u32 {
    x % 0x100 * 0x100_0000 + x / 0x100 % 0x100 * 0x1_0000 + x / 0x1_0000 % 0x100 * 0x100 + x / 0x100_0000
  }

  // htonll and ntohll, as the macro builds them from two 32-bit halves.
  function Swap64(x: u64): u64 {
    Swap32(x % 0x1_0000_0000) * 0x1_0000_0000 + Swap32(x / 0x1_0000_0000)
  }

  // Swapping a number given by its bytes reverses the bytes.
  lemma SwapBytes(b3: int, b2: int, b1: int, b0: int)
    requires 0 <= b0 < 0x100 && 0 <= b1 < 0x100 && 0 <= b2 < 0x100 && 0 <= b3 < 0x100
    ensures Swap32(((b3 * 0x100 + b2) * 0x100 + b1) * 0x100 + b0) == ((b0 * 0x100 + b1) * 0x100 + b2) * 0x100 + b3
  {
    var x := ((b3 * 0x100 + b2) * 0x100 + b1) * 0x100 + b0;
    var x1 := (b3 * 0x100 + b2) * 0x100 + b1;
    var x2 := b3 * 0x100 + b2;
    assert x / 0x100 == x1 && x % 0x100 == b0;
    assert x / 0x1_0000 == x2 && x1 % 0x100 == b1;
    assert x / 0x100_0000 == b3 && x2 % 0x100 == b2;
  }

  lemma Swap32Involution(x: u32)
    ensures Swap32(Swap32(x)) == x
  {
    var b0, b1, b2, b3 := x % 0x100, x / 0x100 % 0x100, x / 0x1_0000 % 0x100, x / 0x100_0000;
    assert x == ((b3 * 0x100 + b2) * 0x100 + b1) * 0x100 + b0 by {
      assert x / 0x100 == x / 0x1_0000 * 0x100 + b1;
      assert x / 0x1_0000 == b3 * 0x100 + b2;
    }
    SwapBytes(b3, b2, b1, b0);
    SwapBytes(b0, b1, b2, b3);
  }

  // Swapping a number given by its eight bytes reverses them.
  lemma Swap64Reverses(b: seq<byte>, r: seq<byte>)
    requires |b| == |r| == 8 && forall i :: 0 <= i < 8 ==> r[i] == b[7 - i]
    ensures BigEndian(b) < 0x1_0000_0000_0000_0000 && Swap64(BigEndian(b)) == BigEndian(r)
  {
    EightBytes(b);
    EightBytes(r);
    SwapWords(b, r, BigEndian(b), BigEndian(r));
  }

  lemma SwapWords(b: seq<byte>, r: seq<byte>, x: nat, y: nat)
    requires |b| == |r| == 8 && forall i :: 0 <= i < 8 ==> r[i] == b[7 - i]
    requires x == Word(b[0], b[1], b[2], b[3]) * 0x1_0000_0000 + Word(b[4], b[5], b[6], b[7])
    requires y == Word(r[0], r[1], r[2], r[3]) * 0x1_0000_0000 + Word(r[4], r[5], r[6], r[7])
    ensures x < 0x1_0000_0000_0000_0000 && Swap64(x) == y
  {
    SwapHalves(Word(b[0], b[1], b[2], b[3]), Word(b[4], b[5], b[6], b[7]));
    SwapWord(b[0], b[1], b[2], b[3]);
    SwapWord(b[4], b[5], b[6], b[7]);
    assert r[0] == b[7] && r[1] == b[6] && r[2] == b[5] && r[3] == b[4];
    assert r[4] == b[3] && r[5] == b[2] && r[6] == b[1] && r[7] == b[0];
  }

  lemma SwapHalves(hi: u32, lo: u32)
    ensures hi * 0x1_0000_0000 + lo < 0x1_0000_0000_0000_0000
    ensures Swap64(hi * 0x1_0000_0000 + lo) == Swap32(lo) * 0x1_0000_0000 + Swap32(hi)
  {
    var x := hi * 0x1_0000_0000 + lo;
    assert x % 0x1_0000_0000 == lo && x / 0x1_0000_0000 == hi;
  }

  lemma SwapWord(b3: byte, b2: byte, b1: byte, b0: byte)
    ensures Swap32(Word(b3, b2, b1, b0)) == Word(b0, b1, b2, b3)
  {
    SwapBytes(b3, b2, b1, b0);
  }

  // Four bytes as a number.
  function Word(b3: byte, b2: byte, b1: byte, b0: byte): u32 {
    var x: int := b3;
    ((x * 0x100 + b2) * 0x100 + b1) * 0x100 + b0
  }

  lemma EightBytes(b: seq<byte>)
    requires |b| == 8
    ensures BigEndian(b) == Word(b[0], b[1], b[2], b[3]) * 0x1_0000_0000 + Word(b[4], b[5], b[6], b[7])
  {
    var c := b[..4];
    assert b[..7][..6] == b[..6] && b[..6][..5] == b[..5] && b[..5][..4] == c;
    assert c[..3][..2] == b[..2] && b[..2][..1] == b[..1] && b[..1][..0] == [];
    assert BigEndian(b[..1]) == b[0];
    assert BigEndian(b[..2]) == BigEndian(b[..1]) * 0x100 + b[1];
    assert BigEndian(c[..3]) == BigEndian(b[..2]) * 0x100 + b[2];
    assert BigEndian(c) == BigEndian(c[..3]) * 0x100 + b[3];
    assert BigEndian(b[..5]) == BigEndian(c) * 0x100 + b[4];
    assert BigEndian(b[..6]) == BigEndian(b[..5]) * 0x100 + b[5];
    assert BigEndian(b[..7]) == BigEndian(b[..6]) * 0x100 + b[6];
    assert BigEndian(b) == BigEndian(b[..7]) * 0x100 + b[7];
  }

  lemma Swap64Involution(x: u64)
    ensures Swap64(Swap64(x)) == x
  {
    var lo, hi := x % 0x1_0000_0000, x / 0x1_0000_0000;
    var y := Swap64(x);
    assert y % 0x1_0000_0000 == Swap32(hi) && y / 0x1_0000_0000 == Swap32(lo);
    Swap32Involution(lo);
    Swap32Involution(hi);
  }

  // One edge of a packet. rtt and ts are the numbers a host reads before it swaps their bytes.
  datatype WireEdge = WireEdge(src: Mac, dst: Mac, rtt: u32, ts: u64)

  function Rtt(e: WireEdge): u32 { Swap32(e.rtt) }

  function Ts(e: WireEdge): u64 { Swap64(e.ts) }

  function Pack(src: Mac, dst: Mac, rtt: u32, ts: u64): WireEdge {
    WireEdge(src, dst, Swap32(rtt), Swap64(ts))
  }

  // What one host packs, another reads.
  lemma PackRoundTrip(src: Mac, dst: Mac, rtt: u32, ts: u64)
    ensures Rtt(Pack(src, dst, rtt, ts)) == rtt && Ts(Pack(src, dst, rtt, ts)) == ts
  {
    Swap32Involution(rtt);
    Swap64Involution(ts);
  }

  // The number whose least significant byte comes first.
  function LittleEndian(b: seq<byte>): nat {
    if |b| == 0 then 0 else LittleEndian(b[1..]) * 0x100 + b[0]
  }

  lemma {:induction false} LittleIsReversed(b: seq<byte>, r: seq<byte>)
    requires |b| == |r| && forall i :: 0 <= i < |b| ==> r[i] == b[|b| - 1 - i]
    ensures LittleEndian(b) == BigEndian(r)
  {
    if |b| > 0 {
      LittleIsReversed(b[1..], r[..|r| - 1]);
    }
  }

  lemma Swap32Reverses(b: seq<byte>, r: seq<byte>)
    requires |b| == |r| == 4 && forall i :: 0 <= i < 4 ==> r[i] == b[3 - i]
    ensures BigEndian(b) < 0x1_0000_0000 && Swap32(BigEndian(b)) == BigEndian(r)
  {
    FourBytes(b);
    FourBytes(r);
    SwapWord(b[0], b[1], b[2], b[3]);
  }

  lemma FourBytes(b: seq<byte>)
    requires |b| == 4
    ensures BigEndian(b) == Word(b[0], b[1], b[2], b[3])
  {
    assert b[..3][..2] == b[..2] && b[..2][..1] == b[..1] && b[..1][..0] == [];
    assert BigEndian(b[..1]) == b[0];
    assert BigEndian(b[..2]) == BigEndian(b[..1]) * 0x100 + b[1];
    assert BigEndian(b[..3]) == BigEndian(b[..2]) * 0x100 + b[2];
  }

  // A packed record has the time and the stamp in network order: a little-endian machine that finds
  // their big-endian bytes in memory sees these numbers.
  lemma PackIsNetworkOrder(src: Mac, dst: Mac, rtt: seq<byte>, ts: seq<byte>)
    requires |rtt| == 4 && |ts| == 8
    ensures BigEndian(rtt) < 0x1_0000_0000 && BigEndian(ts) < 0x1_0000_0000_0000_0000
    ensures var e := Pack(src, dst, BigEndian(rtt), BigEndian(ts));
            e.src == src && e.dst == dst && e.rtt == LittleEndian(rtt) && e.ts == LittleEndian(ts)
  {
    var r, t := seq(4, i requires 0 <= i < 4 => rtt[3 - i]), seq(8, i requires 0 <= i < 8 => ts[7 - i]);
    LittleIsReversed(rtt, r);
    LittleIsReversed(ts, t);
    Swap32Reverses(rtt, r);
    Swap64Reverses(ts, t);
    PackFields(src, dst, BigEndian(rtt), BigEndian(ts));
  }

  lemma PackFields(src: Mac, dst: Mac, rtt: u32, ts: u64)
    ensures Pack(src, dst, rtt, ts) == WireEdge(src, dst, Swap32(rtt), Swap64(ts))
  {
  }

  function PairKey(e: WireEdge): int { e.src * 0x1_0000_0000_0000 + e.dst }

  lemma PairKeyIff(a: WireEdge, b: WireEdge)
    ensures PairKey(a) == PairKey(b) <==> a.src == b.src && a.dst == b.dst
  {
  }

  // No (source, destination) pair appears twice.
  ghost predicate NoRepeatedPairs(packet: seq<WireEdge>) { DistinctKeys(packet, PairKey) }

  // pkt_edges_cmp_src: by source, then by the unswapped timestamp, larger first.
  function CompareEdges(a: WireEdge, b: WireEdge): int {
    if a.src != b.src then a.src - b.src
    else if a.ts > b.ts then -1
    else if a.ts < b.ts then 1
    else 0
  }

  // The order of one number: sources ascend, and within a source unswapped stamps descend.
  function SortKey(e: WireEdge): nat { e.src * 0x1_0000_0000_0000_0000 + (0xFFFF_FFFF_FFFF_FFFF - e.ts) }

  lemma CompareEdgesIsOrder(a: WireEdge, b: WireEdge)
    ensures CompareEdges(a, b) < 0 <==> SortKey(a) < SortKey(b)
    ensures CompareEdges(a, b) == 0 <==> a.src == b.src && a.ts == b.ts
  {
  }

  // The unswapped order is not the order of time: an edge stamped 1 sorts before one stamped 256.
  lemma StampsMisorder(src: Mac, d1: Mac, d2: Mac, rtt: u32)
    ensures CompareEdges(Pack(src, d1, rtt, 1), Pack(src, d2, rtt, 256)) < 0
    ensures Pack(src, d1, rtt, 1).ts > Pack(src, d2, rtt, 256).ts
  {
    SwapBytes(0, 0, 0, 1);
    SwapBytes(0, 0, 1, 0);
    SwapBytes(0, 0, 0, 0);
    assert Swap64(1) == Swap32(1) * 0x1_0000_0000 && Swap64(256) == Swap32(256) * 0x1_0000_0000;
  }

  ghost predicate SortedEdges(es: seq<WireEdge>) {
    forall i, j :: 0 <= i < j < |es| ==> CompareEdges(es[i], es[j]) <= 0
  }
}
