/**
 The peer protocol on a byte stream: packets sent through partial sends, read back by type and
 length, and the link graph with its edge count.
 */
module Framing {
  import opened Base
  import opened Wire

  const PT_PROBE_REQ: u16 := 0xab34
  const PT_PROBE_RESP: u16 := 0xab35
  const PT_LINK_GRAPH: u16 := 0xabac

  const PL_HEADER := 4
  const PL_PROBE := 2
  const PL_HOST := 12
  const PL_LINK_GRAPH_STATIC := 14
  const PL_EDGE := 36

  // htons on the wire
  function Be16(x: u16): (r: seq<byte>)
    ensures |r| == 2 && FromBe16(r) == x
  {
    [x / 0x100, x % 0x100]
  }

  function FromBe16(b: seq<byte>): u16
    requires |b| >= 2
  {
    var hi: int := b[0];
    hi * 0x100 + b[1]
  }

  // Both are big-endian numbers of two bytes.
  lemma Be16IsBigEndian(x: u16, b: seq<byte>)
    requires |b| >= 2
    ensures BigEndian(Be16(x)) == x && FromBe16(b) == BigEndian(b[..2])
  {
    TwoBytes(Be16(x));
    TwoBytes(b[..2]);
  }

  lemma TwoBytes(b: seq<byte>)
    requires |b| == 2
    ensures BigEndian(b) == FromBe16(b)
  {
    assert b[..1][..0] == [];
    assert BigEndian(b[..1]) == BigEndian([]) * 0x100 + b[0] == b[0];
  }

  // ---- sending ----

  // The calls of send take need bytes between them before one fails. A call is made even for
  // nothing.
  predicate Accepts(sends: seq<int>, need: nat) {
    && |sends| > 0 && sends[0] >= 0
    && (sends[0] >= need || Accepts(sends[1..], need - sends[0]))
  }

  function Total(xs: seq<int>): int {
    if |xs| == 0 then 0 else xs[0] + Total(xs[1..])
  }

  // The first n calls succeed and take need bytes between them.
  ghost predicate TakesAll(sends: seq<int>, need: nat, n: nat) {
    0 < n <= |sends| && (forall i :: 0 <= i < n ==> sends[i] >= 0) && Total(sends[..n]) >= need
  }

  // Said by sums.
  lemma {:induction false} AcceptsIff(sends: seq<int>, need: nat)
    ensures Accepts(sends, need) <==> exists n: nat :: TakesAll(sends, need, n)
  {
    if Accepts(sends, need) {
      if sends[0] >= need {
        TotalHead(sends, 1);
        assert TakesAll(sends, need, 1);
      } else {
        AcceptsIff(sends[1..], need - sends[0]);
        var n: nat :| TakesAll(sends[1..], need - sends[0], n);
        TakesAllCons(sends, need, n);
      }
    }
    if n: nat :| TakesAll(sends, need, n) {
      assert sends[0] >= 0;
      if sends[0] < need {
        TakesAllTail(sends, need, n);
        AcceptsIff(sends[1..], need - sends[0]);
      }
    }
  }

  lemma TotalHead(xs: seq<int>, n: nat)
    requires 0 < n <= |xs|
    ensures Total(xs[..n]) == xs[0] + Total(xs[1..][..n - 1])
    ensures n == 1 ==> Total(xs[..n]) == xs[0]
  {
    assert xs[..n][1..] == xs[1..][..n - 1];
  }

  lemma TakesAllTail(sends: seq<int>, need: nat, n: nat)
    requires |sends| > 0 && 0 <= sends[0] < need && TakesAll(sends, need, n)
    ensures TakesAll(sends[1..], need - sends[0], n - 1)
  {
    TotalHead(sends, n);
    forall i | 0 <= i < n - 1 ensures sends[1..][i] >= 0 {
      assert sends[1..][i] == sends[i + 1];
    }
  }

  lemma TakesAllCons(sends: seq<int>, need: nat, n: nat)
    requires |sends| > 0 && 0 <= sends[0] < need && TakesAll(sends[1..], need - sends[0], n)
    ensures TakesAll(sends, need, n + 1)
  {
    TotalHead(sends, n + 1);
    forall i | 0 <= i < n + 1 ensures sends[i] >= 0 {
      if i > 0 {
        assert sends[1..][i - 1] == sends[i];
      }
    }
  }

  // How many of need bytes the calls take before one fails.
  function Sent(sends: seq<int>, need: nat): (r: nat)
    ensures r <= need
  {
    if |sends| == 0 || sends[0] < 0 then 0
    else if sends[0] >= need then need
    else sends[0] + Sent(sends[1..], need - sends[0])
  }

  // Call n is the first that fails, or there is none and n calls are made.
  ghost predicate StopsAt(sends: seq<int>, n: nat) {
    n <= |sends| && (forall i :: 0 <= i < n ==> sends[i] >= 0) && (n < |sends| ==> sends[n] < 0)
  }

  // All of them, or as many as the calls up to the first failure take.
  lemma {:induction false} SentIsTotal(sends: seq<int>, need: nat, n: nat)
    requires StopsAt(sends, n)
    ensures Sent(sends, need) == if Accepts(sends, need) then need else Total(sends[..n])
  {
    if n > 0 && sends[0] < need {
      assert sends[1..][..n - 1] == sends[1..n];
      SentIsTotal(sends[1..], need - sends[0], n - 1);
      TotalHead(sends, n);
    }
  }

  // dp_psend_data: each element of sends is how much the next call of send could take, negative
  // for an error. A success has sent exactly the data and a failure a prefix.
  method SendData(stream: seq<byte>, data: seq<byte>, sends: seq<int>) returns (out: seq<byte>, ok: bool)
    ensures stream <= out <= stream + data && |out| == |stream| + Sent(sends, |data|)
    ensures ok <==> Accepts(sends, |data|)
    ensures ok ==> out == stream + data
  {
    var pos, i := 0, 0;
    out := stream;
    while true
      invariant 0 <= pos <= |data| && out == stream + data[..pos]
      invariant 0 <= i <= |sends| && (Accepts(sends, |data|) <==> Accepts(sends[i..], |data| - pos))
      invariant Sent(sends, |data|) == pos + Sent(sends[i..], |data| - pos)
      decreases |sends| - i
    {
      if i == |sends| || sends[i] < 0 {
        return out, false;
      }
      var sent := if sends[i] < |data| - pos then sends[i] else |data| - pos;
      assert data[..pos + sent] == data[..pos] + data[pos..pos + sent];
      assert sends[i..][1..] == sends[i + 1..];
      out := out + data[pos..pos + sent];
      pos := pos + sent;
      i := i + 1;
      if pos == |data| {
        assert data[..pos] == data;
        return out, true;
      }
    }
  }

  function Header(kind: u16, len: nat): (r: seq<byte>)
    ensures |r| == PL_HEADER && FromBe16(r) == kind && FromBe16(r[2..]) == len % 0x1_0000
  {
    Be16(kind) + Be16(len % 0x1_0000)
  }

  // Two parts, of which the second is only begun when the first is through.
  function SentParts(sends: seq<int>, first: nat, sends': seq<int>, second: nat): (r: nat)
    ensures r <= first + second
  {
    if Accepts(sends, first) then first + Sent(sends', second) else Sent(sends, first)
  }

  // dp_psend_start: the header, with the length cut to sixteen bits, and then the data.
  method SendStart(stream: seq<byte>, kind: u16, len: nat, data: seq<byte>, sends: seq<int>, sends': seq<int>)
    returns (out: seq<byte>, ok: bool)
    ensures stream <= out <= stream + Header(kind, len) + data
    ensures |out| == |stream| + SentParts(sends, PL_HEADER, sends', |data|)
    ensures ok <==> Accepts(sends, PL_HEADER) && Accepts(sends', |data|)
    ensures ok ==> out == stream + Header(kind, len) + data
  {
    out, ok := SendData(stream, Header(kind, len), sends);
    if ok {
      out, ok := SendData(out, data, sends');
    }
  }

  datatype Frame = Frame(kind: u16, body: seq<byte>)

  // dp_send_packet takes a sixteen-bit length, which is also how much of the data it sends.
  function Cut(f: Frame): (r: Frame)
    ensures r == f <==> |f.body| < 0x1_0000
  {
    f.(body := f.body[..|f.body| % 0x1_0000])
  }

  function Encode(f: Frame): (r: seq<byte>)
    ensures |r| == PL_HEADER + |Cut(f).body|
  {
    Header(f.kind, |f.body|) + Cut(f).body
  }

  // How each packet's header and body fare: what the calls of send take.
  type Calls = (seq<int>, seq<int>)

  predicate Takes(c: Calls, f: Frame) { Accepts(c.0, PL_HEADER) && Accepts(c.1, |Cut(f).body|) }

  function SentOf(c: Calls, f: Frame): nat { SentParts(c.0, PL_HEADER, c.1, |Cut(f).body|) }

  // dp_send_packet
  method SendPacket(stream: seq<byte>, f: Frame, c: Calls) returns (out: seq<byte>, ok: bool)
    ensures stream <= out <= stream + Encode(f) && |out| == |stream| + SentOf(c, f)
    ensures ok <==> Takes(c, f)
    ensures ok ==> out == stream + Encode(f)
  {
    assert stream + Encode(f) == stream + Header(f.kind, |f.body|) + Cut(f).body;
    out, ok := SendStart(stream, f.kind, |f.body|, Cut(f).body, c.0, c.1);
  }

  // ---- receiving ----

  predicate IsProbe(kind: u16) { kind == PT_PROBE_REQ || kind == PT_PROBE_RESP }

  // How much dp_recv_packet reads after a header: probes have a fixed size, whatever the header
  // says, and everything else, known or not, is read to its length.
  function BodySize(kind: u16, len: u16): nat { if IsProbe(kind) then PL_PROBE else len }

  // The next packet and the stream behind it, or None at the end of the stream.
  function ReadFrame(s: seq<byte>): (r: Option<(Frame, seq<byte>)>)
    ensures r.Some? ==> |r.value.1| < |s|
  {
    if |s| < PL_HEADER then None
    else
      var kind, n := FromBe16(s), BodySize(FromBe16(s), FromBe16(s[2..]));
      if |s| < PL_HEADER + n then None
      else Some((Frame(kind, s[PL_HEADER..PL_HEADER + n]), s[PL_HEADER + n..]))
  }

  // A packet is read from exactly the streams that begin with its kind, some length, and a body of
  // the size that these ask for.
  lemma ReadIff(s: seq<byte>, f: Frame, rest: seq<byte>)
    ensures ReadFrame(s) == Some((f, rest)) <==>
            exists len: u16 :: s == Header(f.kind, len) + f.body + rest && |f.body| == BodySize(f.kind, len)
  {
    if ReadFrame(s) == Some((f, rest)) {
      HeaderBack(s);
      var len := FromBe16(s[2..]);
      assert s == Header(f.kind, len) + f.body + rest;
    }
    if len: u16 :| s == Header(f.kind, len) + f.body + rest && |f.body| == BodySize(f.kind, len) {
      HeaderRead(f, len, rest);
    }
  }

  lemma Be16Back(b: seq<byte>)
    requires |b| >= 2
    ensures Be16(FromBe16(b)) == b[..2]
  {
  }

  lemma HeaderBack(s: seq<byte>)
    requires |s| >= PL_HEADER
    ensures Header(FromBe16(s), FromBe16(s[2..])) == s[..PL_HEADER]
  {
    Be16Back(s);
    Be16Back(s[2..]);
    assert s[..PL_HEADER] == s[..2] + s[2..][..2];
  }

  lemma HeaderRead(f: Frame, len: u16, rest: seq<byte>)
    requires |f.body| == BodySize(f.kind, len)
    ensures ReadFrame(Header(f.kind, len) + f.body + rest) == Some((f, rest))
  {
    var s, n := Header(f.kind, len) + f.body + rest, PL_HEADER + |f.body|;
    assert s[..PL_HEADER] == Header(f.kind, len);
    assert FromBe16(s) == f.kind && FromBe16(s[2..]) == len;
    assert s[PL_HEADER..n] == f.body && s[n..] == rest;
  }

  function ReadAll(s: seq<byte>): seq<Frame>
    decreases |s|
  {
    match ReadFrame(s)
    case None => []
    case Some((f, rest)) => [f] + ReadAll(rest)
  }

  function EncodeAll(fs: seq<Frame>): seq<byte> {
    if |fs| == 0 then [] else Encode(fs[0]) + EncodeAll(fs[1..])
  }

  // The reader stands at the next header after this packet: a probe has the size of a probe.
  predicate Aligned(f: Frame) { IsProbe(f.kind) ==> |Cut(f).body| == PL_PROBE }

  // The length fits its field, and a probe has the size of a probe.
  predicate WellFormed(f: Frame) { |f.body| < 0x1_0000 && Aligned(f) }

  // One packet comes back cut, with the stream at the next header, exactly if it is aligned: a
  // length that does not fit costs the end of the body and nothing behind it.
  lemma CutRoundTrip(f: Frame, rest: seq<byte>)
    ensures ReadFrame(Encode(f) + rest) == Some((Cut(f), rest)) <==> Aligned(f)
  {
    var s := Encode(f) + rest;
    assert s[..PL_HEADER] == Header(f.kind, |f.body|);
    assert FromBe16(s) == f.kind && FromBe16(s[2..]) == |Cut(f).body|;
    assert s[PL_HEADER..|Encode(f)|] == Cut(f).body && s[|Encode(f)|..] == rest;
  }

  // It comes back whole exactly if it is well formed.
  lemma FrameRoundTrip(f: Frame, rest: seq<byte>)
    ensures ReadFrame(Encode(f) + rest) == Some((f, rest)) <==> WellFormed(f)
  {
    CutRoundTrip(f, rest);
    if !Aligned(f) && |f.body| >= 0x1_0000 {
      var s := Encode(f) + rest;
      assert ReadFrame(s).Some? ==> |ReadFrame(s).value.0.body| < 0x1_0000;
    }
  }

  // Any sequence of packets is read back as it was sent if and only if all are well formed.
  lemma {:induction false} StreamRoundTrip(fs: seq<Frame>)
    ensures ReadAll(EncodeAll(fs)) == fs <==> forall f :: f in fs ==> WellFormed(f)
  {
    if |fs| > 0 {
      var s, rest := EncodeAll(fs), EncodeAll(fs[1..]);
      StreamRoundTrip(fs[1..]);
      FrameRoundTrip(fs[0], rest);
      assert fs == [fs[0]] + fs[1..];
      assert forall f :: f in fs <==> f == fs[0] || f in fs[1..];
      if WellFormed(fs[0]) {
        assert ReadAll(s) == [fs[0]] + ReadAll(rest);
        assert ReadAll(s)[1..] == ReadAll(rest);
      } else {
        MalformedComesBackChanged(fs[0], rest);
      }
    }
  }

  lemma MalformedComesBackChanged(f: Frame, rest: seq<byte>)
    requires !WellFormed(f)
    ensures |ReadAll(Encode(f) + rest)| > 0 ==> ReadAll(Encode(f) + rest)[0] != f
  {
    var s := Encode(f) + rest;
    assert s[..PL_HEADER] == Header(f.kind, |f.body|);
    assert FromBe16(s) == f.kind && FromBe16(s[2..]) == |Cut(f).body|;
  }

  // Wherever the stream breaks off, the reader has a prefix of the packets.
  lemma {:induction false} BrokenStreamIsPrefix(fs: seq<Frame>, s: seq<byte>)
    requires (forall f :: f in fs ==> WellFormed(f)) && s <= EncodeAll(fs)
    ensures ReadAll(s) <= fs
    decreases |fs|
  {
    if |fs| > 0 {
      var code := Encode(fs[0]);
      if |s| >= |code| {
        assert s == code + s[|code|..];
        FrameRoundTrip(fs[0], s[|code|..]);
        BrokenStreamIsPrefix(fs[1..], s[|code|..]);
      } else {
        BrokenFrameIsNone(fs[0], s);
      }
    }
  }

  lemma BrokenFrameIsNone(f: Frame, s: seq<byte>)
    requires WellFormed(f) && s < Encode(f)
    ensures ReadFrame(s) == None
  {
    if |s| >= PL_HEADER {
      assert s[..PL_HEADER] == Header(f.kind, |f.body|);
      assert FromBe16(s) == f.kind && FromBe16(s[2..]) == |f.body|;
    }
  }

  // How much of a sequence of packets is sent: all up to the first that fails, and what is sent of
  // that one.
  function SentAll(calls: seq<Calls>, fs: seq<Frame>): nat
    requires |calls| == |fs|
  {
    if |fs| == 0 then 0
    else if Takes(calls[0], fs[0]) then |Encode(fs[0])| + SentAll(calls[1..], fs[1..])
    else SentOf(calls[0], fs[0])
  }

  // Packets sent one after the other until one fails. The reader gets a prefix of them, and all
  // of them if every send was accepted.
  method SendAll(fs: seq<Frame>, calls: seq<Calls>) returns (out: seq<byte>, ok: bool)
    requires |calls| == |fs|
    ensures ok <==> forall k :: 0 <= k < |fs| ==> Takes(calls[k], fs[k])
    ensures out <= EncodeAll(fs) && |out| == SentAll(calls, fs) && (ok ==> out == EncodeAll(fs))
    ensures (forall f :: f in fs ==> WellFormed(f)) ==> ReadAll(out) <= fs && (ok ==> ReadAll(out) == fs)
  {
    out, ok := [], true;
    var i := 0;
    assert fs[..0] == [];
    while ok && i < |fs|
      invariant 0 <= i <= |fs| && (ok ==> out == EncodeAll(fs[..i]))
      invariant out <= EncodeAll(fs)
      invariant |out| + (if ok then SentAll(calls[i..], fs[i..]) else 0) == SentAll(calls, fs)
      invariant if ok then forall k :: 0 <= k < i ==> Takes(calls[k], fs[k])
                else exists k :: 0 <= k < |fs| && !Takes(calls[k], fs[k])
      decreases |fs| - i, ok
    {
      EncodeAllAt(fs, i);
      assert calls[i..][1..] == calls[i + 1..] && fs[i..][1..] == fs[i + 1..];
      var next, sent := SendPacket(out, fs[i], calls[i]);
      out, ok := next, sent;
      if ok {
        i := i + 1;
      }
    }
    assert fs[..|fs|] == fs;
    StreamRoundTrip(fs);
    if forall f :: f in fs ==> WellFormed(f) {
      BrokenStreamIsPrefix(fs, out);
    }
  }

  lemma {:induction false} EncodeAllAt(fs: seq<Frame>, i: nat)
    requires i < |fs|
    ensures EncodeAll(fs[..i]) + Encode(fs[i]) == EncodeAll(fs[..i + 1]) <= EncodeAll(fs)
  {
    if i > 0 {
      EncodeAllAt(fs[1..], i - 1);
      assert fs[..i][1..] == fs[1..][..i - 1] && fs[..i + 1][1..] == fs[1..][..i];
    } else {
      assert fs[..1][1..] == [];
    }
  }

  // What goes over the wire for a probe and its answer.
  lemma ProbeBytes(a: byte, b: byte)
    ensures Encode(Frame(PT_PROBE_REQ, [a, b])) == [0xab, 0x34, 0, 2, a, b]
    ensures Encode(Frame(PT_PROBE_RESP, [a, b])) == [0xab, 0x35, 0, 2, a, b]
  {
  }

  // Two bytes are read after the header of a probe or of its answer, whatever length it announces.
  lemma ProbesIgnoreLength(hi: byte, lo: byte, a: byte, b: byte, rest: seq<byte>)
    ensures ReadFrame([0xab, 0x34, hi, lo, a, b] + rest) == Some((Frame(0xab34, [a, b]), rest))
    ensures ReadFrame([0xab, 0x35, hi, lo, a, b] + rest) == Some((Frame(0xab35, [a, b]), rest))
  {
    var x: int := hi;
    var len: u16 := x * 0x100 + lo;
    assert Header(0xab34, len) + [a, b] + rest == [0xab, 0x34, hi, lo, a, b] + rest;
    assert Header(0xab35, len) + [a, b] + rest == [0xab, 0x35, hi, lo, a, b] + rest;
    HeaderRead(Frame(0xab34, [a, b]), len, rest);
    HeaderRead(Frame(0xab35, [a, b]), len, rest);
  }

  // ---- the link graph ----

  type Edge = e: seq<byte> | |e| == PL_EDGE witness seq(PL_EDGE, i => 0)
  type HostRecord = h: seq<byte> | |h| == PL_HOST witness seq(PL_HOST, i => 0)

  datatype LinkGraph = LinkGraph(sender: HostRecord, edges: seq<Edge>)

  function Flatten(es: seq<Edge>): (r: seq<byte>)
    ensures |r| == PL_EDGE * |es|
  {
    if |es| == 0 then [] else Flatten(es[..|es| - 1]) + es[|es| - 1]
  }

  function Split(b: seq<byte>, n: nat): (es: seq<Edge>)
    requires |b| >= PL_EDGE * n
    ensures |es| == n
  {
    if n == 0 then [] else Split(b, n - 1) + [b[PL_EDGE * (n - 1)..PL_EDGE * n]]
  }

  lemma {:induction false} SplitFlatten(es: seq<Edge>, b: seq<byte>)
    requires Flatten(es) <= b
    ensures Split(b, |es|) == es
  {
    if |es| > 0 {
      var front, n := es[..|es| - 1], |es| - 1;
      assert Flatten(front) == b[..PL_EDGE * n] by {
        assert Flatten(front) == Flatten(es)[..PL_EDGE * n];
      }
      SplitFlatten(front, b);
      assert b[PL_EDGE * n..PL_EDGE * (n + 1)] == Flatten(es)[PL_EDGE * n..] == es[n];
    }
  }

  // Edge k stands at 36 k.
  lemma {:induction false} FlattenAt(es: seq<Edge>, k: nat)
    requires k < |es|
    ensures Flatten(es)[PL_EDGE * k..PL_EDGE * (k + 1)] == es[k]
  {
    var n := |es| - 1;
    var front := es[..n];
    if k == n {
      assert Flatten(es)[PL_EDGE * n..] == es[n];
    } else {
      FlattenAt(front, k);
      assert Flatten(es)[..PL_EDGE * n] == Flatten(front);
      assert Flatten(es)[PL_EDGE * k..PL_EDGE * (k + 1)] == Flatten(front)[PL_EDGE * k..PL_EDGE * (k + 1)];
    }
  }

  // struct pkt_link_graph, without its edges.
  function GraphStatic(g: LinkGraph): (r: seq<byte>)
    ensures |r| == PL_LINK_GRAPH_STATIC
  {
    Be16(|g.edges| % 0x1_0000) + g.sender
  }

  // A link graph on the stream: both the length and the count are cut to sixteen bits, the edges
  // are not.
  function SendGraph(g: LinkGraph): seq<byte> {
    Header(PT_LINK_GRAPH, PL_EDGE * |g.edges| + PL_LINK_GRAPH_STATIC) + GraphStatic(g) + Flatten(g.edges)
  }

  // Where everything stands: kind, length, count, sender, edges.
  lemma GraphLayout(g: LinkGraph)
    ensures var s, n := SendGraph(g), |g.edges|;
            && |s| == 18 + 36 * n && s[..2] == [0xab, 0xac]
            && BigEndian(s[2..4]) == (36 * n + 14) % 0x1_0000 && BigEndian(s[4..6]) == n % 0x1_0000
            && s[6..18] == g.sender && s[18..] == Flatten(g.edges)
  {
    var s, n := SendGraph(g), |g.edges|;
    assert s[..4] == Header(PT_LINK_GRAPH, PL_EDGE * n + PL_LINK_GRAPH_STATIC) && s[4..18] == GraphStatic(g);
    assert s[..2] == s[..4][..2] == Be16(PT_LINK_GRAPH);
    assert s[2..4] == s[..4][2..] == Be16((PL_EDGE * n + PL_LINK_GRAPH_STATIC) % 0x1_0000);
    assert s[4..6] == s[4..18][..2] == Be16(n % 0x1_0000);
    TwoBytes(s[2..4]);
    TwoBytes(s[4..6]);
  }

  // dp_send_linkstate: header, fixed part and edges, each through its own calls of send.
  method SendLinkstate(stream: seq<byte>, g: LinkGraph, c: Calls, edgeCalls: seq<int>)
    returns (out: seq<byte>, code: int)
    ensures stream <= out <= stream + SendGraph(g)
    ensures |out| == |stream|
                     + if code == -1 then SentParts(c.0, PL_HEADER, c.1, PL_LINK_GRAPH_STATIC)
                       else PL_HEADER + PL_LINK_GRAPH_STATIC + Sent(edgeCalls, PL_EDGE * |g.edges|)
    ensures code == 0 ==> out == stream + SendGraph(g)
    ensures code == if !Accepts(c.0, PL_HEADER) || !Accepts(c.1, PL_LINK_GRAPH_STATIC) then -1
                    else if !Accepts(edgeCalls, PL_EDGE * |g.edges|) then -2
                    else 0
  {
    var len := PL_EDGE * |g.edges| + PL_LINK_GRAPH_STATIC;
    var ok;
    out, ok := SendStart(stream, PT_LINK_GRAPH, len, GraphStatic(g), c.0, c.1);
    assert stream + Header(PT_LINK_GRAPH, len) + GraphStatic(g) + Flatten(g.edges) == stream + SendGraph(g);
    if !ok {
      return out, -1;
    }
    out, ok := SendData(out, Flatten(g.edges), edgeCalls);
    code := if ok then 0 else -2;
  }

  // dp_read_pkt_link_graph; a body too short for the fixed part is not read as a graph.
  function ParseGraph(body: seq<byte>): Option<LinkGraph> {
    if |body| < PL_LINK_GRAPH_STATIC then None
    else
      var count := (|body| - PL_LINK_GRAPH_STATIC) / PL_EDGE;
      if count != FromBe16(body) then None
      else Some(LinkGraph(body[2..PL_LINK_GRAPH_STATIC], Split(body[PL_LINK_GRAPH_STATIC..], count)))
  }

  // A body is read as a graph exactly if it is that graph, with its own count, and less than one
  // more edge behind it.
  lemma ParseIff(body: seq<byte>, g: LinkGraph)
    ensures ParseGraph(body) == Some(g) <==>
            && |g.edges| < 0x1_0000
            && exists pad: seq<byte> :: |pad| < PL_EDGE && body == GraphStatic(g) + Flatten(g.edges) + pad
  {
    if ParseGraph(body) == Some(g) {
      var pad := ParsedBody(body, g);
    }
    if |g.edges| < 0x1_0000 {
      if pad: seq<byte> :| |pad| < PL_EDGE && body == GraphStatic(g) + Flatten(g.edges) + pad {
        BodyParses(body, g, pad);
      }
    }
  }

  lemma BodyParses(body: seq<byte>, g: LinkGraph, pad: seq<byte>)
    requires |g.edges| < 0x1_0000 && |pad| < PL_EDGE && body == GraphStatic(g) + Flatten(g.edges) + pad
    ensures ParseGraph(body) == Some(g)
  {
    var tail := body[PL_LINK_GRAPH_STATIC..];
    assert tail == Flatten(g.edges) + pad;
    assert body[..PL_LINK_GRAPH_STATIC] == GraphStatic(g);
    assert FromBe16(body) == FromBe16(Be16(|g.edges|)) == |g.edges|;
    assert body[2..PL_LINK_GRAPH_STATIC] == GraphStatic(g)[2..] == g.sender;
    assert |tail| == PL_EDGE * |g.edges| + |pad|;
    assert |tail| / PL_EDGE == |g.edges|;
    SplitFlatten(g.edges, tail);
  }

  lemma ParsedBody(body: seq<byte>, g: LinkGraph) returns (pad: seq<byte>)
    requires ParseGraph(body) == Some(g)
    ensures |g.edges| < 0x1_0000 && |pad| < PL_EDGE && body == GraphStatic(g) + Flatten(g.edges) + pad
  {
    var tail, n := body[PL_LINK_GRAPH_STATIC..], |g.edges|;
    assert n == |tail| / PL_EDGE && n == FromBe16(body);
    pad := tail[PL_EDGE * n..];
    FlattenSplit(tail, n);
    StaticBack(body, g);
    assert body == body[..PL_LINK_GRAPH_STATIC] + tail;
    assert tail == tail[..PL_EDGE * n] + pad;
  }

  lemma StaticBack(body: seq<byte>, g: LinkGraph)
    requires |body| >= PL_LINK_GRAPH_STATIC && |g.edges| == FromBe16(body) && g.sender == body[2..PL_LINK_GRAPH_STATIC]
    ensures GraphStatic(g) == body[..PL_LINK_GRAPH_STATIC]
  {
    Be16Back(body);
    assert body[..PL_LINK_GRAPH_STATIC] == body[..2] + body[2..PL_LINK_GRAPH_STATIC];
  }

  lemma {:induction false} FlattenSplit(b: seq<byte>, n: nat)
    requires |b| >= PL_EDGE * n
    ensures Flatten(Split(b, n)) == b[..PL_EDGE * n]
  {
    if n > 0 {
      FlattenSplit(b, n - 1);
      var es := Split(b, n);
      assert es[..n - 1] == Split(b, n - 1);
      assert b[..PL_EDGE * n] == b[..PL_EDGE * (n - 1)] + b[PL_EDGE * (n - 1)..PL_EDGE * n];
    }
  }

  // The receiver gets the graph that was sent, and stands at the next header.
  ghost predicate GraphArrives(g: LinkGraph, rest: seq<byte>) {
    match ReadFrame(SendGraph(g) + rest)
    case None => false
    case Some((f, rest')) => f.kind == PT_LINK_GRAPH && ParseGraph(f.body) == Some(g) && rest' == rest
  }

  function GraphBody(g: LinkGraph): (body: seq<byte>)
    requires |g.edges| <= 1820
    ensures |body| == PL_EDGE * |g.edges| + PL_LINK_GRAPH_STATIC < 0x1_0000
  {
    GraphStatic(g) + Flatten(g.edges)
  }

  lemma GraphIsFrame(g: LinkGraph)
    requires |g.edges| <= 1820
    ensures SendGraph(g) == Encode(Frame(PT_LINK_GRAPH, GraphBody(g)))
  {
  }

  lemma GraphParses(g: LinkGraph)
    requires |g.edges| <= 1820
    ensures ParseGraph(GraphBody(g)) == Some(g)
  {
    var body, flat := GraphBody(g), Flatten(g.edges);
    assert body[..2] == Be16(|g.edges|);
    assert FromBe16(body) == FromBe16(Be16(|g.edges|)) == |g.edges|;
    assert body[2..PL_LINK_GRAPH_STATIC] == g.sender && body[PL_LINK_GRAPH_STATIC..] == flat;
    assert (|body| - PL_LINK_GRAPH_STATIC) / PL_EDGE == |g.edges|;
    SplitFlatten(g.edges, flat);
  }

  // No body that a sixteen-bit length can announce holds more than 1820 edges.
  lemma AnnouncedGraphsAreSmall(s: seq<byte>)
    ensures match ReadFrame(s)
            case None => true
            case Some((f, _)) => ParseGraph(f.body).Some? ==> |ParseGraph(f.body).value.edges| <= 1820
  {
  }

  // A graph arrives as it was sent, with the stream aligned behind it, if and only if it has at
  // most 1820 edges.
  lemma GraphArrivesIffFits(g: LinkGraph, rest: seq<byte>)
    ensures GraphArrives(g, rest) <==> |g.edges| <= 1820
  {
    AnnouncedGraphsAreSmall(SendGraph(g) + rest);
    if |g.edges| <= 1820 {
      GraphIsFrame(g);
      GraphParses(g);
      FrameRoundTrip(Frame(PT_LINK_GRAPH, GraphBody(g)), rest);
    }
  }
}
