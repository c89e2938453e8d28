/**
  The chunk reassembler of the world-sync consumer: the drain loop of
  `bloomin_doomin` (src/main.rs:152-162), which receives chunks from the
  zero-copy subscriber until it reports none, appends each payload to a local
  buffer and closes a message at every chunk whose end flag is set.
 */
module Framing {
  import opened Common

  /** One octet of a payload. */
  type Byte = b: int | 0 <= b < 256
  type Bytes = seq<Byte>

  /** A chunk as `get_chunk` hands it out: its payload and its end-of-message flag. */
  datatype Chunk = Chunk(payload: Bytes, end: bool)

  /** The two locals of the drain loop: the completed messages `msgs` and the open buffer `currmsg`. */
  datatype Framed = Framed(msgs: seq<Bytes>, currmsg: Bytes)

  /**
    What the loop body does with one chunk: earlier messages stay as they are,
    a message is added exactly when the chunk's end flag is set, and the open
    buffer is empty after such a chunk. `AbsorbKeepsBytes` adds that no byte
    is lost or reordered.
   */
  function Absorb(f: Framed, c: Chunk): (r: Framed)
    ensures |r.msgs| == |f.msgs| + (if c.end then 1 else 0) && r.msgs[..|f.msgs|] == f.msgs
    ensures c.end ==> r.currmsg == []
  {
    var cur := f.currmsg + c.payload;
    if c.end then Framed(f.msgs + [cur], []) else Framed(f.msgs, cur)
  }

  /**
    The locals after the loop has received `cs` in arrival order, starting from
    empty ones: one message is completed per chunk whose end flag is set.
   */
  function Reassemble(cs: seq<Chunk>): (r: Framed)
    ensures |r.msgs| == CountEnds(cs)
  {
    if cs == [] then Framed([], []) else Absorb(Reassemble(cs[..|cs| - 1]), cs[|cs| - 1])
  }

  /** All payload bytes of `cs`, in arrival order. */
  function Flatten(cs: seq<Chunk>): Bytes
  {
    if cs == [] then [] else Flatten(cs[..|cs| - 1]) + cs[|cs| - 1].payload
  }

  /** All bytes of the messages `ms`, in order. */
  function Concat(ms: seq<Bytes>): Bytes
  {
    if ms == [] then [] else Concat(ms[..|ms| - 1]) + ms[|ms| - 1]
  }

  /** The number of chunks of `cs` whose end flag is set. */
  function CountEnds(cs: seq<Chunk>): nat
  {
    if cs == [] then 0 else CountEnds(cs[..|cs| - 1]) + (if cs[|cs| - 1].end then 1 else 0)
  }

  /** The positions in `cs` of the chunks whose end flag is set, in increasing order. */
  function EndPositions(cs: seq<Chunk>): (e: seq<nat>)
    ensures forall i :: 0 <= i < |e| ==> e[i] < |cs| && cs[e[i]].end
    ensures forall i, j :: 0 <= i < j < |e| ==> e[i] < e[j]
  {
    if cs == [] then []
    else
      var p := cs[..|cs| - 1];
      assert forall k :: 0 <= k < |p| ==> p[k] == cs[k];
      EndPositions(p) + (if cs[|cs| - 1].end then [|cs| - 1] else [])
  }

  /** A position is listed by `EndPositions` exactly when the chunk there has its end flag set. */
  lemma {:induction false} EndPositionsExact(cs: seq<Chunk>, k: nat)
    requires k < |cs|
    ensures k in EndPositions(cs) <==> cs[k].end
  {
    var p := cs[..|cs| - 1];
    if k < |p| {
      EndPositionsExact(p, k);
      assert p[k] == cs[k];
    }
  }

  /** The two counts of end-flagged chunks agree. */
  lemma {:induction false} EndCount(cs: seq<Chunk>)
    ensures |EndPositions(cs)| == CountEnds(cs)
  {
    if cs != [] {
      EndCount(cs[..|cs| - 1]);
    }
  }

  /** Where message `j` begins: just after the chunk that closed message `j - 1`. */
  function MessageStart(e: seq<nat>, j: nat): nat
    requires j <= |e|
  {
    if j == 0 then 0 else e[j - 1] + 1
  }

  lemma FlattenLast(cs: seq<Chunk>, a: nat)
    requires a < |cs|
    ensures Flatten(cs[a..]) == Flatten(cs[a..|cs| - 1]) + cs[|cs| - 1].payload
  {
    assert cs[a..][..|cs| - a - 1] == cs[a..|cs| - 1];
  }

  lemma ConcatLast(ms: seq<Bytes>, m: Bytes)
    ensures Concat(ms + [m]) == Concat(ms) + m
  {
    assert (ms + [m])[..|ms|] == ms;
  }

  lemma {:induction false} FlattenAppend(a: seq<Chunk>, b: seq<Chunk>)
    ensures Flatten(a + b) == Flatten(a) + Flatten(b)
  {
    if b == [] {
      assert a + b == a;
    } else {
      FlattenAppend(a, b[..|b| - 1]);
      assert (a + b)[..|a + b| - 1] == a + b[..|b| - 1];
    }
  }

  lemma {:induction false} ConcatAppend(m: seq<Bytes>, n: seq<Bytes>)
    ensures Concat(m + n) == Concat(m) + Concat(n)
  {
    if n == [] {
      assert m + n == m;
    } else {
      ConcatAppend(m, n[..|n| - 1]);
      assert (m + n)[..|m + n| - 1] == m + n[..|n| - 1];
    }
  }

  /** One chunk adds its payload after the bytes already held, and moves no other byte. */
  lemma AbsorbKeepsBytes(f: Framed, c: Chunk)
    ensures Concat(Absorb(f, c).msgs) + Absorb(f, c).currmsg == Concat(f.msgs) + f.currmsg + c.payload
  {
    if c.end {
      ConcatLast(f.msgs, f.currmsg + c.payload);
    }
  }

  /**
    Nothing is lost or reordered: the completed messages in order, followed by
    the open buffer, are exactly the received payloads in arrival order.
   */
  lemma {:induction false} NoLoss(cs: seq<Chunk>)
    ensures Concat(Reassemble(cs).msgs) + Reassemble(cs).currmsg == Flatten(cs)
  {
    if cs != [] {
      NoLoss(cs[..|cs| - 1]);
      AbsorbKeepsBytes(Reassemble(cs[..|cs| - 1]), cs[|cs| - 1]);
    }
  }

  /** One message per chunk whose end flag is set, counted by position. */
  lemma {:induction false} SpanCount(cs: seq<Chunk>)
    ensures |Reassemble(cs).msgs| == |EndPositions(cs)|
  {
    if cs != [] {
      SpanCount(cs[..|cs| - 1]);
    }
  }

  /** The open buffer holds the payloads received after the last chunk whose end flag is set. */
  lemma {:induction false} RemainderSpan(cs: seq<Chunk>)
    ensures Reassemble(cs).currmsg == Flatten(cs[MessageStart(EndPositions(cs), |EndPositions(cs)|)..])
  {
    if cs != [] {
      var p, c := cs[..|cs| - 1], cs[|cs| - 1];
      RemainderSpan(p);
      var ep := EndPositions(p);
      if !c.end {
        var s := MessageStart(ep, |ep|);
        FlattenLast(cs, s);
        assert cs[s..|cs| - 1] == p[s..];
      }
    }
  }

  /** A message completed before the last chunk keeps its span when that chunk arrives. */
  lemma EarlierMessage(cs: seq<Chunk>, j: nat)
    requires cs != []
    requires j < |EndPositions(cs[..|cs| - 1])| == |Reassemble(cs[..|cs| - 1]).msgs|
    requires
      var p := cs[..|cs| - 1];
      var ep := EndPositions(p);
      Reassemble(p).msgs[j] == Flatten(p[MessageStart(ep, j)..ep[j] + 1])
    ensures j < |Reassemble(cs).msgs| && j < |EndPositions(cs)|
    ensures
      var e := EndPositions(cs);
      Reassemble(cs).msgs[j] == Flatten(cs[MessageStart(e, j)..e[j] + 1])
  {
    var p := cs[..|cs| - 1];
    var ep, e := EndPositions(p), EndPositions(cs);
    assert e == ep + (if cs[|cs| - 1].end then [|p|] else []);
    var mp := Reassemble(p).msgs;
    assert Reassemble(cs).msgs[..|mp|] == mp;
    assert Reassemble(cs).msgs[j] == mp[j];
    assert MessageStart(e, j) == MessageStart(ep, j) && e[j] == ep[j];
    assert cs[MessageStart(e, j)..e[j] + 1] == p[MessageStart(ep, j)..ep[j] + 1];
  }

  /** A last chunk with its end flag set closes the open buffer, its own payload included, into a message. */
  lemma ClosingMessage(cs: seq<Chunk>)
    requires cs != [] && cs[|cs| - 1].end
    ensures
      var p := Reassemble(cs[..|cs| - 1]);
      Reassemble(cs).msgs == p.msgs + [p.currmsg + cs[|cs| - 1].payload] && Reassemble(cs).currmsg == []
    ensures
      var j := |EndPositions(cs[..|cs| - 1])|;
      var e := EndPositions(cs);
      && j < |Reassemble(cs).msgs| && j < |e|
      && Reassemble(cs).msgs[j] == Flatten(cs[MessageStart(e, j)..e[j] + 1])
  {
    var p := cs[..|cs| - 1];
    SpanCount(p);
    RemainderSpan(p);
    var ep, e := EndPositions(p), EndPositions(cs);
    var j, s := |ep|, MessageStart(ep, |ep|);
    FlattenLast(cs, s);
    assert cs[s..|cs| - 1] == p[s..];
    assert MessageStart(e, j) == s && e[j] + 1 == |cs|;
    assert cs[MessageStart(e, j)..e[j] + 1] == cs[s..];
  }

  /**
    Message boundaries: message `j` is the concatenation of the payloads from
    just after the `j`-th chunk whose end flag is set (or from the first chunk)
    up to and including the `j + 1`-st such chunk.
   */
  lemma {:induction false} MessageSpan(cs: seq<Chunk>, j: nat)
    requires j < |EndPositions(cs)|
    ensures j < |Reassemble(cs).msgs|
    ensures
      var e := EndPositions(cs);
      Reassemble(cs).msgs[j] == Flatten(cs[MessageStart(e, j)..e[j] + 1])
  {
    SpanCount(cs);
    var p := cs[..|cs| - 1];
    SpanCount(p);
    var ep := EndPositions(p);
    assert EndPositions(cs) == ep + (if cs[|cs| - 1].end then [|p|] else []);
    if j < |ep| {
      MessageSpan(p, j);
      EarlierMessage(cs, j);
    } else {
      assert cs[|cs| - 1].end && j == |ep|;
      ClosingMessage(cs);
    }
  }

  /**
    Reassembling two batches separately loses nothing when the first ends on a
    message boundary: the messages are those of the two batches in order, and
    the open buffer is that of the second. `SplitInsideMessage` is the converse.
   */
  lemma {:induction false} BoundarySplit(a: seq<Chunk>, b: seq<Chunk>)
    requires Reassemble(a).currmsg == []
    ensures Reassemble(a + b) == Framed(Reassemble(a).msgs + Reassemble(b).msgs, Reassemble(b).currmsg)
  {
    if b == [] {
      assert a + b == a;
    } else {
      var b', c := b[..|b| - 1], b[|b| - 1];
      BoundarySplit(a, b');
      assert (a + b)[..|a + b| - 1] == a + b';
      var ma, fb' := Reassemble(a).msgs, Reassemble(b');
      var cur := fb'.currmsg + c.payload;
      assert Reassemble(a + b) == Absorb(Framed(ma + fb'.msgs, fb'.currmsg), c);
      assert Reassemble(b) == Absorb(fb', c);
      if c.end {
        assert ma + (fb'.msgs + [cur]) == ma + fb'.msgs + [cur];
      }
    }
  }

  /** Prepending messages and dropping an open buffer, over plain byte sequences. */
  lemma DropOpenBuffer(ma: seq<Bytes>, ra: Bytes, mb: seq<Bytes>, rb: Bytes, fla: Bytes, flb: Bytes)
    requires Concat(ma) + ra == fla && Concat(mb) + rb == flb
    ensures |ra| <= |fla| && Concat(ma + mb) + rb == fla[..|fla| - |ra|] + flb
  {
    ConcatAppend(ma, mb);
    assert fla[..|Concat(ma)|] == Concat(ma);
  }

  /**
    When the first batch leaves an unfinished message, reassembling the two
    batches separately differs from reassembling them together: the separate
    result holds all received bytes except the first batch's open buffer, in
    arrival order.
   */
  lemma SplitInsideMessage(a: seq<Chunk>, b: seq<Chunk>)
    ensures |Reassemble(a).currmsg| <= |Flatten(a)|
    ensures
      var fa, fb := Reassemble(a), Reassemble(b);
      Concat(fa.msgs + fb.msgs) + fb.currmsg == Flatten(a)[..|Flatten(a)| - |fa.currmsg|] + Flatten(b)
    ensures Reassemble(a).currmsg != [] ==>
      Reassemble(a + b) != Framed(Reassemble(a).msgs + Reassemble(b).msgs, Reassemble(b).currmsg)
  {
    var fa, fb, fab := Reassemble(a), Reassemble(b), Reassemble(a + b);
    NoLoss(a);
    NoLoss(b);
    DropOpenBuffer(fa.msgs, fa.currmsg, fb.msgs, fb.currmsg, Flatten(a), Flatten(b));
    if fa.currmsg != [] {
      NoLoss(a + b);
      FlattenAppend(a, b);
      assert |Concat(fab.msgs) + fab.currmsg| == |Concat(fa.msgs)| + |fa.currmsg| + |Concat(fb.msgs)| + |fb.currmsg|;
    }
  }

  /**
    The bytes of an unfinished message are dropped with the local buffer at the
    end of a tick: a message split across two ticks is shown as its tail only.
   */
  lemma SplitAcrossTicks()
    ensures Reassemble([Chunk([65, 66], false)]) == Framed([], [65, 66])
    ensures Reassemble([Chunk([67, 68], true)]).msgs == [[67, 68]]
    ensures Reassemble([Chunk([65, 66], false), Chunk([67, 68], true)]).msgs == [[65, 66, 67, 68]]
  {
    var ab, cd := Chunk([65, 66], false), Chunk([67, 68], true);
    assert [ab][..0] == [] && [cd][..0] == [];
    assert Reassemble([ab]) == Framed([], [65, 66]);
    assert Reassemble([cd]) == Absorb(Framed([], []), cd);
    assert [] + cd.payload == [67, 68];
    assert [ab, cd][..1] == [ab];
    assert Reassemble([ab, cd]) == Absorb(Framed([], [65, 66]), cd);
    assert [65, 66] + cd.payload == [65, 66, 67, 68];
  }

  /** Chunks "AB", "CD" (end) and "EF" give the message "ABCD" and leave "EF" open. */
  lemma ThreeChunks()
    ensures Reassemble([Chunk([65, 66], false), Chunk([67, 68], true), Chunk([69, 70], false)])
         == Framed([[65, 66, 67, 68]], [69, 70])
  {
    var ab, cd, ef := Chunk([65, 66], false), Chunk([67, 68], true), Chunk([69, 70], false);
    assert [ab][..0] == [];
    assert Reassemble([ab]) == Framed([], [65, 66]);
    assert [ab, cd][..1] == [ab];
    assert Reassemble([ab, cd]) == Absorb(Framed([], [65, 66]), cd);
    assert [65, 66] + cd.payload == [65, 66, 67, 68];
    assert [ab, cd, ef][..2] == [ab, cd];
  }

  /** The zero-copy subscriber of the world-sync service, seen as a queue of pending chunks. */
  class Subscriber {
    var pending: seq<Chunk>

    constructor (queued: seq<Chunk>)
      ensures pending == queued
    {
      pending := queued;
    }

    /** Non-blocking receive: the oldest pending chunk, or `None` when nothing is pending. */
    method Receive() returns (r: Option<Chunk>)
      modifies this
      ensures old(pending) == [] ==> r == None && pending == []
      ensures old(pending) != [] ==> r == Some(old(pending)[0]) && pending == old(pending)[1..]
    {
      if pending == [] {
        r := None;
      } else {
        r := Some(pending[0]);
        pending := pending[1..];
      }
    }
  }

  /**
    The drain loop: receives until the subscriber reports no chunk, so that
    nothing is left pending, and returns the completed messages and the open
    buffer that reassembling the received chunks gives.
   */
  method Drain(ch: Subscriber) returns (msgs: seq<Bytes>, currmsg: Bytes)
    modifies ch
    ensures ch.pending == []
    ensures Framed(msgs, currmsg) == Reassemble(old(ch.pending))
  {
    msgs, currmsg := [], [];
    ghost var received: seq<Chunk> := [];
    var next := ch.Receive();
    while next.Some?
      invariant next.Some? ==> old(ch.pending) == received + [next.value] + ch.pending
      invariant next.None? ==> old(ch.pending) == received && ch.pending == []
      invariant Framed(msgs, currmsg) == Reassemble(received)
      decreases |ch.pending| + (if next.Some? then 1 else 0)
    {
      var c := next.value;
      currmsg := currmsg + c.payload;
      if c.end {
        msgs := msgs + [currmsg];
        currmsg := [];
      }
      assert (received + [c])[..|received|] == received;
      received := received + [c];
      next := ch.Receive();
    }
  }
}
