// What one side segments the other reassembles, byte for byte and exactly once.

module IsoTpRoundTrip {
  import opened Words
  import opened IsoTpFrames
  import Rx = IsoTpRx
  import Tx = IsoTpTx

  // The frames put on the wire towards the receiver's physical identifier, in order, at any times.
  function Wire(fs: seq<seq<Octet>>, nows: seq<nat>): (es: seq<Rx.Event>)
    requires |fs| == |nows| && AllFit(fs)
    ensures Rx.AllLegal(es)
    ensures |es| == |fs|
  {
    seq(|fs|, i requires 0 <= i < |fs| =>
      assert fs[i] in fs;
      Rx.Received(Arrives(ID_PHYSICAL, fs[i]), nows[i]))
  }

  // The messages handed up.
  function Dispatched(outs: seq<Rx.Out>): seq<seq<Octet>> {
    if outs == [] then []
    else (if outs[0].Dispatch? then [outs[0].msg] else []) + Dispatched(outs[1..])
  }

  // What the sink hears.
  function Heard(outs: seq<Rx.Out>): seq<Rx.SinkEvent> {
    if outs == [] then []
    else (if outs[0].ToSink? then [outs[0].event] else []) + Heard(outs[1..])
  }

  lemma {:induction false} DispatchedConcat(a: seq<Rx.Out>, b: seq<Rx.Out>)
    ensures Dispatched(a + b) == Dispatched(a) + Dispatched(b)
  {
    if a == [] {
      assert a + b == b;
    } else {
      assert (a + b)[1..] == a[1..] + b;
      DispatchedConcat(a[1..], b);
    }
  }

  lemma {:induction false} HeardConcat(a: seq<Rx.Out>, b: seq<Rx.Out>)
    ensures Heard(a + b) == Heard(a) + Heard(b)
  {
    if a == [] {
      assert a + b == b;
    } else {
      assert (a + b)[1..] == a[1..] + b;
      HeardConcat(a[1..], b);
    }
  }

  // ----- Frame by frame -----

  lemma SingleArrives(m: seq<Octet>)
    requires 0 < |m| <= SF_MAX
    ensures var f := Arrives(ID_PHYSICAL, SingleFrame(m));
            && f.dlc > 0 && High(f.data[0]) == PCI_SINGLE && Rx.SinglePayload(f) == m
  {
    var used := SingleFrame(m);
    var f := Arrives(ID_PHYSICAL, used);
    assert f.data[0] == f.data[..|used|][0];
    if |m| <= 7 {
      assert used == [Pci(PCI_SINGLE, |m|)] + m;
      assert f.data[1..1 + |m|] == f.data[..|used|][1..];
    } else {
      assert used == [Pci(PCI_SINGLE, 0), |m|] + m;
      assert f.data[1] == f.data[..|used|][1];
      assert f.data[2..2 + |m|] == f.data[..|used|][2..];
    }
  }

  lemma HeaderReads(total: nat)
    requires SF_MAX < total < WORD_LIMIT
    ensures var h := FirstHeader(total);
            && High(h[0]) == PCI_FIRST
            && 0x100 * Low(h[0]) + h[1] == (if total <= FF_CLASSIC_MAX then total else 0)
            && (total > FF_CLASSIC_MAX ==> Read32(h, 2) == total)
  {
    if total > FF_CLASSIC_MAX {
      Read32Back(total);
      var h, b := FirstHeader(total), BigEndian32(total);
      assert h[2] == b[0] && h[3] == b[1] && h[4] == b[2] && h[5] == b[3];
    }
  }

  lemma FirstArrives(m: seq<Octet>)
    requires SF_MAX < |m| < WORD_LIMIT
    ensures var f := Arrives(ID_PHYSICAL, FirstFrame(m));
            var n := FirstPayload(|m|);
            && f.dlc == FRAME_SIZE && High(f.data[0]) == PCI_FIRST
            && Rx.FirstLength(f) == Rx.Length(|m|, FRAME_SIZE - n)
            && Rx.FirstChunk(f, |m|, FRAME_SIZE - n) == m[..n]
  {
    var used := FirstFrame(m);
    var f := Arrives(ID_PHYSICAL, used);
    var h := FirstHeader(|m|);
    HeaderReads(|m|);
    hide High, Low, FirstHeader, Arrives;
    assert f.data == f.data[..|used|] == used == h + m[..FirstPayload(|m|)];
    assert used[0] == h[0] && used[1] == h[1];
    if |m| > FF_CLASSIC_MAX {
      assert used[2] == h[2] && used[3] == h[3] && used[4] == h[4] && used[5] == h[5];
      assert Read32(used, 2) == Read32(h, 2);
    }
    assert used[|h|..] == m[..FirstPayload(|m|)];
  }

  lemma ConsecutiveArrives(seqNo: nat, chunk: seq<Octet>)
    requires seqNo < 16 && |chunk| <= CF_MAX
    ensures var f := Arrives(ID_PHYSICAL, ConsecutiveFrame(seqNo, chunk));
            && f.dlc > |chunk| && High(f.data[0]) == PCI_CONSECUTIVE && Low(f.data[0]) == seqNo
            && f.data[1..1 + |chunk|] == chunk
  {
    var used := ConsecutiveFrame(seqNo, chunk);
    var f := Arrives(ID_PHYSICAL, used);
    assert f.data[0] == f.data[..|used|][0];
    assert f.data[1..1 + |chunk|] == f.data[..|used|][1..];
  }

  // ----- The consecutive frames -----

  // The receiver in the middle of message m, `sent` bytes in.
  ghost predicate Midway(rx: Rx.Rx, m: seq<Octet>, sent: nat, seqNo: nat, sink: bool) {
    && Rx.Valid(rx, sink) && rx.state.WaitCf?
    && rx.total == |m| && rx.received == sent < |m| && rx.expected == seqNo < 16
    && if |m| <= MAX_MESSAGE then !rx.stream && rx.buffer[..sent] == m[..sent] else rx.stream
  }

  // What the sink is given for the consecutive frames from `sent` on.
  function RestData(m: seq<Octet>, sent: nat): seq<Rx.SinkEvent>
    decreases |m| - sent
  {
    if sent >= |m| then [Rx.End(|m|)]
    else
      var n := Min(CF_MAX, |m| - sent);
      [Rx.Data(m[sent..sent + n], |m|)] + RestData(m, sent + n)
  }

  // What comes out when the frame that starts at `sent` is taken.
  function ChunkOuts(m: seq<Octet>, sent: nat): seq<Rx.Out>
    requires sent < |m|
  {
    var n := Min(CF_MAX, |m| - sent);
    var more := sent + n < |m|;
    if |m| <= MAX_MESSAGE then (if more then [] else [Rx.Dispatch(m, Physical)])
    else [Rx.ToSink(Rx.Data(m[sent..sent + n], |m|))] + if more then [] else [Rx.ToSink(Rx.End(|m|))]
  }

  lemma ProcessIsConsecutive(rx: Rx.Rx, f: Frame, now: nat, sink: bool)
    requires Rx.Valid(rx, sink) && f.Fits() && f.dlc > 0 && f.id == ID_PHYSICAL && High(f.data[0]) == PCI_CONSECUTIVE
    ensures Rx.Process(rx, f, now, sink) == Rx.Consecutive(rx.(addr := Physical), f, now, sink)
  {
  }

  lemma TakesBuffered(rx: Rx.Rx, m: seq<Octet>, sent: nat, seqNo: nat, f: Frame, now: nat, sink: bool)
    requires Midway(rx, m, sent, seqNo, sink) && f.Fits() && |m| <= MAX_MESSAGE
    requires var n := Min(CF_MAX, |m| - sent);
             f.dlc > n && Low(f.data[0]) == seqNo && f.data[1..1 + n] == m[sent..sent + n]
    ensures var n := Min(CF_MAX, |m| - sent);
            var (r, outs) := Rx.Consecutive(rx, f, now, sink);
            && (sent + n < |m| ==> Midway(r, m, sent + n, (seqNo + 1) % 16, sink) && outs == [])
            && (sent + n == |m| ==> outs == [Rx.Dispatch(m, rx.addr)])
  {
    hide Low, Rx.Overlay;
    var n := Min(CF_MAX, |m| - sent);
    assert Min(f.dlc - 1, |m| - sent) == n;
    var b := Rx.Overlay(rx.buffer, sent, m[sent..sent + n]);
    assert b[..sent + n] == m[..sent + n] by { assert m[..sent] + m[sent..sent + n] == m[..sent + n]; }
    assert m[..|m|] == m;
  }

  lemma TakesStreamed(rx: Rx.Rx, m: seq<Octet>, sent: nat, seqNo: nat, f: Frame, now: nat, sink: bool)
    requires Midway(rx, m, sent, seqNo, sink) && f.Fits() && |m| > MAX_MESSAGE
    requires var n := Min(CF_MAX, |m| - sent);
             f.dlc > n && Low(f.data[0]) == seqNo && f.data[1..1 + n] == m[sent..sent + n]
    ensures var n := Min(CF_MAX, |m| - sent);
            var (r, outs) := Rx.Consecutive(rx, f, now, sink);
            && (sent + n < |m| ==> Midway(r, m, sent + n, (seqNo + 1) % 16, sink))
            && outs == [Rx.ToSink(Rx.Data(m[sent..sent + n], |m|))]
                       + if sent + n < |m| then [] else [Rx.ToSink(Rx.End(|m|))]
  {
    hide Low, Rx.Overlay;
    assert Min(f.dlc - 1, |m| - sent) == Min(CF_MAX, |m| - sent);
  }

  lemma TakesChunk(rx: Rx.Rx, m: seq<Octet>, sent: nat, seqNo: nat, f: Frame, now: nat, sink: bool)
    requires Midway(rx, m, sent, seqNo, sink) && f.Fits() && rx.addr.Physical?
    requires var n := Min(CF_MAX, |m| - sent);
             f.dlc > n && Low(f.data[0]) == seqNo && f.data[1..1 + n] == m[sent..sent + n]
    ensures var n := Min(CF_MAX, |m| - sent);
            var (r, outs) := Rx.Consecutive(rx, f, now, sink);
            && (sent + n < |m| ==> Midway(r, m, sent + n, (seqNo + 1) % 16, sink))
            && outs == ChunkOuts(m, sent)
  {
    hide Low, Rx.Consecutive;
    if |m| <= MAX_MESSAGE {
      TakesBuffered(rx, m, sent, seqNo, f, now, sink);
    } else {
      TakesStreamed(rx, m, sent, seqNo, f, now, sink);
    }
  }

  lemma NextChunk(rx: Rx.Rx, m: seq<Octet>, sent: nat, seqNo: nat, now: nat, sink: bool)
    requires Midway(rx, m, sent, seqNo, sink)
    ensures var n := Min(CF_MAX, |m| - sent);
            var f := Arrives(ID_PHYSICAL, ConsecutiveFrame(seqNo, m[sent..sent + n]));
            var (r, outs) := Rx.Process(rx, f, now, sink);
            var more := sent + n < |m|;
            && (more ==> Midway(r, m, sent + n, (seqNo + 1) % 16, sink))
            && outs == ChunkOuts(m, sent)
  {
    hide Rx.Process, Rx.Consecutive, ConsecutiveFrame, Arrives, High, Low, ChunkOuts, LegalLength;
    var n := Min(CF_MAX, |m| - sent);
    var f := Arrives(ID_PHYSICAL, ConsecutiveFrame(seqNo, m[sent..sent + n]));
    ConsecutiveArrives(seqNo, m[sent..sent + n]);
    ProcessIsConsecutive(rx, f, now, sink);
    TakesChunk(rx.(addr := Physical), m, sent, seqNo, f, now, sink);
  }

  lemma RunFirst(rx: Rx.Rx, es: seq<Rx.Event>, sink: bool)
    requires Rx.Valid(rx, sink) && es != [] && Rx.AllLegal(es)
    ensures var (r, outs) := Rx.Step(rx, es[0], sink);
            && Rx.Valid(r, sink)
            && Rx.Run(rx, es, sink).1 == outs + Rx.Run(r, es[1..], sink).1
  {
    hide Rx.Step, Rx.Valid;
    Rx.StepKeepsValid(rx, es[0], sink);
  }

  lemma WireFirst(f: seq<Octet>, fs: seq<seq<Octet>>, nows: seq<nat>)
    requires |nows| == |fs| + 1 && |f| <= FRAME_SIZE && AllFit(fs)
    ensures var all := [f] + fs;
            && (AllFit(all))
            && Wire(all, nows)[0] == Rx.Received(Arrives(ID_PHYSICAL, f), nows[0])
            && Wire(all, nows)[1..] == Wire(fs, nows[1..])
  {
    hide Arrives;
  }

  // Running over a list of frames: the first one, then the others.
  lemma RunWire(rx: Rx.Rx, f: seq<Octet>, fs: seq<seq<Octet>>, nows: seq<nat>, sink: bool)
    requires Rx.Valid(rx, sink)
    requires |nows| == |fs| + 1 && |f| <= FRAME_SIZE && AllFit(fs)
    ensures var all := [f] + fs;
            var (r, outs) := Rx.Process(rx, Arrives(ID_PHYSICAL, f), nows[0], sink);
            && (AllFit(all))
            && Rx.Valid(r, sink)
            && Rx.Run(rx, Wire(all, nows), sink).1 == outs + Rx.Run(r, Wire(fs, nows[1..]), sink).1
  {
    hide Wire, Arrives, Rx.Process, Rx.Valid, Rx.Run, AllFit, Rx.AllLegal;
    WireFirst(f, fs, nows);
    RunFirst(rx, Wire([f] + fs, nows), sink);
  }

  lemma RestUnfolds(m: seq<Octet>, sent: nat, seqNo: nat)
    requires sent < |m| && seqNo < 16
    ensures var n := Min(CF_MAX, |m| - sent);
            Rest(m, sent, seqNo) == [ConsecutiveFrame(seqNo, m[sent..sent + n])] + Rest(m, sent + n, (seqNo + 1) % 16)
  {
    hide ConsecutiveFrame;
  }

  // What comes out of the run over the frames that remain.
  function RestOuts(rx: Rx.Rx, m: seq<Octet>, sent: nat, seqNo: nat, nows: seq<nat>, sink: bool): seq<Rx.Out>
    requires Rx.Valid(rx, sink) && seqNo < 16 && |nows| == |Rest(m, sent, seqNo)|
  {
    Rx.Run(rx, Wire(Rest(m, sent, seqNo), nows), sink).1
  }

  lemma RestOutsUnfold(rx: Rx.Rx, m: seq<Octet>, sent: nat, seqNo: nat, nows: seq<nat>, sink: bool)
    requires Rx.Valid(rx, sink) && sent < |m| && seqNo < 16 && |nows| == |Rest(m, sent, seqNo)|
    ensures var n := Min(CF_MAX, |m| - sent);
            var next := (seqNo + 1) % 16;
            var f := Arrives(ID_PHYSICAL, ConsecutiveFrame(seqNo, m[sent..sent + n]));
            var (r, outs) := Rx.Process(rx, f, nows[0], sink);
            && |nows| == |Rest(m, sent + n, next)| + 1
            && Rx.Valid(r, sink)
            && RestOuts(rx, m, sent, seqNo, nows, sink) == outs + RestOuts(r, m, sent + n, next, nows[1..], sink)
  {
    hide Rest, ConsecutiveFrame, Wire, Rx.Process, Rx.Run, Rx.Valid, Arrives, AllFit, LegalLength, Pci;
    var n := Min(CF_MAX, |m| - sent);
    RestUnfolds(m, sent, seqNo);
    RunWire(rx, ConsecutiveFrame(seqNo, m[sent..sent + n]), Rest(m, sent + n, (seqNo + 1) % 16), nows, sink);
  }

  lemma MidwayRange(rx: Rx.Rx, m: seq<Octet>, sent: nat, seqNo: nat, sink: bool)
    requires Midway(rx, m, sent, seqNo, sink)
    ensures sent < |m| && seqNo < 16
  {
  }

  lemma RestRuns(rx: Rx.Rx, m: seq<Octet>, sent: nat, seqNo: nat, nows: seq<nat>, sink: bool)
    returns (r: Rx.Rx)
    requires Rx.Valid(rx, sink) && Midway(rx, m, sent, seqNo, sink) && |nows| == |Rest(m, sent, seqNo)|
    ensures Rx.Valid(r, sink)
    ensures var n := Min(CF_MAX, |m| - sent);
            var next := (seqNo + 1) % 16;
            && |nows| == |Rest(m, sent + n, next)| + 1
            && RestOuts(rx, m, sent, seqNo, nows, sink) == ChunkOuts(m, sent)
                + RestOuts(r, m, sent + n, next, nows[1..], sink)
            && (sent + n < |m| ==> Midway(r, m, sent + n, next, sink))
  {
    hide Rest, ConsecutiveFrame, Rx.Process, Rx.Valid, Arrives, AllFit, LegalLength, Pci, RestOuts, ChunkOuts, Midway;
    MidwayRange(rx, m, sent, seqNo, sink);
    var n := Min(CF_MAX, |m| - sent);
    RestOutsUnfold(rx, m, sent, seqNo, nows, sink);
    NextChunk(rx, m, sent, seqNo, nows[0], sink);
    r := Rx.Process(rx, Arrives(ID_PHYSICAL, ConsecutiveFrame(seqNo, m[sent..sent + n])), nows[0], sink).0;
  }

  lemma {:induction false} RestArrives(rx: Rx.Rx, m: seq<Octet>, sent: nat, seqNo: nat, nows: seq<nat>, sink: bool)
    requires Rx.Valid(rx, sink) && Midway(rx, m, sent, seqNo, sink) && |nows| == |Rest(m, sent, seqNo)|
    ensures var outs := RestOuts(rx, m, sent, seqNo, nows, sink);
            if |m| <= MAX_MESSAGE then Dispatched(outs) == [m]
            else Heard(outs) == RestData(m, sent)
    decreases |m| - sent
  {
    hide RestOuts, Rx.Valid, Rest, Dispatched, Heard, Midway, RestData, ChunkOuts;
    MidwayRange(rx, m, sent, seqNo, sink);
    var n := Min(CF_MAX, |m| - sent);
    var r := RestRuns(rx, m, sent, seqNo, nows, sink);
    var next := (seqNo + 1) % 16;
    if sent + n < |m| {
      RestArrives(r, m, sent + n, next, nows[1..], sink);
    } else {
      NoFramesLeft(m, sent + n, next, r, nows[1..], sink);
    }
    Joins(m, sent, RestOuts(r, m, sent + n, next, nows[1..], sink));
  }

  // The outputs of one consecutive frame and of those after it.
  lemma Joins(m: seq<Octet>, sent: nat, more: seq<Rx.Out>)
    requires sent < |m|
    requires var n := Min(CF_MAX, |m| - sent);
             if sent + n == |m| then more == []
             else if |m| <= MAX_MESSAGE then Dispatched(more) == [m]
             else Heard(more) == RestData(m, sent + n)
    ensures var all := ChunkOuts(m, sent) + more;
            if |m| <= MAX_MESSAGE then Dispatched(all) == [m] else Heard(all) == RestData(m, sent)
  {
    hide Dispatched, Heard;
    var n := Min(CF_MAX, |m| - sent);
    DispatchedConcat(ChunkOuts(m, sent), more);
    HeardConcat(ChunkOuts(m, sent), more);
    Listing(m, sent, n);
    assert [Rx.ToSink(Rx.Data(m[sent..sent + n], |m|))] + [] == [Rx.ToSink(Rx.Data(m[sent..sent + n], |m|))];
  }

  lemma NoFramesLeft(m: seq<Octet>, sent: nat, seqNo: nat, rx: Rx.Rx, nows: seq<nat>, sink: bool)
    requires sent >= |m| && seqNo < 16 && Rx.Valid(rx, sink) && |nows| == |Rest(m, sent, seqNo)|
    ensures RestOuts(rx, m, sent, seqNo, nows, sink) == []
  {
  }

  lemma Listing(m: seq<Octet>, sent: nat, n: nat)
    ensures Dispatched([]) == [] && Heard([]) == []
    ensures Dispatched([Rx.Dispatch(m, Physical)]) == [m]
    ensures sent + n <= |m| ==>
      && Heard([Rx.ToSink(Rx.Data(m[sent..sent + n], |m|))]) == [Rx.Data(m[sent..sent + n], |m|)]
      && Heard([Rx.ToSink(Rx.Data(m[sent..sent + n], |m|))] + [Rx.ToSink(Rx.End(|m|))])
         == [Rx.Data(m[sent..sent + n], |m|), Rx.End(|m|)]
  {
    if sent + n <= |m| {
      var d, e := Rx.ToSink(Rx.Data(m[sent..sent + n], |m|)), Rx.ToSink(Rx.End(|m|));
      HeardConcat([d], [e]);
      assert [d][1..] == [] && [e][1..] == [];
    }
    assert [Rx.Dispatch(m, Physical)][1..] == [];
  }

  // ----- The whole message -----

  lemma ProcessIsFirst(rx: Rx.Rx, f: Frame, now: nat, sink: bool)
    requires Rx.Valid(rx, sink) && f.Fits() && f.dlc > 0 && f.id == ID_PHYSICAL && High(f.data[0]) == PCI_FIRST
    ensures Rx.Process(rx, f, now, sink) == Rx.First(rx.(addr := Physical), f, now, sink)
  {
  }

  lemma FlowIsSilent(abort: seq<Rx.Out>, total: nat)
    requires abort == [] || abort == [Rx.ToSink(Rx.Error(total))]
    ensures Dispatched(abort) == [] && Dispatched(abort + [Rx.Flow(ID_PHYSICAL + 8, FS_CONTINUE)]) == []
  {
    var flow := [Rx.Flow(ID_PHYSICAL + 8, FS_CONTINUE)];
    DispatchedConcat(abort, flow);
    assert flow[1..] == [];
    if abort != [] { assert abort[1..] == []; }
  }

  // What the first frame of a streamed message gives the sink.
  function BeginOuts(chunk: seq<Octet>, total: nat): seq<Rx.Out> {
    [Rx.ToSink(Rx.Begin(total)), Rx.ToSink(Rx.Data(chunk, total)), Rx.Flow(ID_PHYSICAL + 8, FS_CONTINUE)]
  }

  // A stream that was open is reported lost.
  function AbortEvents(rx: Rx.Rx): seq<Rx.SinkEvent> {
    if rx.stream then [Rx.Error(rx.total)] else []
  }

  function AbortOuts(rx: Rx.Rx): seq<Rx.Out> {
    if rx.stream then [Rx.ToSink(Rx.Error(rx.total))] else []
  }

  lemma AbortIsHeard(rx: Rx.Rx)
    ensures Heard(AbortOuts(rx)) == AbortEvents(rx) && Dispatched(AbortOuts(rx)) == []
  {
    if rx.stream { assert AbortOuts(rx)[1..] == []; }
  }

  lemma BeginIsHeard(chunk: seq<Octet>, total: nat)
    ensures Dispatched(BeginOuts(chunk, total)) == []
    ensures Heard(BeginOuts(chunk, total)) == [Rx.Begin(total), Rx.Data(chunk, total)]
  {
    var outs := BeginOuts(chunk, total);
    var b, d, f := outs[0], outs[1], outs[2];
    assert [f][1..] == [];
    assert Dispatched([f]) == [] + Dispatched([f][1..]) == [];
    assert Heard([f]) == [] + Heard([f][1..]) == [];
    assert [d, f][1..] == [f];
    assert Dispatched([d, f]) == [] && Heard([d, f]) == [d.event];
    assert [b, d, f][1..] == [d, f];
  }

  // A first frame of m taken by a receiver that is not fed functionally.
  lemma FirstTaken(rx: Rx.Rx, m: seq<Octet>, f: Frame, now: nat, sink: bool)
    requires Rx.Valid(rx, sink) && SF_MAX < |m| < WORD_LIMIT && (|m| > MAX_MESSAGE ==> sink)
    requires f.Fits() && f.id == ID_PHYSICAL && rx.addr.Physical?
    requires var n := FirstPayload(|m|);
             && Rx.FirstLength(f) == Rx.Length(|m|, FRAME_SIZE - n)
             && Rx.FirstChunk(f, |m|, FRAME_SIZE - n) == m[..n]
    ensures var n := FirstPayload(|m|);
            var (r, outs) := Rx.First(rx, f, now, sink);
            && Midway(r, m, n, 1, sink)
            && outs == AbortOuts(rx) + if |m| <= MAX_MESSAGE then [Rx.Flow(ID_PHYSICAL + 8, FS_CONTINUE)]
                                       else BeginOuts(m[..n], |m|)
  {
    hide Rx.FirstLength, Rx.FirstChunk;
    Rx.FirstKeepsValid(rx, f, now, sink);
    if |m| <= MAX_MESSAGE {
      var r0 := Rx.Restart(rx, sink).0;
      var b := Rx.Overlay(r0.buffer, 0, m[..FirstPayload(|m|)]);
      assert b[..FirstPayload(|m|)] == m[..FirstPayload(|m|)];
    }
  }

  lemma SameAbort(rx: Rx.Rx, p: Rx.Rx)
    requires p == rx.(addr := p.addr)
    ensures AbortEvents(p) == AbortEvents(rx)
    ensures AbortOuts(p) == [] || AbortOuts(p) == [Rx.ToSink(Rx.Error(rx.total))]
  {
  }

  lemma FirstBegins(rx: Rx.Rx, m: seq<Octet>, now: nat, sink: bool)
    requires Rx.Valid(rx, sink) && SF_MAX < |m| < WORD_LIMIT && (|m| > MAX_MESSAGE ==> sink)
    ensures var n := FirstPayload(|m|);
            var (r, outs) := Rx.Process(rx, Arrives(ID_PHYSICAL, FirstFrame(m)), now, sink);
            && Midway(r, m, n, 1, sink) && Dispatched(outs) == []
            && (|m| > MAX_MESSAGE ==> Heard(outs) == AbortEvents(rx) + [Rx.Begin(|m|), Rx.Data(m[..n], |m|)])
  {
    hide Rx.Process, Rx.First, FirstFrame, Arrives, High, Low, Rx.FirstLength, Rx.FirstChunk, Dispatched, Heard,
        Midway, LegalLength, AbortOuts, AbortEvents, BeginOuts;
    FirstArrives(m);
    var f := Arrives(ID_PHYSICAL, FirstFrame(m));
    var n := FirstPayload(|m|);
    var p := rx.(addr := Physical);
    ProcessIsFirst(rx, f, now, sink);
    FirstTaken(p, m, f, now, sink);
    AbortIsHeard(p);
    SameAbort(rx, p);
    if |m| > MAX_MESSAGE {
      BeginIsHeard(m[..n], |m|);
      HeardConcat(AbortOuts(p), BeginOuts(m[..n], |m|));
      DispatchedConcat(AbortOuts(p), BeginOuts(m[..n], |m|));
    } else {
      FlowIsSilent(AbortOuts(p), rx.total);
    }
  }

  lemma ProcessIsSingle(rx: Rx.Rx, f: Frame, now: nat, sink: bool)
    requires Rx.Valid(rx, sink) && f.Fits() && f.dlc > 0 && f.id == ID_PHYSICAL && High(f.data[0]) == PCI_SINGLE
    ensures var abort := Rx.Restart(rx.(addr := Physical), sink).1;
            && Rx.Process(rx, f, now, sink).1 == abort + [Rx.Dispatch(Rx.SinglePayload(f), Physical)]
            && (abort == [] || abort == [Rx.ToSink(Rx.Error(rx.total))])
  {
    hide Rx.SinglePayload, High;
  }

  lemma SingleDispatches(rx: Rx.Rx, m: seq<Octet>, now: nat, sink: bool)
    requires Rx.Valid(rx, sink) && 0 < |m| <= SF_MAX
    ensures Dispatched(Rx.Process(rx, Arrives(ID_PHYSICAL, SingleFrame(m)), now, sink).1) == [m]
  {
    hide Rx.Process, SingleFrame, Arrives, High, Low, Rx.SinglePayload, Dispatched, Heard, LegalLength;
    SingleArrives(m);
    ProcessIsSingle(rx, Arrives(ID_PHYSICAL, SingleFrame(m)), now, sink);
    var abort := Rx.Restart(rx.(addr := Physical), sink).1;
    DispatchedConcat(abort, [Rx.Dispatch(m, Physical)]);
    FlowIsSilent(abort, rx.total);
    Listing(m, 0, 0);
  }

  lemma SegmentsSplit(m: seq<Octet>)
    requires SF_MAX < |m| < WORD_LIMIT
    ensures Segments(m) == [FirstFrame(m)] + Rest(m, FirstPayload(|m|), 1)
  {
    hide FirstFrame, Rest;
  }

  // What comes out of the run over a whole segmented message: the first frame's outputs, then
  // those of the others.
  lemma SegmentsRun(rx: Rx.Rx, m: seq<Octet>, nows: seq<nat>, sink: bool)
    requires Rx.Valid(rx, sink) && SF_MAX < |m| < WORD_LIMIT && |nows| == |Segments(m)|
    ensures var (r, outs) := Rx.Process(rx, Arrives(ID_PHYSICAL, FirstFrame(m)), nows[0], sink);
            var n := FirstPayload(|m|);
            && Rx.Valid(r, sink) && |nows| == |Rest(m, n, 1)| + 1
            && Rx.Run(rx, Wire(Segments(m), nows), sink).1 == outs + RestOuts(r, m, n, 1, nows[1..], sink)
  {
    hide Segments, Rest, FirstFrame, Wire, Rx.Process, Rx.Run, Rx.Valid, Arrives, AllFit, LegalLength;
    SegmentsSplit(m);
    RunWire(rx, FirstFrame(m), Rest(m, FirstPayload(|m|), 1), nows, sink);
  }

  lemma SingleRun(rx: Rx.Rx, m: seq<Octet>, nows: seq<nat>, sink: bool)
    requires Rx.Valid(rx, sink) && 0 < |m| <= SF_MAX && |nows| == |Segments(m)|
    ensures Dispatched(Rx.Run(rx, Wire(Segments(m), nows), sink).1) == [m]
  {
    hide SingleFrame, Wire, Rx.Process, Rx.Valid, Arrives, LegalLength, Dispatched;
    assert Segments(m) == [SingleFrame(m)] + [];
    RunWire(rx, SingleFrame(m), [], nows, sink);
    SingleDispatches(rx, m, nows[0], sink);
    var outs := Rx.Process(rx, Arrives(ID_PHYSICAL, SingleFrame(m)), nows[0], sink).1;
    assert outs + [] == outs;
  }

  // Any message of up to 512 bytes, in the frames of Segments: whatever the receiver was in
  // the middle of, it hands up exactly that message, once.
  lemma Reassembles(rx: Rx.Rx, m: seq<Octet>, nows: seq<nat>, sink: bool)
    requires Rx.Valid(rx, sink) && 0 < |m| <= MAX_MESSAGE && |nows| == |Segments(m)|
    ensures Dispatched(Rx.Run(rx, Wire(Segments(m), nows), sink).1) == [m]
  {
    hide Segments, Rest, FirstFrame, Wire, Rx.Process, Rx.Run, Rx.Valid, Arrives, LegalLength, Dispatched, Heard,
        RestOuts, Midway;
    if |m| <= SF_MAX {
      SingleRun(rx, m, nows, sink);
    } else {
      var n := FirstPayload(|m|);
      SegmentsRun(rx, m, nows, sink);
      FirstBegins(rx, m, nows[0], sink);
      var (r, outs) := Rx.Process(rx, Arrives(ID_PHYSICAL, FirstFrame(m)), nows[0], sink);
      RestArrives(r, m, n, 1, nows[1..], sink);
      DispatchedConcat(outs, RestOuts(r, m, n, 1, nows[1..], sink));
    }
  }

  function Payload(es: seq<Rx.SinkEvent>): seq<Octet> {
    if es == [] then [] else (if es[0].Data? then es[0].chunk else []) + Payload(es[1..])
  }

  lemma {:induction false} RestPayload(m: seq<Octet>, sent: nat)
    requires sent <= |m|
    ensures Payload(RestData(m, sent)) == m[sent..]
    decreases |m| - sent
  {
    if sent < |m| {
      var n := Min(CF_MAX, |m| - sent);
      RestPayload(m, sent + n);
      assert RestData(m, sent)[1..] == RestData(m, sent + n);
      assert m[sent..sent + n] + m[sent + n..] == m[sent..];
    } else {
      assert [Rx.End(|m|)][1..] == [];
    }
  }

  // Any longer message, up to the largest a first frame can announce: the sink hears ERROR if
  // a stream was open, then BEGIN, then data that is the message, then END.
  lemma Streams(rx: Rx.Rx, m: seq<Octet>, nows: seq<nat>)
    requires Rx.Valid(rx, true) && MAX_MESSAGE < |m| < WORD_LIMIT && |nows| == |Segments(m)|
    ensures var heard := Heard(Rx.Run(rx, Wire(Segments(m), nows), true).1);
            && heard == AbortEvents(rx) + [Rx.Begin(|m|), Rx.Data(m[..FirstPayload(|m|)], |m|)]
                + RestData(m, FirstPayload(|m|))
            && Payload(heard) == m
  {
    hide Segments, Rest, FirstFrame, Wire, Rx.Process, Rx.Run, Rx.Valid, Arrives, LegalLength, Dispatched, Heard,
        RestOuts, Midway, Payload, RestData;
    var n := FirstPayload(|m|);
    SegmentsRun(rx, m, nows, true);
    FirstBegins(rx, m, nows[0], true);
    var (r, outs) := Rx.Process(rx, Arrives(ID_PHYSICAL, FirstFrame(m)), nows[0], true);
    RestArrives(r, m, n, 1, nows[1..], true);
    HeardConcat(outs, RestOuts(r, m, n, 1, nows[1..], true));
    RestPayload(m, n);
    BeginPayload(m, n, RestData(m, n));
    var begin := [Rx.Begin(|m|), Rx.Data(m[..n], |m|)] + RestData(m, n);
    assert AbortEvents(rx) + [Rx.Begin(|m|), Rx.Data(m[..n], |m|)] + RestData(m, n) == AbortEvents(rx) + begin;
    AbortPayload(rx, begin);
  }

  lemma AbortPayload(rx: Rx.Rx, tail: seq<Rx.SinkEvent>)
    ensures Payload(AbortEvents(rx) + tail) == Payload(tail)
  {
    if rx.stream {
      assert (AbortEvents(rx) + tail)[1..] == tail;
    } else {
      assert AbortEvents(rx) + tail == tail;
    }
  }

  lemma BeginPayload(m: seq<Octet>, n: nat, tail: seq<Rx.SinkEvent>)
    requires n <= |m| && Payload(tail) == m[n..]
    ensures Payload([Rx.Begin(|m|), Rx.Data(m[..n], |m|)] + tail) == m
  {
    var head := [Rx.Begin(|m|), Rx.Data(m[..n], |m|)];
    assert (head + tail)[1..] == [Rx.Data(m[..n], |m|)] + tail;
    assert ([Rx.Data(m[..n], |m|)] + tail)[1..] == tail;
    assert m[..n] + m[n..] == m;
  }

  // ----- Sender to receiver -----

  // ISO_TP_SendResponse of 1..512 bytes, then any flow control of CONTINUEs (any block sizes
  // and separation times) and allowed waits until the send is over: the frames, padded to legal
  // lengths and readdressed, make the receiver hand up exactly the message sent.
  lemma RoundTrip(tx: Tx.Tx, id: nat, m: seq<Octet>, now: nat, es: seq<Tx.Event>,
                  rx: Rx.Rx, nows: seq<nat>, sink: bool)
    requires Tx.Valid(tx) && tx.state.TxIdle? && 0 < |m| <= MAX_MESSAGE && now < WORD_LIMIT
    requires Tx.AllLegal(es)
    requires Tx.Valid(Tx.Send(tx, id, m, now, true).0) ==>
               && Tx.AllBenign(Tx.Send(tx, id, m, now, true).0, es)
               && Tx.Run(Tx.Send(tx, id, m, now, true).0, es).0.state.TxIdle?
    requires Rx.Valid(rx, sink) && |nows| == |Segments(m)|
    ensures var (t, first) := Tx.Send(tx, id, m, now, true);
            && Tx.Valid(t)
            && var fs := Tx.Bytes(first + Tx.Run(t, es).1);
            && fs == Segments(m)
            && Dispatched(Rx.Run(rx, Wire(fs, nows), sink).1) == [m]
  {
    var (t, first) := Tx.Send(tx, id, m, now, true);
    if |m| <= SF_MAX {
      QuietRun(t, es);
      assert first + [] == first;
      Tx.OneFrame(Tx.Sent(id, SingleFrame(m)));
    } else {
      Tx.SendOnTrack(tx, id, m, now);
      Tx.RunComplete(m, t, Tx.Bytes(first), es);
      Tx.BytesConcat(first, Tx.Run(t, es).1);
    }
    Reassembles(rx, m, nows, sink);
  }

  // An idle sender is not moved by flow control or ticks.
  lemma {:induction false} QuietRun(tx: Tx.Tx, es: seq<Tx.Event>)
    requires Tx.Valid(tx) && tx.state.TxIdle? && Tx.AllLegal(es)
    ensures Tx.Run(tx, es) == (tx, [])
    decreases |es|
  {
    if es != [] {
      assert Tx.Step(tx, es[0]) == (tx, []);
      QuietRun(tx, es[1..]);
      var none: seq<Tx.Sent> := [];
      assert none + none == none;
    }
  }
}
