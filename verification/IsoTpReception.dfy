// What becomes of a multi-frame reception, told from the frames and ticks that come in after
// its first frame (Core/Src/iso_tp.c:160-167, 355-407).

module IsoTpReception {
  import opened Words
  import opened IsoTpFrames
  import opened IsoTpRx

  // ----- One event -----

  // An addressed consecutive frame with any other number ends the reception, and a sink hears so.
  lemma WrongNumberEnds(rx: Rx, f: Frame, now: nat, sink: bool)
    requires Valid(rx, sink) && rx.state.WaitCf?
    requires Brings(f, PCI_CONSECUTIVE) && f.data[0] % 16 != rx.expected
    ensures var (r, outs) := Process(rx, f, now, sink);
            && r.state.RxIdle? && !r.stream
            && outs == if rx.stream then [ToSink(Error(rx.total))] else []
  {
  }

  // So does a tick one second or more after the last frame, and no other tick does anything.
  lemma TimeoutEnds(rx: Rx, now: nat, sink: bool)
    requires Valid(rx, sink)
    ensures var (r, outs) := Tick(rx, now, sink);
            if rx.state.WaitCf? && Elapsed(now, rx.last) >= 1000
            then r.state.RxIdle? && !r.stream && outs == if rx.stream then [ToSink(Error(rx.total))] else []
            else r == rx && outs == []
  {
  }

  // The frame expected is taken: what it brings, as far as it is wanted, is forwarded or kept.
  lemma RightNumberTaken(rx: Rx, f: Frame, now: nat, sink: bool, got: seq<Octet>)
    requires Valid(rx, sink) && rx.state.WaitCf? && Holds(rx, got) && rx.received <= rx.total
    requires Brings(f, PCI_CONSECUTIVE) && f.data[0] % 16 == rx.expected
    ensures var n := Min(f.dlc - 1, rx.total - rx.received);
            var chunk := f.data[1..1 + n];
            var (r, outs) := Process(rx, f, now, sink);
            && r.total == rx.total && r.received == rx.received + n
            && (if n < rx.total - rx.received
                then r.state.WaitCf? && r.stream == rx.stream && r.expected == (rx.expected + 1) % 16 && r.last == now
                else r.state.RxIdle? && !r.stream)
            && outs == (if rx.stream then [ToSink(Data(chunk, rx.total))] else [])
                       + (if n < rx.total - rx.received then []
                          else if rx.stream then [ToSink(End(rx.total))]
                          else [Dispatch(got + chunk, Classify(f.id))])
  {
    hide Overlay;
    var p := rx.(addr := Classify(f.id));
    ConsecutiveHolds(p, f, now, sink, got);
  }

  // Nothing but a single frame or a first frame interferes.
  predicate Starts(e: Event) {
    e.Received? && (Brings(e.f, PCI_SINGLE) || (Brings(e.f, PCI_FIRST) && Classify(e.f.id).Physical?))
  }

  lemma OthersPass(rx: Rx, f: Frame, now: nat, sink: bool)
    requires Valid(rx, sink) && f.Fits() && !Starts(Received(f, now)) && !Brings(f, PCI_CONSECUTIVE)
    ensures var (r, outs) := Process(rx, f, now, sink);
            r == rx.(addr := r.addr) && outs == []
  {
    hide Single, Consecutive;
  }

  // ----- Many -----

  datatype Fate = Open | Complete | Lost

  // The fate of a reception that expects this number next, took its last frame at `last` and
  // lacks `left` bytes: lost with the first wrong number or late tick, complete with the frame
  // that brings the last byte, whichever comes first.
  function FateOf(expected: nat, last: nat, left: nat, es: seq<Event>): Fate
    decreases |es|
  {
    if es == [] then Open
    else match es[0]
      case Ticked(now) => if Elapsed(now, last) >= 1000 then Lost else FateOf(expected, last, left, es[1..])
      case Received(f, now) =>
        if !Brings(f, PCI_CONSECUTIVE) then FateOf(expected, last, left, es[1..])
        else if f.data[0] % 16 != expected then Lost
        else if f.dlc - 1 >= left then Complete
        else FateOf((expected + 1) % 16, now, left - (f.dlc - 1), es[1..])
  }

  // What the frames bring until then: all of each but the last, of which what is wanted.
  function Brought(expected: nat, last: nat, left: nat, es: seq<Event>): seq<Octet>
    decreases |es|
  {
    if es == [] then []
    else match es[0]
      case Ticked(now) => if Elapsed(now, last) >= 1000 then [] else Brought(expected, last, left, es[1..])
      case Received(f, now) =>
        if !Brings(f, PCI_CONSECUTIVE) then Brought(expected, last, left, es[1..])
        else if f.data[0] % 16 != expected then []
        else if f.dlc - 1 >= left then f.data[1..1 + left]
        else f.data[1..f.dlc] + Brought((expected + 1) % 16, now, left - (f.dlc - 1), es[1..])
  }

  predicate IsEnd(o: Out) {
    o.Dispatch? || (o.ToSink? && (o.event.End? || o.event.Error?))
  }

  // What ends a reception, among the outputs.
  function Ends(outs: seq<Out>): seq<Out> {
    if outs == [] then []
    else (if IsEnd(outs[0]) then [outs[0]] else []) + Ends(outs[1..])
  }

  // The data a sink hears.
  function Forwarded(outs: seq<Out>): seq<Octet> {
    if outs == [] then []
    else (if outs[0].ToSink? && outs[0].event.Data? then outs[0].event.chunk else []) + Forwarded(outs[1..])
  }

  lemma {:induction false} Both(a: seq<Out>, b: seq<Out>)
    ensures Ends(a + b) == Ends(a) + Ends(b) && Forwarded(a + b) == Forwarded(a) + Forwarded(b)
  {
    hide IsEnd;
    if a == [] {
      assert a + b == b;
    } else {
      assert (a + b)[1..] == a[1..] + b && (a + b)[0] == a[0];
      Both(a[1..], b);
      var e := if IsEnd(a[0]) then [a[0]] else [];
      var d := if a[0].ToSink? && a[0].event.Data? then a[0].event.chunk else [];
      assert e + (Ends(a[1..]) + Ends(b)) == (e + Ends(a[1..])) + Ends(b);
      assert d + (Forwarded(a[1..]) + Forwarded(b)) == (d + Forwarded(a[1..])) + Forwarded(b);
    }
  }

  lemma IdleStep(rx: Rx, e: Event, sink: bool)
    requires Valid(rx, sink) && rx.state.RxIdle? && Legal(e) && !Starts(e)
    ensures Step(rx, e, sink).1 == [] && Step(rx, e, sink).0.state.RxIdle?
  {
    hide High, Low, Single, Overlay;
    if e.Received? && !Brings(e.f, PCI_CONSECUTIVE) {
      OthersPass(rx, e.f, e.now, sink);
    }
  }

  lemma {:induction false} IdleIsSilent(rx: Rx, es: seq<Event>, sink: bool)
    requires Valid(rx, sink) && rx.state.RxIdle? && AllLegal(es) && forall e :: e in es ==> !Starts(e)
    ensures Run(rx, es, sink).1 == [] && Run(rx, es, sink).0.state.RxIdle? && !Run(rx, es, sink).0.stream
    decreases |es|
  {
    hide Step;
    if es != [] {
      assert es[0] in es;
      StepKeepsValid(rx, es[0], sink);
      IdleStep(rx, es[0], sink);
      IdleIsSilent(Step(rx, es[0], sink).0, es[1..], sink);
    }
  }

  // The end of a reception, as its outputs show it.
  ghost predicate Shows(fate: Fate, rx: Rx, r: Rx, outs: seq<Out>, all: seq<Octet>) {
    match fate
    case Open => r.state.WaitCf? && r.stream == rx.stream && Ends(outs) == []
    case Complete =>
      && r.state.RxIdle? && !r.stream
      && if rx.stream then Ends(outs) == [ToSink(End(rx.total))]
         else exists a :: Ends(outs) == [Dispatch(all, a)]
    case Lost => r.state.RxIdle? && !r.stream && Ends(outs) == if rx.stream then [ToSink(Error(rx.total))] else []
  }

  lemma OneEnd(o: Out)
    ensures Ends([o]) == if IsEnd(o) then [o] else []
    ensures Forwarded([o]) == if o.ToSink? && o.event.Data? then o.event.chunk else []
  {
    assert [o][1..] == [];
  }

  lemma NoEnd()
    ensures Ends([]) == [] && Forwarded([]) == []
  {
  }

  // A reception that ends with this event, and whatever comes after it.
  lemma EndsHere(rx: Rx, es: seq<Event>, sink: bool)
    requires Valid(rx, sink) && es != [] && AllLegal(es) && forall e :: e in es ==> !Starts(e)
    requires Step(rx, es[0], sink).0.state.RxIdle?
    ensures Run(rx, es, sink).1 == Step(rx, es[0], sink).1
    ensures Run(rx, es, sink).0.state.RxIdle? && !Run(rx, es, sink).0.stream
  {
    hide Step;
    StepKeepsValid(rx, es[0], sink);
    IdleIsSilent(Step(rx, es[0], sink).0, es[1..], sink);
  }

  // One that goes on.
  lemma GoesOn(rx: Rx, es: seq<Event>, sink: bool)
    requires Valid(rx, sink) && es != [] && AllLegal(es)
    ensures var (r, outs) := Step(rx, es[0], sink);
            && Valid(r, sink)
            && Run(rx, es, sink).0 == Run(r, es[1..], sink).0
            && Ends(Run(rx, es, sink).1) == Ends(outs) + Ends(Run(r, es[1..], sink).1)
            && Forwarded(Run(rx, es, sink).1) == Forwarded(outs) + Forwarded(Run(r, es[1..], sink).1)
  {
    hide Step;
    StepKeepsValid(rx, es[0], sink);
    Both(Step(rx, es[0], sink).1, Run(Step(rx, es[0], sink).0, es[1..], sink).1);
  }

  // The outputs of a consecutive frame taken.
  lemma TakenIsHeard(chunk: seq<Octet>, total: nat, stream: bool, last: bool, msg: seq<Octet>, a: Addr)
    ensures var outs := (if stream then [ToSink(Data(chunk, total))] else [])
                        + (if !last then [] else if stream then [ToSink(End(total))] else [Dispatch(msg, a)]);
            && Ends(outs) == (if !last then [] else if stream then [ToSink(End(total))] else [Dispatch(msg, a)])
            && (stream ==> Forwarded(outs) == chunk)
  {
    NoEnd();
    OneEnd(ToSink(Data(chunk, total)));
    OneEnd(ToSink(End(total)));
    OneEnd(Dispatch(msg, a));
    var one := if stream then [ToSink(Data(chunk, total))] else [];
    var two := if !last then [] else if stream then [ToSink(End(total))] else [Dispatch(msg, a)];
    Both(one, two);
  }

  // Over any frames and ticks but a new start: the reception goes on, completes or is lost just
  // as the frames say; a sink hears what they bring and then END or ERROR, a buffered message is
  // handed up whole, once, or not at all.
  lemma {:induction false} FrameDecides(rx: Rx, es: seq<Event>, sink: bool, got: seq<Octet>)
    requires Valid(rx, sink) && rx.state.WaitCf? && Holds(rx, got) && rx.received <= rx.total
    requires AllLegal(es) && forall e :: e in es ==> !Starts(e)
    ensures var (r, outs) := Run(rx, es, sink);
            var left := rx.total - rx.received;
            var brought := Brought(rx.expected, rx.last, left, es);
            && Shows(FateOf(rx.expected, rx.last, left, es), rx, r, outs, got + brought)
            && (rx.stream ==> Forwarded(outs) == brought)
    decreases |es|
  {
    hide Process, Tick, High, Low, Holds, Ends, Forwarded, Run;
    if es == [] {
      NothingRun(rx, sink);
      NoEnd();
    } else {
      assert es[0] in es;
      StepKeepsValid(rx, es[0], sink);
      StepHolds(rx, es[0], sink, got);
      GoesOn(rx, es, sink);
      match es[0]
      case Ticked(now) =>
        TickDecides(rx, es, sink);
        if Elapsed(now, rx.last) < 1000 {
          FrameDecides(rx, es[1..], sink, got);
        }
      case Received(f, now) =>
        if !Brings(f, PCI_CONSECUTIVE) {
          OthersPass(rx, f, now, sink);
          NoEnd();
          FrameDecides(Process(rx, f, now, sink).0, es[1..], sink, got);
        } else if f.data[0] % 16 != rx.expected {
          WrongDecides(rx, es, sink);
        } else {
          RightDecides(rx, es, sink, got);
          if f.dlc - 1 < rx.total - rx.received {
            var r, some := Process(rx, f, now, sink).0, f.data[1..f.dlc];
            FrameDecides(r, es[1..], sink, got + some);
            var more := Brought(r.expected, r.last, r.total - r.received, es[1..]);
            assert (got + some) + more == got + (some + more);
          }
        }
    }
  }

  lemma NothingRun(rx: Rx, sink: bool)
    requires Valid(rx, sink)
    ensures Run(rx, [], sink) == (rx, [])
  {
  }

  lemma TickDecides(rx: Rx, es: seq<Event>, sink: bool)
    requires Valid(rx, sink) && rx.state.WaitCf? && es != [] && es[0].Ticked?
    requires AllLegal(es) && forall e :: e in es ==> !Starts(e)
    ensures var (r, outs) := Step(rx, es[0], sink);
            if Elapsed(es[0].now, rx.last) < 1000 then r == rx && Ends(outs) == [] && Forwarded(outs) == []
            else Shows(Lost, rx, Run(rx, es, sink).0, Run(rx, es, sink).1, []) && Forwarded(Run(rx, es, sink).1) == []
  {
    hide Run, Ends, Forwarded;
    TimeoutEnds(rx, es[0].now, sink);
    NoEnd();
    if Elapsed(es[0].now, rx.last) >= 1000 {
      EndsHere(rx, es, sink);
      OneEnd(ToSink(Error(rx.total)));
    }
  }

  lemma WrongDecides(rx: Rx, es: seq<Event>, sink: bool)
    requires Valid(rx, sink) && rx.state.WaitCf? && es != [] && es[0].Received?
    requires AllLegal(es) && forall e :: e in es ==> !Starts(e)
    requires Brings(es[0].f, PCI_CONSECUTIVE) && es[0].f.data[0] % 16 != rx.expected
    ensures Shows(Lost, rx, Run(rx, es, sink).0, Run(rx, es, sink).1, []) && Forwarded(Run(rx, es, sink).1) == []
  {
    hide Run, Ends, Forwarded, Process;
    WrongNumberEnds(rx, es[0].f, es[0].now, sink);
    NoEnd();
    EndsHere(rx, es, sink);
    OneEnd(ToSink(Error(rx.total)));
  }

  lemma RightDecides(rx: Rx, es: seq<Event>, sink: bool, got: seq<Octet>)
    requires Valid(rx, sink) && rx.state.WaitCf? && Holds(rx, got) && rx.received <= rx.total
    requires es != [] && es[0].Received?
    requires AllLegal(es) && forall e :: e in es ==> !Starts(e)
    requires Brings(es[0].f, PCI_CONSECUTIVE) && es[0].f.data[0] % 16 == rx.expected
    ensures var f := es[0].f;
            var left := rx.total - rx.received;
            var (r, outs) := Step(rx, es[0], sink);
            if f.dlc - 1 >= left
            then && Shows(Complete, rx, Run(rx, es, sink).0, Run(rx, es, sink).1, got + f.data[1..1 + left])
                 && (rx.stream ==> Forwarded(Run(rx, es, sink).1) == f.data[1..1 + left])
            else && r.state.WaitCf? && r.stream == rx.stream && r.total == rx.total
                 && r.received == rx.received + (f.dlc - 1)
                 && r.expected == (rx.expected + 1) % 16 && r.last == es[0].now
                 && Gathered(got, rx, es[0]) == got + f.data[1..f.dlc]
                 && Ends(outs) == [] && (rx.stream ==> Forwarded(outs) == f.data[1..f.dlc])
  {
    hide Run, Ends, Forwarded, Process, Holds, High, Overlay;
    var f, left := es[0].f, rx.total - rx.received;
    var n := Min(f.dlc - 1, left);
    RightNumberTaken(rx, f, es[0].now, sink, got);
    TakenIsHeard(f.data[1..1 + n], rx.total, rx.stream, n == left, got + f.data[1..1 + n], Classify(f.id));
    if f.dlc - 1 >= left {
      EndsHere(rx, es, sink);
    }
  }

  // The numbers of the addressed consecutive frames.
  function Numbers(es: seq<Event>): seq<nat> {
    if es == [] then []
    else (if es[0].Received? && Brings(es[0].f, PCI_CONSECUTIVE) then [es[0].f.data[0] % 16] else []) + Numbers(es[1..])
  }

  // While a reception goes on, no frame of it has been missed or doubled.
  lemma {:induction false} OpenMeansInRow(expected: nat, last: nat, left: nat, es: seq<Event>)
    requires expected < 16 && FateOf(expected, last, left, es) == Open
    ensures forall i :: 0 <= i < |Numbers(es)| ==> Numbers(es)[i] == (expected + i) % 16
    decreases |es|
  {
    hide High;
    if es != [] {
      match es[0]
      case Ticked(now) => OpenMeansInRow(expected, last, left, es[1..]);
      case Received(f, now) =>
        if Brings(f, PCI_CONSECUTIVE) {
          OpenMeansInRow((expected + 1) % 16, now, left - (f.dlc - 1), es[1..]);
          forall i | 1 <= i < |Numbers(es)|
            ensures Numbers(es)[i] == (expected + i) % 16
          {
            assert Numbers(es)[i] == Numbers(es[1..])[i - 1];
            assert ((expected + 1) % 16 + (i - 1)) % 16 == (expected + i) % 16;
          }
        } else {
          OpenMeansInRow(expected, last, left, es[1..]);
        }
    }
  }

  // A first frame that is taken opens a reception of its length, whatever was under way.
  lemma FirstOpens(rx: Rx, f: Frame, now: nat, sink: bool)
    requires Valid(rx, sink) && Brings(f, PCI_FIRST) && Classify(f.id).Physical? && FirstLength(f).Length?
    requires FirstLength(f).total <= MAX_MESSAGE || sink
    ensures var l := FirstLength(f);
            var chunk := FirstChunk(f, l.total, l.offset);
            var (r, outs) := Process(rx, f, now, sink);
            && Valid(r, sink) && r.state.WaitCf? && r.total == l.total && r.received == |chunk| <= l.total
            && r.expected == 1 && r.last == now && (r.stream <==> l.total > MAX_MESSAGE) && Holds(r, chunk)
            && Ends(outs) == (if rx.stream then [ToSink(Error(rx.total))] else [])
            && Forwarded(outs) == (if r.stream then chunk else [])
            && outs != [] && outs[|outs| - 1] == Flow(f.id + 8, FS_CONTINUE)
  {
    hide FirstLength, FirstChunk, Overlay, Ends, Forwarded;
    ProcessKeepsValid(rx, f, now, sink);
    var l := FirstLength(f);
    FirstIsHeard(if rx.stream then [ToSink(Error(rx.total))] else [], rx.total,
                 FirstChunk(f, l.total, l.offset), l.total, f.id + 8);
  }

  // The outputs of a first frame, for a stream or a message to be buffered.
  lemma FirstIsHeard(abort: seq<Out>, lost: nat, chunk: seq<Octet>, total: nat, id: nat)
    requires abort == [] || abort == [ToSink(Error(lost))]
    ensures var flow := [Flow(id, FS_CONTINUE)];
            var data := if chunk != [] then [ToSink(Data(chunk, total))] else [];
            var streamed := abort + [ToSink(Begin(total))] + data + flow;
            && Ends(abort + flow) == abort && Forwarded(abort + flow) == []
            && Ends(streamed) == abort && Forwarded(streamed) == chunk
  {
    hide Ends, Forwarded;
    var flow, begin := [Flow(id, FS_CONTINUE)], [ToSink(Begin(total))];
    var data := if chunk != [] then [ToSink(Data(chunk, total))] else [];
    NoEnd();
    OneEnd(ToSink(Error(lost)));
    OneEnd(flow[0]);
    OneEnd(begin[0]);
    OneEnd(ToSink(Data(chunk, total)));
    Both(abort, flow);
    Both(abort, begin);
    Both(abort + begin, data);
    Both(abort + begin + data, flow);
  }

  // The number expected once these have come in turn.
  function NumberAfter(expected: nat, es: seq<Event>): nat
    decreases |es|
  {
    if es == [] then expected
    else
      var taken := es[0].Received? && Brings(es[0].f, PCI_CONSECUTIVE);
      NumberAfter(if taken then (expected + 1) % 16 else expected, es[1..])
  }

  lemma {:induction false} NumberAfterIs(expected: nat, es: seq<Event>)
    requires expected < 16
    ensures NumberAfter(expected, es) == (expected + |Numbers(es)|) % 16
    decreases |es|
  {
    hide Brings;
    if es != [] {
      if es[0].Received? && Brings(es[0].f, PCI_CONSECUTIVE) {
        NumberAfterIs((expected + 1) % 16, es[1..]);
        var k := |Numbers(es[1..])|;
        assert ((expected + 1) % 16 + k) % 16 == (expected + (k + 1)) % 16;
      } else {
        NumberAfterIs(expected, es[1..]);
      }
    }
  }

  lemma OneEarlier(es: seq<Event>, n: nat)
    requires 0 < n < |es|
    ensures es[..n] != [] && es[..n][0] == es[0] && es[..n][1..] == es[1..][..n - 1] && es[1..][n - 1] == es[n]
  {
  }

  // The frame that completes a reception, and what there was before it.
  lemma {:induction false} CompletedBy(expected: nat, last: nat, left: nat, es: seq<Event>) returns (n: nat)
    requires FateOf(expected, last, left, es) == Complete
    ensures n < |es| && FateOf(expected, last, left, es[..n]) == Open
    ensures es[n].Received? && Brings(es[n].f, PCI_CONSECUTIVE)
    ensures es[n].f.data[0] % 16 == NumberAfter(expected, es[..n])
    decreases |es|
  {
    hide High, Classify;
    n := 0;
    assert es[..0] == [];
    match es[0]
    case Ticked(now) =>
      n := CompletedBy(expected, last, left, es[1..]);
      n := n + 1;
      OneEarlier(es, n);
    case Received(f, now) =>
      if !Brings(f, PCI_CONSECUTIVE) {
        n := CompletedBy(expected, last, left, es[1..]);
        n := n + 1;
        OneEarlier(es, n);
      } else if f.dlc - 1 < left {
        n := CompletedBy((expected + 1) % 16, now, left - (f.dlc - 1), es[1..]);
        n := n + 1;
        OneEarlier(es, n);
      }
  }

  lemma {:induction false} AllBrought(expected: nat, last: nat, left: nat, es: seq<Event>)
    requires AllLegal(es) && FateOf(expected, last, left, es) == Complete
    ensures |Brought(expected, last, left, es)| == left
    decreases |es|
  {
    hide High, Classify;
    assert es[0] in es;
    match es[0]
    case Ticked(now) => AllBrought(expected, last, left, es[1..]);
    case Received(f, now) =>
      if !Brings(f, PCI_CONSECUTIVE) {
        AllBrought(expected, last, left, es[1..]);
      } else if f.dlc - 1 < left {
        AllBrought((expected + 1) % 16, now, left - (f.dlc - 1), es[1..]);
      }
  }

  // From BEGIN to END: whatever came before, if a first frame opens a stream and the sink then
  // hears its END with no start in between, every addressed consecutive frame up to the last has
  // come in its turn and in time, and the data heard are as many bytes as were announced.
  lemma StreamUnbroken(rx: Rx, f: Frame, now: nat, es: seq<Event>) returns (n: nat)
    requires Valid(rx, true) && Brings(f, PCI_FIRST) && Classify(f.id).Physical?
    requires FirstLength(f).Length? && FirstLength(f).total > MAX_MESSAGE
    requires AllLegal(es) && forall e :: e in es ==> !Starts(e)
    requires Valid(Process(rx, f, now, true).0, true)
    requires Ends(Run(Process(rx, f, now, true).0, es, true).1) == [ToSink(End(FirstLength(f).total))]
    ensures n < |es| && es[n].Received? && Brings(es[n].f, PCI_CONSECUTIVE)
    ensures forall i :: 0 <= i < |Numbers(es[..n])| ==> Numbers(es[..n])[i] == (1 + i) % 16
    ensures es[n].f.data[0] % 16 == (1 + |Numbers(es[..n])|) % 16
    ensures |Forwarded(Process(rx, f, now, true).1)| + |Forwarded(Run(Process(rx, f, now, true).0, es, true).1)|
            == FirstLength(f).total
  {
    hide FirstLength, FirstChunk, Process, Run, Forwarded, Ends, Holds;
    FirstOpens(rx, f, now, true);
    var l := FirstLength(f);
    var chunk := FirstChunk(f, l.total, l.offset);
    var r := Process(rx, f, now, true).0;
    FrameDecides(r, es, true, chunk);
    n := CompletedBy(1, now, l.total - |chunk|, es);
    AllBrought(1, now, l.total - |chunk|, es);
    OpenMeansInRow(1, now, l.total - |chunk|, es[..n]);
    NumberAfterIs(1, es[..n]);
  }

  // One that cannot be taken ends what was under way: too long for the buffer and no sink, it
  // is answered with OVERFLOW; without its length, with nothing.
  lemma FirstRefused(rx: Rx, f: Frame, now: nat, sink: bool)
    requires Valid(rx, sink) && Brings(f, PCI_FIRST) && Classify(f.id).Physical?
    requires FirstLength(f).Length? ==> FirstLength(f).total > MAX_MESSAGE && !sink
    ensures var (r, outs) := Process(rx, f, now, sink);
            && r.state.RxIdle? && !r.stream
            && outs == (if rx.stream then [ToSink(Error(rx.total))] else [])
                       + if FirstLength(f).Length? then [Flow(f.id + 8, FS_OVERFLOW)] else []
  {
    hide FirstLength, FirstChunk, Overlay;
  }

  // A single frame ends what was under way and is handed up.
  lemma SingleGoesFirst(rx: Rx, f: Frame, now: nat, sink: bool)
    requires Valid(rx, sink) && Brings(f, PCI_SINGLE)
    ensures var (r, outs) := Process(rx, f, now, sink);
            && r.state.RxIdle? && !r.stream
            && outs == (if rx.stream then [ToSink(Error(rx.total))] else [])
                       + [Dispatch(SinglePayload(f), Classify(f.id))]
  {
    hide SinglePayload, Overlay;
  }

  // ----- What a frame brings -----

  // Of any single frame the bytes behind its header that came in, as many as it announces.
  lemma SingleBrings(f: Frame)
    requires f.Fits() && f.dlc > 0
    ensures var escape := f.dlc > 1 && f.data[0] % 16 == 0;
            var came := if escape then f.data[2..f.dlc] else f.data[1..f.dlc];
            var n: nat := if escape then f.data[1] else f.data[0] % 16;
            SinglePayload(f) == came[..Min(n, |came|)]
  {
    if f.dlc > 1 && f.data[0] % 16 == 0 {
      var k := Min(f.data[1], f.dlc - 2);
      assert f.data[2..f.dlc][..k] == f.data[2..2 + k];
    } else {
      var k := Min(f.data[0] % 16, f.dlc - 1);
      assert f.data[1..f.dlc][..k] == f.data[1..1 + k];
    }
  }

  // A first frame names its length in twelve bits or, these being zero, in the four bytes behind
  // them, highest first, if as many came in.
  lemma FirstNames(f: Frame)
    requires f.Fits()
    ensures var high: nat := f.data[0] % 16;
            var short := 0x100 * high + f.data[1];
            FirstLength(f) == if short != 0 then Length(short, 2)
                              else if f.dlc < 6 then TooShort
                              else Length(BigEndian(f.data[2..6]), 6)
  {
    FourBigEndian(f.data[2..6]);
  }

  // It brings the bytes behind its header that came in, as many as are announced.
  lemma FirstBrings(f: Frame)
    requires f.Fits() && FirstLength(f).Length?
    ensures var l := FirstLength(f);
            var came := if f.dlc < l.offset then [] else f.data[l.offset..f.dlc];
            FirstChunk(f, l.total, l.offset) == came[..Min(l.total, |came|)]
  {
    hide Read32;
  }
}
