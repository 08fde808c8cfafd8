// The receiving state machine of Core/Src/iso_tp.c (lines 66-110, 160-167, 197-407, 648-688).

module IsoTpRx {
  import opened Words
  import opened IsoTpFrames

  const RX_TIMEOUT: nat := 1000
  const FC_BLOCK_SIZE: nat := 0
  const FC_STMIN: nat := 5

  datatype RxState = RxIdle | WaitCf

  // The receive half of ISO_TP_Context_t. RX_COMPLETE is never left standing.
  datatype Rx = Rx(
    state: RxState, buffer: seq<Octet>, total: nat, received: nat, expected: nat,
    canId: nat, addr: Addr, stream: bool, last: nat)

  datatype SinkEvent = Begin(total: nat) | Data(chunk: seq<Octet>, total: nat) | End(total: nat) | Error(total: nat)

  datatype Out =
    | ToSink(event: SinkEvent)
    | Dispatch(msg: seq<Octet>, from: Addr)
    | Flow(id: nat, status: nat)

  function Overlay(buffer: seq<Octet>, at: nat, chunk: seq<Octet>): (s: seq<Octet>)
    requires at + |chunk| <= |buffer|
    ensures |s| == |buffer|
    ensures s[..at + |chunk|] == buffer[..at] + chunk
  {
    buffer[..at] + chunk + buffer[at + |chunk|..]
  }

  function Init(): Rx {
    Rx(RxIdle, seq(MAX_MESSAGE, _ => 0), 0, 0, 0, 0, Ignored, false, 0)
  }

  // What every step keeps: a buffered reception never outgrows the buffer, a streamed one is
  // open, incomplete and has a sink.
  ghost predicate Valid(rx: Rx, sink: bool) {
    && |rx.buffer| == MAX_MESSAGE
    && rx.expected < 16 && rx.total < WORD_LIMIT
    && (rx.state.WaitCf? && !rx.stream ==> rx.received <= rx.total <= MAX_MESSAGE)
    && (rx.stream ==> rx.state.WaitCf? && sink && rx.received < rx.total)
  }

  // abort_stream_rx
  function Abort(rx: Rx, sink: bool): (Rx, seq<Out>) {
    (rx.(stream := false), if rx.stream && sink then [ToSink(Error(rx.total))] else [])
  }

  // A reception in progress gives way to a new one.
  function Restart(rx: Rx, sink: bool): (Rx, seq<Out>) {
    if rx.state.WaitCf? then Abort(rx, sink) else (rx, [])
  }

  function SinglePayload(f: Frame): (s: seq<Octet>)
    requires f.Fits() && f.dlc > 0
    ensures |s| <= SF_MAX
  {
    if f.dlc > 1 && Low(f.data[0]) == 0 then
      f.data[2..2 + Min(f.data[1], f.dlc - 2)]
    else
      f.data[1..1 + Min(Low(f.data[0]), f.dlc - 1)]
  }

  // process_single_frame and dispatch_completed_message
  function Single(rx: Rx, f: Frame, sink: bool): (Rx, seq<Out>)
    requires f.Fits() && f.dlc > 0 && |rx.buffer| == MAX_MESSAGE
  {
    var (r, outs) := Restart(rx, sink);
    var payload := SinglePayload(f);
    (r.(buffer := Overlay(r.buffer, 0, payload), total := |payload|, canId := f.id, state := RxIdle),
     outs + [Dispatch(payload, r.addr)])
  }

  datatype Length = TooShort | Length(total: nat, offset: nat)

  function FirstLength(f: Frame): (l: Length)
    requires f.Fits()
    ensures l.Length? ==> l.total < WORD_LIMIT && l.offset <= 6
  {
    var len12 := 0x100 * Low(f.data[0]) + f.data[1];
    if len12 != 0 then Length(len12, 2)
    else if f.dlc < 6 then TooShort
    else Length(Read32(f.data, 2), 6)
  }

  function FirstChunk(f: Frame, total: nat, offset: nat): (s: seq<Octet>)
    requires f.Fits() && offset <= 6
    ensures |s| <= SF_MAX || offset < 2
    ensures |s| <= total
  {
    var n := if f.dlc > offset then f.dlc - offset else 0;
    f.data[offset..offset + Min(Min(n, FRAME_SIZE - offset), total)]
  }

  // process_first_frame
  function First(rx: Rx, f: Frame, now: nat, sink: bool): (Rx, seq<Out>)
    requires f.Fits() && |rx.buffer| == MAX_MESSAGE
  {
    if rx.addr.Functional? then (rx, [])
    else
      var (r, outs) := Restart(rx, sink);
      match FirstLength(f)
      case TooShort => (r.(state := RxIdle), outs)
      case Length(total, offset) =>
        var chunk := FirstChunk(f, total, offset);
        var begun := r.(state := WaitCf, total := total, received := |chunk|, expected := 1,
                        canId := f.id, last := now);
        if total <= MAX_MESSAGE then
          (begun.(buffer := Overlay(r.buffer, 0, chunk), stream := false), outs + [Flow(f.id + 8, FS_CONTINUE)])
        else if !sink then
          (r.(state := RxIdle), outs + [Flow(f.id + 8, FS_OVERFLOW)])
        else
          (begun.(stream := true),
           outs + [ToSink(Begin(total))] + (if chunk != [] then [ToSink(Data(chunk, total))] else [])
             + [Flow(f.id + 8, FS_CONTINUE)])
  }

  // process_consecutive_frame
  function Consecutive(rx: Rx, f: Frame, now: nat, sink: bool): (Rx, seq<Out>)
    requires f.Fits() && f.dlc > 0 && Valid(rx, sink)
  {
    if !rx.state.WaitCf? then (rx, [])
    else if Low(f.data[0]) != rx.expected then
      var (r, outs) := Abort(rx, sink);
      (r.(state := RxIdle), outs)
    else
      var chunk := f.data[1..1 + Min(f.dlc - 1, rx.total - rx.received)];
      var r := rx.(received := rx.received + |chunk|, expected := (rx.expected + 1) % 16, last := now);
      if rx.stream then
        var outs := [ToSink(Data(chunk, rx.total))];
        if r.received >= r.total then (r.(stream := false, state := RxIdle), outs + [ToSink(End(rx.total))])
        else (r, outs)
      else
        var b := r.(buffer := Overlay(r.buffer, rx.received, chunk));
        if b.received >= b.total then (b.(state := RxIdle), [Dispatch(b.buffer[..b.total], b.addr)])
        else (b, [])
  }

  // ISO_TP_ProcessFrame for everything but flow control, which belongs to the sender.
  function Process(rx: Rx, f: Frame, now: nat, sink: bool): (Rx, seq<Out>)
    requires f.Fits() && Valid(rx, sink)
  {
    if f.dlc == 0 || High(f.data[0]) == PCI_FLOW || Classify(f.id).Ignored? then (rx, [])
    else
      var r := rx.(addr := Classify(f.id));
      if High(f.data[0]) == PCI_SINGLE then Single(r, f, sink)
      else if High(f.data[0]) == PCI_FIRST then First(r, f, now, sink)
      else if High(f.data[0]) == PCI_CONSECUTIVE then Consecutive(r, f, now, sink)
      else (r, [])
  }

  // The receive part of ISO_TP_Tick.
  function Tick(rx: Rx, now: nat, sink: bool): (Rx, seq<Out>) {
    if rx.state.WaitCf? && Elapsed(now, rx.last) >= RX_TIMEOUT then
      var (r, outs) := Abort(rx, sink);
      (r.(state := RxIdle), outs)
    else (rx, [])
  }

  lemma SingleKeepsValid(rx: Rx, f: Frame, sink: bool)
    requires f.Fits() && f.dlc > 0 && Valid(rx, sink)
    ensures Valid(Single(rx, f, sink).0, sink)
  {
    hide SinglePayload, Overlay;
  }

  lemma FirstKeepsValid(rx: Rx, f: Frame, now: nat, sink: bool)
    requires f.Fits() && Valid(rx, sink)
    ensures Valid(First(rx, f, now, sink).0, sink)
  {
    hide FirstLength, Overlay;
  }

  lemma ConsecutiveKeepsValid(rx: Rx, f: Frame, now: nat, sink: bool)
    requires f.Fits() && f.dlc > 0 && Valid(rx, sink)
    ensures Valid(Consecutive(rx, f, now, sink).0, sink)
  {
    hide Low, Overlay;
  }

  lemma ProcessKeepsValid(rx: Rx, f: Frame, now: nat, sink: bool)
    requires f.Fits() && Valid(rx, sink)
    ensures Valid(Process(rx, f, now, sink).0, sink)
  {
    hide High, Single, First, Consecutive;
    if f.dlc > 0 {
      var r := rx.(addr := Classify(f.id));
      SingleKeepsValid(r, f, sink);
      FirstKeepsValid(r, f, now, sink);
      ConsecutiveKeepsValid(r, f, now, sink);
    }
  }

  // Flow control never disturbs a reception: the two halves are independent.
  lemma FlowIgnored(rx: Rx, f: Frame, now: nat, sink: bool)
    requires f.Fits() && Valid(rx, sink) && High(f.data[0]) == PCI_FLOW
    ensures Process(rx, f, now, sink) == (rx, [])
  {
  }

  // ----- Whole runs -----

  datatype Event = Received(f: Frame, now: nat) | Ticked(now: nat)

  predicate Legal(e: Event) {
    e.Received? ==> e.f.Fits()
  }

  predicate AllLegal(es: seq<Event>) {
    forall e :: e in es ==> Legal(e)
  }

  function Step(rx: Rx, e: Event, sink: bool): (Rx, seq<Out>)
    requires Valid(rx, sink) && Legal(e)
  {
    match e
    case Received(f, now) => Process(rx, f, now, sink)
    case Ticked(now) => Tick(rx, now, sink)
  }

  lemma StepKeepsValid(rx: Rx, e: Event, sink: bool)
    requires Valid(rx, sink) && Legal(e)
    ensures Valid(Step(rx, e, sink).0, sink)
  {
    if e.Received? {
      ProcessKeepsValid(rx, e.f, e.now, sink);
    }
  }

  function Run(rx: Rx, es: seq<Event>, sink: bool): (r: (Rx, seq<Out>))
    requires Valid(rx, sink) && AllLegal(es)
    ensures Valid(r.0, sink)
    decreases |es|
  {
    if es == [] then (rx, [])
    else
      StepKeepsValid(rx, es[0], sink);
      var (r, outs) := Step(rx, es[0], sink);
      var (r', more) := Run(r, es[1..], sink);
      (r', outs + more)
  }

  // ----- What has been taken in -----

  // The bytes of a consecutive frame that are still wanted.
  function Wanted(rx: Rx, f: Frame): seq<Octet>
    requires f.Fits() && f.dlc > 0
  {
    f.data[1..1 + Min(f.dlc - 1, if rx.received < rx.total then rx.total - rx.received else 0)]
  }

  predicate Brings(f: Frame, kind: nat) {
    f.Fits() && f.dlc > 0 && High(f.data[0]) == kind && !Classify(f.id).Ignored?
  }

  // The frame chunks of the reception in progress, one behind the other: a first frame starts
  // over with its own, a consecutive frame with the number expected adds its own.
  function Gathered(got: seq<Octet>, rx: Rx, e: Event): seq<Octet>
    requires Legal(e)
  {
    if e.Ticked? then got
    else if Brings(e.f, PCI_FIRST) && Classify(e.f.id).Physical? && FirstLength(e.f).Length? then
      FirstChunk(e.f, FirstLength(e.f).total, FirstLength(e.f).offset)
    else if Brings(e.f, PCI_CONSECUTIVE) && rx.state.WaitCf? && Low(e.f.data[0]) == rx.expected then
      got + Wanted(rx, e.f)
    else got
  }

  function GatheredAll(got: seq<Octet>, rx: Rx, es: seq<Event>, sink: bool): seq<Octet>
    requires Valid(rx, sink) && AllLegal(es)
    decreases |es|
  {
    if es == [] then got
    else
      StepKeepsValid(rx, es[0], sink);
      GatheredAll(Gathered(got, rx, es[0]), Step(rx, es[0], sink).0, es[1..], sink)
  }

  // The counter counts them, and a buffered reception has them at the front of the buffer.
  ghost predicate Holds(rx: Rx, got: seq<Octet>) {
    rx.state.WaitCf? ==>
      && |got| == rx.received
      && (!rx.stream ==> |got| <= |rx.buffer| && rx.buffer[..|got|] == got)
  }

  lemma FirstHolds(rx: Rx, f: Frame, now: nat, sink: bool, got: seq<Octet>)
    requires Valid(rx, sink) && f.Fits() && Holds(rx, got)
    ensures var l := FirstLength(f);
            Holds(First(rx, f, now, sink).0,
                  if !rx.addr.Functional? && l.Length? then FirstChunk(f, l.total, l.offset) else got)
  {
    hide FirstLength, FirstChunk;
    var l := FirstLength(f);
    if l.Length? && l.total <= MAX_MESSAGE {
      var chunk := FirstChunk(f, l.total, l.offset);
      assert Overlay(rx.buffer, 0, chunk)[..|chunk|] == chunk;
    }
  }

  // A message that completes is what was gathered.
  lemma ConsecutiveHolds(rx: Rx, f: Frame, now: nat, sink: bool, got: seq<Octet>)
    requires Valid(rx, sink) && f.Fits() && f.dlc > 0 && Holds(rx, got)
    ensures Holds(Consecutive(rx, f, now, sink).0,
                  if rx.state.WaitCf? && Low(f.data[0]) == rx.expected then got + Wanted(rx, f) else got)
    ensures forall o :: o in Consecutive(rx, f, now, sink).1 && o.Dispatch? ==> o.msg == got + Wanted(rx, f)
  {
    hide Low;
  }

  lemma StepHolds(rx: Rx, e: Event, sink: bool, got: seq<Octet>)
    requires Valid(rx, sink) && Legal(e) && Holds(rx, got)
    ensures Holds(Step(rx, e, sink).0, Gathered(got, rx, e))
  {
    hide High, Low, First, FirstLength, FirstChunk, Consecutive, Wanted, SinglePayload;
    if e.Received? && e.f.dlc > 0 {
      var r := rx.(addr := Classify(e.f.id));
      FirstHolds(r, e.f, e.now, sink, got);
      ConsecutiveHolds(r, e.f, e.now, sink, got);
      SameWanted(rx, r, e.f);
    }
  }

  lemma SameWanted(rx: Rx, r: Rx, f: Frame)
    requires f.Fits() && f.dlc > 0 && r == rx.(addr := r.addr)
    ensures Wanted(r, f) == Wanted(rx, f)
  {
  }

  // ----- The language of the sink -----

  // Where the sink is in (BEGIN DATA* (END|ERROR))*, with the data heard: after the byte that
  // completes the total only END may follow, and END only then.
  datatype Phase = Outside | Inside(total: nat, heard: seq<Octet>) | Broken

  function Advance(p: Phase, e: SinkEvent): Phase {
    match (p, e)
    case (Outside, Begin(t)) => if t > MAX_MESSAGE then Inside(t, []) else Broken
    case (Inside(t, h), Data(c, u)) => if u == t && |h| < t && |h| + |c| <= t then Inside(t, h + c) else Broken
    case (Inside(t, h), End(u)) => if u == t && |h| == t then Outside else Broken
    case (Inside(t, h), Error(u)) => if u == t && |h| < t then Outside else Broken
    case _ => Broken
  }

  function AdvanceAll(p: Phase, outs: seq<Out>): Phase
    decreases |outs|
  {
    if outs == [] then p
    else AdvanceAll(if outs[0].ToSink? then Advance(p, outs[0].event) else p, outs[1..])
  }

  function PhaseOf(rx: Rx, got: seq<Octet>): Phase {
    if rx.stream then Inside(rx.total, got) else Outside
  }

  lemma {:induction false} AdvanceConcat(p: Phase, a: seq<Out>, b: seq<Out>)
    ensures AdvanceAll(p, a + b) == AdvanceAll(AdvanceAll(p, a), b)
    decreases |a|
  {
    if a == [] {
      assert a + b == b;
    } else {
      assert (a + b)[1..] == a[1..] + b;
      AdvanceConcat(if a[0].ToSink? then Advance(p, a[0].event) else p, a[1..], b);
    }
  }

  lemma AdvanceOne(p: Phase, o: Out)
    ensures AdvanceAll(p, [o]) == if o.ToSink? then Advance(p, o.event) else p
  {
    assert AdvanceAll(if o.ToSink? then Advance(p, o.event) else p, []) == if o.ToSink? then Advance(p, o.event) else p;
  }

  lemma RestartPhase(rx: Rx, sink: bool, got: seq<Octet>)
    requires Valid(rx, sink) && Holds(rx, got)
    ensures AdvanceAll(PhaseOf(rx, got), Restart(rx, sink).1) == Outside
    ensures !Restart(rx, sink).0.stream
  {
    AdvanceOne(PhaseOf(rx, got), ToSink(Error(rx.total)));
  }

  lemma FirstPhase(rx: Rx, f: Frame, now: nat, sink: bool, got: seq<Octet>)
    requires Valid(rx, sink) && f.Fits() && Holds(rx, got)
    ensures var l := FirstLength(f);
            var next := if !rx.addr.Functional? && l.Length? then FirstChunk(f, l.total, l.offset) else got;
            AdvanceAll(PhaseOf(rx, got), First(rx, f, now, sink).1) == PhaseOf(First(rx, f, now, sink).0, next)
  {
    hide FirstLength, FirstChunk, Holds;
    if !rx.addr.Functional? {
      RestartPhase(rx, sink, got);
      var (r, outs) := Restart(rx, sink);
      var p := PhaseOf(rx, got);
      match FirstLength(f)
      case TooShort =>
      case Length(total, offset) =>
        var chunk := FirstChunk(f, total, offset);
        if total <= MAX_MESSAGE {
          AdvanceConcat(p, outs, [Flow(f.id + 8, FS_CONTINUE)]);
          AdvanceOne(Outside, Flow(f.id + 8, FS_CONTINUE));
        } else if !sink {
          AdvanceConcat(p, outs, [Flow(f.id + 8, FS_OVERFLOW)]);
          AdvanceOne(Outside, Flow(f.id + 8, FS_OVERFLOW));
        } else {
          var begin, flow := [ToSink(Begin(total))], [Flow(f.id + 8, FS_CONTINUE)];
          var data := if chunk != [] then [ToSink(Data(chunk, total))] else [];
          AdvanceConcat(p, outs, begin);
          AdvanceConcat(p, outs + begin, data);
          AdvanceConcat(p, outs + begin + data, flow);
          AdvanceOne(Outside, begin[0]);
          AdvanceOne(Inside(total, []), ToSink(Data(chunk, total)));
          assert [] + chunk == chunk;
          AdvanceOne(Inside(total, chunk), flow[0]);
        }
    }
  }

  lemma ConsecutivePhase(rx: Rx, f: Frame, now: nat, sink: bool, got: seq<Octet>)
    requires Valid(rx, sink) && f.Fits() && f.dlc > 0 && Holds(rx, got)
    ensures var next := if rx.state.WaitCf? && Low(f.data[0]) == rx.expected then got + Wanted(rx, f) else got;
            AdvanceAll(PhaseOf(rx, got), Consecutive(rx, f, now, sink).1)
            == PhaseOf(Consecutive(rx, f, now, sink).0, next)
  {
    hide Low;
    var p := PhaseOf(rx, got);
    var (r, outs) := Consecutive(rx, f, now, sink);
    AdvanceOne(p, ToSink(Error(rx.total)));
    if rx.state.WaitCf? && Low(f.data[0]) == rx.expected {
      var chunk := Wanted(rx, f);
      var data, end := ToSink(Data(chunk, rx.total)), ToSink(End(rx.total));
      if rx.stream {
        AdvanceOne(p, data);
        AdvanceConcat(p, [data], [end]);
        AdvanceOne(Inside(rx.total, got + chunk), end);
      } else {
        AdvanceOne(p, Dispatch(r.buffer[..rx.total], rx.addr));
      }
    }
  }

  lemma SinglePhase(rx: Rx, f: Frame, sink: bool, got: seq<Octet>)
    requires Valid(rx, sink) && f.Fits() && f.dlc > 0 && Holds(rx, got)
    ensures AdvanceAll(PhaseOf(rx, got), Single(rx, f, sink).1) == Outside && !Single(rx, f, sink).0.stream
  {
    RestartPhase(rx, sink, got);
    var (r, outs) := Restart(rx, sink);
    var d := Dispatch(SinglePayload(f), r.addr);
    AdvanceConcat(PhaseOf(rx, got), outs, [d]);
    AdvanceOne(Outside, d);
  }

  lemma ReceivePhase(rx: Rx, f: Frame, now: nat, sink: bool, got: seq<Octet>)
    requires Valid(rx, sink) && f.Fits() && Holds(rx, got)
    ensures AdvanceAll(PhaseOf(rx, got), Process(rx, f, now, sink).1)
            == PhaseOf(Process(rx, f, now, sink).0, Gathered(got, rx, Received(f, now)))
  {
    hide High, Low, Single, First, Consecutive, Advance, Wanted, FirstLength, FirstChunk;
    var r := rx.(addr := Classify(f.id));
    if f.dlc > 0 {
      SinglePhase(r, f, sink, got);
      FirstPhase(r, f, now, sink, got);
      ConsecutivePhase(r, f, now, sink, got);
      SameWanted(rx, r, f);
    }
  }

  lemma StepPhase(rx: Rx, e: Event, sink: bool, got: seq<Octet>)
    requires Valid(rx, sink) && Legal(e) && Holds(rx, got)
    ensures AdvanceAll(PhaseOf(rx, got), Step(rx, e, sink).1) == PhaseOf(Step(rx, e, sink).0, Gathered(got, rx, e))
  {
    hide Process, Wanted, FirstChunk, FirstLength;
    match e
    case Received(f, now) =>
      ReceivePhase(rx, f, now, sink, got);
    case Ticked(now) =>
      AdvanceOne(PhaseOf(rx, got), ToSink(Error(rx.total)));
  }

  lemma {:induction false} RunPhase(rx: Rx, es: seq<Event>, sink: bool, got: seq<Octet>)
    requires Valid(rx, sink) && AllLegal(es) && Holds(rx, got)
    ensures var (end, outs) := Run(rx, es, sink);
            var all := GatheredAll(got, rx, es, sink);
            Holds(end, all) && AdvanceAll(PhaseOf(rx, got), outs) == PhaseOf(end, all)
    decreases |es|
  {
    hide Step, Gathered, Holds, PhaseOf;
    if es != [] {
      StepKeepsValid(rx, es[0], sink);
      StepHolds(rx, es[0], sink, got);
      StepPhase(rx, es[0], sink, got);
      var (r, outs) := Step(rx, es[0], sink);
      RunPhase(r, es[1..], sink, Gathered(got, rx, es[0]));
      AdvanceConcat(PhaseOf(rx, got), outs, Run(r, es[1..], sink).1);
    }
  }

  // Every run of any frames and ticks, from power-on and with a fixed sink: what the sink
  // hears is in the language; it is inside a transfer exactly while streaming, and the data
  // it has heard of that transfer are the frame chunks taken so far, in order. A reception
  // that is buffered has them in the buffer.
  lemma SinkLanguage(es: seq<Event>, sink: bool)
    requires AllLegal(es)
    ensures Valid(Init(), sink)
    ensures var (rx, outs) := Run(Init(), es, sink);
            var got := GatheredAll([], Init(), es, sink);
            && AdvanceAll(Outside, outs) == (if rx.stream then Inside(rx.total, got) else Outside)
            && (rx.state.WaitCf? ==> |got| == rx.received)
            && (rx.state.WaitCf? && !rx.stream ==> rx.received <= |rx.buffer| && rx.buffer[..rx.received] == got)
            && (rx.stream ==> rx.state.WaitCf? && rx.received < rx.total)
  {
    RunPhase(Init(), es, sink, []);
  }
}
