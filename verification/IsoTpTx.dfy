// The sending state machine of Core/Src/iso_tp.c (lines 112-149, 169-182, 412-612).

module IsoTpTx {
  import opened Words
  import opened IsoTpFrames

  const FC_TIMEOUT: nat := 1000
  const MAX_WAITS: nat := 7

  datatype TxState = TxIdle | WaitFc | SendCf

  // The transmit half of ISO_TP_Context_t. Ticks are 32-bit milliseconds.
  datatype Tx = Tx(
    state: TxState, buffer: seq<Octet>, total: nat, sent: nat, seqNo: nat, canId: nat,
    stmin: nat, blockSize: nat, blockCounter: nat, waits: nat, last: nat)

  // A frame handed to the controller, as its meaningful bytes.
  datatype Sent = Sent(id: nat, used: seq<Octet>)

  function Init(): Tx {
    Tx(TxIdle, seq(MAX_MESSAGE, _ => 0), 0, 0, 0, 0, 0, 0, 0, 0, 0)
  }

  // In WAIT_FC and SEND_CF the first frame is out, the message is not, and there are waits left.
  ghost predicate Valid(tx: Tx) {
    && |tx.buffer| == MAX_MESSAGE
    && tx.last < WORD_LIMIT
    && tx.seqNo < 16 && tx.blockSize < 0x100 && tx.blockCounter < 0x100 && tx.stmin < 0x80
    && (!tx.state.TxIdle? ==> SF_MAX <= tx.sent < tx.total <= MAX_MESSAGE && tx.waits <= MAX_WAITS)
    && (tx.state.SendCf? && tx.blockSize != 0 ==> tx.blockCounter < tx.blockSize)
  }

  // send_next_cf; `ok` is what the controller answers.
  function NextCf(tx: Tx, now: nat, ok: bool): (r: (Tx, seq<Sent>))
    requires |tx.buffer| == MAX_MESSAGE && tx.total <= MAX_MESSAGE && tx.seqNo < 16
  {
    if tx.sent >= tx.total then (tx.(state := TxIdle), [])
    else
      var n := Min(CF_MAX, tx.total - tx.sent);
      var frame := Sent(tx.canId, ConsecutiveFrame(tx.seqNo, tx.buffer[tx.sent..tx.sent + n]));
      if !ok then (tx.(state := TxIdle), [])
      else
        var t := tx.(sent := tx.sent + n, seqNo := (tx.seqNo + 1) % 16, last := now,
                     blockCounter := (tx.blockCounter + 1) % 0x100);
        if t.sent >= t.total then (t.(state := TxIdle), [frame])
        else if t.blockSize != 0 && t.blockCounter >= t.blockSize then (t.(state := WaitFc), [frame])
        else (t, [frame])
  }

  // ISO_TP_SendResponse
  function Send(tx: Tx, id: nat, msg: seq<Octet>, now: nat, ok: bool): (r: (Tx, seq<Sent>))
    requires |tx.buffer| == MAX_MESSAGE
  {
    if msg == [] || |msg| > MAX_MESSAGE then (tx, [])
    else if |msg| <= SF_MAX then (tx, if ok then [Sent(id, SingleFrame(msg))] else [])
    else if !tx.state.TxIdle? then (tx, [])
    else
      var t := tx.(buffer := msg + tx.buffer[|msg|..], total := |msg|, sent := FirstPayload(|msg|), seqNo := 1,
                   canId := id, waits := 0);
      if ok then (t.(state := WaitFc, last := now), [Sent(id, FirstFrame(msg))])
      else (t.(state := TxIdle), [])
  }

  // process_flow_control
  function Flow(tx: Tx, data: seq<Octet>, now: nat, ok: bool): (r: (Tx, seq<Sent>))
    requires Valid(tx) && |data| == FRAME_SIZE
  {
    if !tx.state.WaitFc? then (tx, [])
    else if Low(data[0]) == FS_CONTINUE then
      NextCf(Opened(tx, data, now), now, ok)
    else if Low(data[0]) == FS_WAIT then
      var w := tx.waits + 1;
      if w > MAX_WAITS then (tx.(waits := w, state := TxIdle), [])
      else (tx.(waits := w, last := now), [])
    else (tx.(state := TxIdle), [])
  }

  // The transmit part of ISO_TP_Tick.
  function Tick(tx: Tx, now: nat, ok: bool): (r: (Tx, seq<Sent>))
    requires Valid(tx)
  {
    if tx.state.WaitFc? && Elapsed(now, tx.last) >= FC_TIMEOUT then (tx.(state := TxIdle), [])
    else if tx.state.SendCf? && Elapsed(now, tx.last) >= tx.stmin then NextCf(tx, now, ok)
    else (tx, [])
  }

  // ----- One transaction: everything from the send to TX_IDLE -----

  datatype Event = FlowFrame(data: seq<Octet>, now: nat, ok: bool) | Ticked(now: nat, ok: bool)

  predicate Legal(e: Event) {
    e.now < WORD_LIMIT && (e.FlowFrame? ==> |e.data| == FRAME_SIZE)
  }

  predicate AllLegal(es: seq<Event>) {
    forall e :: e in es ==> Legal(e)
  }

  function Step(tx: Tx, e: Event): (r: (Tx, seq<Sent>))
    requires Valid(tx) && Legal(e)
  {
    match e
    case FlowFrame(data, now, ok) => Flow(tx, data, now, ok)
    case Ticked(now, ok) => Tick(tx, now, ok)
  }

  lemma NextCfValid(tx: Tx, now: nat, ok: bool)
    requires Valid(tx) && tx.state.SendCf? && now < WORD_LIMIT
    ensures Valid(NextCf(tx, now, ok).0)
  {
  }

  lemma StepValid(tx: Tx, e: Event)
    requires Valid(tx) && Legal(e)
    ensures Valid(Step(tx, e).0)
  {
    match e
    case FlowFrame(data, now, ok) =>
    case Ticked(now, ok) =>
      if tx.state.SendCf? { NextCfValid(tx, now, ok); }
  }

  lemma SendValid(tx: Tx, id: nat, msg: seq<Octet>, now: nat, ok: bool)
    requires Valid(tx) && now < WORD_LIMIT
    ensures Valid(Send(tx, id, msg, now, ok).0)
  {
    hide SingleFrame, FirstFrame;
  }

  function Run(tx: Tx, es: seq<Event>): (r: (Tx, seq<Sent>))
    requires Valid(tx) && AllLegal(es)
    ensures Valid(r.0)
    decreases |es|
  {
    if es == [] then (tx, [])
    else
      StepValid(tx, es[0]);
      var (t, out) := Step(tx, es[0]);
      var (t', more) := Run(t, es[1..]);
      (t', out + more)
  }

  function Bytes(out: seq<Sent>): seq<seq<Octet>> {
    if out == [] then [] else Bytes(out[..|out| - 1]) + [out[|out| - 1].used]
  }

  lemma {:induction false} BytesConcat(a: seq<Sent>, b: seq<Sent>)
    ensures Bytes(a + b) == Bytes(a) + Bytes(b)
  {
    if b == [] {
      assert a + b == a;
    } else {
      assert (a + b)[..|a + b| - 1] == a + b[..|b| - 1];
      BytesConcat(a, b[..|b| - 1]);
    }
  }

  // What has gone out and what is still to go make up the segmentation of the message. When
  // a transaction is given up (timeout, overflow, too many waits, controller refusal) only
  // the first half is left of that: a prefix.
  ghost predicate OnTrack(m: seq<Octet>, tx: Tx, out: seq<seq<Octet>>)
    requires SF_MAX < |m| <= MAX_MESSAGE
  {
    && |tx.buffer| == MAX_MESSAGE && tx.seqNo < 16
    && out <= Segments(m)
    && (!tx.state.TxIdle? ==>
          && tx.total == |m| && tx.buffer[..|m|] == m
          && out + Rest(m, tx.sent, tx.seqNo) == Segments(m))
  }

  lemma Regroup(out: seq<seq<Octet>>, cf: seq<Octet>, rest: seq<seq<Octet>>, all: seq<seq<Octet>>)
    requires out + ([cf] + rest) == all
    ensures (out + [cf]) + rest == all && out + [cf] <= all
    ensures rest == [] ==> out + [cf] == all
  {
    assert (out + [cf]) + rest == out + ([cf] + rest);
  }

  lemma RestUnfolds(m: seq<Octet>, sent: nat, seqNo: nat, out: seq<seq<Octet>>, cf: seq<Octet>, all: seq<seq<Octet>>)
    requires sent < |m| && seqNo < 16 && out + Rest(m, sent, seqNo) == all
    requires var n := Min(CF_MAX, |m| - sent); cf == ConsecutiveFrame(seqNo, m[sent..sent + n])
    ensures var n := Min(CF_MAX, |m| - sent);
            && (out + [cf]) + Rest(m, sent + n, (seqNo + 1) % 16) == all
            && out + [cf] <= all
            && (sent + n >= |m| ==> out + [cf] == all)
  {
    hide ConsecutiveFrame;
    var n := Min(CF_MAX, |m| - sent);
    var rest := Rest(m, sent + n, (seqNo + 1) % 16);
    assert Rest(m, sent, seqNo) == [cf] + rest;
    Regroup(out, cf, rest, all);
  }

  lemma OneFrame(f: Sent)
    ensures Bytes([f]) == [f.used]
  {
    assert [f][..0] == [];
  }

  lemma NoFrame()
    ensures Bytes([]) == []
  {
  }

  lemma SliceOfPrefix(buffer: seq<Octet>, m: seq<Octet>, a: nat, b: nat)
    requires a <= b <= |m| <= |buffer| && buffer[..|m|] == m
    ensures buffer[a..b] == m[a..b]
  {
    forall i | a <= i < b
      ensures buffer[i] == m[i]
    {
      assert buffer[i] == buffer[..|m|][i];
    }
  }

  lemma NextCfOnTrack(m: seq<Octet>, tx: Tx, out: seq<seq<Octet>>, now: nat, ok: bool)
    requires SF_MAX < |m| <= MAX_MESSAGE && OnTrack(m, tx, out) && tx.state.SendCf? && tx.sent < |m|
    ensures var (t, more) := NextCf(tx, now, ok);
            && OnTrack(m, t, out + Bytes(more))
            && (ok && t.state.TxIdle? ==> out + Bytes(more) == Segments(m))
  {
    hide Segments, ConsecutiveFrame, Rest, Bytes;
    NoFrame();
    assert out + [] == out;
    if ok {
      var n := Min(CF_MAX, |m| - tx.sent);
      SliceOfPrefix(tx.buffer, m, tx.sent, tx.sent + n);
      var cf := ConsecutiveFrame(tx.seqNo, m[tx.sent..tx.sent + n]);
      OneFrame(Sent(tx.canId, cf));
      RestUnfolds(m, tx.sent, tx.seqNo, out, cf, Segments(m));
    }
  }

  // CONTINUE opens a block: the state in which the first frame of the block goes out.
  function Opened(tx: Tx, data: seq<Octet>, now: nat): Tx
    requires |data| == FRAME_SIZE
  {
    var st := data[2];
    tx.(stmin := if st < 0x80 then st else 0, blockSize := data[1], blockCounter := 0,
        last := now, state := SendCf)
  }

  lemma StepOnTrack(m: seq<Octet>, tx: Tx, out: seq<seq<Octet>>, e: Event)
    requires SF_MAX < |m| <= MAX_MESSAGE && Valid(tx) && OnTrack(m, tx, out) && Legal(e)
    ensures OnTrack(m, Step(tx, e).0, out + Bytes(Step(tx, e).1))
  {
    hide Segments, Rest, NextCf, Bytes;
    NoFrame();
    assert out + [] == out;
    match e
    case FlowFrame(data, now, ok) =>
      if tx.state.WaitFc? && Low(data[0]) == FS_CONTINUE {
        NextCfOnTrack(m, Opened(tx, data, now), out, now, ok);
      }
    case Ticked(now, ok) =>
      if tx.state.SendCf? { NextCfOnTrack(m, tx, out, now, ok); }
  }

  lemma {:induction false} RunOnTrack(m: seq<Octet>, tx: Tx, out: seq<seq<Octet>>, es: seq<Event>)
    requires Valid(tx) && SF_MAX < |m| <= MAX_MESSAGE && OnTrack(m, tx, out) && AllLegal(es)
    ensures OnTrack(m, Run(tx, es).0, out + Bytes(Run(tx, es).1))
    decreases |es|
  {
    hide OnTrack, Step;
    assert out + [] == out;
    if es != [] {
      StepValid(tx, es[0]);
      StepOnTrack(m, tx, out, es[0]);
      var (t, first) := Step(tx, es[0]);
      RunOnTrack(m, t, out + Bytes(first), es[1..]);
      var rest := Run(t, es[1..]).1;
      BytesConcat(first, rest);
      assert (out + Bytes(first)) + Bytes(rest) == out + Bytes(first + rest);
    }
  }

  lemma SendOnTrack(tx: Tx, id: nat, m: seq<Octet>, now: nat)
    requires Valid(tx) && tx.state.TxIdle? && SF_MAX < |m| <= MAX_MESSAGE && now < WORD_LIMIT
    ensures var (t, out) := Send(tx, id, m, now, true);
            t.state.WaitFc? && Valid(t) && OnTrack(m, t, Bytes(out))
  {
    var (t, out) := Send(tx, id, m, now, true);
    assert out[..0] == [];
    assert Bytes(out) == [FirstFrame(m)];
  }

  // A multi-frame response under any flow control, ticks and controller refusals: while it is
  // open the counters are in range, and the payload on the bus is at all times the beginning
  // of the message, cut as the standard cuts it.
  lemma BusCarriesPrefix(tx: Tx, id: nat, m: seq<Octet>, now: nat, es: seq<Event>)
    requires Valid(tx) && tx.state.TxIdle? && SF_MAX < |m| <= MAX_MESSAGE && now < WORD_LIMIT
    requires AllLegal(es)
    ensures var (t0, first) := Send(tx, id, m, now, true);
            && Valid(t0)
            && var (t, more) := Run(t0, es);
            && Bytes(first + more) <= Segments(m)
            && (!t.state.TxIdle? ==>
                  && SF_MAX <= t.sent < t.total == |m| <= MAX_MESSAGE
                  && Bytes(first + more) + Rest(m, t.sent, t.seqNo) == Segments(m))
  {
    SendOnTrack(tx, id, m, now);
    var (t0, first) := Send(tx, id, m, now, true);
    RunOnTrack(m, t0, Bytes(first), es);
    BytesConcat(first, Run(t0, es).1);
  }

  // ----- A receiver that neither gives up nor overflows -----

  // CONTINUE with any block size and STmin, at most the allowed waits, ticks before the
  // timeout, a controller that takes every frame.
  predicate Benign(tx: Tx, e: Event)
    requires Valid(tx) && Legal(e)
  {
    match e
    case FlowFrame(data, _, ok) =>
      ok && (Low(data[0]) == FS_CONTINUE || (Low(data[0]) == FS_WAIT && tx.waits < MAX_WAITS))
    case Ticked(now, ok) => ok && (tx.state.WaitFc? ==> Elapsed(now, tx.last) < FC_TIMEOUT)
  }

  predicate AllBenign(tx: Tx, es: seq<Event>)
    requires Valid(tx) && AllLegal(es)
    decreases |es|
  {
    es == [] || (StepValid(tx, es[0]); Benign(tx, es[0]) && AllBenign(Step(tx, es[0]).0, es[1..]))
  }

  ghost predicate Complete(m: seq<Octet>, tx: Tx, out: seq<seq<Octet>>)
    requires SF_MAX < |m| <= MAX_MESSAGE
  {
    OnTrack(m, tx, out) && (tx.state.TxIdle? ==> out == Segments(m))
  }

  lemma StepComplete(m: seq<Octet>, tx: Tx, out: seq<seq<Octet>>, e: Event)
    requires SF_MAX < |m| <= MAX_MESSAGE && Valid(tx) && Complete(m, tx, out) && Legal(e) && Benign(tx, e)
    ensures Complete(m, Step(tx, e).0, out + Bytes(Step(tx, e).1))
  {
    hide Segments, Rest, NextCf, Bytes;
    StepOnTrack(m, tx, out, e);
    NoFrame();
    assert out + [] == out;
    match e
    case FlowFrame(data, now, ok) =>
      if tx.state.WaitFc? && Low(data[0]) == FS_CONTINUE {
        NextCfOnTrack(m, Opened(tx, data, now), out, now, ok);
      }
    case Ticked(now, ok) =>
      if tx.state.SendCf? { NextCfOnTrack(m, tx, out, now, ok); }
  }

  lemma {:induction false} RunComplete(m: seq<Octet>, tx: Tx, out: seq<seq<Octet>>, es: seq<Event>)
    requires Valid(tx) && SF_MAX < |m| <= MAX_MESSAGE && Complete(m, tx, out) && AllLegal(es)
    requires AllBenign(tx, es)
    ensures Complete(m, Run(tx, es).0, out + Bytes(Run(tx, es).1))
    decreases |es|
  {
    hide Complete, Step, Benign;
    assert out + [] == out;
    if es != [] {
      StepValid(tx, es[0]);
      StepComplete(m, tx, out, es[0]);
      var (t, first) := Step(tx, es[0]);
      RunComplete(m, t, out + Bytes(first), es[1..]);
      var rest := Run(t, es[1..]).1;
      BytesConcat(first, rest);
      assert (out + Bytes(first)) + Bytes(rest) == out + Bytes(first + rest);
    }
  }
}
