// Responses sent while a multi-frame send is open (Core/Src/iso_tp.c:112-149): single frames go
// out at once, longer ones are rejected, and neither disturbs the send.

module IsoTpAnswers {
  import opened Words
  import opened IsoTpFrames
  import opened IsoTpTx

  // What happens to the sender: its own events, or another call of ISO_TP_SendResponse.
  datatype Call = Own(e: Event) | Respond(id: nat, msg: seq<Octet>, now: nat, ok: bool)

  function Owns(cs: seq<Call>): (es: seq<Event>) {
    if cs == [] then [] else (if cs[0].Own? then [cs[0].e] else []) + Owns(cs[1..])
  }

  // One transaction: a response longer than a single frame comes only while the send is open.
  // After its end it would begin another transaction.
  predicate OneTransaction(tx: Tx, cs: seq<Call>)
    requires Valid(tx)
    decreases |cs|
  {
    cs == [] ||
    match cs[0]
    case Own(e) => Legal(e) && (StepValid(tx, e); OneTransaction(Step(tx, e).0, cs[1..]))
    case Respond(_, msg, _, _) => (|msg| <= SF_MAX || !tx.state.TxIdle?) && OneTransaction(tx, cs[1..])
  }

  function RunCalls(tx: Tx, cs: seq<Call>): (r: (Tx, seq<Sent>))
    requires Valid(tx) && OneTransaction(tx, cs)
    ensures Valid(r.0)
    decreases |cs|
  {
    if cs == [] then (tx, [])
    else
      match cs[0]
      case Own(e) =>
        StepValid(tx, e);
        var (t, out) := Step(tx, e);
        var (t', more) := RunCalls(t, cs[1..]);
        (t', out + more)
      case Respond(id, msg, now, ok) =>
        PassesBy(tx, id, msg, now, ok);
        var (t, out) := Send(tx, id, msg, now, ok);
        var (t', more) := RunCalls(t, cs[1..]);
        (t', out + more)
  }

  predicate IsSingle(f: Sent) {
    f.used != [] && High(f.used[0]) == PCI_SINGLE
  }

  // The frames of the multi-frame send among those on the bus.
  function Segmented(out: seq<Sent>): seq<Sent> {
    if out == [] then [] else (if IsSingle(out[0]) then [] else [out[0]]) + Segmented(out[1..])
  }

  lemma {:induction false} SegmentedConcat(a: seq<Sent>, b: seq<Sent>)
    ensures Segmented(a + b) == Segmented(a) + Segmented(b)
  {
    hide IsSingle;
    if a == [] {
      assert a + b == b;
    } else {
      var head := if IsSingle(a[0]) then [] else [a[0]];
      assert (a + b)[1..] == a[1..] + b;
      SegmentedConcat(a[1..], b);
      assert head + (Segmented(a[1..]) + Segmented(b)) == (head + Segmented(a[1..])) + Segmented(b);
    }
  }

  lemma OneSegmented(f: Sent)
    ensures Segmented([f]) == if IsSingle(f) then [] else [f]
  {
    assert [f][1..] == [];
  }

  lemma SingleIsSingle(id: nat, msg: seq<Octet>)
    requires 0 < |msg| <= SF_MAX
    ensures IsSingle(Sent(id, SingleFrame(msg)))
  {
  }

  lemma ConsecutiveIsNot(id: nat, seqNo: nat, chunk: seq<Octet>)
    requires seqNo < 16 && |chunk| <= CF_MAX
    ensures !IsSingle(Sent(id, ConsecutiveFrame(seqNo, chunk)))
  {
  }

  // A response in between leaves the sender as it is and puts single frames on the bus at most.
  lemma PassesBy(tx: Tx, id: nat, msg: seq<Octet>, now: nat, ok: bool)
    requires Valid(tx) && (|msg| <= SF_MAX || !tx.state.TxIdle?)
    ensures Send(tx, id, msg, now, ok).0 == tx
    ensures Segmented(Send(tx, id, msg, now, ok).1) == []
  {
    hide SingleFrame, IsSingle;
    if 0 < |msg| <= SF_MAX {
      SingleIsSingle(id, msg);
      OneSegmented(Sent(id, SingleFrame(msg)));
    }
  }

  lemma NextCfSegmented(tx: Tx, now: nat, ok: bool)
    requires |tx.buffer| == MAX_MESSAGE && tx.total <= MAX_MESSAGE && tx.seqNo < 16
    ensures Segmented(NextCf(tx, now, ok).1) == NextCf(tx, now, ok).1
  {
    hide ConsecutiveFrame, IsSingle;
    if tx.sent < tx.total {
      var n := Min(CF_MAX, tx.total - tx.sent);
      ConsecutiveIsNot(tx.canId, tx.seqNo, tx.buffer[tx.sent..tx.sent + n]);
      OneSegmented(Sent(tx.canId, ConsecutiveFrame(tx.seqNo, tx.buffer[tx.sent..tx.sent + n])));
    }
  }

  lemma StepSegmented(tx: Tx, e: Event)
    requires Valid(tx) && Legal(e)
    ensures Segmented(Step(tx, e).1) == Step(tx, e).1
  {
    hide NextCf;
    match e
    case FlowFrame(data, now, ok) =>
      if tx.state.WaitFc? { NextCfSegmented(Opened(tx, data, now), now, ok); }
    case Ticked(now, ok) =>
      if tx.state.SendCf? { NextCfSegmented(tx, now, ok); }
  }

  lemma {:induction false} OwnsLegal(tx: Tx, cs: seq<Call>)
    requires Valid(tx) && OneTransaction(tx, cs)
    ensures AllLegal(Owns(cs))
    decreases |cs|
  {
    hide Step, Valid, Legal;
    if cs != [] {
      match cs[0]
      case Own(e) =>
        StepValid(tx, e);
        OwnsLegal(Step(tx, e).0, cs[1..]);
      case Respond(_, _, _, _) =>
        OwnsLegal(tx, cs[1..]);
    }
  }

  // Whatever else is sent in between, the send takes the course it would have taken alone: same
  // states, same segmented frames in the same order.
  lemma {:induction false} SinglesPassBy(tx: Tx, cs: seq<Call>)
    requires Valid(tx) && OneTransaction(tx, cs)
    ensures AllLegal(Owns(cs))
    ensures RunCalls(tx, cs).0 == Run(tx, Owns(cs)).0
    ensures Segmented(RunCalls(tx, cs).1) == Run(tx, Owns(cs)).1
    decreases |cs|
  {
    hide Step, Valid, Send, Segmented, Legal;
    OwnsLegal(tx, cs);
    if cs == [] {
      NothingSegmented();
    } else {
      match cs[0]
      case Own(e) =>
        StepValid(tx, e);
        var (t, out) := Step(tx, e);
        SinglesPassBy(t, cs[1..]);
        StepSegmented(tx, e);
        SegmentedConcat(out, RunCalls(t, cs[1..]).1);
        assert Owns(cs)[1..] == Owns(cs[1..]);
      case Respond(id, msg, now, ok) =>
        PassesBy(tx, id, msg, now, ok);
        ValidParts(tx);
        SinglesPassBy(tx, cs[1..]);
        SegmentedConcat(Send(tx, id, msg, now, ok).1, RunCalls(tx, cs[1..]).1);
        assert [] + Owns(cs[1..]) == Owns(cs[1..]);
    }
  }

  lemma ValidParts(tx: Tx)
    requires Valid(tx)
    ensures |tx.buffer| == MAX_MESSAGE && tx.seqNo < 16
  {
  }

  lemma NothingSegmented()
    ensures Segmented([]) == []
  {
  }

  // So the segmented frames on the bus are at all times a prefix of the segmentation, whatever
  // responses go out in between.
  lemma BusyBusCarriesPrefix(tx: Tx, id: nat, m: seq<Octet>, now: nat, cs: seq<Call>)
    requires Valid(tx) && tx.state.TxIdle? && SF_MAX < |m| <= MAX_MESSAGE && now < WORD_LIMIT
    ensures Valid(Send(tx, id, m, now, true).0)
    ensures var (t0, first) := Send(tx, id, m, now, true);
            OneTransaction(t0, cs) ==>
              var (t, more) := RunCalls(t0, cs);
              && Bytes(first + Segmented(more)) <= Segments(m)
              && (!t.state.TxIdle? ==>
                    && SF_MAX <= t.sent < t.total == |m|
                    && Bytes(first + Segmented(more)) + Rest(m, t.sent, t.seqNo) == Segments(m))
  {
    hide Send, Valid, Segments, Rest, Segmented, Bytes;
    ValidParts(tx);
    SendValid(tx, id, m, now, true);
    var (t0, first) := Send(tx, id, m, now, true);
    if OneTransaction(t0, cs) {
      SinglesPassBy(t0, cs);
      BusCarriesPrefix(tx, id, m, now, Owns(cs));
    }
  }
}
