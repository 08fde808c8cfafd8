// A multi-frame send always comes back to TX_IDLE, and never sends more than a block.

module IsoTpLiveness {
  import opened Words
  import opened IsoTpFrames
  import opened IsoTpTx

  // An event at a time on the unbounded clock; the machine sees the 32-bit tick counter.
  datatype Timed = TickAt(at: nat, ok: bool) | FlowAt(at: nat, data: seq<Octet>, ok: bool)

  function Seen(t: Timed): Event {
    match t
    case TickAt(at, ok) => Ticked(at % WORD_LIMIT, ok)
    case FlowAt(at, data, ok) => FlowFrame(data, at % WORD_LIMIT, ok)
  }

  // ISO_TP_Tick is called on the same clock, later each time but at most `period` after the
  // call before; frames come in at any time between.
  predicate OnSchedule(ts: seq<Timed>, now: nat, lastTick: nat, period: nat)
    decreases |ts|
  {
    ts == [] ||
    (&& now <= ts[0].at <= lastTick + period
     && (ts[0].TickAt? ==> lastTick < ts[0].at)
     && (ts[0].FlowAt? ==> |ts[0].data| == FRAME_SIZE)
     && OnSchedule(ts[1..], ts[0].at, if ts[0].TickAt? then ts[0].at else lastTick, period))
  }

  function RunTimed(tx: Tx, ts: seq<Timed>): (t: Tx)
    requires Valid(tx) && forall t :: t in ts ==> Legal(Seen(t))
    ensures Valid(t)
    decreases |ts|
  {
    if ts == [] then tx
    else
      StepValid(tx, Seen(ts[0]));
      RunTimed(Step(tx, Seen(ts[0])).0, ts[1..])
  }

  function Ticks(ts: seq<Timed>): nat {
    if ts == [] then 0 else (if ts[0].TickAt? then 1 else 0) + Ticks(ts[1..])
  }

  lemma {:induction false} ScheduleLegal(ts: seq<Timed>, now: nat, lastTick: nat, period: nat)
    requires OnSchedule(ts, now, lastTick, period)
    ensures forall t :: t in ts ==> Legal(Seen(t))
    decreases |ts|
  {
    if ts != [] {
      ScheduleLegal(ts[1..], ts[0].at, if ts[0].TickAt? then ts[0].at else lastTick, period);
    }
  }

  // Bytes to go and waits left, each worth more than any deadline, and the time to the deadline.
  function Fuel(tx: Tx, lastAt: nat, lastTick: nat, period: nat): int
  {
    (FC_TIMEOUT + 1 + period) * (tx.total - tx.sent + MAX_WAITS - tx.waits) + (lastAt + FC_TIMEOUT - lastTick)
  }

  // While a send is open, `lastAt` is the unbounded time behind tx.last, and the deadline was
  // still ahead at the last tick.
  ghost predicate Clocked(tx: Tx, lastAt: nat, now: nat, lastTick: nat) {
    && Valid(tx)
    && lastAt <= now && lastTick <= now
    && tx.last == lastAt % WORD_LIMIT
    && lastTick < lastAt + FC_TIMEOUT
  }

  lemma FuelDrops(k: nat, a: nat, b: nat, x: int, y: int)
    requires b < a && x >= 1 && y < k
    ensures k * b + y < k * a + x
  {
    assert k * b + k <= k * a by { assert k * (b + 1) <= k * a; }
  }

  // Each step of an open send either ends it or burns fuel: a tick always, a frame never adds.
  lemma StepBurns(tx: Tx, lastAt: nat, now: nat, lastTick: nat, period: nat, t: Timed) returns (lastAt': nat)
    requires Clocked(tx, lastAt, now, lastTick) && !tx.state.TxIdle?
    requires period + 2 * FC_TIMEOUT < WORD_LIMIT
    requires OnSchedule([t], now, lastTick, period)
    ensures var tx' := Step(tx, Seen(t)).0;
            var tick := if t.TickAt? then t.at else lastTick;
            !tx'.state.TxIdle? ==>
              && Clocked(tx', lastAt', t.at, tick)
              && Fuel(tx', lastAt', tick, period) <= Fuel(tx, lastAt, lastTick, period) - (if t.TickAt? then 1 else 0)
  {
    var e := Seen(t);
    StepValid(tx, e);
    var tx' := Step(tx, e).0;
    var k := FC_TIMEOUT + 1 + period;
    lastAt' := if tx'.last == tx.last && tx'.sent == tx.sent && tx'.waits == tx.waits then lastAt else t.at;
    if t.TickAt? {
      ElapsedIsTime(t.at, lastAt);
    }
    if tx'.sent != tx.sent || tx'.waits != tx.waits {
      FuelDrops(k, tx.total - tx.sent + MAX_WAITS - tx.waits, tx'.total - tx'.sent + MAX_WAITS - tx'.waits,
                lastAt + FC_TIMEOUT - lastTick,
                t.at + FC_TIMEOUT - (if t.TickAt? then t.at else lastTick));
    }
  }

  lemma IdleStays(tx: Tx, e: Event)
    requires Valid(tx) && tx.state.TxIdle? && Legal(e)
    ensures Step(tx, e).0 == tx
  {
  }

  lemma {:induction false} IdleStaysRun(tx: Tx, ts: seq<Timed>)
    requires Valid(tx) && tx.state.TxIdle? && forall t :: t in ts ==> Legal(Seen(t))
    ensures RunTimed(tx, ts) == tx
    decreases |ts|
  {
    if ts != [] {
      IdleStays(tx, Seen(ts[0]));
      IdleStaysRun(tx, ts[1..]);
    }
  }

  lemma {:induction false} RunBurns(tx: Tx, lastAt: nat, now: nat, lastTick: nat, period: nat, ts: seq<Timed>)
    requires Clocked(tx, lastAt, now, lastTick) && !tx.state.TxIdle?
    requires period + 2 * FC_TIMEOUT < WORD_LIMIT && OnSchedule(ts, now, lastTick, period)
    requires forall t :: t in ts ==> Legal(Seen(t))
    requires Ticks(ts) > Fuel(tx, lastAt, lastTick, period)
    ensures RunTimed(tx, ts).state.TxIdle?
    decreases |ts|
  {
    hide Step, Valid;
    FuelPositive(tx, lastAt, lastTick, period, now);
    assert ts != [];
    var t := ts[0];
    assert OnSchedule([t], now, lastTick, period) by {
      assert [t][1..] == [];
    }
    StepValid(tx, Seen(t));
    var lastAt' := StepBurns(tx, lastAt, now, lastTick, period, t);
    var tx' := Step(tx, Seen(t)).0;
    if tx'.state.TxIdle? {
      IdleStaysRun(tx', ts[1..]);
    } else {
      RunBurns(tx', lastAt', t.at, if t.TickAt? then t.at else lastTick, period, ts[1..]);
    }
  }

  lemma FuelPositive(tx: Tx, lastAt: nat, lastTick: nat, period: nat, now: nat)
    requires Clocked(tx, lastAt, now, lastTick) && !tx.state.TxIdle?
    ensures Fuel(tx, lastAt, lastTick, period) > 0
  {
    var k, b := FC_TIMEOUT + 1 + period, tx.total - tx.sent + MAX_WAITS - tx.waits;
    assert b >= 0;
    assert k * b >= 0;
  }

  // Whatever the peer sends and whatever the controller answers, an open multi-frame send is
  // over after a number of ticks fixed by its length and the tick period.
  lemma SendEnds(tx: Tx, id: nat, m: seq<Octet>, at: nat, lastTick: nat, period: nat, ok: bool, ts: seq<Timed>)
    requires Valid(tx) && tx.state.TxIdle? && SF_MAX < |m| <= MAX_MESSAGE
    requires lastTick <= at <= lastTick + period && period + 2 * FC_TIMEOUT < WORD_LIMIT
    requires OnSchedule(ts, at, lastTick, period)
    requires Ticks(ts) > (FC_TIMEOUT + 1 + period) * (|m| - SF_MAX + MAX_WAITS + 1)
    ensures forall t :: t in ts ==> Legal(Seen(t))
    ensures var t0 := Send(tx, id, m, at % WORD_LIMIT, ok).0;
            Valid(t0) && RunTimed(t0, ts).state.TxIdle?
  {
    hide Send, OnSchedule, RunTimed, Clocked, Ticks, Fuel, Seen;
    ScheduleLegal(ts, at, lastTick, period);
    var t0 := Send(tx, id, m, at % WORD_LIMIT, ok).0;
    SendStarts(tx, id, m, at, lastTick, period, ok);
    if t0.state.TxIdle? {
      IdleStaysRun(t0, ts);
    } else {
      RunBurns(t0, at, at, lastTick, period, ts);
    }
  }

  lemma SendStarts(tx: Tx, id: nat, m: seq<Octet>, at: nat, lastTick: nat, period: nat, ok: bool)
    requires Valid(tx) && tx.state.TxIdle? && SF_MAX < |m| <= MAX_MESSAGE
    requires lastTick <= at <= lastTick + period
    ensures var t0 := Send(tx, id, m, at % WORD_LIMIT, ok).0;
            && Valid(t0)
            && (!t0.state.TxIdle? ==>
                  && Clocked(t0, at, at, lastTick)
                  && Fuel(t0, at, lastTick, period) < (FC_TIMEOUT + 1 + period) * (|m| - SF_MAX + MAX_WAITS + 1))
  {
    hide FirstFrame, SingleFrame;
    SendValid(tx, id, m, at % WORD_LIMIT, ok);
    var t0 := Send(tx, id, m, at % WORD_LIMIT, ok).0;
    var k, b := FC_TIMEOUT + 1 + period, |m| - SF_MAX + MAX_WAITS;
    if !t0.state.TxIdle? {
      assert t0.total - t0.sent + MAX_WAITS - t0.waits == b;
    }
    assert k * b + k == k * (b + 1);
  }

  // ----- Block size -----

  predicate IsContinue(tx: Tx, e: Event) {
    tx.state.WaitFc? && e.FlowFrame? && |e.data| == FRAME_SIZE && Low(e.data[0]) == FS_CONTINUE
  }

  // Consecutive frames since the last CONTINUE that was taken.
  function BurstAfter(burst: nat, tx: Tx, e: Event): nat
    requires Valid(tx) && Legal(e)
  {
    (if IsContinue(tx, e) then 0 else burst) + |Step(tx, e).1|
  }

  ghost predicate BurstInv(burst: nat, tx: Tx) {
    && Valid(tx)
    && (tx.blockSize != 0 ==> burst <= tx.blockSize)
    && (tx.state.SendCf? && tx.blockSize != 0 ==> burst == tx.blockCounter)
  }

  lemma BurstStep(burst: nat, tx: Tx, e: Event)
    requires BurstInv(burst, tx) && Legal(e)
    ensures BurstInv(BurstAfter(burst, tx, e), Step(tx, e).0)
  {
    StepValid(tx, e);
  }

  ghost function BurstAtEnd(burst: nat, tx: Tx, es: seq<Event>): nat
    requires Valid(tx) && AllLegal(es)
    decreases |es|
  {
    if es == [] then burst
    else
      StepValid(tx, es[0]);
      BurstAtEnd(BurstAfter(burst, tx, es[0]), Step(tx, es[0]).0, es[1..])
  }

  lemma {:induction false} BurstRun(burst: nat, tx: Tx, es: seq<Event>)
    requires BurstInv(burst, tx) && AllLegal(es)
    ensures BurstInv(BurstAtEnd(burst, tx, es), Run(tx, es).0)
    decreases |es|
  {
    if es != [] {
      BurstStep(burst, tx, es[0]);
      BurstRun(BurstAfter(burst, tx, es[0]), Step(tx, es[0]).0, es[1..]);
    }
  }

  // With a block size, no CONTINUE is ever answered by more consecutive frames than that.
  lemma BlockSizeRespected(tx: Tx, id: nat, m: seq<Octet>, now: nat, es: seq<Event>)
    requires Valid(tx) && tx.state.TxIdle? && SF_MAX < |m| <= MAX_MESSAGE && now < WORD_LIMIT
    requires AllLegal(es)
    ensures var t0 := Send(tx, id, m, now, true).0;
            && Valid(t0)
            && var t := Run(t0, es).0;
            (t.blockSize != 0 ==> BurstAtEnd(0, t0, es) <= t.blockSize)
  {
    BurstRun(0, Send(tx, id, m, now, true).0, es);
  }
}
