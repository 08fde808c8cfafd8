// When the sender's frames go out and when it gives up, told from the flow control it gets and
// the clock (Core/Src/iso_tp.c:169-182, 412-454, 555-612).

module IsoTpPacing {
  import opened Words
  import opened IsoTpFrames
  import opened IsoTpTx

  // ----- What a flow control frame does -----

  // CONTINUE while it is waited for: the next frame goes out at once, under the block size and
  // separation time given. WAIT: the deadline moves, seven times at most. Anything else ends
  // the transmission, and none of them does anything while it is not waited for.
  lemma FlowDoes(tx: Tx, data: seq<Octet>, now: nat, ok: bool)
    requires Valid(tx) && |data| == FRAME_SIZE
    ensures var (t, out) := Flow(tx, data, now, ok);
            if !tx.state.WaitFc? then t == tx && out == []
            else match data[0] % 16
              case 0 =>
                && (|out| == if ok then 1 else 0)
                && (!ok ==> t.state.TxIdle?)
                && (!t.state.TxIdle? ==>
                      && t.blockSize == data[1] && t.blockCounter == 1 && t.last == now
                      && t.stmin == (if data[2] < 0x80 then data[2] else 0)
                      && (t.state.WaitFc? <==> data[1] == 1))
              case 1 =>
                && out == []
                && if tx.waits < 7 then t == tx.(waits := tx.waits + 1, last := now) else t.state.TxIdle?
              case _ => out == [] && t.state.TxIdle?
  {
    hide ConsecutiveFrame;
  }

  // A tick a second or more after the deadline began ends the wait.
  lemma TickDoes(tx: Tx, now: nat, ok: bool)
    requires Valid(tx)
    ensures var (t, out) := Tick(tx, now, ok);
            match tx.state
            case TxIdle => t == tx && out == []
            case WaitFc => out == [] && (if Elapsed(now, tx.last) >= 1000 then t.state.TxIdle? else t == tx)
            case SendCf =>
              if Elapsed(now, tx.last) < tx.stmin then t == tx && out == []
              else |out| == (if ok then 1 else 0) && (!ok ==> t.state.TxIdle?)
  {
    hide ConsecutiveFrame;
  }

  // What a send does: one frame if the message fits one, whatever is under way; the first of
  // several if nothing is; nothing if it is empty, too long or comes in between.
  lemma SendDoes(tx: Tx, id: nat, msg: seq<Octet>, now: nat, ok: bool)
    requires Valid(tx)
    ensures var (t, out) := Send(tx, id, msg, now, ok);
            if 1 <= |msg| <= 62 then t == tx && out == if ok then [Sent(id, SingleFrame(msg))] else []
            else if |msg| == 0 || |msg| > 512 || !tx.state.TxIdle? then t == tx && out == []
            else if !ok then t.state.TxIdle? && out == []
            else && t.state.WaitFc? && out == [Sent(id, FirstFrame(msg))]
                 && t.canId == id && t.last == now && t.waits == 0
  {
    hide SingleFrame, FirstFrame;
  }

  // ----- Separation and block size over a run -----

  // The separation asked for by a CONTINUE, in milliseconds: 0xF1..0xF9 and the reserved values
  // count as none.
  function Separation(data: seq<Octet>): nat
    requires |data| == FRAME_SIZE
  {
    if data[2] <= 0x7F then data[2] else 0
  }

  // Through the run, with the separation and block size in force, the time of the last frame and
  // the number of frames since the last CONTINUE: in SEND_CF a tick sends a frame exactly if
  // that time has passed since the frame before it; a flow control frame sends one only as a
  // CONTINUE, and starts both counts anew; and a frame that is not the last of the message is
  // followed by a wait for flow control exactly if it is the last of its block.
  predicate Paced(tx: Tx, es: seq<Event>, gap: nat, at: nat, block: nat, n: nat)
    requires Valid(tx) && AllLegal(es)
    decreases |es|
  {
    es == [] ||
    (StepValid(tx, es[0]);
     var (t, out) := Step(tx, es[0]);
     match es[0]
     case Ticked(now, ok) =>
       && (out != [] <==> tx.state.SendCf? && ok && Elapsed(now, at) >= gap)
       && (out != [] && !t.state.TxIdle? ==> (t.state.WaitFc? <==> n + 1 == block))
       && if out != [] then Paced(t, es[1..], gap, now, block, n + 1) else Paced(t, es[1..], gap, at, block, n)
     case FlowFrame(data, now, ok) =>
       if out == [] then Paced(t, es[1..], gap, at, block, n)
       else
         && tx.state.WaitFc? && data[0] % 16 == FS_CONTINUE
         && (!t.state.TxIdle? ==> (t.state.WaitFc? <==> 1 == data[1]))
         && Paced(t, es[1..], Separation(data), now, data[1], 1))
  }

  ghost predicate InForce(tx: Tx, gap: nat, at: nat, block: nat, n: nat) {
    tx.state.SendCf? ==>
      && tx.stmin == gap && tx.last == at && tx.blockSize == block && n > 0
      && (block != 0 ==> tx.blockCounter == n)
  }

  lemma {:induction false} RunPaced(tx: Tx, es: seq<Event>, gap: nat, at: nat, block: nat, n: nat)
    requires Valid(tx) && AllLegal(es) && InForce(tx, gap, at, block, n)
    ensures Paced(tx, es, gap, at, block, n)
    decreases |es|
  {
    hide ConsecutiveFrame;
    if es != [] {
      StepValid(tx, es[0]);
      var (t, out) := Step(tx, es[0]);
      match es[0]
      case Ticked(now, ok) =>
        if out != [] {
          RunPaced(t, es[1..], gap, now, block, n + 1);
        } else {
          RunPaced(t, es[1..], gap, at, block, n);
        }
      case FlowFrame(data, now, ok) =>
        if out == [] {
          RunPaced(t, es[1..], gap, at, block, n);
        } else {
          RunPaced(t, es[1..], Separation(data), now, data[1], 1);
        }
    }
  }

  // Every multi-frame response keeps separation and block size as asked for, waits no longer
  // and sends no less.
  lemma SeparationKept(tx: Tx, id: nat, m: seq<Octet>, now: nat, es: seq<Event>)
    requires Valid(tx) && tx.state.TxIdle? && SF_MAX < |m| <= MAX_MESSAGE && now < WORD_LIMIT && AllLegal(es)
    ensures var t := Send(tx, id, m, now, true).0;
            Valid(t) && Paced(t, es, 0, now, 0, 0)
  {
    hide FirstFrame;
    SendValid(tx, id, m, now, true);
    RunPaced(Send(tx, id, m, now, true).0, es, 0, now, 0, 0);
  }
}
