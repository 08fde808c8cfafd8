// The transport as the program keeps it: one context updated in place (Core/Src/iso_tp.c).
// The functions of IsoTpRx and IsoTpTx say what each call makes of it.

module IsoTp {
  import opened Words
  import opened IsoTpFrames
  import Rx = IsoTpRx
  import Tx = IsoTpTx

  // memcpy into a fixed buffer
  method CopyInto(a: array<Octet>, at: nat, s: seq<Octet>)
    requires at + |s| <= a.Length
    modifies a
    ensures a[..] == Rx.Overlay(old(a[..]), at, s)
  {
    for i := 0 to |s|
      invariant a[..at] == old(a[..at])
      invariant a[at..at + i] == s[..i]
      invariant a[at + i..] == old(a[at + i..])
    {
      a[at + i] := s[i];
    }
    assert a[..] == a[..at] + a[at..at + |s|] + a[at + |s|..];
  }

  // The upper layer: its answer to a message, or [] for none.
  type Upper = (seq<Octet>, Addr) -> seq<Octet>

  // What the sender does about the outputs of the receiver: the answer to a dispatched message.
  function Answered(tx: Tx.Tx, rx: Rx.Rx, outs: seq<Rx.Out>, upper: Upper, now: nat, ok: bool): (Tx.Tx, seq<Tx.Sent>)
    requires |tx.buffer| == MAX_MESSAGE
  {
    if outs != [] && outs[|outs| - 1].Dispatch? then
      var d := outs[|outs| - 1];
      var id := if d.from.Functional? then ID_RESPONSE else rx.canId + 8;
      Tx.Send(tx, id, upper(d.msg, d.from), now, ok)
    else (tx, [])
  }

  // Whichever way it was addressed, and in however many frames it came: the answer to a message
  // goes out under the one response identifier, and nothing else is answered.
  lemma AnswerId(tx: Tx.Tx, rx: Rx.Rx, f: Frame, sink: bool, upper: Upper, now: nat, ok: bool)
    requires Rx.Valid(rx, sink) && f.Fits() && |tx.buffer| == MAX_MESSAGE
    requires rx.state.WaitCf? ==> rx.canId == 0x7E0
    ensures var (r, outs) := Rx.Process(rx, f, now, sink);
            && (r.state.WaitCf? ==> r.canId == 0x7E0)
            && (forall i :: 0 <= i < |outs| && outs[i].Dispatch? ==>
                  && i == |outs| - 1
                  && Answered(tx, r, outs, upper, now, ok)
                     == Tx.Send(tx, 0x7E8, upper(outs[i].msg, outs[i].from), now, ok))
            && ((forall i :: 0 <= i < |outs| ==> !outs[i].Dispatch?) ==>
                  Answered(tx, r, outs, upper, now, ok) == (tx, []))
  {
    hide Tx.Send, Rx.Overlay, Rx.SinglePayload, Rx.FirstLength, Rx.FirstChunk;
  }

  lemma TxLength(tx: Tx.Tx)
    requires Tx.Valid(tx)
    ensures |tx.buffer| == MAX_MESSAGE
  {
  }

  class Transport {
    // receive
    const rxBuffer: array<Octet>
    var rxState: Rx.RxState
    var rxTotal: nat
    var rxReceived: nat
    var rxExpected: nat
    var rxCanId: nat
    var rxAddr: Addr
    var streaming: bool
    var lastRx: nat
    // transmit
    const txBuffer: array<Octet>
    var txState: Tx.TxState
    var txTotal: nat
    var txSent: nat
    var txSeq: nat
    var txCanId: nat
    var stmin: nat
    var blockSize: nat
    var blockCounter: nat
    var waits: nat
    var lastTx: nat
    // s_stream_sink != NULL
    var sink: bool

    ghost function RxValue(): Rx.Rx
      reads this, rxBuffer
    {
      Rx.Rx(rxState, rxBuffer[..], rxTotal, rxReceived, rxExpected, rxCanId, rxAddr, streaming, lastRx)
    }

    ghost function TxValue(): Tx.Tx
      reads this, txBuffer
    {
      Tx.Tx(txState, txBuffer[..], txTotal, txSent, txSeq, txCanId, stmin, blockSize, blockCounter, waits, lastTx)
    }

    ghost predicate Valid()
      reads this, rxBuffer, txBuffer
    {
      rxBuffer != txBuffer && Rx.Valid(RxValue(), sink) && Tx.Valid(TxValue())
    }

    // ISO_TP_Init, then ISO_TP_RegisterStreamSink with or without a sink.
    constructor (withSink: bool)
      ensures Valid() && fresh(rxBuffer) && fresh(txBuffer) && sink == withSink
      ensures RxValue() == Rx.Init() && TxValue() == Tx.Init()
    {
      var r := new Octet[MAX_MESSAGE](_ => 0);
      var t := new Octet[MAX_MESSAGE](_ => 0);
      rxBuffer, txBuffer := r, t;
      rxState, rxTotal, rxReceived, rxExpected := Rx.RxIdle, 0, 0, 0;
      rxCanId, rxAddr, streaming, lastRx := 0, Ignored, false, 0;
      txState, txTotal, txSent, txSeq, txCanId := Tx.TxIdle, 0, 0, 0, 0;
      stmin, blockSize, blockCounter, waits, lastTx := 0, 0, 0, 0, 0;
      sink := withSink;
      new;
      assert rxBuffer[..] == seq(MAX_MESSAGE, _ => 0);
      assert txBuffer[..] == seq(MAX_MESSAGE, _ => 0);
    }

    // ----- Receive -----

    method AbortStream() returns (outs: seq<Rx.Out>)
      modifies this`streaming
      ensures (RxValue(), outs) == Rx.Abort(old(RxValue()), sink)
    {
      outs := if streaming && sink then [Rx.ToSink(Rx.Error(rxTotal))] else [];
      streaming := false;
    }

    method ProcessSingleFrame(f: Frame) returns (outs: seq<Rx.Out>)
      requires f.Fits() && f.dlc > 0 && rxBuffer.Length == MAX_MESSAGE
      modifies this`rxState, this`rxTotal, this`rxCanId, this`streaming, rxBuffer
      ensures (RxValue(), outs) == Rx.Single(old(RxValue()), f, sink)
    {
      hide Low, Rx.Overlay;
      outs := [];
      if rxState.WaitCf? {
        outs := AbortStream();
      }
      var payload;
      if f.dlc > 1 && Low(f.data[0]) == 0 {
        payload := f.data[2..2 + Min(f.data[1], f.dlc - 2)];
      } else {
        payload := f.data[1..1 + Min(Low(f.data[0]), f.dlc - 1)];
      }
      CopyInto(rxBuffer, 0, payload);
      rxTotal := |payload|;
      rxCanId := f.id;
      rxState := Rx.RxIdle;
      outs := outs + [Rx.Dispatch(payload, rxAddr)];
    }

    method ProcessFirstFrame(f: Frame, now: nat) returns (outs: seq<Rx.Out>)
      requires f.Fits() && rxBuffer.Length == MAX_MESSAGE
      modifies this`rxState, this`rxTotal, this`rxReceived, this`rxExpected, this`rxCanId, this`streaming, this`lastRx,
          rxBuffer
      ensures (RxValue(), outs) == Rx.First(old(RxValue()), f, now, sink)
    {
      hide Rx.FirstLength, Rx.FirstChunk, Rx.Overlay, Rx.Abort;
      outs := [];
      if rxAddr.Functional? {
        return;
      }
      if rxState.WaitCf? {
        outs := AbortStream();
      }
      var length := Rx.FirstLength(f);
      if length.TooShort? {
        rxState := Rx.RxIdle;
        return;
      }
      var total := length.total;
      var chunk := Rx.FirstChunk(f, total, length.offset);
      if total > MAX_MESSAGE && !sink {
        rxState := Rx.RxIdle;
        outs := outs + [Rx.Flow(f.id + 8, FS_OVERFLOW)];
        return;
      }
      if total > MAX_MESSAGE {
        streaming := true;
        outs := outs + [Rx.ToSink(Rx.Begin(total))] + (if chunk != [] then [Rx.ToSink(Rx.Data(chunk, total))] else []);
      } else {
        CopyInto(rxBuffer, 0, chunk);
        streaming := false;
      }
      rxTotal, rxReceived, rxExpected, rxCanId, lastRx := total, |chunk|, 1, f.id, now;
      rxState := Rx.WaitCf;
      outs := outs + [Rx.Flow(f.id + 8, FS_CONTINUE)];
    }

    method ProcessConsecutiveFrame(f: Frame, now: nat) returns (outs: seq<Rx.Out>)
      requires f.Fits() && f.dlc > 0 && Rx.Valid(RxValue(), sink)
      modifies this`rxState, this`rxReceived, this`rxExpected, this`streaming, this`lastRx, rxBuffer
      ensures (RxValue(), outs) == Rx.Consecutive(old(RxValue()), f, now, sink)
    {
      hide Low, Rx.Overlay, Rx.Abort;
      outs := [];
      if !rxState.WaitCf? {
        return;
      }
      if Low(f.data[0]) != rxExpected {
        outs := AbortStream();
        rxState := Rx.RxIdle;
        return;
      }
      var chunk := f.data[1..1 + Min(f.dlc - 1, rxTotal - rxReceived)];
      if streaming {
        outs := [Rx.ToSink(Rx.Data(chunk, rxTotal))];
      } else {
        CopyInto(rxBuffer, rxReceived, chunk);
      }
      rxReceived, rxExpected, lastRx := rxReceived + |chunk|, (rxExpected + 1) % 16, now;
      if rxReceived >= rxTotal {
        if streaming {
          outs := outs + [Rx.ToSink(Rx.End(rxTotal))];
          streaming := false;
        } else {
          var whole := rxBuffer[..];
          outs := [Rx.Dispatch(whole[..rxTotal], rxAddr)];
        }
        rxState := Rx.RxIdle;
      }
    }

    // ----- Transmit -----

    method SendNextCf(now: nat, ok: bool) returns (sent: seq<Tx.Sent>)
      requires txBuffer.Length == MAX_MESSAGE && txTotal <= MAX_MESSAGE && txSeq < 16
      modifies this`txState, this`txSent, this`txSeq, this`lastTx, this`blockCounter
      ensures (TxValue(), sent) == Tx.NextCf(old(TxValue()), now, ok)
    {
      sent := [];
      if txSent >= txTotal {
        txState := Tx.TxIdle;
        return;
      }
      var n := Min(CF_MAX, txTotal - txSent);
      var frame := Tx.Sent(txCanId, ConsecutiveFrame(txSeq, txBuffer[txSent..txSent + n]));
      if !ok {
        txState := Tx.TxIdle;
        return;
      }
      sent := [frame];
      txSent, txSeq, lastTx, blockCounter := txSent + n, (txSeq + 1) % 16, now, (blockCounter + 1) % 0x100;
      if txSent >= txTotal {
        txState := Tx.TxIdle;
      } else if blockSize != 0 && blockCounter >= blockSize {
        txState := Tx.WaitFc;
      }
    }

    method SendResponse(id: nat, msg: seq<Octet>, now: nat, ok: bool) returns (sent: seq<Tx.Sent>)
      requires txBuffer.Length == MAX_MESSAGE
      modifies this`txState, this`txTotal, this`txSent, this`txSeq, this`txCanId, this`waits, this`lastTx, txBuffer
      ensures (TxValue(), sent) == Tx.Send(old(TxValue()), id, msg, now, ok)
    {
      hide SingleFrame, FirstFrame, FirstPayload;
      ghost var buffer := txBuffer[..];
      sent := [];
      if msg == [] || |msg| > MAX_MESSAGE {
        return;
      }
      if |msg| <= SF_MAX {
        sent := if ok then [Tx.Sent(id, SingleFrame(msg))] else [];
        return;
      }
      if !txState.TxIdle? {
        return;
      }
      CopyInto(txBuffer, 0, msg);
      assert txBuffer[..] == msg + buffer[|msg|..];
      txTotal, txSent, txSeq, txCanId, waits := |msg|, FirstPayload(|msg|), 1, id, 0;
      if ok {
        txState, lastTx := Tx.WaitFc, now;
        sent := [Tx.Sent(id, FirstFrame(msg))];
      }
    }

    method ProcessFlowControl(data: seq<Octet>, now: nat, ok: bool) returns (sent: seq<Tx.Sent>)
      requires Tx.Valid(TxValue()) && |data| == FRAME_SIZE
      modifies this`txState, this`txSent, this`txSeq, this`lastTx, this`blockCounter, this`blockSize, this`stmin,
          this`waits
      ensures (TxValue(), sent) == Tx.Flow(old(TxValue()), data, now, ok)
    {
      hide Tx.NextCf, ConsecutiveFrame;
      sent := [];
      if !txState.WaitFc? {
        return;
      }
      if Low(data[0]) == FS_CONTINUE {
        stmin := if data[2] < 0x80 then data[2] else 0;
        blockSize, blockCounter, lastTx := data[1], 0, now;
        txState := Tx.SendCf;
        sent := SendNextCf(now, ok);
      } else if Low(data[0]) == FS_WAIT {
        waits := waits + 1;
        if waits > Tx.MAX_WAITS {
          txState := Tx.TxIdle;
        } else {
          lastTx := now;
        }
      } else {
        txState := Tx.TxIdle;
      }
    }

    // ----- The two entry points -----

    // ISO_TP_ProcessFrame, including the dispatch to the upper layer and its answer.
    method ProcessFrame(f: Frame, upper: Upper, now: nat, ok: bool) returns (outs: seq<Rx.Out>, sent: seq<Tx.Sent>)
      requires Valid() && f.Fits() && now < WORD_LIMIT
      modifies this, rxBuffer, txBuffer
      ensures Valid() && sink == old(sink)
      ensures (RxValue(), outs) == Rx.Process(old(RxValue()), f, now, sink)
      ensures (TxValue(), sent) ==
              if f.dlc > 0 && High(f.data[0]) == PCI_FLOW then Tx.Flow(old(TxValue()), f.data, now, ok)
              else Answered(old(TxValue()), RxValue(), outs, upper, now, ok)
    {
      hide Rx.Process, Rx.Valid, Tx.Send, Tx.Valid, Tx.Flow, High;
      ghost var rx, tx := RxValue(), TxValue();
      Rx.ProcessKeepsValid(rx, f, now, sink);
      if f.dlc > 0 && High(f.data[0]) == PCI_FLOW {
        Rx.FlowIgnored(rx, f, now, sink);
        Tx.StepValid(tx, Tx.FlowFrame(f.data, now, ok));
        sent := ProcessFlowControl(f.data, now, ok);
        return [], sent;
      }
      outs := Receive(f, now);
      TxLength(tx);
      sent := [];
      if outs != [] && outs[|outs| - 1].Dispatch? {
        var d := outs[|outs| - 1];
        var id := if d.from.Functional? then ID_RESPONSE else rxCanId + 8;
        Tx.SendValid(tx, id, upper(d.msg, d.from), now, ok);
        sent := SendResponse(id, upper(d.msg, d.from), now, ok);
      }
    }

    // The switch over the frame types for the receiver.
    method Receive(f: Frame, now: nat) returns (outs: seq<Rx.Out>)
      requires Rx.Valid(RxValue(), sink) && f.Fits()
      requires f.dlc == 0 || High(f.data[0]) != PCI_FLOW
      modifies this`rxAddr, this`rxState, this`rxTotal, this`rxReceived, this`rxExpected, this`rxCanId, this`streaming,
               this`lastRx, rxBuffer
      ensures (RxValue(), outs) == Rx.Process(old(RxValue()), f, now, sink)
    {
      hide Rx.Single, Rx.First, Rx.Consecutive, High;
      outs := [];
      if f.dlc == 0 || Classify(f.id).Ignored? {
        return;
      }
      rxAddr := Classify(f.id);
      if High(f.data[0]) == PCI_SINGLE {
        outs := ProcessSingleFrame(f);
      } else if High(f.data[0]) == PCI_FIRST {
        outs := ProcessFirstFrame(f, now);
      } else if High(f.data[0]) == PCI_CONSECUTIVE {
        outs := ProcessConsecutiveFrame(f, now);
      }
    }

    // ISO_TP_Tick
    method Tick(now: nat, ok: bool) returns (outs: seq<Rx.Out>, sent: seq<Tx.Sent>)
      requires Valid() && now < WORD_LIMIT
      modifies this
      ensures Valid() && sink == old(sink)
      ensures (RxValue(), outs) == Rx.Tick(old(RxValue()), now, sink)
      ensures (TxValue(), sent) == Tx.Tick(old(TxValue()), now, ok)
    {
      hide Rx.Valid, Tx.Valid, Rx.Tick, Tx.Tick;
      Tx.StepValid(TxValue(), Tx.Ticked(now, ok));
      Rx.StepKeepsValid(RxValue(), Rx.Ticked(now), sink);
      outs := TickReceive(now);
      sent := TickTransmit(now, ok);
    }

    method TickReceive(now: nat) returns (outs: seq<Rx.Out>)
      modifies this`streaming, this`rxState
      ensures (RxValue(), outs) == Rx.Tick(old(RxValue()), now, sink)
    {
      outs := [];
      if rxState.WaitCf? {
        if Elapsed(now, lastRx) >= Rx.RX_TIMEOUT {
          outs := AbortStream();
          rxState := Rx.RxIdle;
        }
      }
    }

    method TickTransmit(now: nat, ok: bool) returns (sent: seq<Tx.Sent>)
      requires Tx.Valid(TxValue())
      modifies this`txState, this`txSent, this`txSeq, this`lastTx, this`blockCounter
      ensures (TxValue(), sent) == Tx.Tick(old(TxValue()), now, ok)
    {
      hide Tx.NextCf, ConsecutiveFrame;
      sent := [];
      if txState.WaitFc? {
        if Elapsed(now, lastTx) >= Tx.FC_TIMEOUT {
          txState := Tx.TxIdle;
        }
      }
      if txState.SendCf? {
        if Elapsed(now, lastTx) >= stmin {
          sent := SendNextCf(now, ok);
        }
      }
    }
  }
}
