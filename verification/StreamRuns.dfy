// Every interleaving of one writer and one reader: bytes come out in the order they went in,
// messages come out whole.

module StreamRuns {
  import opened Words
  import opened Circular
  import opened StreamMachine

  datatype Turn = WriterTurn(data: seq<Octet>) | ReaderTurn(capacity: nat)

  predicate Sendable(t: Turn) {
    t.WriterTurn? ==> |t.data| < WORD_LIMIT
  }

  function Take(m: Machine, t: Turn): Machine
    requires RawInv(m) && Sendable(t)
  {
    match t
    case WriterTurn(data) => WriterStep(m, data)
    case ReaderTurn(capacity) => ReaderStep(m, capacity)
  }

  lemma TakeKeepsRaw(m: Machine, t: Turn)
    requires RawInv(m) && Sendable(t)
    ensures RawInv(Take(m, t))
  {
    match t
    case WriterTurn(data) => WriterStepKeepsRaw(m, data);
    case ReaderTurn(capacity) => ReaderStepKeepsRaw(m, capacity);
  }

  // The machine after any schedule. Being a Machine with RawInv at every turn is what lets
  // the schedule be any schedule.
  function Schedule(m: Machine, turns: seq<Turn>): (r: Machine)
    requires RawInv(m) && forall t :: t in turns ==> Sendable(t)
    ensures RawInv(r)
    decreases |turns|
  {
    if turns == [] then m
    else
      TakeKeepsRaw(m, turns[0]);
      Schedule(Take(m, turns[0]), turns[1..])
  }

  // ----- Streams -----

  // What was put in is what was taken out, then what is still unread.
  predicate StreamInv(m: Machine)
    requires RawInv(m)
  {
    !m.messages ==> Flatten(m.accepted) == Flatten(m.delivered) + m.Unread()
  }

  lemma StreamWriterStep(m: Machine, data: seq<Octet>)
    requires RawInv(m) && |data| < WORD_LIMIT && StreamInv(m) && !m.messages
    ensures RawInv(WriterStep(m, data)) && StreamInv(WriterStep(m, data))
  {
    WriterStepKeepsRaw(m, data);
    WriterKeepsUnread(m, data);
    hide Machine.Unread, ReaderOk;
    if m.writer.Writing? {
      FlattenMore(m.accepted, m.writer.data);
    }
  }

  lemma FlattenShift(put: seq<Octet>, delivered: seq<seq<Octet>>, unread: seq<Octet>, n: nat)
    requires n <= |unread| && put == Flatten(delivered) + unread
    ensures put == Flatten(delivered + [unread[..n]]) + unread[n..]
  {
    FlattenMore(delivered, unread[..n]);
  }

  lemma StreamReaderStep(m: Machine, capacity: nat)
    requires RawInv(m) && StreamInv(m) && !m.messages
    ensures RawInv(ReaderStep(m, capacity)) && StreamInv(ReaderStep(m, capacity))
  {
    ReaderStepKeepsRaw(m, capacity);
    ReaderKeepsUnread(m, capacity);
    assert |m.Unread()| == m.Count();
    hide Machine.Unread, WriterOk, Flatten, PlanRead;
    if m.reader.Reading? && |m.reader.got| == m.reader.count {
      assert m.reader.got == m.Unread()[..m.reader.count];
      FlattenShift(Flatten(m.accepted), m.delivered, m.Unread(), m.reader.count);
    }
  }

  lemma StreamStep(m: Machine, t: Turn)
    requires RawInv(m) && Sendable(t) && StreamInv(m)
    ensures RawInv(Take(m, t)) && StreamInv(Take(m, t))
  {
    TakeKeepsRaw(m, t);
    if !m.messages {
      match t
      case WriterTurn(data) => StreamWriterStep(m, data);
      case ReaderTurn(capacity) => StreamReaderStep(m, capacity);
    }
  }

  lemma {:induction false} StreamSchedule(m: Machine, turns: seq<Turn>)
    requires RawInv(m) && StreamInv(m) && forall t :: t in turns ==> Sendable(t)
    ensures StreamInv(Schedule(m, turns))
    decreases |turns|
  {
    if turns != [] {
      StreamStep(m, turns[0]);
      StreamSchedule(Take(m, turns[0]), turns[1..]);
    }
  }

  lemma StartOk(length: nat, messages: bool)
    requires length > 0
    ensures RawInv(Start(length, messages)) && Start(length, messages).Unread() == []
  {
  }

  // Stream buffer: under every interleaving what was put in is what was taken out, then what
  // the buffer still holds.
  lemma StreamInOrder(length: nat, turns: seq<Turn>)
    requires length > 0 && forall t :: t in turns ==> Sendable(t)
    ensures RawInv(Start(length, false))
    ensures var m := Schedule(Start(length, false), turns);
            && Flatten(m.delivered) <= Flatten(m.accepted)
            && Flatten(m.accepted) == Flatten(m.delivered) + m.Unread()
  {
    StartOk(length, false);
    StreamSchedule(Start(length, false), turns);
    KeepsMode(Start(length, false), turns);
  }

  lemma {:induction false} KeepsMode(m: Machine, turns: seq<Turn>)
    requires RawInv(m) && forall t :: t in turns ==> Sendable(t)
    ensures Schedule(m, turns).messages == m.messages
    decreases |turns|
  {
    if turns != [] {
      TakeKeepsRaw(m, turns[0]);
      KeepsMode(Take(m, turns[0]), turns[1..]);
    }
  }

  // ----- Messages -----

  predicate Whole(msgs: seq<seq<Octet>>) {
    forall i :: 0 <= i < |msgs| ==> 0 < |msgs[i]| < WORD_LIMIT
  }

  function EncodeAll(msgs: seq<seq<Octet>>): seq<Octet>
    requires Whole(msgs)
  {
    if msgs == [] then [] else Encode(msgs[0]) + EncodeAll(msgs[1..])
  }

  lemma {:induction false} EncodeAllConcat(a: seq<seq<Octet>>, b: seq<seq<Octet>>)
    requires Whole(a) && Whole(b)
    ensures Whole(a + b) && EncodeAll(a + b) == EncodeAll(a) + EncodeAll(b)
  {
    hide Encode;
    if a == [] {
      assert a + b == b;
    } else {
      EncodeAllConcat(a[1..], b);
      assert (a + b)[1..] == a[1..] + b;
    }
  }

  function Pending(m: Machine): seq<seq<Octet>>
    requires |m.delivered| <= |m.accepted|
  {
    m.accepted[|m.delivered|..]
  }

  // `available` bytes end exactly where some pending message ends.
  ghost predicate AtBoundary(pending: seq<seq<Octet>>, available: nat)
    requires Whole(pending)
  {
    exists j :: 0 <= j <= |pending| && EndsAt(pending, j, available)
  }

  ghost predicate EndsAt(pending: seq<seq<Octet>>, j: nat, available: nat)
    requires Whole(pending) && j <= |pending|
  {
    available == |EncodeAll(pending[..j])|
  }

  // The message layer, on what the machine holds.
  ghost predicate Framed(accepted: seq<seq<Octet>>, delivered: seq<seq<Octet>>, unread: seq<Octet>, reader: Reader) {
    && delivered <= accepted
    && Whole(accepted)
    && var pending := accepted[|delivered|..];
    && unread == EncodeAll(pending)
    && (reader.ReadingLength? ==> AtBoundary(pending, reader.available))
    && (reader.Reading? ==> pending != [] && reader.count == |pending[0]|)
  }

  ghost predicate MessageInv(m: Machine)
    requires RawInv(m)
  {
    m.messages ==> Framed(m.accepted, m.delivered, m.Unread(), m.reader)
  }

  // The unread bytes open with the length word of the first pending message and its body.
  lemma FirstMessage(pending: seq<seq<Octet>>)
    requires Whole(pending) && pending != []
    ensures var u := EncodeAll(pending); var n := |pending[0]|;
            && |u| >= LENGTH_BYTES + n
            && u[..LENGTH_BYTES] == WordOctets(n)
            && WordAt(u[..LENGTH_BYTES], 0) == n
            && u[LENGTH_BYTES..LENGTH_BYTES + n] == pending[0]
            && u[LENGTH_BYTES + n..] == EncodeAll(pending[1..])
  {
    WordRoundTrip(|pending[0]|);
  }

  lemma BoundaryCoversFirst(pending: seq<seq<Octet>>, available: nat)
    requires Whole(pending) && AtBoundary(pending, available) && available > 0
    ensures pending != [] && available >= LENGTH_BYTES + |pending[0]|
  {
    var j :| 0 <= j <= |pending| && EndsAt(pending, j, available);
    if j > 0 {
      assert pending[..j][0] == pending[0];
      FirstMessage(pending[..j]);
    }
  }

  lemma BoundarySurvives(pending: seq<seq<Octet>>, d: seq<Octet>, available: nat)
    requires Whole(pending) && 0 < |d| < WORD_LIMIT && AtBoundary(pending, available)
    ensures Whole(pending + [d]) && AtBoundary(pending + [d], available)
  {
    var j :| 0 <= j <= |pending| && EndsAt(pending, j, available);
    assert (pending + [d])[..j] == pending[..j];
    assert EndsAt(pending + [d], j, available);
  }

  lemma FramedPublish(accepted: seq<seq<Octet>>, delivered: seq<seq<Octet>>, unread: seq<Octet>, reader: Reader,
                      d: seq<Octet>)
    requires Framed(accepted, delivered, unread, reader) && 0 < |d| < WORD_LIMIT
    ensures Framed(accepted + [d], delivered, unread + Encode(d), reader)
  {
    var pending := accepted[|delivered|..];
    assert (accepted + [d])[|delivered|..] == pending + [d];
    EncodeAllConcat(pending, [d]);
    assert EncodeAll([d]) == Encode(d) + EncodeAll([]);
    if reader.ReadingLength? {
      BoundarySurvives(pending, d, reader.available);
    }
  }

  lemma FramedConsume(accepted: seq<seq<Octet>>, delivered: seq<seq<Octet>>, unread: seq<Octet>, count: nat,
                      got: seq<Octet>)
    requires Framed(accepted, delivered, unread, Reading(LENGTH_BYTES, count, got))
    requires LENGTH_BYTES + count <= |unread| && got == unread[LENGTH_BYTES..LENGTH_BYTES + count]
    ensures Framed(accepted, delivered + [got], unread[LENGTH_BYTES + count..], ReaderIdle)
  {
    var pending := accepted[|delivered|..];
    FirstMessage(pending);
    assert got == pending[0] == accepted[|delivered|];
    assert accepted[|delivered| + 1..] == pending[1..];
  }

  lemma FramedLength(accepted: seq<seq<Octet>>, delivered: seq<seq<Octet>>, unread: seq<Octet>, capacity: nat,
                     available: nat, got: seq<Octet>)
    requires Framed(accepted, delivered, unread, ReadingLength(capacity, available, got))
    requires |got| == LENGTH_BYTES < available <= |unread| && got == unread[..LENGTH_BYTES]
    ensures Framed(accepted, delivered, unread, PlanRead(capacity, available, LENGTH_BYTES, WordAt(got, 0)))
  {
    var pending := accepted[|delivered|..];
    BoundaryCoversFirst(pending, available);
    FirstMessage(pending);
  }

  lemma FramedCounting(accepted: seq<seq<Octet>>, delivered: seq<seq<Octet>>, unread: seq<Octet>, reader: Reader,
                       capacity: nat)
    requires Framed(accepted, delivered, unread, reader)
    ensures Framed(accepted, delivered, unread, ReadingLength(capacity, |unread|, []))
  {
    var pending := accepted[|delivered|..];
    assert pending[..|pending|] == pending;
    assert EndsAt(pending, |pending|, |unread|);
  }

  lemma MessageWriterStep(m: Machine, data: seq<Octet>)
    requires RawInv(m) && |data| < WORD_LIMIT && MessageInv(m) && m.messages
    ensures RawInv(WriterStep(m, data)) && MessageInv(WriterStep(m, data))
  {
    hide Framed;
    WriterStepKeepsRaw(m, data);
    WriterKeepsUnread(m, data);
    if m.writer.Writing? && m.writer.done == |m.writer.bytes| && m.writer.publish {
      FramedPublish(m.accepted, m.delivered, m.Unread(), m.reader, m.writer.data);
    } else {
      assert WriterStep(m, data).Unread() == m.Unread();
    }
  }

  lemma MessageReaderStep(m: Machine, capacity: nat)
    requires RawInv(m) && MessageInv(m) && m.messages
    ensures RawInv(ReaderStep(m, capacity)) && MessageInv(ReaderStep(m, capacity))
  {
    ReaderStepKeepsRaw(m, capacity);
    ReaderKeepsUnread(m, capacity);
    var u := m.Unread();
    assert |u| == m.Count();
    match m.reader
    case ReaderIdle =>
    case Counting(cap) => FramedCounting(m.accepted, m.delivered, u, m.reader, cap);
    case ReadingLength(cap, available, got) =>
      if |got| == LENGTH_BYTES { FramedLength(m.accepted, m.delivered, u, cap, available, got); }
    case Reading(skip, count, got) =>
      if |got| == count { FramedConsume(m.accepted, m.delivered, u, count, got); }
  }

  lemma {:induction false} MessageSchedule(m: Machine, turns: seq<Turn>)
    requires RawInv(m) && MessageInv(m) && m.messages && forall t :: t in turns ==> Sendable(t)
    ensures MessageInv(Schedule(m, turns))
    decreases |turns|
  {
    if turns != [] {
      assert Sendable(turns[0]);
      match turns[0]
      case WriterTurn(data) =>
        MessageWriterStep(m, data);
        assert WriterStep(m, data).messages;
        MessageSchedule(WriterStep(m, data), turns[1..]);
      case ReaderTurn(capacity) =>
        MessageReaderStep(m, capacity);
        MessageSchedule(ReaderStep(m, capacity), turns[1..]);
    }
  }

  // Message buffer: under every interleaving the messages delivered are the first of those
  // accepted, each whole, and the buffer holds the others whole.
  lemma FramesInOrder(length: nat, turns: seq<Turn>)
    requires length > 0 && forall t :: t in turns ==> Sendable(t)
    ensures RawInv(Start(length, true))
    ensures var m := Schedule(Start(length, true), turns);
            && m.delivered <= m.accepted
            && Whole(Pending(m)) && m.Unread() == EncodeAll(Pending(m))
  {
    StartOk(length, true);
    assert EncodeAll([]) == [];
    MessageSchedule(Start(length, true), turns);
    KeepsMode(Start(length, true), turns);
  }

  // A reader that looks at any moment finds nothing, or a length word with its whole body: the
  // assertion of xStreamBufferNextMessageLengthBytes (stream_buffer.c:1201) cannot fail.
  lemma LengthComesWithBody(length: nat, turns: seq<Turn>)
    requires length > 0 && forall t :: t in turns ==> Sendable(t)
    ensures RawInv(Start(length, true))
    ensures var m := Schedule(Start(length, true), turns);
            || m.Count() == 0
            || (&& m.Count() > LENGTH_BYTES
                && 0 < WordAt(m.Unread()[..LENGTH_BYTES], 0) <= m.Count() - LENGTH_BYTES)
  {
    FramesInOrder(length, turns);
    var m := Schedule(Start(length, true), turns);
    assert |m.Unread()| == m.Count();
    if Pending(m) != [] {
      FirstMessage(Pending(m));
    }
  }
}
