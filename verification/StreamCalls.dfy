// The calls behind the steps: what each send asked for and found, what each receive asked for
// and found, and that the buffer did with it just what it should.

module StreamCalls {
  import opened Words
  import opened Circular
  import opened StreamMachine
  import opened StreamRuns

  // ----- Sends -----

  // A send that has returned: the data given to it and the space that was free when it made up
  // its mind, which is when it finds xTail unchanged.
  datatype Sent = Sent(data: seq<Octet>, space: nat)

  // What such a send puts in: of a stream as much as fits, of a message all or nothing, and
  // nothing of an empty one.
  function Put(messages: bool, c: Sent): seq<seq<Octet>> {
    if messages then (if c.data != [] && |c.data| + LENGTH_BYTES <= c.space then [c.data] else [])
    else if c.data == [] || c.space == 0 then []
    else if |c.data| <= c.space then [c.data]
    else [c.data[..c.space]]
  }

  function PutAll(messages: bool, cs: seq<Sent>): seq<seq<Octet>> {
    if cs == [] then [] else PutAll(messages, cs[..|cs| - 1]) + Put(messages, cs[|cs| - 1])
  }

  // A send under way, as an onlooker knows it: the data from the turn that called it, the space
  // from the moment of the comparison.
  datatype Sending = NoSend | Sending(data: seq<Octet>, space: nat)

  function WatchSend(o: Sending, m: Machine, t: Turn): (Sending, seq<Sent>)
    requires RawInv(m) && Sendable(t)
  {
    if t.ReaderTurn? then (o, [])
    else if m.writer.WriterIdle? then (Sending(t.data, 0), [])
    else if o.NoSend? then (o, [])
    else
      var space := if m.writer.Spaced? then m.Length() - 1 - m.Count() else o.space;
      if Take(m, t).writer.WriterIdle? then (NoSend, [Sent(o.data, space)]) else (Sending(o.data, space), [])
  }

  // The sends that return during a schedule, in order.
  function Sends(o: Sending, m: Machine, turns: seq<Turn>): seq<Sent>
    requires RawInv(m) && forall t :: t in turns ==> Sendable(t)
    decreases |turns|
  {
    if turns == [] then []
    else
      TakeKeepsRaw(m, turns[0]);
      var (o', done) := WatchSend(o, m, turns[0]);
      done + Sends(o', Take(m, turns[0]), turns[1..])
  }

  // The writer is where the send under way is. Until it has made up its mind the reader has
  // moved xTail only towards the head, so that an xTail unchanged means a space unchanged.
  predicate SendKnown(o: Sending, m: Machine)
    requires m.IndicesOk()
  {
    if m.writer.WriterIdle? then o.NoSend?
    else
      && o.Sending?
      && match m.writer
         case WriterIdle => true
         case Sampling(d) => d == o.data
         case Sampled(d, t) => d == o.data && t < m.Length() && m.Count() <= CountFrom(m.Length(), m.head, t)
         case Spaced(d, t, space) =>
           d == o.data && t < m.Length() && m.Count() + 1 <= m.Length() - space <= CountFrom(m.Length(), m.head, t) + 1
         case Writing(d, _, _, publish) => Put(m.messages, Sent(o.data, o.space)) == if publish then [d] else []
  }

  lemma SendStep(o: Sending, m: Machine, t: Turn)
    requires RawInv(m) && Sendable(t) && SendKnown(o, m)
    ensures RawInv(Take(m, t))
    ensures var (o', done) := WatchSend(o, m, t);
            var m' := Take(m, t);
            && SendKnown(o', m') && m'.messages == m.messages
            && m'.accepted == m.accepted + PutAll(m.messages, done)
  {
    hide Machine.Unread, ReaderOk, ReaderStep;
    TakeKeepsRaw(m, t);
    var (o', done) := WatchSend(o, m, t);
    if done != [] {
      assert done[..0] == [];
      assert PutAll(m.messages, done) == [] + Put(m.messages, done[0]);
    }
    if t.WriterTurn? {
      match m.writer
      case Sampled(d, _) => SpaceIsFree(m);
      case Spaced(d, _, space) => PlannedRight(m, d, space);
      case _ =>
    } else {
      ReaderCountsDown(m, t.capacity);
    }
  }

  lemma ReaderCountsDown(m: Machine, capacity: nat)
    requires RawInv(m)
    ensures var m' := ReaderStep(m, capacity);
            && m'.IndicesOk() && m'.head == m.head && m'.Length() == m.Length() && m'.Count() <= m.Count()
            && m'.writer == m.writer && m'.messages == m.messages && m'.accepted == m.accepted
  {
    hide Ring, WordAt;
    ReaderKeepsUnread(m, capacity);
    assert |m.Unread()| == m.Count() && |ReaderStep(m, capacity).Unread()| == ReaderStep(m, capacity).Count();
  }

  // What the writer plans is what the send should put in.
  lemma PlannedRight(m: Machine, d: seq<Octet>, space: nat)
    requires |d| < WORD_LIMIT
    ensures var w := PlanWrite(m, d, space);
            && (w.WriterIdle? ==> Put(m.messages, Sent(d, space)) == [])
            && (!w.WriterIdle? ==> w.Writing?
                                   && Put(m.messages, Sent(d, space)) == if w.publish then [w.data] else [])
  {
    assert d[..|d|] == d;
  }

  lemma {:induction false} PutBoth(messages: bool, a: seq<Sent>, b: seq<Sent>)
    ensures PutAll(messages, a + b) == PutAll(messages, a) + PutAll(messages, b)
    decreases |b|
  {
    hide Put;
    if b == [] {
      assert a + b == a;
    } else {
      assert (a + b)[..|a + b| - 1] == a + b[..|b| - 1];
      PutBoth(messages, a, b[..|b| - 1]);
    }
  }

  lemma {:induction false} SendsRun(o: Sending, m: Machine, turns: seq<Turn>)
    requires RawInv(m) && SendKnown(o, m) && forall t :: t in turns ==> Sendable(t)
    ensures Schedule(m, turns).accepted == m.accepted + PutAll(m.messages, Sends(o, m, turns))
    ensures Schedule(m, turns).messages == m.messages
    decreases |turns|
  {
    hide Put, WatchSend, SendKnown, Take, RawInv;
    if turns != [] {
      TakeKeepsRaw(m, turns[0]);
      SendStep(o, m, turns[0]);
      var (o', done) := WatchSend(o, m, turns[0]);
      var m' := Take(m, turns[0]);
      SendsRun(o', m', turns[1..]);
      PutBoth(m.messages, done, Sends(o', m', turns[1..]));
      var more := PutAll(m.messages, Sends(o', m', turns[1..]));
      assert (m.accepted + PutAll(m.messages, done)) + more == m.accepted + (PutAll(m.messages, done) + more);
    }
  }

  // Stream buffer, any interleaving: of each send as many of its first bytes go in as there was
  // space for; the bytes received are a prefix of all those, and the buffer holds the rest.
  lemma BytesInOrder(length: nat, turns: seq<Turn>)
    requires length > 0 && forall t :: t in turns ==> Sendable(t)
    ensures RawInv(Start(length, false))
    ensures var m := Schedule(Start(length, false), turns);
            var sent := Flatten(PutAll(false, Sends(NoSend, Start(length, false), turns)));
            && Flatten(m.delivered) <= sent
            && sent == Flatten(m.delivered) + m.Unread()
  {
    hide Take, WatchSend, Machine.Unread;
    StartOk(length, false);
    var m := Schedule(Start(length, false), turns);
    var put := PutAll(false, Sends(NoSend, Start(length, false), turns));
    StreamInOrder(length, turns);
    SendsRun(NoSend, Start(length, false), turns);
    assert m.accepted == [] + put == put;
  }

  // Message buffer, any interleaving: each send that found space for its data and a length word
  // has put in all its data, the others nothing; the messages delivered are the first of those,
  // each whole, and the buffer holds the others whole.
  lemma MessagesInOrder(length: nat, turns: seq<Turn>)
    requires length > 0 && forall t :: t in turns ==> Sendable(t)
    ensures RawInv(Start(length, true))
    ensures var m := Schedule(Start(length, true), turns);
            var sent := PutAll(true, Sends(NoSend, Start(length, true), turns));
            && m.delivered <= sent
            && Whole(sent[|m.delivered|..]) && m.Unread() == EncodeAll(sent[|m.delivered|..])
  {
    hide Take, WatchSend, Machine.Unread;
    StartOk(length, true);
    var m := Schedule(Start(length, true), turns);
    var put := PutAll(true, Sends(NoSend, Start(length, true), turns));
    FramesInOrder(length, turns);
    SendsRun(NoSend, Start(length, true), turns);
    assert m.accepted == [] + put == put;
  }

  // ----- Receives -----

  // A receive that has returned: the room given to it and what there was to read when it looked:
  // of a stream the unread bytes, else the first message held, if any.
  datatype Received = Received(capacity: nat, there: seq<Octet>)

  // What such a receive takes out: of a stream as much as fits, a message whole or not at all.
  function Got(messages: bool, c: Received): seq<seq<Octet>> {
    if c.there == [] || c.capacity == 0 then []
    else if |c.there| <= c.capacity then [c.there]
    else if messages then []
    else [c.there[..c.capacity]]
  }

  function GotAll(messages: bool, cs: seq<Received>): seq<seq<Octet>> {
    if cs == [] then [] else GotAll(messages, cs[..|cs| - 1]) + Got(messages, cs[|cs| - 1])
  }

  function There(m: Machine): seq<Octet>
    requires RawInv(m)
  {
    if !m.messages then m.Unread() else if |m.delivered| < |m.accepted| then m.accepted[|m.delivered|] else []
  }

  // A receive under way, as an onlooker knows it.
  datatype Receiving = NoReceive | Receiving(capacity: nat, there: seq<Octet>)

  function WatchReceive(o: Receiving, m: Machine, t: Turn): (Receiving, seq<Received>)
    requires RawInv(m) && Sendable(t)
  {
    if t.WriterTurn? then (o, [])
    else if m.reader.ReaderIdle? then (Receiving(t.capacity, []), [])
    else if o.NoReceive? then (o, [])
    else
      var there := if m.reader.Counting? then There(m) else o.there;
      if Take(m, t).reader.ReaderIdle? then (NoReceive, [Received(o.capacity, there)])
      else (Receiving(o.capacity, there), [])
  }

  function Receives(o: Receiving, m: Machine, turns: seq<Turn>): seq<Received>
    requires RawInv(m) && forall t :: t in turns ==> Sendable(t)
    decreases |turns|
  {
    if turns == [] then []
    else
      TakeKeepsRaw(m, turns[0]);
      var (o', done) := WatchReceive(o, m, turns[0]);
      done + Receives(o', Take(m, turns[0]), turns[1..])
  }

  // The reader is where the receive under way is.
  predicate ReceiveKnown(o: Receiving, m: Machine)
    requires RawInv(m)
  {
    match m.reader
    case ReaderIdle => o.NoReceive?
    case Counting(cap) => o.Receiving? && cap == o.capacity
    case ReadingLength(cap, _, _) =>
      o.Receiving? && cap == o.capacity && |m.delivered| < |m.accepted| && o.there == m.accepted[|m.delivered|]
    case Reading(skip, count, _) =>
      && o.Receiving?
      && Got(m.messages, Received(o.capacity, o.there)) == [m.Unread()[skip..skip + count]]
  }

  ghost predicate ReceiveInv(o: Receiving, m: Machine) {
    RawInv(m) && MessageInv(m) && ReceiveKnown(o, m)
  }

  lemma MessageTurn(m: Machine, t: Turn)
    requires RawInv(m) && MessageInv(m) && Sendable(t)
    ensures RawInv(Take(m, t)) && MessageInv(Take(m, t)) && Take(m, t).messages == m.messages
  {
    hide Framed, Machine.Unread;
    TakeKeepsRaw(m, t);
    if m.messages {
      match t
      case WriterTurn(data) => MessageWriterStep(m, data);
      case ReaderTurn(capacity) => MessageReaderStep(m, capacity);
    }
  }

  lemma WriterLeavesReceive(o: Receiving, m: Machine, data: seq<Octet>)
    requires ReceiveInv(o, m) && |data| < WORD_LIMIT
    ensures RawInv(WriterStep(m, data)) && ReceiveKnown(o, WriterStep(m, data))
    ensures WriterStep(m, data).delivered == m.delivered
  {
    hide Ring, Got, Framed, WriterOk;
    WriterStepKeepsRaw(m, data);
    WriterKeepsUnread(m, data);
    assert |m.Unread()| == m.Count();
    var m' := WriterStep(m, data);
    match m.reader
    case Reading(skip, count, _) => assert m'.Unread()[skip..skip + count] == m.Unread()[skip..skip + count];
    case _ =>
  }

  // The first message held, seen through its length word.
  lemma LengthRead(m: Machine)
    requires RawInv(m) && MessageInv(m) && m.messages
    ensures |m.delivered| <= |m.accepted| && |m.Unread()| == m.Count()
    ensures m.Count() > LENGTH_BYTES <==> There(m) != []
    ensures There(m) == [] <==> |m.delivered| == |m.accepted|
    ensures There(m) != [] ==>
      && m.Count() >= LENGTH_BYTES + |There(m)| && WordAt(m.Unread()[..LENGTH_BYTES], 0) == |There(m)|
      && m.Unread()[LENGTH_BYTES..LENGTH_BYTES + |There(m)|] == There(m)
    ensures m.reader.ReadingLength? ==> There(m) != [] && m.reader.available >= LENGTH_BYTES + |There(m)|
  {
    hide Ring, Encode, WordAt;
    var pending := m.accepted[|m.delivered|..];
    assert |m.Unread()| == m.Count();
    if pending != [] {
      FirstMessage(pending);
      assert pending[0] == m.accepted[|m.delivered|];
    }
    if m.reader.ReadingLength? {
      BoundaryCoversFirst(pending, m.reader.available);
    }
  }

  lemma ReaderCounts(o: Receiving, m: Machine, capacity: nat)
    requires ReceiveInv(o, m) && m.reader.Counting?
    ensures var t := ReaderTurn(capacity);
            var (o', done) := WatchReceive(o, m, t);
            && RawInv(Take(m, t)) && ReceiveKnown(o', Take(m, t))
            && Take(m, t).delivered == m.delivered + GotAll(m.messages, done)
  {
    hide Ring, Framed, WriterOk;
    ReaderStepKeepsRaw(m, capacity);
    assert |m.Unread()| == m.Count();
    if m.messages {
      LengthRead(m);
    } else {
      var u := m.Unread();
      assert u[0..|u|] == u;
    }
    OneReceived(m.messages, Received(o.capacity, There(m)));
  }

  lemma ReaderSizes(o: Receiving, m: Machine, capacity: nat)
    requires ReceiveInv(o, m) && m.reader.ReadingLength?
    ensures var t := ReaderTurn(capacity);
            var (o', done) := WatchReceive(o, m, t);
            && RawInv(Take(m, t)) && ReceiveKnown(o', Take(m, t))
            && Take(m, t).delivered == m.delivered + GotAll(m.messages, done)
  {
    hide Ring, Framed, WriterOk, WordAt;
    ReaderStepKeepsRaw(m, capacity);
    ReaderKeepsUnread(m, capacity);
    LengthRead(m);
    OneReceived(m.messages, Received(o.capacity, o.there));
  }

  lemma OneReceived(messages: bool, c: Received)
    ensures GotAll(messages, [c]) == Got(messages, c) && GotAll(messages, []) == []
  {
    assert [c][..0] == [];
    assert GotAll(messages, [c]) == [] + Got(messages, c);
  }

  lemma ReceiveStep(o: Receiving, m: Machine, t: Turn)
    requires ReceiveInv(o, m) && Sendable(t)
    ensures var (o', done) := WatchReceive(o, m, t);
            var m' := Take(m, t);
            && ReceiveInv(o', m') && m'.messages == m.messages
            && m'.delivered == m.delivered + GotAll(m.messages, done)
  {
    hide Ring, Framed, WriterOk, Got;
    MessageTurn(m, t);
    match t
    case WriterTurn(data) => WriterLeavesReceive(o, m, data);
    case ReaderTurn(capacity) =>
      if m.reader.Counting? {
        ReaderCounts(o, m, capacity);
      } else if m.reader.ReadingLength? {
        ReaderSizes(o, m, capacity);
      } else if m.reader.Reading? {
        ReaderKeepsUnread(m, capacity);
        OneReceived(m.messages, Received(o.capacity, o.there));
      }
  }

  lemma {:induction false} GotBoth(messages: bool, a: seq<Received>, b: seq<Received>)
    ensures GotAll(messages, a + b) == GotAll(messages, a) + GotAll(messages, b)
    decreases |b|
  {
    hide Got;
    if b == [] {
      assert a + b == a;
    } else {
      assert (a + b)[..|a + b| - 1] == a + b[..|b| - 1];
      GotBoth(messages, a, b[..|b| - 1]);
    }
  }

  lemma {:induction false} ReceivesRun(o: Receiving, m: Machine, turns: seq<Turn>)
    requires ReceiveInv(o, m) && forall t :: t in turns ==> Sendable(t)
    ensures Schedule(m, turns).delivered == m.delivered + GotAll(m.messages, Receives(o, m, turns))
    decreases |turns|
  {
    hide Got, WatchReceive, ReceiveKnown, MessageInv, Take, RawInv;
    if turns != [] {
      TakeKeepsRaw(m, turns[0]);
      ReceiveStep(o, m, turns[0]);
      var (o', done) := WatchReceive(o, m, turns[0]);
      var m' := Take(m, turns[0]);
      ReceivesRun(o', m', turns[1..]);
      GotBoth(m.messages, done, Receives(o', m', turns[1..]));
      var more := GotAll(m.messages, Receives(o', m', turns[1..]));
      assert (m.delivered + GotAll(m.messages, done)) + more == m.delivered + (GotAll(m.messages, done) + more);
    }
  }

  // Under every interleaving each receive takes what it should of what it found: as much of a
  // stream as there was room for, the first message whole if there was room for it.
  lemma ReceivesGet(length: nat, messages: bool, turns: seq<Turn>)
    requires length > 0 && forall t :: t in turns ==> Sendable(t)
    ensures RawInv(Start(length, messages))
    ensures var s := Start(length, messages);
            Schedule(s, turns).delivered == GotAll(messages, Receives(NoReceive, s, turns))
  {
    hide Take, WatchReceive, Got;
    var s := Start(length, messages);
    StartOk(length, messages);
    assert EncodeAll([]) == [];
    ReceivesRun(NoReceive, s, turns);
    var all := GotAll(messages, Receives(NoReceive, s, turns));
    assert [] + all == all;
  }

  // ----- Every call returns -----

  // How many of its own turns the writer needs at most, as long as the reader does not move
  // xTail once more; the same for the reader, whatever the writer does.
  function WriterRank(m: Machine): nat
    requires WriterOk(m)
  {
    match m.writer
    case WriterIdle => 0
    case Sampling(d) => |d| + 8
    case Sampled(d, t) => |d| + if m.tail == t then 7 else 10
    case Spaced(d, t, _) => |d| + if m.tail == t then 6 else 9
    case Writing(_, bytes, k, _) => |bytes| - k + 1
  }

  function ReaderRank(m: Machine): nat
    requires ReaderOk(m)
  {
    match m.reader
    case ReaderIdle => 0
    case Counting(_) => m.Length() + 7
    case ReadingLength(_, available, got) => available + 6 - |got|
    case Reading(_, count, got) => count - |got| + 1
  }

  // Each turn of a side under way brings it nearer to its return, and the other side sets only
  // the writer back, by one round of sampling for each receive that completes.
  lemma TurnsAdvance(m: Machine, t: Turn)
    requires RawInv(m) && Sendable(t)
    ensures RawInv(Take(m, t))
    ensures t.WriterTurn? && !m.writer.WriterIdle? ==> WriterRank(Take(m, t)) < WriterRank(m)
    ensures t.ReaderTurn? && !m.reader.ReaderIdle? ==> ReaderRank(Take(m, t)) < ReaderRank(m)
    ensures t.WriterTurn? ==> ReaderRank(Take(m, t)) == ReaderRank(m)
    ensures t.ReaderTurn? ==>
      WriterRank(Take(m, t)) <= WriterRank(m) + if Take(m, t).delivered == m.delivered then 0 else 3
  {
    hide Ring, WordAt, WriterRank, ReaderRank, WriterOk, ReaderOk, WriterStep, ReaderStep;
    TakeKeepsRaw(m, t);
    match t
    case WriterTurn(data) =>
      if !m.writer.WriterIdle? { WriterAdvances(m, data); }
      WriterLeavesReader(m, data);
    case ReaderTurn(capacity) =>
      if !m.reader.ReaderIdle? { ReaderAdvances(m, capacity); }
      ReaderDelaysWriter(m, capacity);
  }

  lemma WriterAdvances(m: Machine, data: seq<Octet>)
    requires RawInv(m) && |data| < WORD_LIMIT && !m.writer.WriterIdle?
    ensures WriterOk(WriterStep(m, data)) && WriterRank(WriterStep(m, data)) < WriterRank(m)
  {
    hide Machine.Unread, ReaderOk, Ring, Place;
    WriterStepKeepsRaw(m, data);
  }

  lemma WriterLeavesReader(m: Machine, data: seq<Octet>)
    requires RawInv(m) && |data| < WORD_LIMIT
    ensures ReaderOk(WriterStep(m, data)) && ReaderRank(WriterStep(m, data)) == ReaderRank(m)
  {
    hide Machine.Unread, WriterOk, Ring, Place;
    WriterStepKeepsRaw(m, data);
    WriterKeepsUnread(m, data);
  }

  lemma ReaderAdvances(m: Machine, capacity: nat)
    requires RawInv(m) && !m.reader.ReaderIdle?
    ensures ReaderOk(ReaderStep(m, capacity)) && ReaderRank(ReaderStep(m, capacity)) < ReaderRank(m)
  {
    hide Machine.Unread, WriterOk, Ring, WordAt, Place;
    ReaderStepKeepsRaw(m, capacity);
  }

  lemma ReaderDelaysWriter(m: Machine, capacity: nat)
    requires RawInv(m)
    ensures var m' := ReaderStep(m, capacity);
            WriterOk(m') && WriterRank(m') <= WriterRank(m) + if m'.delivered == m.delivered then 0 else 3
  {
    hide Machine.Unread, Ring, WordAt, Place, Wrap;
    ReaderStepKeepsRaw(m, capacity);
  }

  // So a send left to itself returns within its data and ten turns, a receive within the length
  // of the buffer and seven.
  lemma {:induction false} SendReturns(m: Machine, turns: seq<Turn>) returns (n: nat)
    requires RawInv(m) && |turns| >= WriterRank(m)
    requires forall t :: t in turns ==> t.WriterTurn? && Sendable(t)
    ensures n <= WriterRank(m) && Schedule(m, turns[..n]).writer.WriterIdle?
    decreases WriterRank(m)
  {
    hide WriterRank, Take, RawInv;
    if m.writer.WriterIdle? {
      n := 0;
    } else {
      BusyRanks(m);
      TurnsAdvance(m, turns[0]);
      n := SendReturns(Take(m, turns[0]), turns[1..]);
      n := n + 1;
      assert turns[..n][1..] == turns[1..][..n - 1];
    }
  }

  lemma {:induction false} ReceiveReturns(m: Machine, turns: seq<Turn>) returns (n: nat)
    requires RawInv(m) && |turns| >= ReaderRank(m)
    requires forall t :: t in turns ==> t.ReaderTurn? && Sendable(t)
    ensures n <= ReaderRank(m) && Schedule(m, turns[..n]).reader.ReaderIdle?
    decreases ReaderRank(m)
  {
    hide ReaderRank, Take, RawInv;
    if m.reader.ReaderIdle? {
      n := 0;
    } else {
      BusyRanks(m);
      TurnsAdvance(m, turns[0]);
      n := ReceiveReturns(Take(m, turns[0]), turns[1..]);
      n := n + 1;
      assert turns[..n][1..] == turns[1..][..n - 1];
    }
  }

  lemma BusyRanks(m: Machine)
    requires RawInv(m)
    ensures !m.writer.WriterIdle? ==> WriterRank(m) > 0
    ensures !m.reader.ReaderIdle? ==> ReaderRank(m) > 0
  {
  }
}
