// One writer and one reader on a FreeRTOS stream or message buffer, interleaved at every
// shared access: each index is read once per step, bytes are copied one per step, and each
// side publishes its own index last (stream_buffer.c:754-788, 943-1053, 1216-1331, 1479-1587).

module StreamMachine {
  import opened Words
  import opened Circular

  const LENGTH_BYTES: nat := 4   // sbBYTES_TO_STORE_MESSAGE_LENGTH

  // prvBytesInBuffer and the final arithmetic of xStreamBufferSpacesAvailable, on index values
  // that may be stale.
  function CountFrom(length: nat, head: nat, tail: nat): nat
    requires head < length && tail < length
  {
    var n := length + head - tail;
    if n >= length then n - length else n
  }

  function SpaceFrom(length: nat, head: nat, tail: nat): nat
    requires head < length && tail < length
  {
    var n := length + tail - head - 1;
    if n >= length then n - length else n
  }

  // `count` bytes starting at `from`, round the end if need be.
  function Arc(buffer: seq<Octet>, from: nat, count: nat): (s: seq<Octet>)
    requires from < |buffer| && count <= |buffer|
    ensures |s| == count
  {
    seq(count, i requires 0 <= i < count => buffer[Place(from, i, |buffer|)])
  }

  // The bytes from tail up to head, oldest first.
  function Ring(buffer: seq<Octet>, head: nat, tail: nat): (s: seq<Octet>)
    requires head < |buffer| && tail < |buffer|
    ensures |s| == CountFrom(|buffer|, head, tail)
  {
    Arc(buffer, tail, CountFrom(|buffer|, head, tail))
  }

  // `after` is `buffer` with data laid over it from `from` on, and nothing else changed.
  ghost predicate Laid(buffer: seq<Octet>, after: seq<Octet>, from: nat, data: seq<Octet>)
    requires from < |buffer|
  {
    && |after| == |buffer| && |data| <= |buffer|
    && (forall i :: 0 <= i < |data| ==> after[Place(from, i, |buffer|)] == data[i])
    && (forall i :: |data| <= i < |buffer| ==> after[Place(from, i, |buffer|)] == buffer[Place(from, i, |buffer|)])
  }

  // Filling the places behind the head changes no unread byte, and moving the head over them
  // appends them.
  lemma RingAppend(buffer: seq<Octet>, after: seq<Octet>, head: nat, tail: nat, data: seq<Octet>)
    requires head < |buffer| && tail < |buffer| && Laid(buffer, after, head, data)
    requires CountFrom(|buffer|, head, tail) + |data| < |buffer|
    ensures Ring(after, head, tail) == Ring(buffer, head, tail)
    ensures Ring(after, Wrap(head + |data|, |buffer|), tail) == Ring(buffer, head, tail) + data
  {
    var n := CountFrom(|buffer|, head, tail);
    forall i | 0 <= i < n
      ensures after[Place(tail, i, |buffer|)] == buffer[Place(tail, i, |buffer|)]
    {
      assert Place(tail, i, |buffer|) == Place(head, |buffer| - n + i, |buffer|);
    }
    forall i | n <= i < n + |data|
      ensures after[Place(tail, i, |buffer|)] == data[i - n]
    {
      assert Place(tail, i, |buffer|) == Place(head, i - n, |buffer|);
    }
  }

  // Moving the tail over n unread bytes drops them.
  lemma RingConsume(buffer: seq<Octet>, head: nat, tail: nat, n: nat)
    requires head < |buffer| && tail < |buffer| && n <= CountFrom(|buffer|, head, tail)
    ensures Ring(buffer, head, Wrap(tail + n, |buffer|)) == Ring(buffer, head, tail)[n..]
  {
    var t := Wrap(tail + n, |buffer|);
    var left := CountFrom(|buffer|, head, tail) - n;
    assert CountFrom(|buffer|, head, t) == left;
    forall i | 0 <= i < left
      ensures Ring(buffer, head, t)[i] == Ring(buffer, head, tail)[n + i]
    {
      assert Place(t, i, |buffer|) == Place(tail, n + i, |buffer|);
    }
  }

  // An arc inside the unread bytes is a stretch of them.
  lemma ArcInRing(buffer: seq<Octet>, head: nat, tail: nat, skip: nat, count: nat)
    requires head < |buffer| && tail < |buffer| && skip + count <= CountFrom(|buffer|, head, tail)
    ensures Arc(buffer, Wrap(tail + skip, |buffer|), count) == Ring(buffer, head, tail)[skip..skip + count]
  {
    var g := Wrap(tail + skip, |buffer|);
    forall i | 0 <= i < count
      ensures Arc(buffer, g, count)[i] == Ring(buffer, head, tail)[skip..skip + count][i]
    {
      assert Place(Wrap(tail + skip, |buffer|), i, |buffer|) == Place(tail, skip + i, |buffer|);
    }
  }

  // Two writes one behind the other are one write.
  lemma LaidTwice(a: seq<Octet>, b: seq<Octet>, c: seq<Octet>, h: nat, lead: seq<Octet>, data: seq<Octet>)
    requires h < |a| && |lead| + |data| < |a|
    requires Laid(a, b, h, lead) && Laid(b, c, Wrap(h + |lead|, |a|), data)
    ensures Laid(a, c, h, lead + data)
  {
    var g := Wrap(h + |lead|, |a|);
    forall i | 0 <= i < |a|
      ensures c[Place(h, i, |a|)] == if i < |lead| + |data| then (lead + data)[i] else a[Place(h, i, |a|)]
    {
      if i < |lead| {
        assert Place(h, i, |a|) == Place(g, |a| - |lead| + i, |a|);
      } else {
        assert Place(h, i, |a|) == Place(g, i - |lead|, |a|);
      }
    }
  }

  // A message as it lies in the buffer.
  function Encode(data: seq<Octet>): (s: seq<Octet>)
    requires |data| < WORD_LIMIT
    ensures |s| == LENGTH_BYTES + |data|
  {
    WordOctets(|data|) + data
  }

  // ----- The two program counters, with the local variables live there -----

  datatype Writer =
    | WriterIdle
    | Sampling(data: seq<Octet>)                                    // about to read xTail first
    | Sampled(data: seq<Octet>, original: nat)                      // about to read xTail again, xHead
    | Spaced(data: seq<Octet>, original: nat, space: nat)           // about to compare xTail
    | Writing(data: seq<Octet>, bytes: seq<Octet>, done: nat, publish: bool)

  datatype Reader =
    | ReaderIdle
    | Counting(capacity: nat)                                       // about to read xHead
    | ReadingLength(capacity: nat, available: nat, got: seq<Octet>)
    | Reading(skip: nat, count: nat, got: seq<Octet>)

  // `accepted` and `delivered` record what the calls have put in and taken out, call by call.
  datatype Machine = Machine(
    buffer: seq<Octet>, head: nat, tail: nat, messages: bool,
    writer: Writer, reader: Reader,
    accepted: seq<seq<Octet>>, delivered: seq<seq<Octet>>)
  {
    function Length(): nat { |buffer| }

    predicate IndicesOk() { head < |buffer| && tail < |buffer| }

    function Count(): nat
      requires IndicesOk()
    {
      CountFrom(|buffer|, head, tail)
    }

    // The bytes published and not yet consumed.
    function Unread(): seq<Octet>
      requires IndicesOk()
    {
      Ring(buffer, head, tail)
    }
  }

  function Start(length: nat, messages: bool): Machine {
    Machine(seq(length, _ => 0), 0, 0, messages, WriterIdle, ReaderIdle, [], [])
  }

  // ----- Steps -----

  // What prvWriteMessageToBuffer will copy, once the space is known.
  function PlanWrite(m: Machine, data: seq<Octet>, space: nat): Writer
    requires |data| < WORD_LIMIT
  {
    if m.messages then
      if space >= |data| + LENGTH_BYTES then Writing(data, Encode(data), 0, data != [])
      else WriterIdle
    else
      var n := Min(|data|, space);
      if n == 0 then WriterIdle else Writing(data[..n], data[..n], 0, true)
  }

  // The next step of the writer; an idle writer is called to send `data`.
  function WriterStep(m: Machine, data: seq<Octet>): Machine
    requires WriterOk(m) && |data| < WORD_LIMIT
  {
    match m.writer
    case WriterIdle => m.(writer := Sampling(data))
    case Sampling(d) => m.(writer := Sampled(d, m.tail))
    case Sampled(d, t) => m.(writer := Spaced(d, t, SpaceFrom(|m.buffer|, m.head, m.tail)))
    case Spaced(d, t, space) =>
      if m.tail != t then m.(writer := Sampling(d)) else m.(writer := PlanWrite(m, d, space))
    case Writing(d, bytes, k, publish) =>
      if k < |bytes| then
        m.(buffer := m.buffer[Place(m.head, k, |m.buffer|) := bytes[k]], writer := Writing(d, bytes, k + 1, publish))
      else if publish then
        m.(head := Wrap(m.head + |bytes|, |m.buffer|), writer := WriterIdle, accepted := m.accepted + [d])
      else m.(writer := WriterIdle)
  }

  // What prvReadMessageFromBuffer will copy, once the length is known.
  function PlanRead(capacity: nat, available: nat, skip: nat, wanted: nat): Reader
    requires skip <= available
  {
    var n := Min(if wanted > capacity then 0 else wanted, available - skip);
    if n == 0 then ReaderIdle else Reading(skip, n, [])
  }

  // The next step of the reader; an idle reader is called with room for `capacity` bytes.
  function ReaderStep(m: Machine, capacity: nat): Machine
    requires ReaderOk(m)
  {
    match m.reader
    case ReaderIdle => m.(reader := Counting(capacity))
    case Counting(cap) =>
      var available := m.Count();
      if m.messages then
        m.(reader := if available > LENGTH_BYTES then ReadingLength(cap, available, []) else ReaderIdle)
      else m.(reader := PlanRead(cap, available, 0, Min(cap, available)))
    case ReadingLength(cap, available, got) =>
      if |got| < LENGTH_BYTES then
        m.(reader := ReadingLength(cap, available, got + [m.buffer[Place(m.tail, |got|, |m.buffer|)]]))
      else m.(reader := PlanRead(cap, available, LENGTH_BYTES, WordAt(got, 0)))
    case Reading(skip, count, got) =>
      if |got| < count then
        m.(reader := Reading(skip, count, got + [m.buffer[Place(m.tail, skip + |got|, |m.buffer|)]]))
      else
        m.(tail := Wrap(m.tail + skip + count, |m.buffer|), reader := ReaderIdle, delivered := m.delivered + [got])
  }

  // ----- What holds at every step -----

  predicate WriterOk(m: Machine) {
    && m.IndicesOk()
    && match m.writer
       case WriterIdle => true
       case Sampling(d) => |d| < WORD_LIMIT
       case Sampled(d, _) => |d| < WORD_LIMIT
       case Spaced(d, _, space) => |d| < WORD_LIMIT && space + m.Count() < m.Length()
       case Writing(d, bytes, k, publish) =>
         && |d| < WORD_LIMIT
         && k <= |bytes| && |bytes| + m.Count() < m.Length()
         && (forall i :: 0 <= i < k ==> m.buffer[Place(m.head, i, m.Length())] == bytes[i])
         && (publish ==> d != [])
         && (if m.messages then bytes == Encode(d) else bytes == d && publish)
  }

  predicate ReaderOk(m: Machine) {
    && m.IndicesOk()
    && match m.reader
       case ReaderIdle => true
       case Counting(_) => true
       case ReadingLength(_, available, got) =>
         && m.messages
         && |got| <= LENGTH_BYTES < available <= m.Count()
         && got == m.Unread()[..|got|]
       case Reading(skip, count, got) =>
         && skip + count <= m.Count() && 0 < count && |got| <= count
         && got == m.Unread()[skip..skip + |got|]
         && skip == if m.messages then LENGTH_BYTES else 0
  }

  // What the two sides see of the shared state is enough for each to go on.
  predicate RawInv(m: Machine) {
    WriterOk(m) && ReaderOk(m)
  }

  lemma SpaceIsFree(m: Machine)
    requires m.IndicesOk()
    ensures SpaceFrom(m.Length(), m.head, m.tail) + m.Count() + 1 == m.Length()
  {
  }

  lemma CopyKeepsUnread(m: Machine, data: seq<Octet>)
    requires RawInv(m) && |data| < WORD_LIMIT
    requires m.writer.Writing? && m.writer.done < |m.writer.bytes|
    ensures var m' := WriterStep(m, data); m'.IndicesOk() && m'.Unread() == m.Unread() && WriterOk(m')
  {
    var k, bytes := m.writer.done, m.writer.bytes;
    var m' := WriterStep(m, data);
    forall i | 0 <= i < m.Length() && i != k
      ensures m'.buffer[Place(m.head, i, m.Length())] == m.buffer[Place(m.head, i, m.Length())]
    {
      PlacesDiffer(m.head, i, k, m.Length());
    }
    RingAppend(m.buffer, m'.buffer, m.head, m.tail, bytes[..k + 1]);
  }

  lemma PublishExtendsUnread(m: Machine, data: seq<Octet>)
    requires RawInv(m) && |data| < WORD_LIMIT
    requires m.writer.Writing? && m.writer.done == |m.writer.bytes| && m.writer.publish
    ensures var m' := WriterStep(m, data); m'.IndicesOk() && m'.Unread() == m.Unread() + m.writer.bytes
  {
    RingAppend(m.buffer, m.buffer, m.head, m.tail, m.writer.bytes);
  }

  // A writer step never changes what the reader may still be reading: the unread bytes stay,
  // and grow at the end only when the writer publishes, by exactly what it copied.
  lemma WriterKeepsUnread(m: Machine, data: seq<Octet>)
    requires RawInv(m) && |data| < WORD_LIMIT
    ensures var m' := WriterStep(m, data);
            && m'.IndicesOk() && m'.tail == m.tail && m'.Length() == m.Length()
            && m'.Unread() == m.Unread()
               + (if m.writer.Writing? && m.writer.done == |m.writer.bytes| && m.writer.publish
                  then m.writer.bytes else [])
  {
    if m.writer.Writing? {
      if m.writer.done < |m.writer.bytes| {
        CopyKeepsUnread(m, data);
      } else if m.writer.publish {
        PublishExtendsUnread(m, data);
      }
    }
  }

  lemma WriterStepKeepsRaw(m: Machine, data: seq<Octet>)
    requires RawInv(m) && |data| < WORD_LIMIT
    ensures RawInv(WriterStep(m, data))
  {
    var m' := WriterStep(m, data);
    WriterKeepsUnread(m, data);
    SpaceIsFree(m);
    assert m.Unread() <= m'.Unread() && m.Count() <= m'.Count();
    assert ReaderOk(m') by {
      hide WriterOk;
      ReaderSeesMore(m, m');
    }
    if m.writer.Writing? && m.writer.done < |m.writer.bytes| {
      CopyKeepsUnread(m, data);
    }
  }

  lemma ReaderSeesMore(m: Machine, m': Machine)
    requires ReaderOk(m) && m'.IndicesOk() && m'.reader == m.reader && m'.messages == m.messages
    requires m.Unread() <= m'.Unread()
    ensures ReaderOk(m')
  {
    assert |m.Unread()| == m.Count() && |m'.Unread()| == m'.Count();
    match m.reader
    case ReadingLength(_, _, got) => assert m.Unread()[..|got|] == m'.Unread()[..|got|];
    case Reading(skip, _, got) => assert m.Unread()[skip..skip + |got|] == m'.Unread()[skip..skip + |got|];
    case _ =>
  }

  lemma WriterSeesMoreRoom(m: Machine, m': Machine)
    requires WriterOk(m) && m'.IndicesOk() && m'.writer == m.writer && m'.messages == m.messages
    requires m'.buffer == m.buffer && m'.head == m.head && m'.Count() <= m.Count()
    ensures WriterOk(m')
  {
  }

  lemma ReaderKeepsUnread(m: Machine, capacity: nat)
    requires RawInv(m)
    ensures var m' := ReaderStep(m, capacity);
            && m'.IndicesOk() && m'.buffer == m.buffer && m'.head == m.head
            && m'.Unread() == if m.reader.Reading? && |m.reader.got| == m.reader.count
                              then m.Unread()[m.reader.skip + m.reader.count..] else m.Unread()
  {
    hide WordAt, Ring;
    if m.reader.Reading? && |m.reader.got| == m.reader.count {
      RingConsume(m.buffer, m.head, m.tail, m.reader.skip + m.reader.count);
    }
  }

  lemma ReaderStepKeepsRaw(m: Machine, capacity: nat)
    requires RawInv(m)
    ensures RawInv(ReaderStep(m, capacity))
  {
    var m' := ReaderStep(m, capacity);
    ReaderKeepsUnread(m, capacity);
    assert |m.Unread()| == m.Count() && |m'.Unread()| == m'.Count();
    WriterSeesMoreRoom(m, m');
    ReaderGoesOn(m, capacity);
  }

  lemma ReaderGoesOn(m: Machine, capacity: nat)
    requires ReaderOk(m)
    requires var m' := ReaderStep(m, capacity);
             && m'.IndicesOk() && (m'.reader.ReadingLength? || m'.reader.Reading? ==> m'.Unread() == m.Unread())
    ensures ReaderOk(ReaderStep(m, capacity))
  {
    hide Ring, Wrap, WordAt, CountFrom;
    var m' := ReaderStep(m, capacity);
    assert |m.Unread()| == m.Count() && |m'.Unread()| == m'.Count();
    match m.reader
    case ReadingLength(cap, available, got) =>
      if |got| < LENGTH_BYTES {
        NextUnread(m, 0, |got|);
      }
    case Reading(skip, count, got) =>
      if |got| < count {
        NextUnread(m, skip, |got|);
      }
    case _ =>
  }

  // The byte the reader copies next is the next unread one.
  lemma NextUnread(m: Machine, skip: nat, k: nat)
    requires m.IndicesOk() && skip + k < m.Count()
    ensures |m.Unread()| == m.Count()
    ensures m.Unread()[skip..skip + k] + [m.buffer[Place(m.tail, skip + k, |m.buffer|)]] ==
        m.Unread()[skip..skip + k + 1]
  {
    hide Place;
  }
}
