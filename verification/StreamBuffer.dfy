// The buffer itself, in place: the two-part copies of prvWriteBytesToBuffer and
// prvReadBytesFromBuffer and the calls built on them, each run without the other side in
// between (stream_buffer.c:754-806, 943-1053, 1172-1331, 1479-1587).

module StreamBuffer {
  import opened Words
  import opened Circular
  import opened StreamMachine
  import opened StreamRuns

  class Buffer {
    const storage: array<Octet>
    const messages: bool
    var head: nat
    var tail: nat

    constructor (length: nat, isMessageBuffer: bool)
      requires length > 0
      ensures Valid() && fresh(storage) && storage.Length == length && messages == isMessageBuffer
      ensures Contents() == []
    {
      storage := new Octet[length](_ => 0x55);
      messages := isMessageBuffer;
      head, tail := 0, 0;
    }

    ghost predicate Valid()
      reads this
    {
      head < storage.Length && tail < storage.Length
    }

    // The bytes written and not yet read, oldest first.
    ghost function Contents(): seq<Octet>
      requires Valid()
      reads this, storage
    {
      Ring(storage[..], head, tail)
    }

    // prvBytesInBuffer
    method BytesInBuffer() returns (n: nat)
      requires Valid()
      ensures n == |Contents()|
    {
      n := storage.Length + head - tail;
      if n >= storage.Length {
        n := n - storage.Length;
      }
    }

    // xStreamBufferSpacesAvailable. One place always stays free.
    method SpacesAvailable() returns (n: nat)
      requires Valid()
      ensures n + |Contents()| + 1 == storage.Length
    {
      n := storage.Length + tail - head - 1;
      if n >= storage.Length {
        n := n - storage.Length;
      }
    }

    // prvWriteBytesToBuffer: up to the end of the storage, then the rest from its start.
    method WriteBytes(data: seq<Octet>, from: nat) returns (next: nat)
      requires from < storage.Length && 0 < |data| <= storage.Length
      modifies storage
      ensures next == Wrap(from + |data|, storage.Length)
      ensures Laid(old(storage[..]), storage[..], from, data)
    {
      var first := Min(storage.Length - from, |data|);
      for k := 0 to first
        invariant forall i :: 0 <= i < k ==> storage[from + i] == data[i]
        invariant forall p :: 0 <= p < storage.Length && !(from <= p < from + k) ==> storage[p] == old(storage[p])
      {
        storage[from + k] := data[k];
      }
      if |data| > first {
        for k := 0 to |data| - first
          invariant forall i :: 0 <= i < first ==> storage[from + i] == data[i]
          invariant forall i :: 0 <= i < k ==> storage[i] == data[first + i]
          invariant forall p :: k <= p < from ==> storage[p] == old(storage[p])
        {
          storage[k] := data[first + k];
        }
        forall i | first <= i < |data|
          ensures storage[Place(from, i, storage.Length)] == data[i]
        {
          assert Place(from, i, storage.Length) == i - first;
        }
      }
      next := Wrap(from + |data|, storage.Length);
    }

    // prvReadBytesFromBuffer
    method ReadBytes(count: nat, from: nat) returns (data: seq<Octet>, next: nat)
      requires from < storage.Length && 0 < count <= storage.Length
      ensures next == Wrap(from + count, storage.Length)
      ensures data == Arc(storage[..], from, count)
    {
      var first := Min(storage.Length - from, count);
      data := storage[from..from + first];
      if count > first {
        data := data + storage[..count - first];
      }
      next := Wrap(from + count, storage.Length);
    }

    // prvWriteMessageToBuffer, called as xStreamBufferSendFromISR does. A message goes in whole
    // or not at all, an empty one never; a stream takes what fits.
    method Send(data: seq<Octet>) returns (sent: nat)
      requires Valid() && |data| + LENGTH_BYTES < WORD_LIMIT
      modifies this`head, storage
      ensures Valid()
      ensures messages ==>
                if data != [] && |data| + LENGTH_BYTES + |old(Contents())| < storage.Length
                then sent == |data| && Contents() == old(Contents()) + Encode(data)
                else sent == 0 && Contents() == old(Contents())
      ensures !messages ==>
                && sent == Min(|data|, storage.Length - 1 - |old(Contents())|)
                && Contents() == old(Contents()) + data[..sent]
    {
      hide Ring, Laid;
      ghost var held := storage[..];
      var space := SpacesAvailable();
      var next := head;
      ghost var lead := [];
      if messages {
        if space < |data| + LENGTH_BYTES {
          return 0;
        }
        lead := WordOctets(|data|);
        next := WriteBytes(WordOctets(|data|), next);
        RingAppend(held, storage[..], head, tail, lead);
        sent := |data|;
      } else {
        sent := Min(|data|, space);
      }
      if sent != 0 {
        ghost var mid := storage[..];
        next := WriteBytes(data[..sent], next);
        LaidTwice(held, mid, storage[..], head, lead, data[..sent]);
        RingAppend(held, storage[..], head, tail, lead + data[..sent]);
        head := next;
        assert data[..|data|] == data;
      }
    }

    // xStreamBufferNextMessageLengthBytes, with its assertion. `msgs` are the messages held.
    method NextMessageLength(ghost msgs: seq<seq<Octet>>) returns (n: nat)
      requires Valid() && messages && Whole(msgs) && Contents() == EncodeAll(msgs)
      ensures n == if msgs == [] then 0 else |msgs[0]|
    {
      var available := BytesInBuffer();
      if msgs != [] {
        FirstMessage(msgs);
      }
      if available > LENGTH_BYTES {
        var word, _ := ReadBytes(LENGTH_BYTES, tail);
        ArcInRing(storage[..], head, tail, 0, LENGTH_BYTES);
        n := WordAt(word, 0);
      } else {
        assert available == 0;
        n := 0;
      }
    }

    // prvReadMessageFromBuffer, called as xStreamBufferReceiveFromISR does: the first message
    // whole if there is room for it, else nothing; from a stream what is there.
    method Receive(capacity: nat, ghost msgs: seq<seq<Octet>>) returns (data: seq<Octet>)
      requires Valid()
      requires messages ==> Whole(msgs) && Contents() == EncodeAll(msgs)
      modifies this`tail
      ensures Valid()
      ensures messages ==>
                if msgs != [] && |msgs[0]| <= capacity
                then data == msgs[0] && Contents() == EncodeAll(msgs[1..])
                else data == [] && Contents() == EncodeAll(msgs)
      ensures !messages ==>
                && data == old(Contents())[..Min(capacity, |old(Contents())|)]
                && Contents() == old(Contents())[|data|..]
    {
      hide Ring, Arc, Encode;
      assert |Contents()| == CountFrom(storage.Length, head, tail);
      var available := BytesInBuffer();
      var skip, wanted := 0, capacity;
      if messages {
        if msgs != [] {
          FirstMessage(msgs);
        }
        if available <= LENGTH_BYTES {
          return [];
        }
        var word, _ := ReadBytes(LENGTH_BYTES, tail);
        ArcInRing(storage[..], head, tail, 0, LENGTH_BYTES);
        skip, wanted := LENGTH_BYTES, WordAt(word, 0);
        if wanted > capacity {
          return [];
        }
      }
      var count := Min(wanted, available - skip);
      if count == 0 {
        return [];
      }
      data := Consume(skip, count);
    }

    // Copies `count` unread bytes out, those behind the first `skip`, then moves the tail.
    method Consume(skip: nat, count: nat) returns (data: seq<Octet>)
      requires Valid() && 0 < count && skip + count <= |Contents()|
      modifies this`tail
      ensures Valid()
      ensures data == old(Contents())[skip..skip + count]
      ensures Contents() == old(Contents())[skip + count..]
    {
      hide Ring, Arc;
      var next;
      assert |Contents()| == CountFrom(storage.Length, head, tail);
      data, next := ReadBytes(count, Wrap(tail + skip, storage.Length));
      ArcInRing(storage[..], head, tail, skip, count);
      RingConsume(storage[..], head, tail, skip + count);
      tail := next;
    }
  }
}
