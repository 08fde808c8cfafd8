// The RS485 side of the gateway: the frame printer and the byte-wise assembler
// (Core/Src/rs485.c:96-187).

module Rs485 {
  import opened Words

  const MAX_DATA_LEN: nat := 67   // RS485_MAX_DATA_LEN
  const MAX_DLC: nat := 64

  datatype CanFrame = CanFrame(id: nat, data: seq<Octet>, dlc: Octet)

  function Printed(f: CanFrame): (s: seq<Octet>)
    requires |f.data| >= Min(f.dlc, MAX_DLC)
    ensures |s| == 3 + Min(f.dlc, MAX_DLC)
  {
    [f.id / 0x100 % 0x100, f.id % 0x100, f.dlc] + f.data[..Min(f.dlc, MAX_DLC)]
  }

  // RS485_ForwardCANMessage, up to handing the bytes to the UART.
  method Print(f: CanFrame) returns (out: seq<Octet>)
    requires |f.data| >= Min(f.dlc, MAX_DLC)
    ensures out == Printed(f)
  {
    var frame := new Octet[MAX_DATA_LEN](_ => 0);
    frame[0], frame[1], frame[2] := f.id / 0x100 % 0x100, f.id % 0x100, f.dlc;
    var pos := 3;
    var i := 0;
    while i < f.dlc && i < MAX_DLC
      invariant 0 <= i <= Min(f.dlc, MAX_DLC) && pos == 3 + i
      invariant frame[..pos] == [f.id / 0x100 % 0x100, f.id % 0x100, f.dlc] + f.data[..i]
    {
      frame[pos] := f.data[i];
      pos := pos + 1;
      i := i + 1;
    }
    out := frame[..pos];
  }

  // ----- What a stream of bytes means -----

  datatype Parse = Parse(frames: seq<seq<Octet>>, rest: seq<Octet>)

  // Frames one behind the other; a header whose length byte is impossible is dropped, and what
  // is left at the end is a frame not yet complete.
  function ParseAll(bytes: seq<Octet>): (p: Parse)
    ensures |p.rest| <= |bytes|
    ensures |p.rest| < MAX_DATA_LEN
    ensures |p.rest| >= 3 ==> p.rest[2] <= MAX_DLC && |p.rest| < 3 + p.rest[2]
  {
    if |bytes| < 3 then Parse([], bytes)
    else if bytes[2] > MAX_DLC then ParseAll(bytes[3..])
    else if |bytes| < 3 + bytes[2] then Parse([], bytes)
    else
      var n := 3 + bytes[2];
      var p := ParseAll(bytes[n..]);
      Parse([bytes[..n]] + p.frames, p.rest)
  }

  lemma ParseDrops(s: seq<Octet>)
    requires |s| >= 3 && s[2] > MAX_DLC
    ensures ParseAll(s) == ParseAll(s[3..])
  {
  }

  lemma ParseTakes(s: seq<Octet>)
    requires |s| >= 3 && s[2] <= MAX_DLC && |s| >= 3 + s[2]
    ensures var n := 3 + s[2];
            ParseAll(s) == Parse([s[..n]] + ParseAll(s[n..]).frames, ParseAll(s[n..]).rest)
  {
  }

  lemma ParseWaits(s: seq<Octet>)
    requires |s| >= 3 ==> s[2] <= MAX_DLC && |s| < 3 + s[2]
    ensures ParseAll(s) == Parse([], s)
  {
  }

  // Parsing goes on from what was left over.
  lemma {:induction false} ParseMore(a: seq<Octet>, b: seq<Octet>)
    ensures ParseAll(a + b) ==
            Parse(ParseAll(a).frames + ParseAll(ParseAll(a).rest + b).frames, ParseAll(ParseAll(a).rest + b).rest)
    decreases |a|
  {
    hide ParseAll;
    if |a| >= 3 && a[2] > MAX_DLC {
      assert (a + b)[3..] == a[3..] + b;
      ParseDrops(a);
      ParseDrops(a + b);
      ParseMore(a[3..], b);
    } else if |a| >= 3 && |a| >= 3 + a[2] {
      var n := 3 + a[2];
      assert (a + b)[n..] == a[n..] + b && (a + b)[..n] == a[..n];
      ParseTakes(a);
      ParseTakes(a + b);
      ParseMore(a[n..], b);
      Reassociate([a[..n]], ParseAll(a[n..]).frames, ParseAll(ParseAll(a).rest + b).frames);
    } else {
      ParseWaits(a);
    }
  }

  lemma Reassociate(x: seq<seq<Octet>>, y: seq<seq<Octet>>, z: seq<seq<Octet>>)
    ensures (x + y) + z == x + (y + z)
  {
  }

  function PrintAll(fs: seq<CanFrame>): seq<Octet>
    requires forall f :: f in fs ==> |f.data| >= Min(f.dlc, MAX_DLC)
  {
    if fs == [] then [] else Printed(fs[0]) + PrintAll(fs[1..])
  }

  function EachPrinted(fs: seq<CanFrame>): seq<seq<Octet>>
    requires forall f :: f in fs ==> |f.data| >= Min(f.dlc, MAX_DLC)
  {
    if fs == [] then [] else [Printed(fs[0])] + EachPrinted(fs[1..])
  }

  // Any list of frames of legal length comes out as it went in.
  lemma {:induction false} PrintParse(fs: seq<CanFrame>)
    requires forall f :: f in fs ==> f.dlc <= MAX_DLC && |f.data| >= f.dlc
    ensures ParseAll(PrintAll(fs)) == Parse(EachPrinted(fs), [])
  {
    if fs != [] {
      PrintParse(fs[1..]);
      var first, all := Printed(fs[0]), PrintAll(fs);
      assert all[..|first|] == first && all[|first|..] == PrintAll(fs[1..]);
    }
  }

  // A frame's bytes name its identifier (11 bits) and its data.
  lemma PrintedSays(f: CanFrame)
    requires f.id < 0x800 && f.dlc <= MAX_DLC && |f.data| == f.dlc
    ensures var s: seq<Octet>, high: nat := Printed(f), Printed(f)[0];
            f == CanFrame(0x100 * high + s[1], s[3..], s[2])
  {
  }

  // ----- The assembler -----

  class Assembler {
    const buffer: array<Octet>
    var length: nat
    // what was offered to the queue, of that what came before the last restart, and every byte since
    var offered: seq<seq<Octet>>
    ghost var earlier: seq<seq<Octet>>
    ghost var seen: seq<Octet>

    ghost predicate Valid()
      reads this, buffer
    {
      && buffer.Length == MAX_DATA_LEN && length < MAX_DATA_LEN
      && offered == earlier + ParseAll(seen).frames && buffer[..length] == ParseAll(seen).rest
    }

    constructor ()
      ensures Valid() && seen == [] && earlier == [] && fresh(buffer)
    {
      buffer := new Octet[MAX_DATA_LEN](_ => 0);
      length, offered, earlier, seen := 0, [], [], [];
    }

    // HAL_UART_RxCpltCallback: after any bytes at all, the frames offered are those that the
    // bytes spell, and the buffer holds the one not yet complete.
    method Receive(b: Octet)
      requires Valid()
      modifies this, buffer
      ensures Valid() && seen == old(seen) + [b] && earlier == old(earlier)
      ensures length >= 3 ==> buffer[2] <= MAX_DLC && length < 3 + buffer[2]
    {
      hide ParseAll;
      ghost var rest := buffer[..length];
      ParseMore(seen, [b]);
      OneByte(rest, b);
      seen := seen + [b];
      if length < MAX_DATA_LEN {
        buffer[length] := b;
        length := length + 1;
      }
      assert buffer[..length] == rest + [b];
      if length >= 3 {
        var dlc := buffer[2];
        if dlc > MAX_DLC {
          length := 0;
        } else if length >= 3 + dlc {
          offered := offered + [buffer[..3 + dlc]];
          length := 0;
        }
      }
    }

    // RS485_RestartReceive: the partial frame is dropped.
    method Restart()
      requires Valid()
      modifies this`length, this`seen, this`earlier
      ensures Valid() && length == 0 && seen == [] && earlier == offered
    {
      length := 0;
      seen, earlier := [], offered;
    }
  }

  // One byte more on a frame not yet complete.
  lemma OneByte(rest: seq<Octet>, b: Octet)
    requires |rest| >= 3 ==> rest[2] <= MAX_DLC && |rest| < 3 + rest[2]
    ensures var s := rest + [b];
            ParseAll(s) ==
            if |s| >= 3 && s[2] > MAX_DLC then Parse([], [])
            else if |s| >= 3 && |s| >= 3 + s[2] then Parse([s], [])
            else Parse([], s)
  {
    var s := rest + [b];
    if |s| >= 3 {
      assert |rest| >= 3 ==> s[2] == rest[2];
      if s[2] > MAX_DLC {
        assert s[3..] == [];
      } else if |s| >= 3 + s[2] {
        assert s[..|s|] == s && s[|s|..] == [];
      }
    }
  }

  // The bytes of any list of frames of legal length, fed one at a time to an empty assembler:
  // exactly those frames are offered, in order, and nothing is left over.
  method FeedPrinted(fs: seq<CanFrame>) returns (a: Assembler)
    requires forall f :: f in fs ==> f.dlc <= MAX_DLC && |f.data| >= f.dlc
    ensures fresh(a) && a.Valid() && a.offered == EachPrinted(fs) && a.length == 0
  {
    hide ParseAll, PrintAll, EachPrinted;
    a := new Assembler();
    var bytes := PrintAll(fs);
    for i := 0 to |bytes|
      invariant fresh(a) && fresh(a.buffer) && a.Valid() && a.earlier == [] && a.seen == bytes[..i]
    {
      a.Receive(bytes[i]);
      assert bytes[..i + 1] == bytes[..i] + [bytes[i]];
    }
    assert bytes[..|bytes|] == bytes;
    PrintParse(fs);
  }
}
