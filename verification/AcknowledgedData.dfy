// What the tester was told is in flash is in flash.

module AcknowledgedData {
  import opened Words
  import opened Crc32
  import opened Flash
  import opened BootGate
  import opened FlashServer
  import opened UpdateRuns
  import opened FlashRequests

  // The tester's book: `counting` from a 0x34 answered 0x74 until the next 0x34 or the loss
  // of the transfer; `blocks` are the payloads acknowledged since, in order.
  datatype Book = Book(counting: bool, blocks: seq<seq<Octet>>)

  const DOWNLOAD_ACK: seq<Octet> := [0x74, 0x22, 0x00, 0xF8]

  function BookAfter(b: Book, s: State, e: Event): Book
    requires s.x.Fits()
  {
    if !e.Request? then Book(false, [])
    else if StartsDownload(e) then Book(e.resp == DOWNLOAD_ACK, [])
    else if SendsBlock(s, e) && e.resp == [0x76, e.req[1]] then b.(blocks := b.blocks + [e.req[2..]])
    else b
  }

  ghost function BookAtEnd(f: Faults, b: Book, s: State, es: seq<Event>): Book
    requires Run(f, s, es)
    decreases |es|
  {
    if es == [] then b else BookAtEnd(f, BookAfter(b, s, es[0]), After(s, es[0]), es[1..])
  }

  ghost predicate BookInv(b: Book, s: State) {
    && s.x.Fits()
    && (b.counting ==>
          && s.x.written == |Flatten(b.blocks)|
          && Slot(s.flash)[..s.x.written] == Flatten(b.blocks)
          && s.x.blockSeq == (|b.blocks| + 1) % 0x100)
  }

  lemma SlotBelow(img: Image, x: Image, offset: nat, hi: nat)
    requires offset <= APP_SLOT_SIZE && AgreeOutside(img, x, APP_BASE + offset, hi)
    ensures Slot(x)[..offset] == Slot(img)[..offset]
  {
  }

  lemma SlotPatched(img: Image, offset: nat, data: seq<Octet>)
    requires offset + |data| <= APP_SLOT_SIZE && offset % 8 == 0
    ensures InFlash(APP_BASE + offset, RoundUp8(|data|))
    ensures Slot(Patch(img, APP_BASE + offset, Padded(data)))[..offset + |data|] == Slot(img)[..offset] + data
  {
    hide Patch;
    AlignedRoom(APP_BASE + offset, |data|);
    var base, p := APP_BASE - FLASH_BASE, Padded(data);
    var x := Patch(img, APP_BASE + offset, p);
    var t := Slot(img)[..offset] + data;
    forall k | 0 <= k < offset + |data|
      ensures Slot(x)[k] == t[k]
    {
      PatchedAt(img, APP_BASE + offset, p, base + k);
      assert Slot(x)[k] == x[base + k];
      if k >= offset {
        assert p[k - offset] == data[k - offset];
      } else {
        assert Slot(img)[k] == img[base + k];
      }
    }
  }

  // A write that succeeds appends; one that fails leaves everything below its address.
  lemma WriteAppends(f: Faults, img: Image, offset: nat, data: seq<Octet>, visited: seq<Image>, ok: bool)
    requires offset + |data| <= APP_SLOT_SIZE && data != []
    requires SlotWrite(f, img, offset, data, visited, ok)
    ensures ok ==> Slot(Flash.Now(img, visited))[..offset + |data|] == Slot(img)[..offset] + data
    ensures !ok ==> Slot(Flash.Now(img, visited))[..offset] == Slot(img)[..offset]
  {
    if offset % 8 == 0 {
      if ok {
        SlotPatched(img, offset, data);
        assert Padded(data)[..RoundUp8(|data|)] == Padded(data);
      } else {
        var now := Flash.Now(img, visited);
        assert AgreeOutside(img, now, APP_BASE + offset, APP_BASE + offset + RoundUp8(|data|));
        SlotBelow(img, now, offset, APP_BASE + offset + RoundUp8(|data|));
      }
    }
  }

  lemma DownloadOpensBook(f: Faults, s: State, e: Event)
    requires Legal(f, s, e) && StartsDownload(e) && e.Request?
    ensures e.x'.Fits()
    ensures e.resp == DOWNLOAD_ACK ==> e.x'.written == 0 && e.x'.blockSeq == 1
  {
    hide RollbackCounter, UpdatingMeta, MetaRewrite, SlotErase, WithMeta, Dispatches, DownloadVerdict;
    var k, marked, ok := DownloadStep(f, s, e);
  }

  lemma BlockExtendsBook(f: Faults, b: Book, s: State, e: Event)
    requires BookInv(b, s) && Legal(f, s, e) && SendsBlock(s, e) && e.Request?
    ensures BookInv(BookAfter(b, s, e), After(s, e))
  {
    hide SlotWrite, Slot, Dispatches, Flatten, Crc, AppCrcOk, BigEndian, Patch;
    var ok := BlockStep(f, s, e);
    assert |Refusal(SID_TRANSFER, NRC_PROGRAMMING)| == 3;
    WriteAppends(f, s.flash, s.x.written, e.req[2..], e.visited, ok);
    FlattenMore(b.blocks, e.req[2..]);
  }

  lemma BookStep(f: Faults, b: Book, s: State, e: Event)
    requires BookInv(b, s) && Legal(f, s, e)
    ensures BookInv(BookAfter(b, s, e), After(s, e))
  {
    hide Slot, Dispatches, Crc, DownloadVerdict, TransferVerdict, CheckVerdict, MetaRewrite;
    if e.Request? {
      if StartsDownload(e) {
        DownloadOpensBook(f, s, e);
      } else if SendsBlock(s, e) {
        BlockExtendsBook(f, b, s, e);
      } else if PassesCheck(s, e) {
        var ok := CheckStep(f, s, e);
        MarkerKeepsSlot(f, s.flash, ValidMeta(s, e.req), e.visited, ok);
      } else {
        QuietStep(f, s, e);
      }
    }
  }

  lemma {:induction false} BookRun(f: Faults, b: Book, s: State, es: seq<Event>)
    requires BookInv(b, s) && Run(f, s, es)
    ensures BookInv(BookAtEnd(f, b, s, es), Final(f, s, es))
    decreases |es|
  {
    if es != [] {
      BookStep(f, b, s, es[0]);
      BookRun(f, BookAfter(b, s, es[0]), After(s, es[0]), es[1..]);
    }
  }

  // Over any run, under every fault model: between a 0x34 answered 0x74 and the next 0x34
  // the slot begins with the acknowledged payloads, one after another, and s_xfer_written is
  // their total.
  lemma AcknowledgedIsFlashed(f: Faults, s: State, es: seq<Event>)
    requires s.x == NO_XFER && Run(f, s, es)
    ensures var b := BookAtEnd(f, Book(false, []), s, es);
            var end := Final(f, s, es);
            b.counting ==> end.x.Fits() && end.x.written == |Flatten(b.blocks)|
                           && Slot(end.flash)[..end.x.written] == Flatten(b.blocks)
  {
    BookRun(f, Book(false, []), s, es);
  }

  // The k-th block acknowledged carries the counter k mod 256.
  lemma BlockCounter(f: Faults, s: State, es: seq<Event>, e: Event)
    requires s.x == NO_XFER && Run(f, s, es) && Legal(f, Final(f, s, es), e)
    requires SendsBlock(Final(f, s, es), e) && BookAtEnd(f, Book(false, []), s, es).counting
    ensures e.req[1] == (|BookAtEnd(f, Book(false, []), s, es).blocks| + 1) % 0x100
  {
    BookRun(f, Book(false, []), s, es);
  }

  // No 0x36, whatever its outcome, touches a byte outside the slot.
  lemma BlockStaysInSlot(f: Faults, s: State, e: Event)
    requires Legal(f, s, e) && (e.Request? || e.PowerLoss?) && e.req[0] == SID_TRANSFER
    ensures AllAgreeOutside(s.flash, e.visited, APP_BASE, META_BASE)
  {
    if SendsBlock(s, e) {
      hide SlotWrite, Dispatches;
      var ok := BlockStep(f, s, e);
      WriteKeepsMeta(f, s.flash, s.x.written, e.req[2..], e.visited, ok);
    }
  }

  // What CheckMemory accepts is what the tester sent: the last four octets of the request are
  // the checksum of the acknowledged payloads, highest first, and those payloads are the bytes
  // the VALID record will stand for.
  lemma CheckedIsSent(f: Faults, s: State, es: seq<Event>, e: Event)
    requires s.x == NO_XFER && Run(f, s, es) && Legal(f, Final(f, s, es), e)
    requires PassesCheck(Final(f, s, es), e) && BookAtEnd(f, Book(false, []), s, es).counting
    ensures var sent := Flatten(BookAtEnd(f, Book(false, []), s, es).blocks);
            && |e.req| == 12 && BigEndian(e.req[8..12]) == CrcNumber(Crc(sent))
            && (forall before :: AcceptedAfter(before, Final(f, s, es), e) == sent)
  {
    hide Dispatches, Slot, CheckVerdict, BigEndian, Crc;
    BookRun(f, Book(false, []), s, es);
    CheckPassesExactly(Final(f, s, es), e.req);
  }
}
