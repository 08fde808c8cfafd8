// What the octets of a flash request ask for, and what is answered: the formats of
// RequestDownload and of the CheckMemory routine, told without the code that parses them.

module FlashRequests {
  import opened Words
  import opened Crc32
  import opened Flash
  import opened BootGate
  import opened FlashServer
  import opened UpdateRuns

  // ----- 0x34 -----

  // A request for `size` bytes at `addr`, in fields of these widths.
  function DownloadRequest(addr: nat, al: nat, size: nat, sl: nat): (req: seq<Octet>)
    requires 1 <= al <= 4 && 1 <= sl <= 4
  {
    [SID_DOWNLOAD, 16 * sl + al] + BigOctets(addr, al) + BigOctets(size, sl)
  }

  // Whatever the widths, and whatever comes behind: exactly the application slot from its
  // start is granted, up to its size.
  lemma DownloadAsked(addr: nat, al: nat, size: nat, sl: nat, tail: seq<Octet>)
    requires 1 <= al <= 4 && 1 <= sl <= 4 && addr < Range(al) && size < Range(sl)
    ensures DownloadVerdict(DownloadRequest(addr, al, size, sl) + tail) ==
            if addr == APP_BASE && 0 < size <= APP_SLOT_SIZE then Take(size) else Refuse(NRC_RANGE)
  {
    hide BigEndian, BigOctets, Range;
    BigOctetsRead(addr, al);
    BigOctetsRead(size, sl);
    FieldsOf(BigOctets(addr, al), BigOctets(size, sl), tail);
    Nibbles(sl, al);
  }

  lemma SliceOfThree(a: seq<Octet>, b: seq<Octet>, c: seq<Octet>)
    ensures (a + b + c)[|a|..|a| + |b|] == b
  {
  }

  lemma FieldsOf(a: seq<Octet>, s: seq<Octet>, tail: seq<Octet>)
    requires 1 <= |a| <= 4 && 1 <= |s| <= 4
    ensures var req := [SID_DOWNLOAD, 16 * |s| + |a|] + a + s + tail;
            && |req| >= 2 + |a| + |s| && req[1] == 16 * |s| + |a|
            && req[2..2 + |a|] == a && req[2 + |a|..2 + |a| + |s|] == s
  {
    var head := [SID_DOWNLOAD, 16 * |s| + |a|];
    SliceOfThree(head, a, s + tail);
    assert head + a + s + tail == head + a + (s + tail);
    SliceOfThree(head + a, s, tail);
  }

  lemma Nibbles(high: nat, low: nat)
    requires low < 16
    ensures (16 * high + low) % 16 == low && (16 * high + low) / 16 == high
  {
  }

  // Every request is of that form, or its widths are out of range, or it is too short.
  lemma DownloadFormats(req: seq<Octet>)
    requires |req| >= 2 && req[0] == SID_DOWNLOAD
    ensures var al, sl := req[1] % 16, req[1] / 16;
            if |req| == 2 then DownloadVerdict(req) == Refuse(NRC_LENGTH)
            else if !(1 <= al <= 4 && 1 <= sl <= 4) then DownloadVerdict(req) == Refuse(NRC_RANGE)
            else if |req| < 2 + al + sl then DownloadVerdict(req) == Refuse(NRC_LENGTH)
            else exists addr: nat, size: nat ::
              && addr < Range(al) && size < Range(sl)
              && req == DownloadRequest(addr, al, size, sl) + req[2 + al + sl..]
  {
    hide BigEndian, BigOctets, Range;
    var al, sl := req[1] % 16, req[1] / 16;
    if |req| >= 3 && 1 <= al <= 4 && 1 <= sl <= 4 && |req| >= 2 + al + sl {
      var a, s := req[2..2 + al], req[2 + al..2 + al + sl];
      BigEndianPrinted(a);
      BigEndianPrinted(s);
      assert req == [SID_DOWNLOAD, 16 * sl + al] + a + s + req[2 + al + sl..];
      assert req == DownloadRequest(BigEndian(a), al, BigEndian(s), sl) + req[2 + al + sl..];
    }
  }

  // A 0x34 answered 0x74 has blanked what it was asked for and opened a transfer of that size,
  // with the marker in place; any other answer opens none.
  lemma DownloadLeavesBlank(f: Faults, s: State, e: Event)
    requires Legal(f, s, e) && StartsDownload(e) && e.Request?
    ensures e.resp == [0x74, 0x22, 0x00, 0xF8] || e.resp == [0x7F, 0x34, 0x72]
    ensures e.resp[0] == 0x74 ==>
      var n := DownloadVerdict(e.req).size;
      && Slot(After(s, e).flash)[..n] == Blank(n)
      && MetaOf(After(s, e).flash) == Meta(0x4D42_4C4D, 0x5555_5555, RollbackCounter(s.flash), 0, 0)
      && e.x' == Xfer(true, false, n, 0, 1, RollbackCounter(s.flash))
    ensures e.resp[0] == 0x7F ==> e.x' == s.x.(saved := RollbackCounter(s.flash))
  {
    hide RollbackCounter, MetaRewrite, SlotErase, WithMeta, MetaOf, Slot, Dispatches, DownloadVerdict;
    var k, marked, ok := DownloadStep(f, s, e);
    if marked && ok {
      var m, n := UpdatingMeta(RollbackCounter(s.flash)), DownloadVerdict(e.req).size;
      MarkerKeepsSlot(f, s.flash, m, e.visited[..k], true);
      EraseKeepsMeta(f, WithMeta(s.flash, m), n, e.visited[k..], ok);
      EraseBlanks(f, WithMeta(s.flash, m), n, e.visited[k..]);
      assert e.visited == e.visited[..k] + e.visited[k..];
    }
  }

  lemma EraseBlanks(f: Faults, img: Image, size: nat, visited: seq<Image>)
    requires 0 < size <= APP_SLOT_SIZE && SlotErase(f, img, size, visited, true)
    ensures visited != [] && Slot(Flash.Now(img, visited))[..size] == Blank(size)
  {
    hide PagesFor, Patch;
    SomePages(size);
    assert PageStart(APP_BASE) == APP_BASE;
    EraseReaches(!f.Stepwise?, img, APP_BASE, size, visited, true);
    var x := Flash.Now(img, visited);
    forall i | 0 <= i < size
      ensures Slot(x)[i] == ERASED
    {
      assert Slot(x)[i] == x[APP_BASE - FLASH_BASE + i];
    }
  }

  // ----- CheckMemory -----

  // A checksum as a number.
  function CrcNumber(c: bv32): (n: nat)
    ensures n < WORD_LIMIT
  {
    WordAt(BitsOctets(c), 0)
  }

  lemma PartsJoin(b0: bv8, b1: bv8, b2: bv8, b3: bv8)
    ensures BitsPart(JoinBits(b0, b1, b2, b3), 0) == b0 && BitsPart(JoinBits(b0, b1, b2, b3), 1) == b1
    ensures BitsPart(JoinBits(b0, b1, b2, b3), 2) == b2 && BitsPart(JoinBits(b0, b1, b2, b3), 3) == b3
  {
  }

  lemma OctetsOfBits(t: seq<Octet>)
    requires |t| == 4
    ensures BitsOctets(BitsAt(t, 0)) == t
  {
    hide ToBits, FromBits, BitsPart, JoinBits;
    PartsJoin(ToBits(t[0]), ToBits(t[1]), ToBits(t[2]), ToBits(t[3]));
    FromToBits(t[0]);
    FromToBits(t[1]);
    FromToBits(t[2]);
    FromToBits(t[3]);
  }

  lemma BitsOfOctets(c: bv32)
    ensures BitsAt(BitsOctets(c), 0) == c
  {
    assert BitsOctets(c)[0..4] == BitsOctets(c);
    BitsWindow(BitsOctets(c), 0, c);
  }

  // The four octets of a request name a checksum as one number, highest octet first, and an
  // answer names it in the same octets.
  lemma ChecksumNamed(req: seq<Octet>, c: bv32)
    requires |req| == 12
    ensures BitsBigEndian(req, 8) == c <==> BigEndian(req[8..12]) == CrcNumber(c)
    ensures BitsBigEndian(req, 8) == c <==> CrcOctets(c) == req[8..12]
  {
    hide BitsOctets, BitsAt;
    var t := [req[11], req[10], req[9], req[8]];
    var o := BitsOctets(c);
    FourBigEndian(req[8..12]);
    OctetsOfBits(t);
    BitsOfOctets(c);
    if BigEndian(req[8..12]) == CrcNumber(c) {
      JoinInjective(t[0], t[1], t[2], t[3], o[0], o[1], o[2], o[3]);
      assert t == o;
    }
    if CrcOctets(c) == req[8..12] {
      assert req[8..12][0] == o[3] && req[8..12][1] == o[2] && req[8..12][2] == o[1] && req[8..12][3] == o[0];
      assert t == o;
    }
  }

  // When CheckMemory passes, told from the request and the state.
  predicate Passes(s: State, req: seq<Octet>)
    requires s.x.Fits()
  {
    && |req| == 12 && req[1] % 0x80 == 0x01 && req[2] == 0x02 && req[3] == 0x03
    && s.x.active && s.x.closed && s.x.written > 0
    && BigEndian(req[4..8]) >= s.x.saved
    && BigEndian(req[8..12]) == CrcNumber(Crc(Slot(s.flash)[..s.x.written]))
  }

  lemma CheckPassesExactly(s: State, req: seq<Octet>)
    requires s.x.Fits()
    ensures CheckVerdict(s, req).Take? <==> Passes(s, req)
  {
    hide Crc, Slot, BigEndian, BitsBigEndian, CrcNumber;
    if |req| == 12 {
      ChecksumNamed(req, Crc(Slot(s.flash)[..s.x.written]));
    }
  }

  lemma CheckValueNumber()
    ensures CrcNumber(0xCBF4_3926) == 0xCBF4_3926
  {
    hide FromBits, ToBits;
    assert BitsPart(0xCBF4_3926, 0) == 0x26 && BitsPart(0xCBF4_3926, 1) == 0x39;
    assert BitsPart(0xCBF4_3926, 2) == 0xF4 && BitsPart(0xCBF4_3926, 3) == 0xCB;
    ByteIs(0x26, 0x26);
    ByteIs(0x39, 0x39);
    ByteIs(0xF4, 0xF4);
    ByteIs(0xCB, 0xCB);
  }

  // For instance: nine digits written and closed, checked by their known value.
  lemma NineDigitsPass(s: State, version: nat, req: seq<Octet>)
    requires s.x.Fits() && s.x.active && s.x.closed && s.x.written == 9 && Slot(s.flash)[..9] == NINE_DIGITS
    requires s.x.saved <= version < WORD_LIMIT
    requires req == [0x31, 0x01, 0x02, 0x03] + BigOctets(version, 4) + [0xCB, 0xF4, 0x39, 0x26]
    ensures CheckVerdict(s, req) == Take(9)
  {
    hide Crc, Slot, BigEndian, BigOctets, CrcNumber;
    CheckValue();
    CheckValueNumber();
    assert Range(4) == 0x100 * Range(3) && Range(2) == 0x100 * Range(1);
    BigOctetsRead(version, 4);
    assert req[4..8] == BigOctets(version, 4) && req[8..12] == [0xCB, 0xF4, 0x39, 0x26];
    FourBigEndian(req[8..12]);
    CheckPassesExactly(s, req);
  }

  // What CheckMemory leaves and answers: a request that does not pass changes nothing; one
  // that does makes the slot startable under the version it named and returns the checksum in
  // the octets it came in, or fails in the meta page and is answered 0x72.
  lemma CheckAnswered(f: Faults, s: State, e: Event)
    requires Legal(f, s, e) && Reaches(e, SID_ROUTINE) && e.Request?
    ensures !Passes(s, e.req) ==> After(s, e) == s && |e.resp| == 3 && e.resp[..2] == [0x7F, 0x31]
    ensures Passes(s, e.req) ==>
      var end := After(s, e);
      || (end.x == s.x && e.resp == [0x7F, 0x31, 0x72])
      || (&& end.x == s.x.(active := false)
          && e.resp == (if e.req[1] >= 0x80 then [] else [0x71, 0x01, 0x02, 0x03] + e.req[8..12])
          && Slot(end.flash) == Slot(s.flash) && AppCrcOk(end.flash)
          && MetaOf(end.flash) == Meta(0x4D42_4C4D, 0xAAAA_AAAA, BigEndian(e.req[4..8]), s.x.written,
                                       Crc(Slot(s.flash)[..s.x.written])))
  {
    hide MetaRewrite, Crc, Slot, WithMeta, MetaOf, BigEndian, CheckVerdict, Passes, BitsOctets;
    CheckPassesExactly(s, e.req);
    var r :| Serves(f, s, e.req, e.visited, e.x', r) && e.resp == Suppressed(e.req, r);
    if Passes(s, e.req) {
      var ok :| CheckEnds(f, s, e.req, e.visited, e.x', r, ok);
      CheckNames(s, e.req);
      CheckRecords(f, s, e.req, e.visited, ok);
    }
  }

  lemma CheckNames(s: State, req: seq<Octet>)
    requires s.x.Fits() && Passes(s, req)
    ensures |req| == 12 && CrcOctets(ValidMeta(s, req).crc) == req[8..12]
  {
    hide Crc, Slot, BigEndian, CrcOctets, CrcNumber;
    ChecksumNamed(req, Crc(Slot(s.flash)[..s.x.written]));
  }

  lemma CheckRecords(f: Faults, s: State, req: seq<Octet>, visited: seq<Image>, ok: bool)
    requires s.x.Fits() && |req| == 12 && s.x.written > 0 && MetaRewrite(f, s.flash, ValidMeta(s, req), visited, ok)
    ensures ok ==> Slot(Flash.Now(s.flash, visited)) == Slot(s.flash) && AppCrcOk(Flash.Now(s.flash, visited))
    ensures ok ==> MetaOf(Flash.Now(s.flash, visited)) == ValidMeta(s, req)
  {
    hide MetaRewrite, Crc, Slot, WithMeta, MetaOf, BigEndian;
    MarkerKeepsSlot(f, s.flash, ValidMeta(s, req), visited, ok);
  }

  // ----- Refusals -----

  // Nobody gets to the flash without a physical request in an unlocked programming session.
  lemma GateAnswers(f: Faults, s: State, e: Event)
    requires Legal(f, s, e) && e.Request? && !(!e.a.functional && e.a.programming && e.a.unlocked)
    ensures After(s, e) == s && e.visited == []
    ensures e.resp == if e.a.functional then []
                      else [0x7F, e.req[0], if e.a.programming then 0x33 else 0x7F]
  {
  }

  // A block is taken exactly in its turn and within the announced size; a refused one changes
  // nothing, and one that fails in the flash may be sent again.
  lemma BlockAnswered(f: Faults, s: State, e: Event)
    requires Legal(f, s, e) && Reaches(e, SID_TRANSFER) && e.Request?
    ensures var n := |e.req| - 2;
            var due := s.x.active && !s.x.closed && n > 0;
            if due && e.req[1] == s.x.blockSeq && s.x.written + n <= s.x.size
            then || (e.resp == [0x7F, 0x36, 0x72] && e.x' == s.x)
                 || (&& e.resp == [0x76, e.req[1]]
                     && e.x' == s.x.(written := s.x.written + n, blockSeq := (s.x.blockSeq + 1) % 0x100))
            else && After(s, e) == s
                 && e.resp == [0x7F, 0x36, if !due then 0x22 else if e.req[1] != s.x.blockSeq then 0x73 else 0x71]
  {
    hide SlotWrite;
    if SendsBlock(s, e) {
      var ok := BlockStep(f, s, e);
    }
  }

  // 0x37 closes a transfer that is open, and only that.
  lemma ExitAnswered(f: Faults, s: State, e: Event)
    requires Legal(f, s, e) && Reaches(e, SID_EXIT) && e.Request?
    ensures After(s, e).flash == s.flash
    ensures if s.x.active && !s.x.closed then After(s, e).x == s.x.(closed := true) && e.resp == [0x77]
            else After(s, e).x == s.x && e.resp == [0x7F, 0x37, 0x22]
  {
  }

  // ----- What the boot code makes of a record and of vectors -----

  // A record just written is checked exactly if magic and state are those of a VALID one, its
  // size is one the slot can have, and its checksum is that of as many slot bytes.
  lemma RecordChecked(img: Image, m: Meta)
    requires m.Fits()
    ensures AppCrcOk(WithMeta(img, m)) <==>
            && m.magic == 0x4D42_4C4D && m.state == 0xAAAA_AAAA && 1 <= m.size <= 0x17000
            && m.crc == Crc(Slot(img)[..m.size])
    ensures RollbackCounter(WithMeta(img, m)) ==
            if m.magic == 0x4D42_4C4D && m.state in {0x5555_5555, 0xAAAA_AAAA} then m.version else 0
  {
    hide Crc, Slot, WithMeta, MetaOf;
    WithMetaReads(img, m);
  }

  // The meta page counts as absent exactly if the twenty bytes of a record are all 0xFF.
  lemma AbsentExactly(img: Image)
    ensures MetaAbsent(img) <==> forall i :: 0x1E000 <= i < 0x1E014 ==> img[i] == 0xFF
  {
    hide WordAt;
    var b := Bytes(img, META_BASE, META_BYTES);
    forall j | 0 <= j < META_BYTES / 4
      ensures WordAt(b, 4 * j) == WORD_ERASED <==> forall i :: 0x1E000 + 4 * j <= i < 0x1E004 + 4 * j ==> img[i] == 0xFF
    {
      ErasedWordExactly(img, j);
    }
    forall i | 0x1E000 <= i < 0x1E014
      ensures MetaAbsent(img) ==> img[i] == 0xFF
    {
      var j := (i - 0x1E000) / 4;
      assert 0x1E000 + 4 * j <= i < 0x1E004 + 4 * j;
      assert MetaAbsent(img) ==> WordAt(b, 4 * j) == WORD_ERASED;
    }
  }

  lemma ErasedWordExactly(img: Image, j: nat)
    requires j < META_BYTES / 4
    ensures WordAt(Bytes(img, META_BASE, META_BYTES), 4 * j) == WORD_ERASED <==>
            forall i :: 0x1E000 + 4 * j <= i < 0x1E004 + 4 * j ==> img[i] == 0xFF
  {
    var b, k := Bytes(img, META_BASE, META_BYTES), 0x1E000 + 4 * j;
    assert b[4 * j] == img[k] && b[4 * j + 1] == img[k + 1] && b[4 * j + 2] == img[k + 2] && b[4 * j + 3] == img[k + 3];
    AllOnes(img[k], img[k + 1], img[k + 2], img[k + 3]);
  }

  lemma AllOnes(a: Octet, b: Octet, c: Octet, d: Octet)
    ensures Join(a, b, c, d) == WORD_ERASED <==> a == 0xFF && b == 0xFF && c == 0xFF && d == 0xFF
  {
  }

  // Vectors written as two words, lowest byte first, are plausible exactly if the first lies in
  // RAM, its end included, and the second is odd and lies in the slot.
  lemma VectorsExactly(sp: nat, reset: nat, slot: seq<Octet>)
    requires sp < WORD_LIMIT && reset < WORD_LIMIT && |slot| == APP_SLOT_SIZE
    requires slot[..8] == WordOctets(sp) + WordOctets(reset)
    ensures Plausible(slot) <==>
            0x2000_0000 <= sp <= 0x2000_8000 && 0x0800_7000 <= reset < 0x0801_E000 && reset % 2 == 1
  {
    hide WordOctets, WordAt;
    assert slot[0..4] == slot[..8][0..4] == WordOctets(sp);
    assert slot[4..8] == slot[..8][4..8] == WordOctets(reset);
    WordWindow(slot, 0, sp);
    WordWindow(slot, 4, reset);
  }
}
