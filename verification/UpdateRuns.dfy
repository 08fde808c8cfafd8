// Whole runs of the bootloader: requests in any order, power lost at any content the flash
// passes through, reboots, dropped transfers. What the VALID record stands for, and that the
// anti-rollback counter never falls. What may ever be started is in CrashSafety.

module UpdateRuns {
  import opened Words
  import opened Crc32
  import opened Flash
  import opened BootGate
  import opened FlashServer

  // A request carries what it did; PowerLoss carries what it would have done and how many
  // of the contents were reached. Drop is BL_UDS_ResetTransfer.
  datatype Event =
    | Request(a: Access, req: seq<Octet>, visited: seq<Image>, x': Xfer, resp: seq<Octet>)
    | PowerLoss(a: Access, req: seq<Octet>, visited: seq<Image>, x': Xfer, resp: seq<Octet>, reached: nat)
    | Drop
    | Reboot

  ghost predicate Legal(f: Faults, s: State, e: Event) {
    && s.x.Fits()
    && (e.Request? || e.PowerLoss? ==>
          && e.req != [] && IsFlashService(e.req)
          && Dispatches(f, s, e.a, e.req, e.visited, e.x', e.resp))
    && (e.PowerLoss? ==> e.reached <= |e.visited|)
  }

  function After(s: State, e: Event): State
    requires e.PowerLoss? ==> e.reached <= |e.visited|
  {
    match e
    case Request(_, _, visited, x', _) => State(Flash.Now(s.flash, visited), x')
    case PowerLoss(_, _, visited, _, _, k) => State(Flash.Now(s.flash, visited[..k]), NO_XFER)
    case Drop => s.(x := NO_XFER.(saved := s.x.saved))
    case Reboot => s.(x := NO_XFER)
  }

  ghost predicate Run(f: Faults, s: State, es: seq<Event>)
    decreases |es|
  {
    es == [] || (Legal(f, s, es[0]) && Run(f, After(s, es[0]), es[1..]))
  }

  ghost function Final(f: Faults, s: State, es: seq<Event>): State
    requires Run(f, s, es)
    decreases |es|
  {
    if es == [] then s else Final(f, After(s, es[0]), es[1..])
  }

  // The request got past session and security to the service of this identifier.
  predicate Reaches(e: Event, sid: Octet) {
    (e.Request? || e.PowerLoss?) && e.req != [] && e.req[0] == sid && e.a.Granted()
  }

  predicate StartsDownload(e: Event) {
    Reaches(e, SID_DOWNLOAD) && DownloadVerdict(e.req).Take?
  }

  predicate SendsBlock(s: State, e: Event)
    requires s.x.Fits()
  {
    Reaches(e, SID_TRANSFER) && TransferVerdict(s.x, e.req).Take?
  }

  predicate PassesCheck(s: State, e: Event)
    requires s.x.Fits()
  {
    Reaches(e, SID_ROUTINE) && CheckVerdict(s, e.req).Take?
  }

  // ----- One step, service by service -----

  // Everything a request that is not one of the three writing services does.
  lemma QuietStep(f: Faults, s: State, e: Event)
    requires Legal(f, s, e)
    requires !StartsDownload(e) && !SendsBlock(s, e) && !PassesCheck(s, e)
    ensures After(s, e).flash == s.flash
    ensures After(s, e).x.Fits()
    ensures After(s, e).x.active ==> s.x.active && After(s, e).x.saved == s.x.saved
    ensures After(s, e).x.Open() ==> s.x.Open()
    ensures e.Request? ==> After(s, e).x == s.x || After(s, e).x == s.x.(closed := true)
  {
  }

  lemma DownloadStep(f: Faults, s: State, e: Event) returns (k: nat, marked: bool, ok: bool)
    requires Legal(f, s, e) && StartsDownload(e)
    ensures !marked ==> DownloadMarkerFails(f, s, e.visited, e.x', e.resp)
    ensures marked ==> DownloadErases(f, s, DownloadVerdict(e.req).size, e.visited, e.x', e.resp, k, ok)
  {
    hide RollbackCounter, UpdatingMeta, MetaRewrite, SlotErase, WithMeta;
    var r :| Serves(f, s, e.req, e.visited, e.x', r) && e.resp == Suppressed(e.req, r);
    var size := DownloadVerdict(e.req).size;
    assert Download(f, s, size, e.visited, e.x', e.resp);
    if DownloadMarkerFails(f, s, e.visited, e.x', e.resp) {
      k, marked, ok := 0, false, false;
    } else {
      k, ok :| DownloadErases(f, s, size, e.visited, e.x', e.resp, k, ok);
      marked := true;
    }
  }

  lemma BlockStep(f: Faults, s: State, e: Event) returns (ok: bool)
    requires Legal(f, s, e) && SendsBlock(s, e)
    ensures TransferEnds(f, s, e.req, e.visited, e.x', e.resp, ok)
  {
    hide SlotWrite;
    var r :| Serves(f, s, e.req, e.visited, e.x', r) && e.resp == Suppressed(e.req, r);
    ok :| TransferEnds(f, s, e.req, e.visited, e.x', e.resp, ok);
  }

  lemma CheckStep(f: Faults, s: State, e: Event) returns (ok: bool)
    requires Legal(f, s, e) && PassesCheck(s, e)
    ensures MetaRewrite(f, s.flash, ValidMeta(s, e.req), e.visited, ok)
    ensures e.x' == if ok then s.x.(active := false) else s.x
  {
    hide MetaRewrite, Crc, BitsOctets;
    var r :| Serves(f, s, e.req, e.visited, e.x', r) && e.resp == Suppressed(e.req, r);
    ok :| CheckEnds(f, s, e.req, e.visited, e.x', r, ok);
  }

  // ----- What each flash operation can and cannot change -----

  ghost predicate SameSlot(img: Image, visited: seq<Image>) {
    forall x :: x in visited ==> Slot(x) == Slot(img)
  }

  ghost predicate SameMeta(img: Image, visited: seq<Image>) {
    forall x :: x in visited ==> MetaOf(x) == MetaOf(img)
  }

  lemma MarkerKeepsSlot(f: Faults, img: Image, m: Meta, visited: seq<Image>, ok: bool)
    requires m.Fits() && MetaRewrite(f, img, m, visited, ok)
    ensures SameSlot(img, visited) && Slot(Flash.Now(img, visited)) == Slot(img)
    ensures ok ==> Flash.Now(img, visited) == WithMeta(img, m) && MetaOf(WithMeta(img, m)) == m
  {
    WithMetaReads(img, m);
    forall x | x in visited
      ensures Slot(x) == Slot(img)
    {
      assert AgreeOutside(img, x, META_BASE, META_BASE + PAGE_SIZE);
      AgreeKeepsBytes(img, x, META_BASE, META_BASE + PAGE_SIZE, APP_BASE, APP_SLOT_SIZE);
    }
  }

  lemma SlotWorkKeepsMeta(img: Image, visited: seq<Image>, lo: nat, hi: nat)
    requires AllAgreeOutside(img, visited, lo, hi) && hi <= META_BASE
    ensures SameMeta(img, visited) && MetaOf(Flash.Now(img, visited)) == MetaOf(img)
  {
    forall x | x in visited
      ensures MetaOf(x) == MetaOf(img)
    {
      AgreeKeepsBytes(img, x, lo, hi, META_BASE, META_BYTES);
    }
  }

  lemma EraseKeepsMeta(f: Faults, img: Image, size: nat, visited: seq<Image>, ok: bool)
    requires size <= APP_SLOT_SIZE && SlotErase(f, img, size, visited, ok)
    ensures AllAgreeOutside(img, visited, APP_BASE, META_BASE)
    ensures SameMeta(img, visited) && MetaOf(Flash.Now(img, visited)) == MetaOf(img)
  {
    var hi := APP_BASE + PagesFor(size) * PAGE_SIZE;
    assert hi <= META_BASE;
    SlotWorkKeepsMeta(img, visited, APP_BASE, hi);
  }

  lemma WriteKeepsMeta(f: Faults, img: Image, offset: nat, data: seq<Octet>, visited: seq<Image>, ok: bool)
    requires offset + |data| <= APP_SLOT_SIZE && SlotWrite(f, img, offset, data, visited, ok)
    ensures AllAgreeOutside(img, visited, APP_BASE, META_BASE)
    ensures SameMeta(img, visited) && MetaOf(Flash.Now(img, visited)) == MetaOf(img)
  {
    if offset % 8 == 0 {
      var n := offset + RoundUp8(|data|);
      assert n <= APP_SLOT_SIZE;
      SlotWorkKeepsMeta(img, visited, APP_BASE + offset, APP_BASE + n);
    } else {
      assert visited == [];
    }
  }

  lemma ReachedIsVisited(img: Image, visited: seq<Image>, k: nat)
    requires k <= |visited|
    ensures Flash.Now(img, visited[..k]) == img || Flash.Now(img, visited[..k]) in visited
  {
  }

  // ===== What the VALID record stands for, if the meta page is rewritten atomically =====

  function AcceptedAfter(accepted: seq<Octet>, s: State, e: Event): seq<Octet>
    requires s.x.Fits()
  {
    if PassesCheck(s, e) then Slot(s.flash)[..s.x.written] else accepted
  }

  ghost function AcceptedAtEnd(f: Faults, accepted: seq<Octet>, s: State, es: seq<Event>): seq<Octet>
    requires Run(f, s, es)
    decreases |es|
  {
    if es == [] then accepted else AcceptedAtEnd(f, AcceptedAfter(accepted, s, es[0]), After(s, es[0]), es[1..])
  }

  ghost predicate RecordHolds(accepted: seq<Octet>, img: Image) {
    IsValid(MetaOf(img)) && MetaOf(img).size <= APP_SLOT_SIZE ==> Slot(img)[..MetaOf(img).size] == accepted
  }

  // While a transfer is active the page holds exactly its marker, with the saved counter.
  ghost predicate RecordInv(accepted: seq<Octet>, s: State) {
    && s.x.Fits()
    && (s.x.active ==> MetaOf(s.flash) == UpdatingMeta(s.x.saved))
    && RecordHolds(accepted, s.flash)
  }

  lemma CounterOfMarker(img: Image, saved: nat)
    requires saved < WORD_LIMIT && MetaOf(img) == UpdatingMeta(saved)
    ensures RollbackCounter(img) == saved && !IsValid(MetaOf(img))
  {
  }

  ghost predicate StepKeepsRecord(accepted: seq<Octet>, s: State, e: Event)
    requires Legal(AtomicMeta, s, e)
  {
    && RecordInv(AcceptedAfter(accepted, s, e), After(s, e))
    && RollbackCounter(After(s, e).flash) >= RollbackCounter(s.flash)
  }

  lemma MarkedImages(s: State, saved: nat, visited: seq<Image>)
    requires saved == RollbackCounter(s.flash)
    requires forall x :: x in visited ==> MetaOf(x) == UpdatingMeta(saved)
    ensures forall x :: x in visited ==> !IsValid(MetaOf(x)) && RollbackCounter(x) == saved
  {
  }

  lemma DownloadKeepsRecord(accepted: seq<Octet>, s: State, e: Event)
    requires RecordInv(accepted, s) && Legal(AtomicMeta, s, e) && StartsDownload(e)
    ensures StepKeepsRecord(accepted, s, e)
  {
    hide RollbackCounter, SlotErase, WithMeta, UpdatingMeta, MetaOf, Slot, Dispatches, BigEndian, IsValid, AppCrcOk,
        Patch, DownloadVerdict, CheckVerdict, Crc;
    var saved := RollbackCounter(s.flash);
    if s.x.active {
      CounterOfMarker(s.flash, s.x.saved);
    }
    var k, marked, ok := DownloadStep(AtomicMeta, s, e);
    var m := UpdatingMeta(saved);
    if !marked {
      assert e.visited == [];
    } else {
      var img := WithMeta(s.flash, m);
      var first, more := e.visited[..k], e.visited[k..];
      assert first == [img] && e.visited == first + more;
      MarkerKeepsSlot(AtomicMeta, s.flash, m, first, true);
      EraseKeepsMeta(AtomicMeta, img, DownloadVerdict(e.req).size, more, ok);
      MarkedImages(s, saved, e.visited);
    }
    if e.PowerLoss? {
      ReachedIsVisited(s.flash, e.visited, e.reached);
    }
  }

  lemma BlockKeepsRecord(accepted: seq<Octet>, s: State, e: Event)
    requires RecordInv(accepted, s) && Legal(AtomicMeta, s, e) && SendsBlock(s, e)
    ensures StepKeepsRecord(accepted, s, e)
  {
    hide RollbackCounter, SlotWrite, UpdatingMeta, MetaOf, Slot, Dispatches, BigEndian, IsValid, AppCrcOk, Patch, Crc;
    CounterOfMarker(s.flash, s.x.saved);
    var ok := BlockStep(AtomicMeta, s, e);
    WriteKeepsMeta(AtomicMeta, s.flash, s.x.written, e.req[2..], e.visited, ok);
    MarkedImages(s, s.x.saved, e.visited);
    if e.PowerLoss? {
      ReachedIsVisited(s.flash, e.visited, e.reached);
    }
  }

  lemma CheckKeepsRecord(accepted: seq<Octet>, s: State, e: Event)
    requires RecordInv(accepted, s) && Legal(AtomicMeta, s, e) && PassesCheck(s, e)
    ensures StepKeepsRecord(accepted, s, e)
  {
    hide WithMeta, MetaOf, Slot, Dispatches, BigEndian, IsValid, AppCrcOk, Patch, Crc, UpdatingMeta, CheckVerdict,
        RollbackCounter;
    CheckHolds(s, e.req);
    CounterOfMarker(s.flash, s.x.saved);
    var ok := CheckStep(AtomicMeta, s, e);
    var m := ValidMeta(s, e.req);
    MarkerKeepsSlot(AtomicMeta, s.flash, m, e.visited, ok);
    if ok {
      CounterOfRecord(WithMeta(s.flash, m), m);
    }
    if e.PowerLoss? {
      assert e.visited[..e.reached] == [] || e.visited[..e.reached] == e.visited;
    }
  }

  // What CheckMemory has made sure of when it goes on to write.
  lemma CheckHolds(s: State, req: seq<Octet>)
    requires s.x.Fits() && CheckVerdict(s, req).Take?
    ensures s.x.active && |req| == 12 && BigEndian(req[4..8]) >= s.x.saved
  {
    hide BigEndian, Crc, Slot;
  }

  lemma CounterOfRecord(img: Image, m: Meta)
    requires MetaOf(img) == m && IsValid(m)
    ensures RollbackCounter(img) == m.version
  {
    hide MetaOf;
  }

  lemma RecordStep(accepted: seq<Octet>, s: State, e: Event)
    requires RecordInv(accepted, s) && Legal(AtomicMeta, s, e)
    ensures StepKeepsRecord(accepted, s, e)
  {
    if StartsDownload(e) {
      DownloadKeepsRecord(accepted, s, e);
    } else if SendsBlock(s, e) {
      BlockKeepsRecord(accepted, s, e);
    } else if PassesCheck(s, e) {
      CheckKeepsRecord(accepted, s, e);
    } else {
      hide RollbackCounter;
      QuietStep(AtomicMeta, s, e);
    }
  }

  lemma {:induction false} RecordRun(accepted: seq<Octet>, s: State, es: seq<Event>)
    requires RecordInv(accepted, s) && Run(AtomicMeta, s, es)
    ensures RecordInv(AcceptedAtEnd(AtomicMeta, accepted, s, es), Final(AtomicMeta, s, es))
    ensures RollbackCounter(Final(AtomicMeta, s, es).flash) >= RollbackCounter(s.flash)
    decreases |es|
  {
    if es != [] {
      RecordStep(accepted, s, es[0]);
      RecordRun(AcceptedAfter(accepted, s, es[0]), After(s, es[0]), es[1..]);
    }
  }

  // With an atomic meta rewrite, over all runs with any retries, losses and reboots: a VALID
  // record of a size the slot can hold describes exactly the bytes that CheckMemory accepted
  // last, or those the record stood for at the start if it has accepted none.
  lemma ValidMeansAccepted(s: State, es: seq<Event>)
    requires s.x == NO_XFER && Run(AtomicMeta, s, es)
    ensures var end := Final(AtomicMeta, s, es).flash;
            var n := MetaOf(end).size;
            var n0 := MetaOf(s.flash).size;
            IsValid(MetaOf(end)) && n <= APP_SLOT_SIZE ==>
              Slot(end)[..n]
              == AcceptedAtEnd(AtomicMeta, if n0 <= APP_SLOT_SIZE then Slot(s.flash)[..n0] else [], s, es)
  {
    var n0 := MetaOf(s.flash).size;
    RecordRun(if n0 <= APP_SLOT_SIZE then Slot(s.flash)[..n0] else [], s, es);
  }

  // With an atomic meta rewrite the anti-rollback counter never falls.
  lemma AntiRollback(s: State, es: seq<Event>)
    requires s.x == NO_XFER && Run(AtomicMeta, s, es)
    ensures RollbackCounter(Final(AtomicMeta, s, es).flash) >= RollbackCounter(s.flash)
  {
    var n0 := MetaOf(s.flash).size;
    RecordRun(if n0 <= APP_SLOT_SIZE then Slot(s.flash)[..n0] else [], s, es);
  }
}
