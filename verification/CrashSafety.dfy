// What the bootloader may ever start, over whole runs: the image it had or one that
// CheckMemory accepted. For every run if the meta page is rewritten atomically, else as far
// as each 0x34 finds a slot that is safe without its marker. CrashExactly shows that this
// cannot be said with less.

module CrashSafety {
  import opened Words
  import opened Crc32
  import opened Flash
  import opened BootGate
  import opened FlashServer
  import opened UpdateRuns
  import opened UpdateWindows
  import opened UnmarkedSlot

  // `good` is the set of complete images: the one the campaign started from and every one
  // that CheckMemory has accepted since.
  function GoodAfter(good: set<seq<Octet>>, s: State, e: Event): set<seq<Octet>>
    requires s.x.Fits()
  {
    if PassesCheck(s, e) then good + {Slot(s.flash)} else good
  }

  ghost function GoodAtEnd(f: Faults, good: set<seq<Octet>>, s: State, es: seq<Event>): set<seq<Octet>>
    requires Run(f, s, es)
    decreases |es|
  {
    if es == [] then good else GoodAtEnd(f, GoodAfter(good, s, es[0]), After(s, es[0]), es[1..])
  }

  // At the end of the run nothing but a complete image may be started.
  ghost predicate SafeEnd(f: Faults, good: set<seq<Octet>>, s: State, es: seq<Event>)
    requires Run(f, s, es)
  {
    var img := Final(f, s, es).flash;
    MayStart(img) ==> Slot(img) in GoodAtEnd(f, good, s, es)
  }

  // ----- When a 0x34 may be begun -----

  // With an atomic meta rewrite at any time. On a device that does each step or not, if the
  // slot needs no marker. On a tearing one over a complete slot with nothing left to write.
  ghost predicate MayBegin(f: Faults, good: set<seq<Octet>>, s: State)
    requires s.x.Fits()
  {
    match f
    case AtomicMeta => true
    case Stepwise => SafeUnmarked(good, s)
    case Tearing => Slot(s.flash) in good && Room(s.x) == 0
  }

  ghost predicate WellBegun(f: Faults, good: set<seq<Octet>>, s: State, es: seq<Event>)
    requires Run(f, s, es)
    decreases |es|
  {
    es == [] || (&& (StartsDownload(es[0]) ==> MayBegin(f, good, s))
                 && WellBegun(f, GoodAfter(good, s, es[0]), After(s, es[0]), es[1..]))
  }

  // ----- What every event keeps -----

  ghost predicate Settled(good: set<seq<Octet>>, s: State)
    requires s.x.Fits()
  {
    Slot(s.flash) in good && Room(s.x) == 0
  }

  // The marker stands, or the slot is complete and stays so, or the page is erased above a
  // slot that needs no marker.
  ghost predicate CrashInv(f: Faults, good: set<seq<Octet>>, s: State) {
    && s.x.Fits()
    && (|| IsUpdating(MetaOf(s.flash))
        || Settled(good, s)
        || (f.Stepwise? && MetaAbsent(s.flash) && SafeUnmarked(good, s)))
  }

  // Whether power lost at this content is survived.
  ghost predicate Survives(f: Faults, good: set<seq<Octet>>, img: Image) {
    CrashInv(f, good, State(img, NO_XFER))
  }

  ghost predicate AllSurvive(f: Faults, good: set<seq<Octet>>, visited: seq<Image>) {
    forall x :: x in visited ==> Survives(f, good, x)
  }

  // Less room, no more risk: the same slot with the transfer closed, dropped or as it was.
  lemma SafeWithLess(good: set<seq<Octet>>, s: State, t: State)
    requires s.x.Fits() && t.x.Fits() && SafeUnmarked(good, s) && Slot(t.flash) == Slot(s.flash)
    requires Room(t.x) == 0 || (Room(t.x) == Room(s.x) && t.x.written == s.x.written)
    ensures SafeUnmarked(good, t)
  {
    hide Plausible, Slot;
    NothingLaid(good, s);
    forall q | Fill(t.x, q)
      ensures SafeSlot(good, Overlaid(Slot(t.flash), t.x.written, q))
    {
      if q == [] {
        assert Overlaid(Slot(t.flash), t.x.written, q) == Slot(s.flash);
      } else {
        assert Fill(s.x, q);
      }
    }
  }

  lemma DropSurvives(f: Faults, good: set<seq<Octet>>, s: State)
    requires CrashInv(f, good, s)
    ensures Survives(f, good, s.flash)
  {
    hide MetaOf, Slot, MetaAbsent, IsUpdating;
    if SafeUnmarked(good, s) {
      SafeWithLess(good, s, State(s.flash, NO_XFER));
    }
  }

  // ----- 0x34 -----

  // What a marker that did not get in has left.
  lemma FailedMarker(f: Faults, good: set<seq<Octet>>, s: State, m: Meta, visited: seq<Image>, t: State)
    requires s.x.Fits() && MayBegin(f, good, s) && t.flash in visited
    requires m.Fits() && IsUpdating(m) && MetaRewrite(f, s.flash, m, visited, false)
    requires t.x.Fits() && t.x == s.x.(saved := t.x.saved)
    ensures CrashInv(f, good, t)
  {
    hide MetaOf, Slot, MetaAbsent, Print, SafeUnmarked;
    MarkerKeepsSlot(f, s.flash, m, visited, false);
    if f.Stepwise? {
      var i :| 0 <= i < |visited| && t.flash == visited[i];
      MarkerContent(s.flash, m, i);
      SafeWithLess(good, s, t);
    }
  }

  lemma MarkerContent(img: Image, m: Meta, i: nat)
    requires m.Fits() && IsUpdating(m) && i <= 3
    ensures if i == 0 then MetaAbsent(Partial(img, m, i)) else IsUpdating(MetaOf(Partial(img, m, i)))
  {
    hide MetaOf, MetaAbsent;
    PartialReads(img, m, i);
    if i == 0 {
      ErasedMetaIsAbsent(img, m);
    }
  }

  // A marker that got in, and everything on the way to it.
  lemma CompletedMarker(f: Faults, good: set<seq<Octet>>, s: State, m: Meta, visited: seq<Image>)
    requires s.x.Fits() && MayBegin(f, good, s)
    requires m.Fits() && IsUpdating(m) && MetaRewrite(f, s.flash, m, visited, true)
    ensures AllSurvive(f, good, visited)
    ensures visited != [] && Flash.Now(s.flash, visited) == WithMeta(s.flash, m)
    ensures MetaOf(WithMeta(s.flash, m)) == m
  {
    hide MetaOf, Slot, MetaAbsent, Print, SafeUnmarked, WithMeta;
    MarkerKeepsSlot(f, s.flash, m, visited, true);
    forall x | x in visited
      ensures Survives(f, good, x)
    {
      if f.Stepwise? {
        var i :| 0 <= i < |visited| && x == visited[i];
        if i <= 3 { MarkerContent(s.flash, m, i); }
        SafeWithLess(good, s, State(x, NO_XFER));
      }
    }
  }

  lemma MarkedSurvives(f: Faults, good: set<seq<Octet>>, img: Image, visited: seq<Image>)
    requires IsUpdating(MetaOf(img)) && SameMeta(img, visited)
    ensures AllSurvive(f, good, visited)
  {
    hide MetaOf, Slot, MetaAbsent, SafeUnmarked;
  }

  lemma DownloadIsCrashSafe(f: Faults, good: set<seq<Octet>>, s: State, e: Event)
    requires CrashInv(f, good, s) && Legal(f, s, e) && StartsDownload(e) && MayBegin(f, good, s)
    ensures AllSurvive(f, good, e.visited)
    ensures CrashInv(f, good, State(Flash.Now(s.flash, e.visited), e.x'))
  {
    hide RollbackCounter, MetaRewrite, SlotErase, WithMeta, MetaOf, Slot, Dispatches, DownloadVerdict, Crc, MayBegin,
        CrashInv, SafeUnmarked;
    var k, marked, ok := DownloadStep(f, s, e);
    if marked {
      MarkedDownload(f, good, s, e, k, ok);
    } else {
      UnmarkedDownload(f, good, s, e);
    }
  }

  lemma UnmarkedDownload(f: Faults, good: set<seq<Octet>>, s: State, e: Event)
    requires CrashInv(f, good, s) && Legal(f, s, e) && StartsDownload(e) && MayBegin(f, good, s)
    requires DownloadMarkerFails(f, s, e.visited, e.x', e.resp)
    ensures AllSurvive(f, good, e.visited)
    ensures CrashInv(f, good, State(Flash.Now(s.flash, e.visited), e.x'))
  {
    hide RollbackCounter, MetaRewrite, MetaOf, Slot, Dispatches, DownloadVerdict, Crc, MayBegin, SafeUnmarked,
        MetaAbsent;
    var m := UpdatingMeta(RollbackCounter(s.flash));
    forall x | x in e.visited
      ensures Survives(f, good, x) && CrashInv(f, good, State(x, e.x'))
    {
      FailedMarker(f, good, s, m, e.visited, State(x, e.x'));
      DropSurvives(f, good, State(x, e.x'));
    }
    if e.visited == [] && SafeUnmarked(good, s) {
      SafeWithLess(good, s, State(s.flash, e.x'));
    }
  }

  lemma MarkedDownload(f: Faults, good: set<seq<Octet>>, s: State, e: Event, k: nat, ok: bool)
    requires CrashInv(f, good, s) && Legal(f, s, e) && StartsDownload(e) && MayBegin(f, good, s)
    requires DownloadErases(f, s, DownloadVerdict(e.req).size, e.visited, e.x', e.resp, k, ok)
    ensures AllSurvive(f, good, e.visited)
    ensures CrashInv(f, good, State(Flash.Now(s.flash, e.visited), e.x'))
  {
    hide RollbackCounter, MetaRewrite, SlotErase, WithMeta, MetaOf, Slot, Dispatches, DownloadVerdict, Crc, MayBegin,
        SafeUnmarked, MetaAbsent, Survives;
    var m := UpdatingMeta(RollbackCounter(s.flash));
    var first, more := e.visited[..k], e.visited[k..];
    assert e.visited == first + more;
    CompletedMarker(f, good, s, m, first);
    EraseKeepsMeta(f, WithMeta(s.flash, m), DownloadVerdict(e.req).size, more, ok);
    MarkedSurvives(f, good, WithMeta(s.flash, m), more);
  }

  // ----- 0x36 -----

  lemma SlotOverlaid(img: Image, at: nat, q: seq<Octet>)
    requires at + |q| <= APP_SLOT_SIZE
    ensures Slot(Patch(img, APP_BASE + at, q)) == Overlaid(Slot(img), at, q)
  {
    hide Patch;
    var base, x := APP_BASE - FLASH_BASE, Patch(img, APP_BASE + at, q);
    forall k | 0 <= k < APP_SLOT_SIZE
      ensures Slot(x)[k] == Overlaid(Slot(img), at, q)[k]
    {
      PatchedAt(img, APP_BASE + at, q, base + k);
      assert Slot(x)[k] == x[base + k] && Slot(img)[k] == img[base + k];
    }
  }

  lemma OverlaidOn(slot: seq<Octet>, at: nat, p: seq<Octet>, q: seq<Octet>)
    requires at + |p| + |q| <= |slot|
    ensures Overlaid(Overlaid(slot, at, p), at + |p|, q) == Overlaid(slot, at, p + q)
  {
  }

  lemma NothingOverlaid(slot: seq<Octet>, at: nat)
    requires at <= |slot|
    ensures Overlaid(slot, at, []) == slot
  {
  }

  lemma OverlaidAgain(slot: seq<Octet>, at: nat, p: seq<Octet>, q: seq<Octet>)
    requires at + |p| <= |slot| && at + |q| <= |slot|
    ensures Overlaid(Overlaid(slot, at, p), at, q) == Overlaid(slot, at, if |q| >= |p| then q else q + p[|q|..])
  {
  }

  // The first j doublewords of a block are one of the fills.
  lemma BlockFills(x: Xfer, data: seq<Octet>, j: nat)
    requires x.Fits() && |data| <= Room(x) && 8 * j <= RoundUp8(|data|)
    ensures x.written + RoundUp8(|data|) <= APP_SLOT_SIZE
    ensures Fill(x, Padded(data)[..8 * j])
  {
  }

  // Laid over, another fill is one again.
  lemma FilledAgain(x: Xfer, p: seq<Octet>, q: seq<Octet>)
    requires x.Fits() && Fill(x, p) && Fill(x, q)
    ensures Fill(x, if |q| >= |p| then q else q + p[|q|..])
  {
  }

  lemma RoomBehind(x: Xfer, n: nat, y: Xfer)
    requires x.Fits() && 0 < n <= Room(x)
    requires y.Fits() && y.active == x.active && y.closed == x.closed && y.size == x.size && y.written == x.written + n
    ensures x.written % 8 == 0 && Room(y) == if n % 8 == 0 then Room(x) - n else 0
  {
  }

  lemma RoundUpMore(a: nat, b: nat)
    requires a % 8 == 0
    ensures RoundUp8(a + b) == a + RoundUp8(b) && RoundUp8(a) == a
  {
  }

  // So it is behind a block that is done.
  lemma FilledOn(x: Xfer, data: seq<Octet>, y: Xfer, q: seq<Octet>)
    requires x.Fits() && 0 < |data| <= Room(x)
    requires y.Fits() && y.active == x.active && y.closed == x.closed && y.size == x.size
    requires y.written == x.written + |data| && Fill(y, q)
    ensures if |data| % 8 == 0 then Padded(data) == data && Fill(x, data + q) else q == []
  {
    hide Room, RoundUp8;
    RoomBehind(x, |data|, y);
    if |data| % 8 == 0 {
      RoundUpMore(|data|, Room(y));
    } else {
      RoundUpMore(0, 0);
    }
  }

  lemma PartOfBlock(good: set<seq<Octet>>, s: State, data: seq<Octet>, j: nat)
    requires s.x.Fits() && SafeUnmarked(good, s) && |data| <= Room(s.x) && 8 * j <= RoundUp8(|data|)
    ensures s.x.written + 8 * j <= APP_SLOT_SIZE
    ensures SafeUnmarked(good, State(Patch(s.flash, APP_BASE + s.x.written, Padded(data)[..8 * j]), s.x))
  {
    hide Plausible, Slot, Overlaid, Patch, Padded, Room;
    BlockFills(s.x, data, j);
    var slot, w, p := Slot(s.flash), s.x.written, Padded(data)[..8 * j];
    SlotOverlaid(s.flash, w, p);
    forall q | Fill(s.x, q)
      ensures SafeSlot(good, Overlaid(Overlaid(slot, w, p), w, q))
    {
      FilledAgain(s.x, p, q);
      OverlaidAgain(slot, w, p, q);
    }
  }

  lemma WholeBlock(good: set<seq<Octet>>, s: State, data: seq<Octet>, y: Xfer)
    requires s.x.Fits() && SafeUnmarked(good, s) && 0 < |data| <= Room(s.x)
    requires y.Fits() && y.active == s.x.active && y.closed == s.x.closed && y.size == s.x.size
    requires y.written == s.x.written + |data|
    ensures s.x.written + |Padded(data)| <= APP_SLOT_SIZE
    ensures SafeUnmarked(good, State(Patch(s.flash, APP_BASE + s.x.written, Padded(data)), y))
  {
    hide Plausible, Slot, Overlaid, Patch, Padded;
    var slot, w, p := Slot(s.flash), s.x.written, Padded(data);
    BlockFills(s.x, data, |p| / 8);
    assert p[..|p|] == p;
    SlotOverlaid(s.flash, w, p);
    forall q | Fill(y, q)
      ensures SafeSlot(good, Overlaid(Overlaid(slot, w, p), y.written, q))
    {
      FilledOn(s.x, data, y, q);
      if q == [] {
        NothingOverlaid(Overlaid(slot, w, p), y.written);
      } else {
        OverlaidOn(slot, w, data, q);
      }
    }
  }

  lemma BlockInPlace(s: State, e: Event, ok: bool)
    requires s.x.Fits() && Reaches(e, SID_TRANSFER) && TransferVerdict(s.x, e.req).Take?
    requires TransferEnds(Stepwise, s, e.req, e.visited, e.x', e.resp, ok)
    ensures Room(s.x) == 0 ==> !ok && e.visited == []
    ensures Room(s.x) > 0 ==>
      var data := e.req[2..];
      && 0 < |data| <= Room(s.x) && 8 * |e.visited| <= RoundUp8(|data|)
      && InFlash(APP_BASE + s.x.written, RoundUp8(|data|))
      && (forall i :: 0 <= i < |e.visited| ==>
            e.visited[i] == Patch(s.flash, APP_BASE + s.x.written, Padded(data)[..8 * (i + 1)]))
      && (ok ==> 8 * |e.visited| == RoundUp8(|data|))
  {
    hide Patch, Padded, AllAgreeOutside;
  }

  lemma UnmarkedBlock(good: set<seq<Octet>>, s: State, e: Event)
    requires s.x.Fits() && SafeUnmarked(good, s) && Legal(Stepwise, s, e) && SendsBlock(s, e)
    ensures forall x :: x in e.visited ==>
              SafeUnmarked(good, State(x, s.x)) && AgreeOutside(s.flash, x, APP_BASE, META_BASE)
    ensures e.x'.Fits() && SafeUnmarked(good, State(Flash.Now(s.flash, e.visited), e.x'))
  {
    hide SafeUnmarked, Patch, Padded, SlotWrite, MetaOf;
    var ok := BlockStep(Stepwise, s, e);
    var data := e.req[2..];
    WriteKeepsMeta(Stepwise, s.flash, s.x.written, data, e.visited, ok);
    BlockInPlace(s, e, ok);
    forall i | 0 <= i < |e.visited|
      ensures SafeUnmarked(good, State(e.visited[i], s.x))
    {
      PartOfBlock(good, s, data, i + 1);
    }
    if ok {
      WholeBlock(good, s, data, e.x');
      assert Padded(data)[..RoundUp8(|data|)] == Padded(data);
    }
  }

  lemma BlockIsCrashSafe(f: Faults, good: set<seq<Octet>>, s: State, e: Event)
    requires CrashInv(f, good, s) && Legal(f, s, e) && SendsBlock(s, e)
    ensures AllSurvive(f, good, e.visited)
    ensures CrashInv(f, good, State(Flash.Now(s.flash, e.visited), e.x'))
  {
    hide SlotWrite, MetaOf, Slot, MetaAbsent, Dispatches, SafeUnmarked, Crc;
    if IsUpdating(MetaOf(s.flash)) {
      var ok := BlockStep(f, s, e);
      WriteKeepsMeta(f, s.flash, s.x.written, e.req[2..], e.visited, ok);
      MarkedSurvives(f, good, s.flash, e.visited);
    } else if Settled(good, s) {
      SettledBlock(f, good, s, e);
    } else {
      UnmarkedBlock(good, s, e);
      forall x | x in e.visited
        ensures Survives(f, good, x) && MetaAbsent(x)
      {
        StillAbsent(s.flash, x);
        DropSurvives(f, good, State(x, s.x));
      }
    }
  }

  lemma StillAbsent(img: Image, x: Image)
    requires AgreeOutside(img, x, APP_BASE, META_BASE) && MetaAbsent(img)
    ensures MetaAbsent(x)
  {
    hide Bytes, AgreeOutside;
    AgreeKeepsBytes(img, x, APP_BASE, META_BASE, META_BASE, META_BYTES);
  }

  lemma SettledBlock(f: Faults, good: set<seq<Octet>>, s: State, e: Event)
    requires s.x.Fits() && Settled(good, s) && Legal(f, s, e) && SendsBlock(s, e)
    ensures e.visited == [] && e.x' == s.x
  {
    hide Slot, Dispatches, Crc;
    var ok := BlockStep(f, s, e);
  }

  // ----- CheckMemory, and the rest -----

  lemma CheckIsCrashSafe(f: Faults, good: set<seq<Octet>>, s: State, e: Event)
    requires CrashInv(f, good, s) && Legal(f, s, e) && PassesCheck(s, e)
    ensures AllSurvive(f, good + {Slot(s.flash)}, e.visited)
    ensures Survives(f, good + {Slot(s.flash)}, s.flash)
    ensures CrashInv(f, good + {Slot(s.flash)}, State(Flash.Now(s.flash, e.visited), e.x'))
  {
    hide RollbackCounter, MetaRewrite, SlotErase, WithMeta, MetaOf, Slot, Dispatches, DownloadVerdict, Crc, ValidMeta;
    var ok := CheckStep(f, s, e);
    MarkerKeepsSlot(f, s.flash, ValidMeta(s, e.req), e.visited, ok);
  }

  lemma QuietIsCrashSafe(f: Faults, good: set<seq<Octet>>, s: State, e: Event)
    requires CrashInv(f, good, s) && Legal(f, s, e)
    requires !StartsDownload(e) && !SendsBlock(s, e) && !PassesCheck(s, e)
    ensures CrashInv(f, good, After(s, e))
  {
    hide MetaOf, Slot, MetaAbsent, Dispatches, SafeUnmarked, Crc, DownloadVerdict, TransferVerdict, CheckVerdict;
    QuietStep(f, s, e);
    if SafeUnmarked(good, s) {
      SafeWithLess(good, s, After(s, e));
    }
  }

  lemma CrashStep(f: Faults, good: set<seq<Octet>>, s: State, e: Event)
    requires CrashInv(f, good, s) && Legal(f, s, e) && (StartsDownload(e) ==> MayBegin(f, good, s))
    ensures CrashInv(f, GoodAfter(good, s, e), After(s, e))
  {
    hide Dispatches, CrashInv, Slot, MetaOf, Crc, DownloadVerdict, TransferVerdict, CheckVerdict, MayBegin;
    if StartsDownload(e) {
      DownloadIsCrashSafe(f, good, s, e);
      DropSurvives(f, good, s);
    } else if SendsBlock(s, e) {
      BlockIsCrashSafe(f, good, s, e);
      DropSurvives(f, good, s);
    } else if PassesCheck(s, e) {
      CheckIsCrashSafe(f, good, s, e);
    } else {
      QuietIsCrashSafe(f, good, s, e);
    }
    if e.PowerLoss? {
      ReachedIsVisited(s.flash, e.visited, e.reached);
    }
  }

  lemma {:induction false} CrashRun(f: Faults, good: set<seq<Octet>>, s: State, es: seq<Event>)
    requires CrashInv(f, good, s) && Run(f, s, es) && WellBegun(f, good, s, es)
    ensures CrashInv(f, GoodAtEnd(f, good, s, es), Final(f, s, es))
    ensures SafeEnd(f, good, s, es)
    decreases |es|
  {
    hide CrashInv, MayStart, StartsDownload, Dispatches, MayBegin;
    if es != [] {
      CrashStep(f, good, s, es[0]);
      CrashRun(f, GoodAfter(good, s, es[0]), After(s, es[0]), es[1..]);
    } else {
      InvIsSafe(f, good, s);
    }
  }

  lemma InvIsSafe(f: Faults, good: set<seq<Octet>>, s: State)
    requires CrashInv(f, good, s)
    ensures MayStart(s.flash) ==> Slot(s.flash) in good
  {
    hide Slot, MetaOf, MetaAbsent, MayStart, SafeUnmarked, Plausible, AppCrcOk;
    if IsUpdating(MetaOf(s.flash)) {
      UpdatingStays(s.flash);
    } else if !Settled(good, s) {
      NothingLaid(good, s);
      MayStartExactly(s.flash);
      AbsentNotChecked(s.flash);
    }
  }

  // ===== Crash safety =====

  // From any flash without a transfer under way, over any run in which each 0x34 that gets
  // through may be begun, under every fault model: whatever the flash holds when power is
  // lost or a boot happens, the bootloader stays, or starts a slot that is the old image or
  // one that CheckMemory accepted on the way.
  lemma CrashSafety(f: Faults, s: State, es: seq<Event>)
    requires s.x == NO_XFER && Run(f, s, es) && WellBegun(f, {Slot(s.flash)}, s, es)
    ensures SafeEnd(f, {Slot(s.flash)}, s, es)
  {
    CrashRun(f, {Slot(s.flash)}, s, es);
  }

  // With an atomic meta rewrite over every run, however often a 0x34 is repeated.
  lemma AnyRetries(s: State, es: seq<Event>)
    requires s.x == NO_XFER && Run(AtomicMeta, s, es)
    ensures SafeEnd(AtomicMeta, {Slot(s.flash)}, s, es)
  {
    hide SafeEnd, Dispatches;
    AlwaysWellBegun({Slot(s.flash)}, s, es);
    CrashSafety(AtomicMeta, s, es);
  }

  lemma {:induction false} AlwaysWellBegun(good: set<seq<Octet>>, s: State, es: seq<Event>)
    requires Run(AtomicMeta, s, es)
    ensures WellBegun(AtomicMeta, good, s, es)
    decreases |es|
  {
    hide Dispatches, StartsDownload;
    if es != [] {
      AlwaysWellBegun(GoodAfter(good, s, es[0]), After(s, es[0]), es[1..]);
    }
  }

  ghost predicate NoDownload(es: seq<Event>) {
    forall e :: e in es ==> !StartsDownload(e)
  }

  lemma {:induction false} NothingBegun(f: Faults, good: set<seq<Octet>>, s: State, es: seq<Event>)
    requires Run(f, s, es) && NoDownload(es)
    ensures WellBegun(f, good, s, es)
    decreases |es|
  {
    hide Dispatches, StartsDownload;
    if es != [] {
      NothingBegun(f, GoodAfter(good, s, es[0]), After(s, es[0]), es[1..]);
    }
  }

  lemma IdleMayBegin(f: Faults, s: State)
    requires s.x == NO_XFER
    ensures MayBegin(f, {Slot(s.flash)}, s)
  {
    hide Plausible;
    RepeatIsSafe({Slot(s.flash)}, s);
  }

  // One attempt: a 0x34, then anything but another 0x34 that gets through, power losses and
  // reboots included. No assumption is left.
  lemma OneAttempt(f: Faults, s: State, es: seq<Event>)
    requires s.x == NO_XFER && es != [] && Run(f, s, es) && NoDownload(es[1..])
    ensures SafeEnd(f, {Slot(s.flash)}, s, es)
  {
    hide Dispatches, MayStart, Slot, DownloadVerdict;
    IdleMayBegin(f, s);
    NothingBegun(f, GoodAfter({Slot(s.flash)}, s, es[0]), After(s, es[0]), es[1..]);
    CrashSafety(f, s, es);
  }
}
