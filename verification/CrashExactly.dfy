// Exactly when a 0x34 is crash safe: as it stands, or for each state that breaks the
// condition a run that starts half an image.

module CrashExactly {
  import opened Words
  import opened Crc32
  import opened Flash
  import opened BootGate
  import opened FlashServer
  import opened UpdateRuns
  import opened UpdateWindows
  import opened UnmarkedSlot
  import opened CrashSafety

  predicate GetsThrough(a: Access, req: seq<Octet>) {
    req != [] && req[0] == SID_DOWNLOAD && a.Granted() && DownloadVerdict(req).Take?
  }

  // An event that checks nothing and leaves a slot that starts and is not complete.
  lemma UnsafeAtOnce(f: Faults, good: set<seq<Octet>>, s: State, e: Event)
    requires Legal(f, s, e) && !PassesCheck(s, e)
    requires MayStart(After(s, e).flash) && Slot(After(s, e).flash) !in good
    ensures Run(f, s, [e]) && !SafeEnd(f, good, s, [e])
  {
    hide MayStart, Dispatches, Slot;
    var t := After(s, e);
    assert [e][1..] == [];
    assert Run(f, t, []) && Final(f, t, []) == t && GoodAtEnd(f, good, t, []) == good;
  }

  // An unsafe run stays one behind a request that checks nothing.
  lemma UnsafeBehind(f: Faults, good: set<seq<Octet>>, s: State, e: Event, es: seq<Event>)
    requires Legal(f, s, e) && !PassesCheck(s, e) && Run(f, After(s, e), es)
    requires !SafeEnd(f, good, After(s, e), es)
    ensures Run(f, s, [e] + es) && !SafeEnd(f, good, s, [e] + es)
  {
    hide Legal, MayStart, After;
    assert ([e] + es)[1..] == es;
  }

  // A run that begins with this 0x34 and has no other.
  ghost predicate OneDownload(f: Faults, s: State, a: Access, req: seq<Octet>, es: seq<Event>) {
    && es != [] && Run(f, s, es) && NoDownload(es[1..])
    && (es[0].Request? || es[0].PowerLoss?) && es[0].a == a && es[0].req == req
  }

  // The marker goes in no further than the erase of its page.
  function Unmarked(s: State): State {
    State(Partial(s.flash, UpdatingMeta(RollbackCounter(s.flash)), 0), s.x.(saved := RollbackCounter(s.flash)))
  }

  function MarkerFails(s: State, a: Access, req: seq<Octet>): Event {
    Request(a, req, [Unmarked(s).flash], Unmarked(s).x, Refusal(SID_DOWNLOAD, NRC_PROGRAMMING))
  }

  lemma MarkerMayFail(s: State, a: Access, req: seq<Octet>)
    requires s.x.Fits() && GetsThrough(a, req)
    ensures Legal(Stepwise, s, MarkerFails(s, a, req)) && StartsDownload(MarkerFails(s, a, req))
    ensures After(s, MarkerFails(s, a, req)) == Unmarked(s) && Unmarked(s).x.Fits()
    ensures Slot(Unmarked(s).flash) == Slot(s.flash) && MetaAbsent(Unmarked(s).flash)
  {
    hide RollbackCounter, MetaAbsent, Print, Slot, DownloadVerdict;
    var m, img := UpdatingMeta(RollbackCounter(s.flash)), Unmarked(s).flash;
    var e := MarkerFails(s, a, req);
    PartialKeepsSlot(s.flash, m, 0);
    PartialBytes(s.flash, m, 0);
    ErasedMetaIsAbsent(s.flash, m);
    assert MetaWriteVisits(false, s.flash, m, [img], false);
    assert DownloadMarkerFails(Stepwise, s, e.visited, e.x', e.resp);
    assert Serves(Stepwise, s, req, e.visited, e.x', e.resp) && e.resp == Suppressed(req, e.resp);
  }

  lemma PlainlyStarts(img: Image)
    requires MetaAbsent(img) && Plausible(Slot(img))
    ensures MayStart(img)
  {
    hide MetaAbsent;
    MayStartExactly(img);
  }

  // Behind the failed marker an acknowledged block lays any fill over the slot.
  function BlockOf(x: Xfer, q: seq<Octet>): seq<Octet>
    requires x.Fits()
  {
    q[..Min(|q|, Room(x))]
  }

  lemma BlockOfFill(x: Xfer, q: seq<Octet>)
    requires x.Fits() && Fill(x, q) && q != []
    ensures 0 < |BlockOf(x, q)| <= Room(x) && Padded(BlockOf(x, q)) == q
  {
    var d := BlockOf(x, q);
    assert RoundUp8(|d|) == |q|;
    assert forall k :: |d| <= k < |q| ==> q[k] == ERASED;
  }

  function Send(s: State, a: Access, q: seq<Octet>): Event
    requires s.x.Fits() && InFlash(APP_BASE + s.x.written, |q|)
  {
    var d := BlockOf(s.x, q);
    var req := [SID_TRANSFER, s.x.blockSeq] + d;
    var at := APP_BASE + s.x.written;
    var visited := seq(|q| / 8, i requires 0 <= i < |q| / 8 => Patch(s.flash, at, q[..8 * (i + 1)]));
    Request(a, req, visited,
            s.x.(written := s.x.written + |d|, blockSeq := (s.x.blockSeq + 1) % 0x100), [0x76, s.x.blockSeq])
  }

  lemma FillIsSent(s: State, a: Access, q: seq<Octet>)
    requires s.x.Fits() && Fill(s.x, q) && q != [] && a.Granted()
    ensures Legal(Stepwise, s, Send(s, a, q)) && !StartsDownload(Send(s, a, q)) && !PassesCheck(s, Send(s, a, q))
    ensures After(s, Send(s, a, q)).flash == Patch(s.flash, APP_BASE + s.x.written, q)
  {
    hide Patch, Room;
    var e := Send(s, a, q);
    BlockOfFill(s.x, q);
    RoomIsThere(s.x);
    assert e.req[2..] == BlockOf(s.x, q);
    assert q[..8 * (|q| / 8)] == q;
    FillVisits(s, q, e.visited);
    assert TransferEnds(Stepwise, s, e.req, e.visited, e.x', e.resp, true);
    assert Serves(Stepwise, s, e.req, e.visited, e.x', e.resp) && e.resp == Suppressed(e.req, e.resp);
  }

  lemma RoomIsThere(x: Xfer)
    requires x.Fits() && Room(x) > 0
    ensures x.Open() && x.written % 8 == 0 && x.written + Room(x) == x.size
  {
  }

  lemma FillVisits(s: State, q: seq<Octet>, visited: seq<Image>)
    requires s.x.Fits() && Fill(s.x, q) && q != []
    requires |visited| == |q| / 8
    requires forall i :: 0 <= i < |visited| ==> visited[i] == Patch(s.flash, APP_BASE + s.x.written, q[..8 * (i + 1)])
    ensures AllAgreeOutside(s.flash, visited, APP_BASE + s.x.written, APP_BASE + s.x.written + |q|)
    ensures StepsInOrder(s.flash, APP_BASE + s.x.written, q, visited)
  {
    hide Patch, Room;
    var at := APP_BASE + s.x.written;
    forall x | x in visited
      ensures AgreeOutside(s.flash, x, at, at + |q|)
    {
      var i :| 0 <= i < |visited| && x == visited[i];
      PatchAgrees(s.flash, at, q[..8 * (i + 1)]);
    }
  }

  // The run behind an unsafe slot: power lost between erase and marker if it is unsafe as it
  // stands, else a marker that fails, answered 0x72, and a block that is acknowledged.
  function UnsafeRun(s: State, a: Access, req: seq<Octet>, q: seq<Octet>): seq<Event>
    requires s.x.Fits() && Fill(s.x, q)
  {
    var e := MarkerFails(s, a, req);
    if q == [] then [PowerLoss(a, req, e.visited, e.x', e.resp, 1)] else [e, Send(Unmarked(s), a, q)]
  }

  lemma PowerMayFail(s: State, a: Access, req: seq<Octet>)
    requires s.x.Fits() && GetsThrough(a, req)
    ensures var e := UnsafeRun(s, a, req, [])[0];
            Legal(Stepwise, s, e) && StartsDownload(e) && After(s, e).flash == Unmarked(s).flash
  {
    hide RollbackCounter, MetaAbsent, Print, Slot, DownloadVerdict, Partial;
    MarkerMayFail(s, a, req);
    var e := MarkerFails(s, a, req);
    assert e.visited[..1] == e.visited;
  }

  lemma UnsafeRunStarts(good: set<seq<Octet>>, s: State, a: Access, req: seq<Octet>, q: seq<Octet>)
    requires s.x.Fits() && GetsThrough(a, req)
    requires Fill(s.x, q) && !SafeSlot(good, Overlaid(Slot(s.flash), s.x.written, q))
    ensures OneDownload(Stepwise, s, a, req, UnsafeRun(s, a, req, q))
    ensures !SafeEnd(Stepwise, good, s, UnsafeRun(s, a, req, q))
  {
    hide RollbackCounter, MetaAbsent, Slot, DownloadVerdict, Partial, Dispatches, MayStart, Plausible, Patch, Overlaid;
    var es := UnsafeRun(s, a, req, q);
    var t := Unmarked(s);
    MarkerMayFail(s, a, req);
    if q == [] {
      PowerMayFail(s, a, req);
      NothingOverlaid(Slot(s.flash), s.x.written);
      PlainlyStarts(t.flash);
      UnsafeAtOnce(Stepwise, good, s, es[0]);
    } else {
      FillIsSent(t, a, q);
      SlotOverlaid(t.flash, t.x.written, q);
      var end := After(t, es[1]).flash;
      PatchAgrees(t.flash, APP_BASE + t.x.written, q);
      StillAbsent(t.flash, end);
      PlainlyStarts(end);
      UnsafeAtOnce(Stepwise, good, t, es[1]);
      UnsafeBehind(Stepwise, good, s, es[0], [es[1]]);
    }
  }

  // On a device that does each step or not, in a state that is safe as long as no 0x34 gets
  // through: this 0x34, with anything but another after it, is safe whatever happens if and
  // only if the slot and all the transfer left open can make of it are safe without the
  // marker.
  lemma DownloadSafeExactly(good: set<seq<Octet>>, s: State, a: Access, req: seq<Octet>)
    requires CrashInv(Stepwise, good, s) && GetsThrough(a, req)
    ensures (forall es :: OneDownload(Stepwise, s, a, req, es) ==> SafeEnd(Stepwise, good, s, es))
            <==> SafeUnmarked(good, s)
  {
    hide SafeEnd, Plausible, Slot, Overlaid, DownloadVerdict, Dispatches, UnsafeRun, MetaOf, MetaAbsent;
    if SafeUnmarked(good, s) {
      forall es | OneDownload(Stepwise, s, a, req, es)
        ensures SafeEnd(Stepwise, good, s, es)
      {
        NothingBegun(Stepwise, GoodAfter(good, s, es[0]), After(s, es[0]), es[1..]);
        CrashRun(Stepwise, good, s, es);
      }
    } else {
      var q :| Fill(s.x, q) && !SafeSlot(good, Overlaid(Slot(s.flash), s.x.written, q));
      UnsafeRunStarts(good, s, a, req, q);
    }
  }

  // The same in terms of what a caller can look at, for fewer than 256 complete images: the
  // slot is complete or implausible, and the transfer left open has no room for vectors, or
  // for bytes under vectors that are there.
  lemma DownloadSafeWhen(good: set<seq<Octet>>, s: State, a: Access, req: seq<Octet>)
    requires CrashInv(Stepwise, good, s) && GetsThrough(a, req) && |good| < 0x100
    ensures (forall es :: OneDownload(Stepwise, s, a, req, es) ==> SafeEnd(Stepwise, good, s, es))
            <==> SafeToRepeat(good, s)
  {
    hide SafeEnd, SafeToRepeat, SafeUnmarked, OneDownload, MetaOf, MetaAbsent;
    DownloadSafeExactly(good, s, a, req);
    SafeToRepeatExactly(good, s);
  }

  // ----- The same on a device that tears -----

  // A record that calls any slot checked: VALID, of one byte.
  function OneByteRecord(slot: seq<Octet>): (m: Meta)
    requires |slot| == APP_SLOT_SIZE
    ensures m.Fits()
  {
    Meta(META_MAGIC, STATE_VALID, 0, 1, Crc(slot[..1]))
  }

  // The page erase fails and leaves the record for `slot` behind.
  function Torn(s: State, slot: seq<Octet>): State
    requires |slot| == APP_SLOT_SIZE
  {
    State(WithMeta(s.flash, OneByteRecord(slot)), s.x.(saved := RollbackCounter(s.flash)))
  }

  function MarkerTears(s: State, a: Access, req: seq<Octet>, slot: seq<Octet>): Event
    requires |slot| == APP_SLOT_SIZE
  {
    Request(a, req, [Torn(s, slot).flash], Torn(s, slot).x, Refusal(SID_DOWNLOAD, NRC_PROGRAMMING))
  }

  lemma MarkerMayTear(s: State, a: Access, req: seq<Octet>, slot: seq<Octet>)
    requires s.x.Fits() && GetsThrough(a, req) && |slot| == APP_SLOT_SIZE
    ensures Legal(Tearing, s, MarkerTears(s, a, req, slot)) && StartsDownload(MarkerTears(s, a, req, slot))
    ensures After(s, MarkerTears(s, a, req, slot)) == Torn(s, slot) && Torn(s, slot).x.Fits()
    ensures Slot(Torn(s, slot).flash) == Slot(s.flash) && MetaOf(Torn(s, slot).flash) == OneByteRecord(slot)
  {
    hide RollbackCounter, MetaOf, Print, Slot, DownloadVerdict, WithMeta, OneByteRecord;
    var e := MarkerTears(s, a, req, slot);
    WithMetaReads(s.flash, OneByteRecord(slot));
    assert MetaWriteVisits(true, s.flash, UpdatingMeta(RollbackCounter(s.flash)), e.visited, false);
    assert DownloadMarkerFails(Tearing, s, e.visited, e.x', e.resp);
    assert Serves(Tearing, s, req, e.visited, e.x', e.resp) && e.resp == Suppressed(req, e.resp);
  }

  // What is legal without tearing is legal with it.
  lemma SendTears(s: State, a: Access, q: seq<Octet>)
    requires s.x.Fits() && Fill(s.x, q) && q != [] && a.Granted()
    ensures Legal(Tearing, s, Send(s, a, q))
  {
    hide Patch, Room, Dispatches, AllAgreeOutside;
    FillIsSent(s, a, q);
    var e := Send(s, a, q);
    BlockOfFill(s.x, q);
    RoomIsThere(s.x);
    var ok := BlockStep(Stepwise, s, e);
    assert TransferEnds(Tearing, s, e.req, e.visited, e.x', e.resp, ok);
    assert Serves(Tearing, s, e.req, e.visited, e.x', e.resp) && e.resp == Suppressed(e.req, e.resp);
    GrantedDispatches(Tearing, s, a, e);
  }

  lemma GrantedDispatches(f: Faults, s: State, a: Access, e: Event)
    requires s.x.Fits() && a.Granted() && e.Request? && e.req != [] && IsFlashService(e.req)
    requires Serves(f, s, e.req, e.visited, e.x', e.resp) && e.resp == Suppressed(e.req, e.resp)
    ensures Dispatches(f, s, a, e.req, e.visited, e.x', e.resp)
  {
    hide Serves;
  }

  lemma CheckedStarts(img: Image)
    requires MetaOf(img) == OneByteRecord(Slot(img))
    ensures MayStart(img)
  {
    hide MetaOf, Slot, Crc;
    MayStartExactly(img);
  }

  function TornRun(s: State, a: Access, req: seq<Octet>, q: seq<Octet>): seq<Event>
    requires s.x.Fits() && Fill(s.x, q)
  {
    var slot := Overlaid(Slot(s.flash), s.x.written, q);
    var e := MarkerTears(s, a, req, slot);
    if q == [] then [e] else [e, Send(Torn(s, slot), a, q)]
  }

  lemma TornRunStarts(good: set<seq<Octet>>, s: State, a: Access, req: seq<Octet>, q: seq<Octet>)
    requires s.x.Fits() && GetsThrough(a, req)
    requires Fill(s.x, q) && Overlaid(Slot(s.flash), s.x.written, q) !in good
    ensures OneDownload(Tearing, s, a, req, TornRun(s, a, req, q))
    ensures !SafeEnd(Tearing, good, s, TornRun(s, a, req, q))
  {
    hide RollbackCounter, MetaOf, Slot, DownloadVerdict, WithMeta, Dispatches, MayStart, Patch, Overlaid, OneByteRecord;
    var es := TornRun(s, a, req, q);
    var slot := Overlaid(Slot(s.flash), s.x.written, q);
    var t := Torn(s, slot);
    MarkerMayTear(s, a, req, slot);
    if q == [] {
      NothingOverlaid(Slot(s.flash), s.x.written);
      CheckedStarts(t.flash);
      UnsafeAtOnce(Tearing, good, s, es[0]);
    } else {
      FillIsSent(t, a, q);
      SendTears(t, a, q);
      SlotOverlaid(t.flash, t.x.written, q);
      var end := After(t, es[1]).flash;
      PatchAgrees(t.flash, APP_BASE + t.x.written, q);
      SameRecord(t.flash, end);
      CheckedStarts(end);
      UnsafeAtOnce(Tearing, good, t, es[1]);
      UnsafeBehind(Tearing, good, s, es[0], [es[1]]);
    }
  }

  lemma SameRecord(img: Image, x: Image)
    requires AgreeOutside(img, x, APP_BASE, META_BASE)
    ensures MetaOf(x) == MetaOf(img)
  {
    hide Bytes, AgreeOutside, Parse;
    AgreeKeepsBytes(img, x, APP_BASE, META_BASE, META_BASE, META_BYTES);
  }

  // Here any slot may be called checked, so it has to be complete and stay as it is.
  lemma TornDownloadSafeWhen(good: set<seq<Octet>>, s: State, a: Access, req: seq<Octet>)
    requires CrashInv(Tearing, good, s) && GetsThrough(a, req) && |good| < 0x100
    ensures (forall es :: OneDownload(Tearing, s, a, req, es) ==> SafeEnd(Tearing, good, s, es))
            <==> Slot(s.flash) in good && Room(s.x) == 0
  {
    hide SafeEnd, Slot, Overlaid, DownloadVerdict, Dispatches, TornRun, MetaOf, MetaAbsent;
    if Settled(good, s) {
      forall es | OneDownload(Tearing, s, a, req, es)
        ensures SafeEnd(Tearing, good, s, es)
      {
        NothingBegun(Tearing, GoodAfter(good, s, es[0]), After(s, es[0]), es[1..]);
        CrashRun(Tearing, good, s, es);
      }
    } else {
      var q := Unsettled(good, s);
      TornRunStarts(good, s, a, req, q);
    }
  }

  lemma Unsettled(good: set<seq<Octet>>, s: State) returns (q: seq<Octet>)
    requires s.x.Fits() && |good| < 0x100 && !Settled(good, s)
    ensures Fill(s.x, q) && Overlaid(Slot(s.flash), s.x.written, q) !in good
  {
    hide Slot, Overlaid;
    if Slot(s.flash) !in good {
      q := [];
      NothingOverlaid(Slot(s.flash), s.x.written);
    } else {
      RoomIsThere(s.x);
      q := VariantOutside(good, Slot(s.flash), s.x.written, Blank(7));
      assert forall k :: 1 <= k < 8 ==> q[k] == q[1..][k - 1];
    }
  }
}
