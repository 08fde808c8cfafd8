// Two campaigns that begin with a checked image and end with a start of half an image.

module CrashWitnesses {
  import opened Words
  import opened Crc32
  import opened Flash
  import opened BootGate
  import opened FlashServer
  import opened UpdateRuns
  import opened UpdateWindows
  import opened UnmarkedSlot
  import opened CrashSafety
  import opened CrashExactly

  // 0x34 for eight bytes at APP_BASE
  const EIGHT_BYTES: seq<Octet> := [0x34, 0x44, 0x08, 0x00, 0x70, 0x00, 0x00, 0x00, 0x00, 0x08]

  lemma EightBytesAsked()
    ensures DownloadVerdict(EIGHT_BYTES) == Take(8)
  {
    Four(0x08, 0x00, 0x70, 0x00);
    Four(0x00, 0x00, 0x00, 0x08);
    assert EIGHT_BYTES[2..6] == [0x08, 0x00, 0x70, 0x00];
    assert EIGHT_BYTES[6..10] == [0x00, 0x00, 0x00, 0x08];
  }

  lemma Four(a: Octet, b: Octet, c: Octet, d: Octet)
    ensures BigEndian([a, b, c, d]) == 0x100_0000 * a + 0x1_0000 * b + 0x100 * c + d
  {
    assert BigEndian([a]) == a by { assert [a][..0] == []; }
    assert BigEndian([a, b]) == 0x100 * a + b by { assert [a, b][..1] == [a]; }
    assert BigEndian([a, b, c]) == 0x1_0000 * a + 0x100 * b + c by { assert [a, b, c][..2] == [a, b]; }
    assert [a, b, c, d][..3] == [a, b, c];
  }

  function Marked(s: State): Image {
    WithMeta(s.flash, UpdatingMeta(RollbackCounter(s.flash)))
  }

  // Marker in, first page erased, transfer open.
  function Begun(s: State): State {
    State(Patch(Marked(s), APP_BASE, Blank(PAGE_SIZE)), Xfer(true, false, 8, 0, 1, RollbackCounter(s.flash)))
  }

  function Begin(s: State, a: Access): Event {
    var m := UpdatingMeta(RollbackCounter(s.flash));
    var marking := [Partial(s.flash, m, 0), Partial(s.flash, m, 1), Partial(s.flash, m, 2), Marked(s)];
    Request(a, EIGHT_BYTES, marking + [Begun(s).flash],
            Begun(s).x, [0x74, 0x22, 0x00, 0xF8])
  }

  lemma MarkerGoesIn(img: Image, m: Meta, visited: seq<Image>)
    requires m.Fits()
    requires visited == [Partial(img, m, 0), Partial(img, m, 1), Partial(img, m, 2), WithMeta(img, m)]
    ensures MetaRewrite(Stepwise, img, m, visited, true)
  {
    hide Patch, WithErasedMeta, Print;
    assert Print(m)[..24] == Print(m);
    assert WithMeta(img, m) == Partial(img, m, 3);
    forall i | 0 <= i < 4
      ensures visited[i] == Partial(img, m, i) && AgreeOutside(img, visited[i], META_BASE, META_BASE + PAGE_SIZE)
    {
      PartialBytes(img, m, i);
    }
  }

  lemma PageIsErased(img: Image)
    ensures SlotErase(Stepwise, img, 8, [Patch(img, APP_BASE, Blank(PAGE_SIZE))], true)
  {
    hide Patch;
    PatchAgrees(img, APP_BASE, Blank(PAGE_SIZE));
    assert PagesFor(8) == 1;
  }

  lemma BeginsWell(s: State, a: Access)
    requires s.x.Fits() && a.Granted()
    ensures Legal(Stepwise, s, Begin(s, a)) && GetsThrough(a, EIGHT_BYTES)
    ensures After(s, Begin(s, a)) == Begun(s) && Begun(s).x.Fits()
    ensures Room(Begun(s).x) == 8
  {
    hide RollbackCounter, WithMeta, Patch, Partial, MetaRewrite, SlotErase, DownloadVerdict, BigEndian;
    EightBytesAsked();
    var e, m := Begin(s, a), UpdatingMeta(RollbackCounter(s.flash));
    MarkerGoesIn(s.flash, m, e.visited[..4]);
    PageIsErased(Marked(s));
    assert e.visited[4..] == [Begun(s).flash];
    assert DownloadErases(Stepwise, s, 8, e.visited, e.x', e.resp, 4, true);
    assert Serves(Stepwise, s, e.req, e.visited, e.x', e.resp) && e.resp == Suppressed(e.req, e.resp);
  }

  // Eight bytes that look like vectors and are not those of the old image.
  function NewVectors(was: seq<Octet>): seq<Octet>
    requires |was| == APP_SLOT_SIZE
  {
    [if was[0] == 0 then 1 else 0] + VECTORS_REST
  }

  lemma NewVectorsSpoil(was: seq<Octet>, slot: seq<Octet>)
    requires |was| == |slot| == APP_SLOT_SIZE
    ensures !SafeSlot({was}, Overlaid(slot, 0, NewVectors(was)))
  {
    hide Plausible;
    var q := NewVectors(was);
    var r := Overlaid(slot, 0, q);
    assert r[1..8] == q[1..8] == VECTORS_REST;
    VectorsPlausible(r);
    assert r[0] == q[0] != was[0];
  }

  // Without any loss of power: a 0x34 is done, a second one fails behind its page erase, and
  // the block after it is written and acknowledged with no marker in place.
  lemma BlockBehindFailedMarker(s: State, a: Access) returns (es: seq<Event>)
    requires s.x == NO_XFER && AppCrcOk(s.flash) && a.Granted()
    ensures Run(Stepwise, s, es) && |es| == 3 && es[0].Request? && es[1].Request? && es[2].Request?
    ensures es[0].resp == [0x74, 0x22, 0x00, 0xF8] && es[1].resp == [0x7F, 0x34, 0x72] && es[2].resp == [0x76, 0x01]
    ensures !SafeEnd(Stepwise, {Slot(s.flash)}, s, es)
  {
    hide Legal, Slot, MayStart, RollbackCounter, Overlaid, Partial, Patch, AppCrcOk;
    var good, q, t := {Slot(s.flash)}, NewVectors(Slot(s.flash)), Begun(s);
    BeginsWell(s, a);
    NewVectorsSpoil(Slot(s.flash), Slot(t.flash));
    UnsafeRunStarts(good, t, a, EIGHT_BYTES, q);
    UnsafeBehind(Stepwise, good, s, Begin(s, a), UnsafeRun(t, a, EIGHT_BYTES, q));
    es := [Begin(s, a)] + UnsafeRun(t, a, EIGHT_BYTES, q);
  }

  // With one: 0x34, vectors written under its marker, a second 0x34, and power lost between
  // the erase of the meta page and the first doubleword of the marker.
  lemma PowerLostInRetry(s: State, a: Access) returns (es: seq<Event>)
    requires s.x == NO_XFER && AppCrcOk(s.flash) && a.Granted()
    ensures Run(Stepwise, s, es) && |es| == 3 && es[0].Request? && es[1].Request? && es[2].PowerLoss?
    ensures es[0].resp == [0x74, 0x22, 0x00, 0xF8] && es[1].resp == [0x76, 0x01] && es[2].reached == 1
    ensures !SafeEnd(Stepwise, {Slot(s.flash)}, s, es)
  {
    hide Legal, Slot, MayStart, RollbackCounter, Overlaid, Partial, Patch, AppCrcOk;
    var good, q, t := {Slot(s.flash)}, NewVectors(Slot(s.flash)), Begun(s);
    BeginsWell(s, a);
    FillIsSent(t, a, q);
    var send := Send(t, a, q);
    var u := After(t, send);
    SlotOverlaid(t.flash, 0, q);
    NewVectorsSpoil(Slot(s.flash), Slot(t.flash));
    NothingOverlaid(Slot(u.flash), u.x.written);
    UnsafeRunStarts(good, u, a, EIGHT_BYTES, []);
    var last := UnsafeRun(u, a, EIGHT_BYTES, []);
    UnsafeBehind(Stepwise, good, t, send, last);
    UnsafeBehind(Stepwise, good, s, Begin(s, a), [send] + last);
    es := [Begin(s, a)] + ([send] + last);
  }
}
