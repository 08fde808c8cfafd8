// The contents a rewrite of the meta page passes through, one hardware step at a time, and
// what they let through: where the slot may be started, and where the counter reads low or
// high.

module UpdateWindows {
  import opened Words
  import opened Crc32
  import opened Flash
  import opened BootGate
  import opened FlashServer
  import opened UpdateRuns

  // The content after the erase and i doublewords of the new record.
  function Partial(img: Image, m: Meta, i: nat): Image
    requires m.Fits() && i <= 3
  {
    Patch(WithErasedMeta(img), META_BASE, Print(m)[..8 * i])
  }

  lemma PartialBytes(img: Image, m: Meta, i: nat)
    requires m.Fits() && i <= 3
    ensures AgreeOutside(img, Partial(img, m, i), META_BASE, META_BASE + PAGE_SIZE)
    ensures forall k :: 0 <= k < META_BYTES ==>
      Bytes(Partial(img, m, i), META_BASE, META_BYTES)[k] == if k < 8 * i then Print(m)[k] else ERASED
  {
    hide Print, Patch;
    var e, x, n := WithErasedMeta(img), Partial(img, m, i), META_BASE - FLASH_BASE;
    PatchAgrees(img, META_BASE, Blank(PAGE_SIZE));
    PatchAgrees(e, META_BASE, Print(m)[..8 * i]);
    assert AgreeOutside(e, x, META_BASE, META_BASE + PAGE_SIZE);
    AgreeTrans(img, e, x, META_BASE, META_BASE + PAGE_SIZE);
    forall k | 0 <= k < META_BYTES
      ensures Bytes(x, META_BASE, META_BYTES)[k] == if k < 8 * i then Print(m)[k] else ERASED
    {
      PatchedAt(img, META_BASE, Blank(PAGE_SIZE), n + k);
      PatchedAt(e, META_BASE, Print(m)[..8 * i], n + k);
      assert Bytes(x, META_BASE, META_BYTES)[k] == x[n + k];
    }
  }

  lemma PartialKeepsSlot(img: Image, m: Meta, i: nat)
    requires m.Fits() && i <= 3
    ensures Slot(Partial(img, m, i)) == Slot(img)
  {
    PartialBytes(img, m, i);
    AgreeKeepsBytes(img, Partial(img, m, i), META_BASE, META_BASE + PAGE_SIZE, APP_BASE, APP_SLOT_SIZE);
  }

  lemma ErasedWord(s: seq<Octet>, k: nat)
    requires k + 4 <= |s| && s[k] == s[k + 1] == s[k + 2] == s[k + 3] == ERASED
    ensures WordAt(s, k) == WORD_ERASED
  {
    assert ERASED == 0xFF;
  }

  lemma SameWord(s: seq<Octet>, t: seq<Octet>, k: nat)
    requires k + 4 <= |s| && k + 4 <= |t|
    requires s[k] == t[k] && s[k + 1] == t[k + 1] && s[k + 2] == t[k + 2] && s[k + 3] == t[k + 3]
    ensures WordAt(s, k) == WordAt(t, k)
  {
  }

  // A record half written reads as its new words followed by erased ones.
  lemma PartialReads(img: Image, m: Meta, i: nat)
    requires m.Fits() && i <= 3
    ensures var r := MetaOf(Partial(img, m, i));
            && r.magic == (if i >= 1 then m.magic else WORD_ERASED)
            && r.state == (if i >= 1 then m.state else WORD_ERASED)
            && r.version == (if i >= 2 then m.version else WORD_ERASED)
            && r.size == (if i >= 2 then m.size else WORD_ERASED)
  {
    hide WordAt, Print;
    PartialBytes(img, m, i);
    PrintParseWords(m);
    var b := Bytes(Partial(img, m, i), META_BASE, META_BYTES);
    if i >= 1 { SameWord(b, Print(m), 0); SameWord(b, Print(m), 4); } else { ErasedWord(b, 0); ErasedWord(b, 4); }
    if i >= 2 { SameWord(b, Print(m), 8); SameWord(b, Print(m), 12); } else { ErasedWord(b, 8); ErasedWord(b, 12); }
  }

  lemma ErasedMetaIsAbsent(img: Image, m: Meta)
    requires m.Fits()
    ensures MetaAbsent(Partial(img, m, 0))
  {
    hide WordAt, Print;
    PartialBytes(img, m, 0);
    var b := Bytes(Partial(img, m, 0), META_BASE, META_BYTES);
    ErasedWord(b, 0);
    ErasedWord(b, 4);
    ErasedWord(b, 8);
    ErasedWord(b, 12);
    ErasedWord(b, 16);
  }

  lemma VectorsOfSlot(x: Image, y: Image)
    requires Slot(x) == Slot(y)
    ensures VectorsOk(x) <==> VectorsOk(y)
  {
  }

  // The marker going in: only the very first content, the erased page, lets anything start,
  // and it does exactly if the slot begins with plausible vectors.
  lemma MarkerWindow(img: Image, saved: nat, i: nat)
    requires saved < WORD_LIMIT && i <= 3
    ensures MayStart(Partial(img, UpdatingMeta(saved), i)) <==> i == 0 && VectorsOk(img)
  {
    hide Partial, MetaOf, MetaAbsent, VectorsOk, AppCrcOk, Gate, SelfHeals, Slot;
    var m := UpdatingMeta(saved);
    var x := Partial(img, m, i);
    PartialReads(img, m, i);
    PartialKeepsSlot(img, m, i);
    VectorsOfSlot(x, img);
    if i == 0 {
      ErasedMetaIsAbsent(img, m);
      MayStartExactly(x);
      AbsentNotChecked(x);
    } else {
      UpdatingStays(x);
    }
  }

  lemma AbsentNotChecked(x: Image)
    requires MetaAbsent(x)
    ensures !AppCrcOk(x)
  {
    AbsentIsNotMagic(x);
  }

  // A 0x34 issued at any time, on a device that does not tear. Power lost while it works
  // leads to a start exactly in the window between the erase of the meta page and the first
  // doubleword of the marker, and exactly if the slot's first words look like vectors. For
  // an attempt begun over a half-written slot this is the one unsafe window.
  lemma RetryWindow(s: State, e: Event)
    requires Legal(Stepwise, s, e) && StartsDownload(e)
    ensures forall i :: 0 <= i < |e.visited| ==> (MayStart(e.visited[i]) <==> i == 0 && VectorsOk(s.flash))
  {
    hide RollbackCounter, UpdatingMeta, SlotErase, WithMeta, MayStart, Dispatches, DownloadVerdict, VectorsOk, Print;
    var k, marked, ok := DownloadStep(Stepwise, s, e);
    var saved := RollbackCounter(s.flash);
    var m := UpdatingMeta(saved);
    var first := if marked then e.visited[..k] else e.visited;
    assert RewriteInOrder(s.flash, m, first);
    forall i | 0 <= i < |e.visited|
      ensures MayStart(e.visited[i]) <==> i == 0 && VectorsOk(s.flash)
    {
      if i < |first| {
        assert e.visited[i] == first[i] == Partial(s.flash, m, i);
        MarkerWindow(s.flash, saved, i);
      } else {
        ErasesUnderMarker(s, saved, DownloadVerdict(e.req).size, e.visited[k..], ok);
        assert e.visited[i] == e.visited[k..][i - k];
        UpdatingStays(e.visited[i]);
      }
    }
  }

  lemma ErasesUnderMarker(s: State, saved: nat, size: nat, visited: seq<Image>, ok: bool)
    requires saved < WORD_LIMIT && size <= APP_SLOT_SIZE
    requires SlotErase(Stepwise, WithMeta(s.flash, UpdatingMeta(saved)), size, visited, ok)
    ensures forall i :: 0 <= i < |visited| ==> IsUpdating(MetaOf(visited[i]))
  {
    hide SlotErase, WithMeta, MetaOf;
    var m := UpdatingMeta(saved);
    WithMetaReads(s.flash, m);
    EraseKeepsMeta(Stepwise, WithMeta(s.flash, m), size, visited, ok);
    forall i | 0 <= i < |visited|
      ensures IsUpdating(MetaOf(visited[i]))
    {
      assert visited[i] in visited;
    }
  }

  // ----- The counter inside the window -----

  // What bl_meta_rollback_counter reads after each step of a rewrite: nothing while the page
  // is erased, all ones while only magic and state are in, the new version after that.
  lemma CounterWindow(img: Image, m: Meta, i: nat)
    requires m.Fits() && (IsValid(m) || IsUpdating(m)) && i <= 3
    ensures RollbackCounter(Partial(img, m, i)) ==
            if i == 0 then 0 else if i == 1 then WORD_ERASED else m.version
  {
    hide Partial, MetaOf;
    PartialReads(img, m, i);
  }

  // So a rewrite that keeps or raises the version lowers the counter at some step if and only
  // if there was something to lose and the page erase is reached.
  lemma CounterFallsExactly(img: Image, m: Meta, visited: seq<Image>)
    requires m.Fits() && (IsValid(m) || IsUpdating(m)) && m.version >= RollbackCounter(img)
    requires RewriteInOrder(img, m, visited)
    ensures (exists i :: 0 <= i < |visited| && RollbackCounter(visited[i]) < RollbackCounter(img))
            <==> visited != [] && RollbackCounter(img) > 0
  {
    hide RollbackCounter, Print, WithErasedMeta;
    forall i | 0 <= i < |visited|
      ensures RollbackCounter(visited[i]) == if i == 0 then 0 else if i == 1 then WORD_ERASED else m.version
    {
      assert visited[i] == Partial(img, m, i);
      CounterWindow(img, m, i);
    }
    CounterBound(img);
    if visited != [] && RollbackCounter(img) > 0 {
      assert RollbackCounter(visited[0]) < RollbackCounter(img);
    }
  }

  lemma CounterBound(img: Image)
    ensures RollbackCounter(img) <= WORD_ERASED
  {
  }
}
