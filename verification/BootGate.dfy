// The meta page and the decisions taken from it: Core/Src/bl_boot.c:31-97, the boot gate
// Core/Src/bl_main.c:79-104 and the self-heal jump Core/Src/bl_main.c:168-173.

module BootGate {
  import opened Words
  import opened Crc32
  import opened Flash

  const META_MAGIC: nat := 0x4D424C4D
  const STATE_UPDATING: nat := 0x55555555
  const STATE_VALID: nat := 0xAAAAAAAA
  const WORD_ERASED: nat := 0xFFFFFFFF

  const META_BYTES: nat := 20
  const META_WRITTEN: nat := 24   // padded to whole doublewords

  // bl_meta_t
  datatype Meta = Meta(magic: nat, state: nat, version: nat, size: nat, crc: bv32)
  {
    predicate Fits() {
      magic < WORD_LIMIT && state < WORD_LIMIT && version < WORD_LIMIT && size < WORD_LIMIT
    }
  }

  // ----- The checksum word, kept as bits -----

  function BitsAt(s: seq<Octet>, i: nat): bv32
    requires i + 4 <= |s|
  {
    JoinBits(ToBits(s[i]), ToBits(s[i + 1]), ToBits(s[i + 2]), ToBits(s[i + 3]))
  }

  function JoinBits(b0: bv8, b1: bv8, b2: bv8, b3: bv8): bv32 {
    (b3 as bv32 << 24) | (b2 as bv32 << 16) | (b1 as bv32 << 8) | b0 as bv32
  }

  function BitsPart(w: bv32, k: nat): bv8
    requires k < 4
  {
    if k == 0 then (w & 0xFF) as bv8
    else if k == 1 then ((w >> 8) & 0xFF) as bv8
    else if k == 2 then ((w >> 16) & 0xFF) as bv8
    else ((w >> 24) & 0xFF) as bv8
  }

  function BitsOctets(w: bv32): (s: seq<Octet>)
    ensures |s| == 4
  {
    [FromBits(BitsPart(w, 0)), FromBits(BitsPart(w, 1)), FromBits(BitsPart(w, 2)), FromBits(BitsPart(w, 3))]
  }

  lemma JoinParts(w: bv32)
    ensures JoinBits(BitsPart(w, 0), BitsPart(w, 1), BitsPart(w, 2), BitsPart(w, 3)) == w
  {
  }

  lemma BitsWindow(s: seq<Octet>, i: nat, w: bv32)
    requires i + 4 <= |s| && s[i..i + 4] == BitsOctets(w)
    ensures BitsAt(s, i) == w
  {
    hide ToBits, FromBits, BitsPart, JoinBits;
    var t := s[i..i + 4];
    assert s[i] == t[0] && s[i + 1] == t[1] && s[i + 2] == t[2] && s[i + 3] == t[3];
    ToFromBits(BitsPart(w, 0));
    ToFromBits(BitsPart(w, 1));
    ToFromBits(BitsPart(w, 2));
    ToFromBits(BitsPart(w, 3));
    JoinParts(w);
  }

  // ----- The record -----

  function Parse(s: seq<Octet>): (m: Meta)
    requires |s| == META_BYTES
    ensures m.Fits()
  {
    Meta(WordAt(s, 0), WordAt(s, 4), WordAt(s, 8), WordAt(s, 12), BitsAt(s, 16))
  }

  // The buffer bl_meta_write programs: the record, then four bytes of 0xFF.
  function Print(m: Meta): (s: seq<Octet>)
    requires m.Fits()
    ensures |s| == META_WRITTEN
  {
    WordOctets(m.magic) + WordOctets(m.state) + WordOctets(m.version) + WordOctets(m.size)
      + BitsOctets(m.crc) + Blank(4)
  }

  lemma PrintParts(m: Meta)
    requires m.Fits()
    ensures Print(m)[0..4] == WordOctets(m.magic)
    ensures Print(m)[4..8] == WordOctets(m.state)
    ensures Print(m)[8..12] == WordOctets(m.version)
    ensures Print(m)[12..16] == WordOctets(m.size)
    ensures Print(m)[16..20] == BitsOctets(m.crc)
  {
  }

  lemma PrintParseWords(m: Meta)
    requires m.Fits()
    ensures WordAt(Print(m), 0) == m.magic && WordAt(Print(m), 4) == m.state
    ensures WordAt(Print(m), 8) == m.version && WordAt(Print(m), 12) == m.size
  {
    PrintParts(m);
    WordWindow(Print(m), 0, m.magic);
    WordWindow(Print(m), 4, m.state);
    WordWindow(Print(m), 8, m.version);
    WordWindow(Print(m), 12, m.size);
  }

  lemma PrintParse(m: Meta)
    requires m.Fits()
    ensures Parse(Print(m)[..META_BYTES]) == m
  {
    PrintParseWords(m);
    PrintParts(m);
    BitsWindow(Print(m), 16, m.crc);
    var s := Print(m)[..META_BYTES];
    assert forall k :: 0 <= k < META_BYTES ==> s[k] == Print(m)[k];
  }

  function MetaOf(img: Image): (m: Meta)
    ensures m.Fits()
  {
    Parse(Bytes(img, META_BASE, META_BYTES))
  }

  // ----- What the boot code asks -----

  // bl_meta_absent
  predicate MetaAbsent(img: Image) {
    forall i :: 0 <= i < META_BYTES / 4 ==> WordAt(Bytes(img, META_BASE, META_BYTES), 4 * i) == WORD_ERASED
  }

  // The loop of bl_meta_absent.
  method ScanMeta(img: Image) returns (absent: bool)
    ensures absent <==> MetaAbsent(img)
  {
    var p := Bytes(img, META_BASE, META_BYTES);
    for i := 0 to META_BYTES / 4
      invariant forall k :: 0 <= k < i ==> WordAt(p, 4 * k) == WORD_ERASED
    {
      if WordAt(p, 4 * i) != WORD_ERASED {
        return false;
      }
    }
    return true;
  }

  predicate IsValid(m: Meta) {
    m.magic == META_MAGIC && m.state == STATE_VALID
  }

  predicate IsUpdating(m: Meta) {
    m.magic == META_MAGIC && m.state == STATE_UPDATING
  }

  // bl_app_crc_ok
  predicate AppCrcOk(img: Image) {
    var m := MetaOf(img);
    && IsValid(m)
    && 0 < m.size <= APP_SLOT_SIZE
    && Crc(Slot(img)[..m.size]) == m.crc
  }

  // bl_meta_rollback_counter
  function RollbackCounter(img: Image): (c: nat)
    ensures c < WORD_LIMIT
  {
    var m := MetaOf(img);
    if IsValid(m) || IsUpdating(m) then m.version else 0
  }

  // bl_app_vectors_ok
  predicate VectorsOk(img: Image) {
    Plausible(Slot(img))
  }

  predicate Plausible(slot: seq<Octet>)
    requires |slot| == APP_SLOT_SIZE
  {
    var sp := WordAt(slot, 0);
    var rst := WordAt(slot, 4);
    && 0x20000000 <= sp <= 0x20008000
    && APP_BASE <= rst < APP_BASE + APP_SLOT_SIZE
    && rst % 2 == 1
  }

  datatype Boot = StayOnRequest | StayNoApp | StayInvalid | JumpUnchecked | JumpChecked
  {
    predicate Jumps() { JumpUnchecked? || JumpChecked? }
  }

  // The gate, with the handoff flag found in no-init RAM.
  function Gate(img: Image, updateFlag: bool): Boot {
    if updateFlag then StayOnRequest
    else if MetaAbsent(img) then (if VectorsOk(img) then JumpUnchecked else StayNoApp)
    else if AppCrcOk(img) then JumpChecked
    else StayInvalid
  }

  // The jump of the superloop once the session is back at Default.
  predicate SelfHeals(img: Image, defaultSession: bool) {
    defaultSession && AppCrcOk(img)
  }

  // The bootloader may at some time start the application found on img.
  predicate MayStart(img: Image) {
    Gate(img, false).Jumps() || Gate(img, true).Jumps() || SelfHeals(img, false) || SelfHeals(img, true)
  }

  lemma AbsentIsNotMagic(img: Image)
    requires MetaAbsent(img)
    ensures MetaOf(img).magic == WORD_ERASED
  {
    assert WordAt(Bytes(img, META_BASE, META_BYTES), 4 * 0) == WORD_ERASED;
  }

  // What can be started, in one line: VALID with a matching checksum, or no meta record at
  // all and plausible vectors.
  lemma MayStartExactly(img: Image)
    ensures MayStart(img) <==> AppCrcOk(img) || (MetaAbsent(img) && VectorsOk(img))
  {
    if MetaAbsent(img) {
      AbsentIsNotMagic(img);
    }
  }

  // The gate for each value of the flag: a handoff keeps the bootloader in place whatever the
  // flash holds, and without one a record is preferred to the vectors.
  lemma GateExactly(img: Image, updateFlag: bool)
    ensures Gate(img, updateFlag).Jumps() <==> !updateFlag && (AppCrcOk(img) || (MetaAbsent(img) && VectorsOk(img)))
    ensures Gate(img, updateFlag).JumpChecked? <==> !updateFlag && AppCrcOk(img)
    ensures Gate(img, updateFlag).StayOnRequest? <==> updateFlag
  {
    if MetaAbsent(img) {
      AbsentIsNotMagic(img);
    }
  }

  // The UPDATING marker keeps the bootloader in place.
  lemma UpdatingStays(img: Image)
    requires IsUpdating(MetaOf(img))
    ensures !MayStart(img)
  {
    MayStartExactly(img);
    if MetaAbsent(img) {
      AbsentIsNotMagic(img);
    }
  }

  // ----- Strength of the checksum gate -----

  lemma PrefixBurst(s: seq<Octet>, t: seq<Octet>, n: nat, lo: nat)
    requires n <= |s| == |t| && s[..n] != t[..n]
    requires forall k :: 0 <= k < n && !(lo <= k < lo + 4) ==> s[k] == t[k]
    ensures Crc(s[..n]) != Crc(t[..n])
  {
    BurstDetected(s[..n], t[..n], lo);
  }

  // After a checked image, any change confined to four consecutive bytes of the image
  // area is refused: neither the gate nor the self-heal jump starts it.
  lemma CorruptionRefused(good: Image, bad: Image, lo: nat)
    requires AppCrcOk(good)
    requires MetaOf(bad) == MetaOf(good)
    requires Slot(bad)[..MetaOf(good).size] != Slot(good)[..MetaOf(good).size]
    requires forall k :: 0 <= k < MetaOf(good).size && !(lo <= k < lo + 4) ==> Slot(bad)[k] == Slot(good)[k]
    ensures !AppCrcOk(bad) && !MayStart(bad)
  {
    PrefixBurst(Slot(good), Slot(bad), MetaOf(good).size, lo);
    MayStartExactly(bad);
    if MetaAbsent(bad) {
      AbsentIsNotMagic(bad);
    }
  }

  // ----- Rewriting the meta page -----

  function WithErasedMeta(img: Image): Image {
    Patch(img, META_BASE, Blank(PAGE_SIZE))
  }

  // The page after bl_meta_write has finished.
  function WithMeta(img: Image, m: Meta): Image
    requires m.Fits()
  {
    Patch(WithErasedMeta(img), META_BASE, Print(m))
  }

  lemma WithMetaReads(img: Image, m: Meta)
    requires m.Fits()
    ensures MetaOf(WithMeta(img, m)) == m
    ensures AgreeOutside(img, WithMeta(img, m), META_BASE, META_BASE + PAGE_SIZE)
    ensures Slot(WithMeta(img, m)) == Slot(img)
  {
    var e := WithErasedMeta(img);
    PatchAgrees(img, META_BASE, Blank(PAGE_SIZE));
    PatchAgrees(e, META_BASE, Print(m));
    var x := WithMeta(img, m);
    assert AgreeOutside(e, x, META_BASE, META_BASE + PAGE_SIZE);
    AgreeTrans(img, e, x, META_BASE, META_BASE + PAGE_SIZE);
    AgreeKeepsBytes(img, x, META_BASE, META_BASE + PAGE_SIZE, APP_BASE, APP_SLOT_SIZE);
    assert Bytes(x, META_BASE, META_BYTES) == Bytes(x, META_BASE, META_WRITTEN)[..META_BYTES];
    PrintParse(m);
  }

  // bl_meta_write. If the device does not tear, the page passes through exactly: erased,
  // then the record's doublewords one after another.
  ghost predicate MetaWriteVisits(tearing: bool, img: Image, m: Meta, visited: seq<Image>, ok: bool)
    requires m.Fits()
  {
    && AllAgreeOutside(img, visited, META_BASE, META_BASE + PAGE_SIZE)
    && (ok ==> visited != [] && Now(img, visited) == WithMeta(img, m))
    && (!tearing ==> RewriteInOrder(img, m, visited) && (ok ==> |visited| == 4))
  }

  ghost predicate RewriteInOrder(img: Image, m: Meta, visited: seq<Image>)
    requires m.Fits()
  {
    && |visited| <= 4
    && forall i :: 0 <= i < |visited| ==> visited[i] == Patch(WithErasedMeta(img), META_BASE, Print(m)[..8 * i])
  }

  lemma PaddedPrint(m: Meta)
    requires m.Fits()
    ensures Padded(Print(m)) == Print(m)
  {
  }

  method WriteMeta(dev: FlashDevice, m: Meta) returns (ok: bool, ghost visited: seq<Image>)
    requires m.Fits()
    modifies dev
    ensures dev.history == old(dev.history) + visited && dev.mem == Now(old(dev.mem), visited)
    ensures MetaWriteVisits(dev.tearing, old(dev.mem), m, visited, ok)
  {
    ghost var before := dev.mem;
    var buf := Print(m);
    PaddedPrint(m);
    assert PageStart(META_BASE) == META_BASE && PagesFor(PAGE_SIZE) == 1;
    PatchNothing(WithErasedMeta(before), META_BASE);
    assert Print(m)[..0] == [];
    ok, visited := dev.Erase(META_BASE, PAGE_SIZE);
    if !ok {
      return;
    }
    assert dev.mem == WithErasedMeta(before);
    ghost var first := visited;
    ghost var more;
    ok, more := dev.Write(META_BASE, buf);
    MoreVisited(before, first, more, META_BASE, META_BASE + PAGE_SIZE, META_BASE, META_BASE + META_WRITTEN);
    visited := first + more;
    assert Print(m)[..META_WRITTEN] == Print(m);
  }
}
