// The flash array, the HAL's two ways of changing it, and the driver loops above them
// (Core/Src/ota_flash.c, flash map in Core/Inc/bl_handoff.h:23-29).

module Flash {
  import opened Words

  const FLASH_BASE: nat := 0x08000000
  const APP_BASE: nat := 0x08007000
  const APP_SLOT_SIZE: nat := 0x17000
  const META_BASE: nat := 0x0801E000
  const FLASH_END: nat := 0x08020000
  const PAGE_SIZE: nat := 2048
  const FLASH_SIZE: nat := 0x20000

  const ERASED: Octet := 0xFF

  // Everything the array holds, lowest address first.
  type Image = m: seq<Octet> | |m| == FLASH_SIZE witness seq(FLASH_SIZE, _ => 0)

  predicate InFlash(addr: nat, n: nat) {
    FLASH_BASE <= addr && addr + n <= FLASH_END
  }

  function Bytes(m: Image, addr: nat, n: nat): (s: seq<Octet>)
    requires InFlash(addr, n)
    ensures |s| == n
  {
    m[addr - FLASH_BASE..addr - FLASH_BASE + n]
  }

  function Slot(m: Image): (s: seq<Octet>)
    ensures |s| == APP_SLOT_SIZE
  {
    Bytes(m, APP_BASE, APP_SLOT_SIZE)
  }

  // m with `data` laid over it from `addr` on
  function Patch(m: Image, addr: nat, data: seq<Octet>): Image
    requires InFlash(addr, |data|)
  {
    m[..addr - FLASH_BASE] + data + m[addr - FLASH_BASE + |data|..]
  }

  function Blank(n: nat): seq<Octet> {
    seq(n, _ => ERASED)
  }

  // x differs from m only at addresses in [lo, hi)
  ghost predicate AgreeOutside(m: Image, x: Image, lo: nat, hi: nat) {
    forall i :: 0 <= i < FLASH_SIZE && !(lo <= FLASH_BASE + i < hi) ==> x[i] == m[i]
  }

  // The last of the images visited, or the image before if none was.
  function Now(m: Image, visited: seq<Image>): Image {
    if visited == [] then m else visited[|visited| - 1]
  }

  lemma AgreeKeepsBytes(m: Image, x: Image, lo: nat, hi: nat, addr: nat, n: nat)
    requires AgreeOutside(m, x, lo, hi) && InFlash(addr, n)
    requires addr + n <= lo || hi <= addr
    ensures Bytes(x, addr, n) == Bytes(m, addr, n)
  {
  }

  lemma AgreeTrans(m: Image, x: Image, y: Image, lo: nat, hi: nat)
    requires AgreeOutside(m, x, lo, hi) && AgreeOutside(x, y, lo, hi)
    ensures AgreeOutside(m, y, lo, hi)
  {
  }

  ghost predicate AllAgreeOutside(m: Image, visited: seq<Image>, lo: nat, hi: nat) {
    forall x :: x in visited ==> AgreeOutside(m, x, lo, hi)
  }

  // Work on [a, b) after work on [lo, hi) that encloses it.
  lemma MoreVisited(m: Image, first: seq<Image>, more: seq<Image>, lo: nat, hi: nat, a: nat, b: nat)
    requires AllAgreeOutside(m, first, lo, hi)
    requires AllAgreeOutside(Now(m, first), more, a, b)
    requires lo <= a && b <= hi
    ensures AllAgreeOutside(m, first + more, lo, hi)
    ensures Now(m, first + more) == Now(Now(m, first), more)
  {
    var mid := Now(m, first);
    assert AgreeOutside(m, mid, lo, hi);
    forall x | x in more
      ensures AgreeOutside(m, x, lo, hi)
    {
      assert AgreeOutside(mid, x, lo, hi);
      AgreeTrans(m, mid, x, lo, hi);
    }
  }

  lemma PatchedAt(m: Image, addr: nat, data: seq<Octet>, i: nat)
    requires InFlash(addr, |data|) && i < FLASH_SIZE
    ensures var a := addr - FLASH_BASE;
            Patch(m, addr, data)[i] == if a <= i < a + |data| then data[i - a] else m[i]
  {
  }

  lemma PatchGrows(m: Image, addr: nat, d: seq<Octet>, e: seq<Octet>)
    requires InFlash(addr, |d| + |e|)
    ensures Patch(Patch(m, addr, d), addr + |d|, e) == Patch(m, addr, d + e)
  {
  }

  lemma PatchNothing(m: Image, addr: nat)
    requires InFlash(addr, 0)
    ensures Patch(m, addr, []) == m
  {
  }

  lemma PatchAgrees(m: Image, addr: nat, data: seq<Octet>)
    requires InFlash(addr, |data|)
    ensures AgreeOutside(m, Patch(m, addr, data), addr, addr + |data|)
    ensures Bytes(Patch(m, addr, data), addr, |data|) == data
  {
  }

  // ----- Parameters of the driver -----

  // in_range, with the 32-bit wrap of addr + size
  predicate InRange(addr: nat, size: nat) {
    addr >= APP_BASE && (addr + size) % WORD_LIMIT <= FLASH_END
  }

  // What the check really admits: true sub-ranges of [APP_BASE, FLASH_END), and sizes so
  // large that the sum wraps.
  lemma InRangeExactly(addr: nat, size: nat)
    requires addr < WORD_LIMIT && size < WORD_LIMIT
    ensures InRange(addr, size) <==>
            APP_BASE <= addr && (addr + size <= FLASH_END
                                 || WORD_LIMIT <= addr + size <= WORD_LIMIT + FLASH_END)
  {
    if addr + size < WORD_LIMIT {
      assert (addr + size) % WORD_LIMIT == addr + size;
    } else {
      assert (addr + size) % WORD_LIMIT == addr + size - WORD_LIMIT;
    }
  }

  // With the 32-bit wrap of the sum: sizes next to 2^32 come out as no page at all.
  function PagesFor(size: nat): nat {
    (size + PAGE_SIZE - 1) % WORD_LIMIT / PAGE_SIZE
  }

  function PageStart(addr: nat): nat
    requires FLASH_BASE <= addr
  {
    FLASH_BASE + (addr - FLASH_BASE) / PAGE_SIZE * PAGE_SIZE
  }

  function RoundUp8(n: nat): nat {
    (n + 7) / 8 * 8
  }

  // The bytes that reach the array for a write of `data`: whole doublewords, tail padded.
  function Padded(data: seq<Octet>): (s: seq<Octet>)
    ensures |s| == RoundUp8(|data|)
  {
    data + Blank(RoundUp8(|data|) - |data|)
  }

  // The doubleword the loop builds at offset i.
  function Chunk(data: seq<Octet>, i: nat): (dw: seq<Octet>)
    requires i < |data|
    ensures |dw| == 8
  {
    var n := if |data| - i >= 8 then 8 else |data| - i;
    data[i..i + n] + Blank(8 - n)
  }

  lemma ChunkOfPadded(data: seq<Octet>, i: nat)
    requires i < |data| && i % 8 == 0
    ensures i + 8 <= RoundUp8(|data|)
    ensures Chunk(data, i) == Padded(data)[i..i + 8]
  {
  }

  lemma ChunkOfPrefix(data: seq<Octet>, n: nat, i: nat)
    requires i < n <= |data| && i % 8 == 0 && (n == |data| || n % 8 == 0)
    ensures Chunk(data[..n], i) == Chunk(data, i)
  {
  }

  lemma CutAligned(addr: nat, reach: nat)
    requires addr % 8 == 0 && addr + reach == FLASH_END
    ensures RoundUp8(reach) == reach
  {
  }

  lemma LastChunk(n: nat, i: nat)
    requires n <= i <= RoundUp8(n) && i % 8 == 0
    ensures i == RoundUp8(n)
  {
  }

  lemma AlignedRoom(addr: nat, n: nat)
    requires InFlash(addr, n) && addr % 8 == 0
    ensures InFlash(addr, RoundUp8(n))
  {
  }

  // ----- The device -----

  // One hardware step that works on [addr, addr + |done|) of m and visits `visited`. On a
  // tearing device that range may pass through, or on an error be left with, any content.
  ghost predicate StepVisits(tearing: bool, m: Image, addr: nat, done: seq<Octet>, visited: seq<Image>, ok: bool)
    requires InFlash(addr, |done|)
  {
    && AllAgreeOutside(m, visited, addr, addr + |done|)
    && (ok ==> visited != [] && Now(m, visited) == Patch(m, addr, done))
    && (!tearing ==> visited == if ok then [Patch(m, addr, done)] else [])
  }

  // Erasing `pages` whole pages from lo on, complete if ok.
  ghost predicate EraseVisits(tearing: bool, m: Image, lo: nat, pages: nat, visited: seq<Image>, ok: bool)
    requires FLASH_BASE <= lo
  {
    var hi := lo + pages * PAGE_SIZE;
    && AllAgreeOutside(m, visited, lo, hi)
    && (ok ==> hi <= FLASH_END && Now(m, visited) == Patch(m, lo, Blank(pages * PAGE_SIZE)))
    && (ok && pages > 0 ==> visited != [])
    && (pages == 0 ==> visited == [])
    && (!tearing && pages == 1 ==> visited == if ok then [Now(m, visited)] else [])
  }

  // On a device that does not tear: k doublewords, each written once, lowest address first.
  ghost predicate StepsInOrder(m: Image, addr: nat, data: seq<Octet>, visited: seq<Image>)
    requires InFlash(addr, |data|)
  {
    && 8 * |visited| <= |data|
    && forall i :: 0 <= i < |visited| ==> visited[i] == Patch(m, addr, data[..8 * (i + 1)])
  }

  // Programming doublewords of data from addr on; the first n bytes are done if ok.
  ghost predicate ProgramVisits(tearing: bool, m: Image, addr: nat, data: seq<Octet>, n: nat, visited: seq<Image>,
                                ok: bool)
    requires InFlash(addr, |data|) && n <= |data|
  {
    && AllAgreeOutside(m, visited, addr, addr + |data|)
    && (ok ==> Now(m, visited) == Patch(m, addr, data[..n]))
    && (!tearing ==> StepsInOrder(m, addr, data, visited))
    && (!tearing && ok ==> 8 * |visited| == n)
  }

  // A write of data: nothing happens at a misaligned address, and it succeeds only if empty.
  ghost predicate WriteVisits(tearing: bool, m: Image, addr: nat, data: seq<Octet>, visited: seq<Image>, ok: bool)
    requires InFlash(addr, |data|)
  {
    if addr % 8 != 0 then visited == [] && (ok ==> data == [])
    else ProgramVisits(tearing, m, addr, Padded(data), if ok then RoundUp8(|data|) else 0, visited, ok)
  }

  // ----- What an erase does to addresses -----

  // The page an address lies in, counted from address 0. The array begins at a page.
  function PageOf(a: nat): nat {
    a / PAGE_SIZE
  }

  ghost predicate BlankIn(m: Image, lo: nat, hi: nat) {
    forall i :: 0 <= i < FLASH_SIZE && lo <= FLASH_BASE + i < hi ==> m[i] == ERASED
  }

  // Nothing changed outside the pages first..last.
  ghost predicate OnlyPages(m: Image, visited: seq<Image>, first: nat, last: nat) {
    forall x :: x in visited ==>
      forall i :: 0 <= i < FLASH_SIZE && !(first <= PageOf(FLASH_BASE + i) <= last) ==> x[i] == m[i]
  }

  // A range that touches no more pages than its size alone needs: one begun at a page, or far
  // enough from the end of its first page.
  predicate FitsPages(addr: nat, size: nat) {
    size > 0 && addr % PAGE_SIZE + (size - 1) % PAGE_SIZE < PAGE_SIZE
  }

  lemma PagesReach(addr: nat, size: nat)
    requires FLASH_BASE <= addr && 0 < size && addr + size <= FLASH_END
    ensures PageStart(addr) == PageOf(addr) * PAGE_SIZE
    ensures var hi := PageStart(addr) + PagesFor(size) * PAGE_SIZE;
            && (FitsPages(addr, size) <==> addr + size <= hi)
            && hi <= (PageOf(addr + size - 1) + 1) * PAGE_SIZE
  {
    assert PagesFor(size) == (size - 1) / PAGE_SIZE + 1;
  }

  lemma SomePages(size: nat)
    requires 0 < size <= FLASH_END
    ensures PagesFor(size) > 0
  {
  }

  // A successful erase blanks the range asked for exactly if it fits its pages: if it does not,
  // its last byte is left as it was. No byte outside the pages it touches ever changes.
  lemma EraseReaches(tearing: bool, m: Image, addr: nat, size: nat, visited: seq<Image>, ok: bool)
    requires FLASH_BASE <= addr && 0 < size && addr + size <= FLASH_END
    requires EraseVisits(tearing, m, PageStart(addr), PagesFor(size), visited, ok)
    ensures ok && FitsPages(addr, size) ==> BlankIn(Now(m, visited), addr, addr + size)
    ensures !FitsPages(addr, size) ==> Now(m, visited)[addr + size - 1 - FLASH_BASE] == m[addr + size - 1 - FLASH_BASE]
    ensures OnlyPages(m, visited, PageOf(addr), PageOf(addr + size - 1))
  {
    hide PageStart, PagesFor, Patch;
    PagesReach(addr, size);
    var lo, n := PageStart(addr), PagesFor(size) * PAGE_SIZE;
    if ok && FitsPages(addr, size) {
      forall i | 0 <= i < FLASH_SIZE && addr <= FLASH_BASE + i < addr + size
        ensures Now(m, visited)[i] == ERASED
      {
        PatchedAt(m, lo, Blank(n), i);
      }
    }
    if visited != [] {
      assert AgreeOutside(m, Now(m, visited), lo, lo + n);
    }
    forall x, i | x in visited && 0 <= i < FLASH_SIZE
                  && !(PageOf(addr) <= PageOf(FLASH_BASE + i) <= PageOf(addr + size - 1))
      ensures x[i] == m[i]
    {
      assert AgreeOutside(m, x, lo, lo + n);
      PageBounds(FLASH_BASE + i, PageOf(addr), PageOf(addr + size - 1));
    }
  }

  lemma PageBounds(a: nat, first: nat, last: nat)
    ensures first <= PageOf(a) <= last <==> first * PAGE_SIZE <= a < (last + 1) * PAGE_SIZE
  {
  }

  // A write cut off behind data: it may have stopped on the way or gone through.
  ghost predicate WriteCut(tearing: bool, m: Image, addr: nat, data: seq<Octet>, visited: seq<Image>)
    requires InFlash(addr, |data|)
  {
    WriteVisits(tearing, m, addr, data, visited, true) || WriteVisits(tearing, m, addr, data, visited, false)
  }

  lemma StoppedWrite(tearing: bool, m: Image, addr: nat, data: seq<Octet>, visited: seq<Image>)
    requires InFlash(addr, |data|)
    requires if addr % 8 != 0 then visited == [] && data != []
             else InFlash(addr, RoundUp8(|data|)) && ProgramVisits(tearing, m, addr, Padded(data), 0, visited, false)
    ensures WriteVisits(tearing, m, addr, data, visited, false) && WriteCut(tearing, m, addr, data, visited)
  {
  }

  lemma WholeWrite(tearing: bool, m: Image, addr: nat, data: seq<Octet>, visited: seq<Image>)
    requires InFlash(addr, |data|)
    requires if addr % 8 != 0 then visited == [] && data == []
             else InFlash(addr, RoundUp8(|data|))
                  && ProgramVisits(tearing, m, addr, Padded(data), RoundUp8(|data|), visited, true)
    ensures WriteVisits(tearing, m, addr, data, visited, true) && WriteCut(tearing, m, addr, data, visited)
  {
  }

  lemma NothingVisited(tearing: bool, m: Image, lo: nat, pages: nat)
    requires FLASH_BASE <= lo && pages > 0
    ensures EraseVisits(tearing, m, lo, pages, [], false)
  {
  }

  lemma OneMorePage(tearing: bool, m: Image, lo: nat, i: nat, visited: seq<Image>, more: seq<Image>, ok: bool)
    requires FLASH_BASE <= lo && EraseVisits(tearing, m, lo, i, visited, true)
    requires InFlash(lo + i * PAGE_SIZE, PAGE_SIZE)
    requires StepVisits(tearing, Now(m, visited), lo + i * PAGE_SIZE, Blank(PAGE_SIZE), more, ok)
    ensures EraseVisits(tearing, m, lo, i + 1, visited + more, ok)
  {
    hide Patch;
    var hi := lo + (i + 1) * PAGE_SIZE;
    assert AllAgreeOutside(m, visited, lo, hi);
    MoreVisited(m, visited, more, lo, hi, lo + i * PAGE_SIZE, hi);
    if ok {
      PatchGrows(m, lo, Blank(i * PAGE_SIZE), Blank(PAGE_SIZE));
      assert Blank(i * PAGE_SIZE) + Blank(PAGE_SIZE) == Blank((i + 1) * PAGE_SIZE);
    }
  }

  lemma NothingProgrammed(tearing: bool, m: Image, addr: nat, data: seq<Octet>)
    requires InFlash(addr, |data|)
    ensures ProgramVisits(tearing, m, addr, data, 0, [], true)
  {
    PatchNothing(m, addr);
    assert data[..0] == [];
  }

  lemma NothingErased(tearing: bool, m: Image, lo: nat)
    requires FLASH_BASE <= lo <= FLASH_END
    ensures EraseVisits(tearing, m, lo, 0, [], true)
  {
    PatchNothing(m, lo);
    assert Blank(0) == [];
  }

  // An erase that stops after i of its pages.
  lemma EraseStops(tearing: bool, m: Image, lo: nat, i: nat, pages: nat, visited: seq<Image>, ok: bool)
    requires FLASH_BASE <= lo && EraseVisits(tearing, m, lo, i, visited, ok)
    requires if ok then i < pages else 0 < i <= pages
    ensures EraseVisits(tearing, m, lo, pages, visited, false)
  {
  }

  lemma PatchTwice(m: Image, addr: nat, data: seq<Octet>, i: nat)
    requires InFlash(addr, |data|) && i + 8 <= |data|
    ensures Patch(Patch(m, addr, data[..i]), addr + i, data[i..i + 8]) == Patch(m, addr, data[..i + 8])
  {
    hide Patch;
    PatchGrows(m, addr, data[..i], data[i..i + 8]);
    assert data[..i] + data[i..i + 8] == data[..i + 8];
  }

  lemma StepsExtend(m: Image, addr: nat, data: seq<Octet>, visited: seq<Image>, next: Image)
    requires InFlash(addr, |data|) && 8 * |visited| + 8 <= |data| && StepsInOrder(m, addr, data, visited)
    requires next == Patch(m, addr, data[..8 * |visited| + 8])
    ensures StepsInOrder(m, addr, data, visited + [next])
  {
    hide Patch;
  }

  lemma OneMoreDoubleword(tearing: bool, m: Image, addr: nat, data: seq<Octet>, i: nat,
                          visited: seq<Image>, more: seq<Image>, ok: bool)
    requires InFlash(addr, |data|) && i + 8 <= |data| && i % 8 == 0
    requires ProgramVisits(tearing, m, addr, data, i, visited, true)
    requires StepVisits(tearing, Now(m, visited), addr + i, data[i..i + 8], more, ok)
    ensures ProgramVisits(tearing, m, addr, data, if ok then i + 8 else 0, visited + more, ok)
  {
    hide Patch, StepsInOrder, AllAgreeOutside;
    MoreVisited(m, visited, more, addr, addr + |data|, addr + i, addr + i + 8);
    PatchTwice(m, addr, data, i);
    if !tearing {
      if ok {
        StepsExtend(m, addr, data, visited, Patch(m, addr, data[..i + 8]));
      } else {
        assert visited + more == visited;
      }
    }
  }

  // The array behind its two HAL entry points. `history` is every content it passed through.
  class FlashDevice {
    var mem: Image
    ghost var history: seq<Image>
    const tearing: bool

    constructor (m: Image, tears: bool)
      ensures mem == m && history == [] && tearing == tears
    {
      mem := m;
      history := [];
      tearing := tears;
    }

    method Step(addr: nat, done: seq<Octet>) returns (ok: bool, ghost visited: seq<Image>)
      requires InFlash(addr, |done|)
      modifies this
      ensures history == old(history) + visited && mem == Now(old(mem), visited)
      ensures StepVisits(tearing, old(mem), addr, done, visited, ok)
    {
      PatchAgrees(mem, addr, done);
      var target := Patch(mem, addr, done);
      visited := [];
      if tearing {
        var torn: seq<Octet> := *;
        if |torn| != |done| { torn := done; }
        PatchAgrees(mem, addr, torn);
        mem := Patch(mem, addr, torn);
        visited := [mem];
      }
      ok := *;
      if ok {
        mem := target;
        visited := visited + [mem];
      }
      history := history + visited;
    }

    // HAL_FLASHEx_Erase of one page. There are 64 pages.
    method HalErase(page: nat) returns (ok: bool, ghost visited: seq<Image>)
      modifies this
      ensures history == old(history) + visited && mem == Now(old(mem), visited)
      ensures if page < FLASH_SIZE / PAGE_SIZE
              then StepVisits(tearing, old(mem), FLASH_BASE + page * PAGE_SIZE, Blank(PAGE_SIZE), visited, ok)
              else !ok && visited == []
    {
      if page < FLASH_SIZE / PAGE_SIZE {
        ok, visited := Step(FLASH_BASE + page * PAGE_SIZE, Blank(PAGE_SIZE));
      } else {
        ok, visited := false, [];
      }
    }

    // HAL_FLASH_Program of one doubleword. A misaligned or foreign address is refused.
    method HalProgram(addr: nat, dw: seq<Octet>) returns (ok: bool, ghost visited: seq<Image>)
      requires |dw| == 8
      modifies this
      ensures history == old(history) + visited && mem == Now(old(mem), visited)
      ensures if addr % 8 == 0 && InFlash(addr, 8)
              then StepVisits(tearing, old(mem), addr, dw, visited, ok)
              else !ok && visited == []
    {
      if addr % 8 == 0 && InFlash(addr, 8) {
        ok, visited := Step(addr, dw);
      } else {
        ok, visited := false, [];
      }
    }

    // ota_flash_erase. A successful erase leaves the range blank, provided it begins at a page
    // or far enough from the end of one; no page beyond the range changes.
    method Erase(addr: nat, size: nat) returns (ok: bool, ghost visited: seq<Image>)
      requires addr < WORD_LIMIT && size < WORD_LIMIT
      modifies this
      ensures history == old(history) + visited && mem == Now(old(mem), visited)
      ensures if !InRange(addr, size) then !ok && visited == []
              else if PagesFor(size) == 0 then ok && visited == []
              else EraseVisits(tearing, old(mem), PageStart(addr), PagesFor(size), visited, ok)
      ensures ok && addr + size < WORD_LIMIT && FitsPages(addr, size) ==> BlankIn(mem, addr, addr + size)
      ensures addr + size < WORD_LIMIT && size > 0 ==>
                OnlyPages(old(mem), visited, PageOf(addr), PageOf(addr + size - 1))
    {
      hide EraseVisits, StepVisits, PagesFor, BlankIn, PageOf;
      visited := [];
      if !InRange(addr, size) {
        return false, [];
      }
      ghost var before := mem;
      ok, visited := ErasePages(addr, PagesFor(size));
      if addr + size < WORD_LIMIT && size > 0 {
        PagesReach(addr, size);
        SomePages(size);
        EraseReaches(tearing, before, addr, size, visited, ok);
      }
    }

    // Its loop: one HAL call a page, first error ends it.
    method ErasePages(addr: nat, pages: nat) returns (ok: bool, ghost visited: seq<Image>)
      requires APP_BASE <= addr < WORD_LIMIT
      modifies this
      ensures history == old(history) + visited && mem == Now(old(mem), visited)
      ensures if pages == 0 then ok && visited == []
              else EraseVisits(tearing, old(mem), PageStart(addr), pages, visited, ok)
    {
      hide EraseVisits, StepVisits;
      visited := [];
      ghost var before, past := mem, history;
      var first := (addr - FLASH_BASE) / PAGE_SIZE;
      ghost var lo := PageStart(addr);
      for i := 0 to pages
        invariant history == past + visited && mem == Now(before, visited)
        invariant if i == 0 then visited == []
                  else first + i <= FLASH_SIZE / PAGE_SIZE && EraseVisits(tearing, before, lo, i, visited, true)
      {
        ghost var more;
        ok, more := HalErase(first + i);
        if i == 0 {
          NothingVisited(tearing, before, lo, pages);
          if first < FLASH_SIZE / PAGE_SIZE { NothingErased(tearing, before, lo); }
        }
        if first + i < FLASH_SIZE / PAGE_SIZE {
          OneMorePage(tearing, before, lo, i, visited, more, ok);
        } else {
          assert visited + more == visited;
        }
        visited := visited + more;
        if !ok {
          if first + i < FLASH_SIZE / PAGE_SIZE {
            EraseStops(tearing, before, lo, i + 1, pages, visited, false);
          } else if i > 0 {
            EraseStops(tearing, before, lo, i, pages, visited, true);
          }
          return;
        }
      }
      ok := true;
    }

    // ota_flash_write: one HAL call a doubleword, the last one padded with 0xFF. Data whose
    // range wraps is written up to the end of the array, and refused there.
    method Write(addr: nat, data: seq<Octet>) returns (ok: bool, ghost visited: seq<Image>)
      requires addr < WORD_LIMIT && |data| < WORD_LIMIT
      modifies this
      ensures history == old(history) + visited && mem == Now(old(mem), visited)
      ensures if !InRange(addr, |data|) then !ok && visited == []
              else if InFlash(addr, |data|) then WriteVisits(tearing, old(mem), addr, data, visited, ok)
              else !ok && (if addr < FLASH_END then WriteCut(tearing, old(mem), addr, data[..FLASH_END - addr], visited)
                           else visited == [])
    {
      hide StepVisits, ProgramVisits, Patch, Padded, Chunk, RoundUp8, WriteVisits, WriteCut;
      visited := [];
      if !InRange(addr, |data|) {
        return false, [];
      }
      ok := true;
      ghost var before, past := mem, history;
      ghost var reach := if InFlash(addr, |data|) then |data| else if addr < FLASH_END then FLASH_END - addr else 0;
      ghost var d := data[..reach];
      ghost var aligned := addr % 8 == 0 && (addr < FLASH_END || data == []);
      assert InFlash(addr, |data|) ==> d == data;
      if aligned {
        AlignedRoom(addr, reach);
        NothingProgrammed(tearing, mem, addr, Padded(d));
      }
      var i := 0;
      while i < |data|
        invariant i % 8 == 0 && 0 <= i <= RoundUp8(reach)
        invariant history == past + visited && mem == Now(before, visited)
        invariant if aligned then ProgramVisits(tearing, before, addr, Padded(d), i, visited, true)
                  else i == 0 && visited == []
        decreases |data| - i
      {
        ghost var more;
        ok, more := HalProgram((addr + i) % WORD_LIMIT, Chunk(data, i));
        if aligned && i < reach {
          ChunkOfPrefix(data, reach, i);
          ChunkOfPadded(d, i);
          OneMoreDoubleword(tearing, before, addr, Padded(d), i, visited, more, ok);
        } else {
          if aligned { LastChunk(reach, i); CutAligned(addr, reach); }
          assert !ok && visited + more == visited;
        }
        visited := visited + more;
        if !ok {
          if addr < FLASH_END {
            if aligned && i >= reach {
              WholeWrite(tearing, before, addr, d, visited);
            } else {
              StoppedWrite(tearing, before, addr, d, visited);
            }
          }
          return;
        }
        i := i + 8;
      }
      LastChunk(|data|, i);
      WholeWrite(tearing, before, addr, d, visited);
    }
  }
}
