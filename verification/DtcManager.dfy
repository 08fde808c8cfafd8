// The fault manager's table, mirror and counters, updated in place
// (Core/Src/obd2_simulator.c:232-548).

module DtcManager {
  import opened DtcHistory
  import opened Words

  // DtcMirrorEntry_t
  datatype Mirror = Mirror(code: nat, status: bv8, occurrence: nat)

  datatype Pick = FirstFailed | RecentFailed | FirstConfirmed | RecentConfirmed

  // OBD2_DtcStatusByte
  function StatusByte(e: Entry): bv8 {
    (if e.debounce > 0 then 0x01 else 0) | (if e.failSeq != 0 then 0x26 else 0)
      | (if e.state.Confirmed? then 0x88 else 0)
  }

  // OBD2_DtcFdc
  function FaultDetectionCounter(e: Entry): nat {
    if e.state.Pending? || e.state.Confirmed? then 127
    else if e.debounce < DEBOUNCE_THRESH then e.debounce * 25 else 0
  }

  // One turn of the loop of OBD2_DtcUpdate: the entry and the counter.
  function Advanced(e: Entry, counter: nat, cond: bool, s: Sim): (Entry, nat) {
    if !cond then
      var d := e.(debounce := 0);
      (if d.state.Pending? then d.(state := Inactive, hold := 0) else d, counter)
    else
      var d := if e.debounce < COUNT_MAX then e.(debounce := e.debounce + 1) else e;
      var promoted := d.state.Inactive? && d.debounce >= DEBOUNCE_THRESH;
      var c := if promoted && counter < SEQ_MAX then counter + 1 else counter;
      var p := if !promoted then d
               else d.(state := Pending, hold := 0, failSeq := c,
                       occurrence := if d.occurrence < COUNT_MAX then d.occurrence + 1 else d.occurrence,
                       snapshot := Snapshot(true, s.rpm, s.speed, s.coolant));
      if !p.state.Pending? then (p, c)
      else
        var q := if p.hold < COUNT_MAX then p.(hold := p.hold + 1) else p;
        (if q.hold >= CONFIRM_HOLD then q.(state := Confirmed, permanent := true) else q, c)
  }

  // The loop turn for entry i keeps the entry what the history says, and counts its maturing.
  lemma AdvanceRefines(e: Entry, counter: nat, h: History, s: Sim, i: nat)
    requires i < DTC_COUNT && Refines(e, h, i)
    requires counter == Min(TotalMatured(h) + MaturedNow(h + [s], i), SEQ_MAX)
    ensures var (d, c) := Advanced(e, counter, Cond(s, i), s);
            Refines(d, h + [s], i) && c == Min(TotalMatured(h) + MaturedNow(h + [s], i + 1), SEQ_MAX)
  {
    Grows(h, s);
  }

  // ----- The status byte -----

  predicate Bit(b: bv8, mask: bv8) {
    b & mask != 0
  }

  lemma StatusBits(failing: bool, failed: bool, confirmed: bool, b: bv8)
    requires b == (if failing then 0x01 else 0) | (if failed then 0x26 else 0) | (if confirmed then 0x88 else 0)
    ensures Bit(b, 0x01) == failing
    ensures Bit(b, 0x02) == Bit(b, 0x04) == Bit(b, 0x20) == failed
    ensures Bit(b, 0x08) == Bit(b, 0x80) == confirmed
    ensures !Bit(b, 0x10) && !Bit(b, 0x40)
  {
  }

  // What each bit says about the history. Bits 3 and 7 agree and imply bit 5.
  lemma StatusSays(e: Entry, h: History, i: nat)
    requires i < DTC_COUNT && Refines(e, h, i)
    ensures var b := StatusByte(e);
            && (Bit(b, 0x01) <==> Run(h, i) > 0)
            && (Bit(b, 0x20) <==> exists k :: 0 <= k <= |h| && Matured(h[..k], i))
            && (Bit(b, 0x20) <==> Bit(b, 0x02)) && (Bit(b, 0x20) <==> Bit(b, 0x04))
            && (Bit(b, 0x20) <==> e.snapshot.valid)
            && (Bit(b, 0x08) <==> HasConfirmed(h, i)) && (Bit(b, 0x80) <==> HasConfirmed(h, i))
            && (Bit(b, 0x08) ==> Bit(b, 0x20))
            && !Bit(b, 0x10) && !Bit(b, 0x40)
  {
    hide Bit, HasConfirmed, Run, Matured, LastMatured, Rank, TotalMatured;
    StatusBits(e.debounce > 0, e.failSeq != 0, e.state.Confirmed?, StatusByte(e));
    RankInTotal(h, i);
    ConfirmFollows(h, i);
    MaturedSomeTime(h, i);
  }

  lemma {:induction false} MaturedSomeTime(h: History, i: nat)
    ensures LastMatured(h, i) != 0 <==> exists k :: 0 <= k <= |h| && Matured(h[..k], i)
  {
    if h != [] {
      MaturedSomeTime(Before(h), i);
      assert h[..|h|] == h;
      assert forall k :: 0 <= k < |h| ==> Before(h)[..k] == h[..k];
    } else {
      assert h[..0] == [];
    }
  }

  // The detection counter is at its limit exactly while the failure is matured; before that
  // it is a quarter of 100 for each failing tick.
  lemma CounterSays(e: Entry, h: History, i: nat)
    requires i < DTC_COUNT && Refines(e, h, i)
    ensures FaultDetectionCounter(e) ==
            if HasConfirmed(h, i) || Run(h, i) >= DEBOUNCE_THRESH then 127 else 25 * Run(h, i)
  {
  }

  // ----- Choosing an entry -----

  predicate Candidate(e: Entry, which: Pick) {
    e.failSeq != 0 && (which.FirstConfirmed? || which.RecentConfirmed? ==> e.state.Confirmed?)
  }

  predicate Lowest(which: Pick) {
    which.FirstFailed? || which.FirstConfirmed?
  }

  // e at i wins over f at j.
  predicate Wins(which: Pick, e: Entry, i: nat, f: Entry, j: nat) {
    || (if Lowest(which) then e.failSeq < f.failSeq else e.failSeq > f.failSeq)
    || (e.failSeq == f.failSeq && i < j)
  }

  ghost predicate Picks(t: seq<Entry>, which: Pick, n: nat, best: int)
    requires n <= |t|
  {
    if best < 0 then forall k :: 0 <= k < n ==> !Candidate(t[k], which)
    else best < n && Candidate(t[best], which)
         && forall k :: 0 <= k < n && k != best && Candidate(t[k], which) ==> Wins(which, t[best], best, t[k], k)
  }

  ghost predicate AllRefine(t: seq<Entry>, h: History) {
    |t| == DTC_COUNT && forall i :: 0 <= i < DTC_COUNT ==> Refines(t[i], h, i)
  }

  // The entry confirmed before all others, or after all others.
  ghost predicate ConfirmedFirst(h: History, f: nat) {
    f < DTC_COUNT && HasConfirmed(h, f)
    && forall k :: 0 <= k < DTC_COUNT && k != f && HasConfirmed(h, k) ==>
        Earlier(ConfirmTick(h, f), f, ConfirmTick(h, k), k)
  }

  ghost predicate ConfirmedLast(h: History, l: nat) {
    l < DTC_COUNT && HasConfirmed(h, l)
    && forall k :: 0 <= k < DTC_COUNT && k != l && HasConfirmed(h, k) ==>
        Earlier(ConfirmTick(h, k), k, ConfirmTick(h, l), l)
  }

  // The recorded number is the entry's own, or shared only with entries behind it in the table.
  ghost predicate OwnNumber(t: seq<Entry>, f: nat)
    requires f < |t|
  {
    forall k :: 0 <= k < |t| && t[k].state.Confirmed? && t[k].failSeq == t[f].failSeq ==> f <= k
  }

  lemma ConfirmedCandidate(t: seq<Entry>, h: History, which: Pick, k: nat)
    requires AllRefine(t, h) && k < DTC_COUNT && (which.FirstConfirmed? || which.RecentConfirmed?)
    ensures Candidate(t[k], which) <==> HasConfirmed(h, k)
    ensures t[k].state.Confirmed? <==> HasConfirmed(h, k)
    ensures t[k].failSeq == Min(Rank(h, k), SEQ_MAX)
  {
    RankInTotal(h, k);
    ConfirmFollows(h, k);
    assert Refines(t[k], h, k);
  }

  lemma ConfirmedNumbers(t: seq<Entry>, h: History, i: nat, j: nat)
    requires AllRefine(t, h) && i < DTC_COUNT && j < DTC_COUNT && i != j && HasConfirmed(h, i) && HasConfirmed(h, j)
    ensures Earlier(ConfirmTick(h, i), i, ConfirmTick(h, j), j) ==> t[i].failSeq <= t[j].failSeq
    ensures Earlier(ConfirmTick(h, i), i, ConfirmTick(h, j), j) || Earlier(ConfirmTick(h, j), j, ConfirmTick(h, i), i)
    ensures TotalMatured(h) <= SEQ_MAX ==> t[i].failSeq != t[j].failSeq
  {
    ConfirmOrder(h, i, j);
    ConfirmedCandidate(t, h, FirstConfirmed, i);
    ConfirmedCandidate(t, h, FirstConfirmed, j);
    RankInTotal(h, i);
    RankInTotal(h, j);
  }

  // Whatever the number of maturings: the pick is the first entry to have been confirmed if
  // and only if no entry before it in the table carries the same number.
  lemma FirstConfirmedExactly(t: seq<Entry>, h: History, b: int, f: nat)
    requires AllRefine(t, h) && Picks(t, FirstConfirmed, DTC_COUNT, b) && ConfirmedFirst(h, f)
    ensures b == f <==> OwnNumber(t, f)
  {
    hide Refines, HasConfirmed, ConfirmTick;
    forall k: nat | k < DTC_COUNT
      ensures Candidate(t[k], FirstConfirmed) <==> HasConfirmed(h, k)
      ensures t[k].state.Confirmed? <==> HasConfirmed(h, k)
      ensures k != f && HasConfirmed(h, k) ==> t[f].failSeq <= t[k].failSeq
    {
      ConfirmedCandidate(t, h, FirstConfirmed, k);
      if k != f && HasConfirmed(h, k) { ConfirmedNumbers(t, h, f, k); }
    }
    assert Candidate(t[f], FirstConfirmed);
  }

  lemma RecentConfirmedExactly(t: seq<Entry>, h: History, b: int, l: nat)
    requires AllRefine(t, h) && Picks(t, RecentConfirmed, DTC_COUNT, b) && ConfirmedLast(h, l)
    ensures b == l <==> OwnNumber(t, l)
  {
    hide Refines, HasConfirmed, ConfirmTick;
    forall k: nat | k < DTC_COUNT
      ensures Candidate(t[k], RecentConfirmed) <==> HasConfirmed(h, k)
      ensures t[k].state.Confirmed? <==> HasConfirmed(h, k)
      ensures k != l && HasConfirmed(h, k) ==> t[k].failSeq <= t[l].failSeq
    {
      ConfirmedCandidate(t, h, RecentConfirmed, k);
      if k != l && HasConfirmed(h, k) { ConfirmedNumbers(t, h, k, l); }
    }
    assert Candidate(t[l], RecentConfirmed);
  }

  // Up to 65535 maturings since the last clear: fail order is confirm order. What is picked is
  // the first, or the last, entry to have been confirmed, ties within a tick by index; something
  // is picked exactly if something is confirmed.
  lemma ConfirmPicks(t: seq<Entry>, h: History, first: int, recent: int)
    requires AllRefine(t, h) && TotalMatured(h) <= SEQ_MAX
    requires Picks(t, FirstConfirmed, DTC_COUNT, first) && Picks(t, RecentConfirmed, DTC_COUNT, recent)
    ensures first >= 0 ==> ConfirmedFirst(h, first)
    ensures recent >= 0 ==> ConfirmedLast(h, recent)
    ensures first < 0 <==> forall k :: 0 <= k < DTC_COUNT ==> !HasConfirmed(h, k)
    ensures recent < 0 <==> first < 0
  {
    hide Refines, ConfirmTick;
    PickedIfAny(t, h, FirstConfirmed, first);
    PickedIfAny(t, h, RecentConfirmed, recent);
    if first >= 0 {
      PickedFirst(t, h, first);
    }
    if recent >= 0 {
      PickedLast(t, h, recent);
    }
  }

  lemma PickedFirst(t: seq<Entry>, h: History, first: nat)
    requires AllRefine(t, h) && TotalMatured(h) <= SEQ_MAX && Picks(t, FirstConfirmed, DTC_COUNT, first)
    ensures ConfirmedFirst(h, first)
  {
    hide Refines, ConfirmTick, HasConfirmed;
    ConfirmedCandidate(t, h, FirstConfirmed, first);
    forall k: nat | k < DTC_COUNT && k != first && HasConfirmed(h, k)
      ensures Earlier(ConfirmTick(h, first), first, ConfirmTick(h, k), k)
    {
      ConfirmedCandidate(t, h, FirstConfirmed, k);
      ConfirmedNumbers(t, h, first, k);
      ConfirmedNumbers(t, h, k, first);
    }
  }

  lemma PickedLast(t: seq<Entry>, h: History, recent: nat)
    requires AllRefine(t, h) && TotalMatured(h) <= SEQ_MAX && Picks(t, RecentConfirmed, DTC_COUNT, recent)
    ensures ConfirmedLast(h, recent)
  {
    hide Refines, ConfirmTick, HasConfirmed;
    ConfirmedCandidate(t, h, RecentConfirmed, recent);
    forall k: nat | k < DTC_COUNT && k != recent && HasConfirmed(h, k)
      ensures Earlier(ConfirmTick(h, k), k, ConfirmTick(h, recent), recent)
    {
      ConfirmedCandidate(t, h, RecentConfirmed, k);
      ConfirmedNumbers(t, h, recent, k);
      ConfirmedNumbers(t, h, k, recent);
    }
  }

  // Some entry is picked if and only if some entry is confirmed.
  lemma PickedIfAny(t: seq<Entry>, h: History, which: Pick, best: int)
    requires AllRefine(t, h) && (which.FirstConfirmed? || which.RecentConfirmed?) && Picks(t, which, DTC_COUNT, best)
    ensures best < 0 <==> forall k :: 0 <= k < DTC_COUNT ==> !HasConfirmed(h, k)
  {
    if best < 0 {
      forall k | 0 <= k < DTC_COUNT
        ensures !HasConfirmed(h, k)
      {
        ConfirmedCandidate(t, h, which, k);
        assert !Candidate(t[k], which);
      }
    } else {
      ConfirmedCandidate(t, h, which, best);
    }
  }

  // The two picks among failed entries go by the latest failure of each: the first is the one
  // whose latest failure is oldest, the recent one whose latest failure is newest.
  lemma FailedPicks(t: seq<Entry>, h: History, first: int, recent: int, k: nat)
    requires AllRefine(t, h) && TotalMatured(h) <= SEQ_MAX && k < DTC_COUNT && LastMatured(h, k) > 0
    requires Picks(t, FirstFailed, DTC_COUNT, first) && Picks(t, RecentFailed, DTC_COUNT, recent)
    ensures first >= 0 && LastMatured(h, first) > 0 && recent >= 0 && LastMatured(h, recent) > 0
    ensures first != k ==> Earlier(LastMatured(h, first), first, LastMatured(h, k), k)
    ensures recent != k ==> Earlier(LastMatured(h, k), k, LastMatured(h, recent), recent)
  {
    hide LastMatured, Rank, TotalMatured;
    FailedCandidate(t, h, k);
    assert Candidate(t[k], FirstFailed) && Candidate(t[k], RecentFailed);
    FailedCandidate(t, h, first);
    FailedCandidate(t, h, recent);
    if first != k { RankOrder(h, first, k); }
    if recent != k { RankOrder(h, k, recent); }
  }

  lemma FailedCandidate(t: seq<Entry>, h: History, k: nat)
    requires AllRefine(t, h) && TotalMatured(h) <= SEQ_MAX && k < DTC_COUNT
    ensures Candidate(t[k], FirstFailed) == Candidate(t[k], RecentFailed) == (LastMatured(h, k) > 0)
    ensures t[k].failSeq == Rank(h, k)
  {
    RankInTotal(h, k);
    assert Refines(t[k], h, k);
  }

  // The mirror holds what the history had confirmed, with the status byte of the moment.
  predicate Archived(m: Mirror, e: Entry, h: History, i: nat)
    requires i < DTC_COUNT
  {
    if HasConfirmed(h, i) then m == Mirror(CODES[i], StatusByte(e), Min(TimesMatured(h, i), COUNT_MAX))
    else m.code == 0
  }

  // ----- The manager -----

  class FaultManager {
    const table: array<Entry>
    const mirror: array<Mirror>
    var counter: nat
    var settingOn: bool
    // the ticks monitored since the last clear
    ghost var history: History

    ghost predicate Shaped() {
      table.Length == DTC_COUNT && mirror.Length == DTC_COUNT
    }

    ghost predicate Valid()
      reads this, table
    {
      && Shaped()
      && AllRefine(table[..], history)
      && counter == Counter(history)
    }

    constructor ()
      ensures Valid() && history == [] && settingOn && fresh(table) && fresh(mirror)
      ensures forall k :: 0 <= k < DTC_COUNT ==> mirror[k].code == 0
    {
      table := new Entry[DTC_COUNT](i requires 0 <= i < DTC_COUNT =>
        Entry(CODES[i], Inactive, 0, 0, SEVERITIES[i], 0, 0, false, Snapshot(false, 0, 0, 0)));
      mirror := new Mirror[DTC_COUNT](_ => Mirror(0, 0, 0));
      counter, settingOn := 0, true;
      history := [];
    }

    // OBD2_DtcSettingControl
    method SettingControl(on: bool)
      requires Valid()
      modifies this`settingOn
      ensures Valid() && settingOn == on
    {
      settingOn := on;
    }

    // The body of the loop of OBD2_DtcUpdate.
    method UpdateEntry(i: nat, s: Sim)
      requires Shaped() && i < DTC_COUNT
      modifies this`counter, table
      ensures (table[i], counter) == Advanced(old(table[i]), old(counter), Cond(s, i), s)
      ensures forall k :: 0 <= k < DTC_COUNT && k != i ==> table[k] == old(table[k])
    {
      var d := table[i];
      if Cond(s, i) {
        if d.debounce < COUNT_MAX {
          d := d.(debounce := d.debounce + 1);
        }
        if d.state.Inactive? && d.debounce >= DEBOUNCE_THRESH {
          d := d.(state := Pending, hold := 0);
          if counter < SEQ_MAX {
            counter := counter + 1;
          }
          d := d.(failSeq := counter);
          if d.occurrence < COUNT_MAX {
            d := d.(occurrence := d.occurrence + 1);
          }
          d := d.(snapshot := Snapshot(true, s.rpm, s.speed, s.coolant));
        }
        if d.state.Pending? {
          if d.hold < COUNT_MAX {
            d := d.(hold := d.hold + 1);
          }
          if d.hold >= CONFIRM_HOLD {
            d := d.(state := Confirmed, permanent := true);
          }
        }
      } else {
        d := d.(debounce := 0);
        if d.state.Pending? {
          d := d.(state := Inactive, hold := 0);
        }
      }
      table[i] := d;
    }

    // OBD2_DtcUpdate: one monitored tick, unless the setting is off.
    method Update(s: Sim)
      requires Valid()
      modifies this`counter, this`history, table
      ensures Valid()
      ensures history == if settingOn then old(history) + [s] else old(history)
      ensures !settingOn ==> table[..] == old(table[..])
    {
      hide Refines, TotalMatured, MaturedNow;
      if !settingOn {
        return;
      }
      ghost var h := history;
      NoneYet(h, s);
      for i := 0 to DTC_COUNT
        invariant forall k :: 0 <= k < i ==> Refines(table[k], h + [s], k)
        invariant forall k :: i <= k < DTC_COUNT ==> Refines(table[k], h, k)
        invariant counter == Min(TotalMatured(h) + MaturedNow(h + [s], i), SEQ_MAX)
      {
        AdvanceRefines(table[i], counter, h, s, i);
        UpdateEntry(i, s);
      }
      history := h + [s];
      TotalGrows(h, s);
    }

    // OBD2_DtcClear: what was confirmed goes to the mirror, everything else starts anew.
    method Clear()
      requires Valid()
      modifies this`counter, this`history, table, mirror
      ensures Valid() && history == []
      ensures forall k :: 0 <= k < DTC_COUNT ==> Archived(mirror[k], old(table[k]), old(history), k)
    {
      Archive();
      ghost var archived := mirror[..];
      for i := 0 to DTC_COUNT
        invariant mirror[..] == archived
        invariant forall k :: 0 <= k < i ==> Refines(table[k], [], k)
        invariant forall k :: i <= k < DTC_COUNT ==> Refines(table[k], history, k)
      {
        var d := table[i];
        table[i] := d.(state := Inactive, debounce := 0, hold := 0, failSeq := 0, occurrence := 0, permanent := false,
                       snapshot := d.snapshot.(valid := false));
      }
      counter := 0;
      history := [];
    }

    method Archive()
      requires Valid()
      modifies mirror
      ensures forall k :: 0 <= k < DTC_COUNT ==> Archived(mirror[k], table[k], history, k)
    {
      hide HasConfirmed, StatusByte, TimesMatured, Rank, Run, LastMatured;
      for i := 0 to DTC_COUNT
        invariant forall k :: 0 <= k < i ==> Archived(mirror[k], table[k], history, k)
      {
        assert Refines(table[i], history, i);
        if table[i].state.Confirmed? {
          mirror[i] := Mirror(table[i].code, StatusByte(table[i]), table[i].occurrence);
        } else {
          mirror[i] := mirror[i].(code := 0);
        }
      }
    }

    // OBD2_DtcPick; -1 stands for NULL.
    method PickEntry(which: Pick) returns (best: int)
      requires Valid()
      ensures -1 <= best < DTC_COUNT && Picks(table[..], which, DTC_COUNT, best)
    {
      hide AllRefine;
      best := -1;
      for i := 0 to DTC_COUNT
        invariant -1 <= best < i && Picks(table[..], which, i, best)
      {
        var d := table[i];
        if Candidate(d, which) {
          if best < 0 {
            best := i;
          } else if Lowest(which) {
            if d.failSeq < table[best].failSeq {
              best := i;
            }
          } else {
            if d.failSeq > table[best].failSeq {
              best := i;
            }
          }
        }
      }
    }
  }

  lemma NoneYet(h: History, s: Sim)
    ensures MaturedNow(h + [s], 0) == 0
  {
  }

  lemma TotalGrows(h: History, s: Sim)
    ensures TotalMatured(h + [s]) == TotalMatured(h) + MaturedNow(h + [s], DTC_COUNT)
  {
    Grows(h, s);
  }
}
