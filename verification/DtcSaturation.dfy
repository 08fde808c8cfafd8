// Past 65535 test failures since a clear the failure numbers repeat, and the pick of the
// first confirmed entry goes wrong (Core/Src/obd2_simulator.c:292-296, 507-548): a history
// that shows it.

module DtcSaturation {
  import opened DtcHistory
  import opened DtcManager

  const HOT := Sim(900, 50, 105)     // entry 0 only
  const STOPPED := Sim(3000, 0, 90)  // entry 1 only
  const COLD := Sim(900, 50, 80)     // entry 2 only
  const CALM := Sim(900, 50, 90)     // none

  predicate Only(s: Sim, i: nat) {
    forall j: nat :: j < DTC_COUNT ==> (Cond(s, j) <==> j == i)
  }

  function Ticks(s: Sim, k: nat): History {
    seq(k, _ => s)
  }

  // One tick on which only entry i fails.
  lemma OneTick(f: History, s: Sim, i: nat, j: nat)
    requires i < DTC_COUNT && j < DTC_COUNT && Only(s, i)
    ensures var g := f + [s];
            && Run(g, j) == (if j == i then Run(f, i) + 1 else 0)
            && (HasConfirmed(g, j) <==> HasConfirmed(f, j) || (j == i && Run(f, i) + 1 >= CONFIRM_RUN))
            && TotalMatured(g) == TotalMatured(f) + (if Matured(g, i) then 1 else 0)
            && (Matured(g, i) <==> Run(f, i) + 1 == DEBOUNCE_THRESH && !HasConfirmed(f, i))
            && Rank(g, j) == if j == i && Matured(g, i) then TotalMatured(f) + 1 else Rank(f, j)
  {
    Grows(f, s);
    OneMatures(f, s, i);
  }

  // k ticks on which only entry i fails, after a history in which it did not.
  lemma {:induction false} Burst(h: History, s: Sim, i: nat, k: nat)
    requires i < DTC_COUNT && Only(s, i) && Run(h, i) == 0 && !HasConfirmed(h, i)
    ensures var g := h + Ticks(s, k);
            && Run(g, i) == k && (HasConfirmed(g, i) <==> k >= CONFIRM_RUN)
            && TotalMatured(g) == TotalMatured(h) + (if k >= DEBOUNCE_THRESH then 1 else 0)
            && (k >= DEBOUNCE_THRESH ==> Rank(g, i) == TotalMatured(h) + 1)
            && forall j: nat :: j < DTC_COUNT && j != i ==>
                 (k > 0 ==> Run(g, j) == 0) && HasConfirmed(g, j) == HasConfirmed(h, j) && Rank(g, j) == Rank(h, j)
    decreases k
  {
    hide Run, HasConfirmed, TotalMatured, Rank, Matured, Only;
    if k == 0 {
      assert h + Ticks(s, k) == h;
    } else {
      var f := h + Ticks(s, k - 1);
      Burst(h, s, i, k - 1);
      assert h + Ticks(s, k) == f + [s];
      forall j: nat | j < DTC_COUNT && j != i
        ensures Run(f + [s], j) == 0 && HasConfirmed(f + [s], j) == HasConfirmed(h, j) && Rank(f + [s], j) == Rank(h, j)
      {
        OneTick(f, s, i, j);
      }
      OneTick(f, s, i, i);
    }
  }

  lemma OneMatures(f: History, s: Sim, i: nat)
    requires i < DTC_COUNT && Only(s, i)
    ensures MaturedNow(f + [s], i) == 0
    ensures MaturedNow(f + [s], i + 1) == MaturedNow(f + [s], DTC_COUNT) == if Matured(f + [s], i) then 1 else 0
  {
    Grows(f, s);
    assert MaturedNow(f + [s], 1) == if Matured(f + [s], 0) then 1 else 0;
    assert MaturedNow(f + [s], 2) == MaturedNow(f + [s], 1) + if Matured(f + [s], 1) then 1 else 0;
  }

  lemma CalmTick(h: History)
    ensures var g := h + [CALM];
            && TotalMatured(g) == TotalMatured(h)
            && forall j: nat :: j < DTC_COUNT ==> Run(g, j) == 0 && HasConfirmed(g, j) == HasConfirmed(h, j)
  {
    Grows(h, CALM);
    var g := h + [CALM];
    assert MaturedNow(g, 1) == 0;
    assert MaturedNow(g, 2) == 0;
    assert MaturedNow(g, 3) == 0;
  }

  // Entry 2 failing for five ticks and recovering, n times.
  function Flicker(n: nat): History {
    if n == 0 then [] else Flicker(n - 1) + Ticks(COLD, 5) + [CALM]
  }

  lemma {:induction false} FlickerCounts(n: nat)
    ensures TotalMatured(Flicker(n)) == n
    ensures forall j: nat :: j < DTC_COUNT ==> Run(Flicker(n), j) == 0 && !HasConfirmed(Flicker(n), j)
  {
    if n != 0 {
      FlickerCounts(n - 1);
      Burst(Flicker(n - 1), COLD, 2, 5);
      CalmTick(Flicker(n - 1) + Ticks(COLD, 5));
    }
  }

  // n failures of entry 2, then entry 1 failing until it is confirmed, then entry 0.
  function FirstPart(n: nat): History {
    Flicker(n) + Ticks(STOPPED, CONFIRM_RUN)
  }

  function Crowded(n: nat): History {
    FirstPart(n) + Ticks(HOT, CONFIRM_RUN)
  }

  lemma FirstPartFacts(n: nat)
    ensures var h := FirstPart(n);
            && Rank(h, 1) == TotalMatured(h) == n + 1
            && !HasConfirmed(h, 0) && HasConfirmed(h, 1) && !HasConfirmed(h, 2) && Run(h, 0) == 0
  {
    hide Run, HasConfirmed, TotalMatured, Rank, Flicker, Ticks;
    FlickerCounts(n);
    Burst(Flicker(n), STOPPED, 1, CONFIRM_RUN);
  }

  lemma CrowdedFacts(n: nat)
    ensures var h := Crowded(n);
            && Rank(h, 1) == n + 1 && Rank(h, 0) == n + 2
            && HasConfirmed(h, 0) && HasConfirmed(h, 1) && !HasConfirmed(h, 2)
  {
    hide Run, HasConfirmed, TotalMatured, Rank, FirstPart, Ticks;
    FirstPartFacts(n);
    Burst(FirstPart(n), HOT, 0, CONFIRM_RUN);
  }

  // Entry 1 is confirmed before entry 0.
  lemma CrowdedOrder(n: nat)
    ensures ConfirmedFirst(Crowded(n), 1)
  {
    hide Run, Ticks, FirstPart;
    CrowdedFacts(n);
    FirstPartFacts(n);
    var h, m := Crowded(n), |FirstPart(n)|;
    assert h[..m] == FirstPart(n);
    ConfirmTickIsFirst(h, 0);
    ConfirmTickIsFirst(h, 1);
    assert ConfirmTick(h, 1) <= m < ConfirmTick(h, 0);
  }

  // With 65534 failures before it, entry 1 is confirmed first and entry 0 second, and the pick
  // says entry 0.
  lemma SaturationMisorders(n: nat, t: seq<Entry>, b: int)
    requires n == SEQ_MAX - 1
    requires AllRefine(t, Crowded(n)) && Picks(t, FirstConfirmed, DTC_COUNT, b)
    ensures ConfirmedFirst(Crowded(n), 1) && b == 0
  {
    hide Run, HasConfirmed, TotalMatured, Rank, Crowded, Refines, ConfirmTick, ConfirmedFirst;
    CrowdedOrder(n);
    CrowdedFacts(n);
    ConfirmedCandidate(t, Crowded(n), FirstConfirmed, 0);
    ConfirmedCandidate(t, Crowded(n), FirstConfirmed, 1);
    ConfirmedCandidate(t, Crowded(n), FirstConfirmed, 2);
  }
}
