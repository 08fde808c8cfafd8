// What the fault manager is to report, said of the history of monitored ticks since the last
// clear alone (Core/Src/obd2_simulator.c:246-331, ISO 14229-1:2013 Annex D.2).

module DtcHistory {
  import opened Words

  const DTC_COUNT: nat := 3
  const DEBOUNCE_THRESH: nat := 5
  const CONFIRM_HOLD: nat := 50
  const CONFIRM_RUN: nat := 54   // a run this long has been pending for CONFIRM_HOLD ticks
  const SEQ_MAX: nat := 0xFFFF
  const COUNT_MAX: nat := 0xFF

  const COOLANT_MAX: nat := 105
  const COOLANT_MIN: nat := 80
  const SPEED_MIN: nat := 0
  const RPM_LIMIT: nat := 2500

  const CODES: seq<nat> := [0x0217, 0x0500, 0x0128]
  const SEVERITIES: seq<nat> := [0x82, 0x42, 0x22]

  // The simulated values of one tick.
  datatype Sim = Sim(rpm: nat, speed: nat, coolant: nat)

  // The monitored condition of each table entry.
  predicate Cond(s: Sim, i: nat) {
    if i == 0 then s.coolant >= COOLANT_MAX
    else if i == 1 then s.speed == SPEED_MIN && s.rpm > RPM_LIMIT
    else i == 2 && s.coolant <= COOLANT_MIN
  }

  // Engine overheating, engine running fast at a standstill, thermostat stuck open.
  lemma CondSays(s: Sim)
    ensures Cond(s, 0) <==> s.coolant >= 105
    ensures Cond(s, 1) <==> s.speed == 0 && s.rpm > 2500
    ensures Cond(s, 2) <==> s.coolant <= 80
    ensures !(Cond(s, 0) && Cond(s, 2))
    ensures forall i :: i > 2 ==> !Cond(s, i)
  {
  }

  type History = seq<Sim>

  function Before(h: History): History
    requires h != []
  {
    h[..|h| - 1]
  }

  function Last(h: History): Sim
    requires h != []
  {
    h[|h| - 1]
  }

  // For how many ticks up to now the condition has held without a break.
  function Run(h: History, i: nat): (n: nat)
    ensures n <= |h|
  {
    if h == [] || !Cond(Last(h), i) then 0 else 1 + Run(Before(h), i)
  }

  // Some run has lasted long enough.
  predicate HasConfirmed(h: History, i: nat) {
    h != [] && (HasConfirmed(Before(h), i) || Run(h, i) >= CONFIRM_RUN)
  }

  lemma {:induction false} ConfirmedIsSomeRun(h: History, i: nat)
    ensures HasConfirmed(h, i) <==> exists k :: 0 <= k <= |h| && Run(h[..k], i) >= CONFIRM_RUN
  {
    if h != [] {
      ConfirmedIsSomeRun(Before(h), i);
      assert h[..|h|] == h;
      forall k | 0 <= k < |h|
        ensures Before(h)[..k] == h[..k]
      {
      }
    }
  }

  // The tick, counted from 1, at which it was confirmed.
  function ConfirmTick(h: History, i: nat): (t: nat)
    requires HasConfirmed(h, i)
    ensures 0 < t <= |h|
  {
    if HasConfirmed(Before(h), i) then ConfirmTick(Before(h), i) else |h|
  }

  // It is the first tick after which it counts as confirmed.
  lemma {:induction false} ConfirmTickIsFirst(h: History, i: nat)
    requires HasConfirmed(h, i)
    ensures forall k :: 0 <= k <= |h| ==> (HasConfirmed(h[..k], i) <==> ConfirmTick(h, i) <= k)
  {
    assert h[..|h|] == h;
    assert forall k :: 0 <= k < |h| ==> Before(h)[..k] == h[..k];
    if HasConfirmed(Before(h), i) {
      ConfirmTickIsFirst(Before(h), i);
    } else {
      forall k | 0 <= k < |h|
        ensures !HasConfirmed(h[..k], i)
      {
        if HasConfirmed(h[..k], i) {
          assert Before(h)[..k] == h[..k];
          ConfirmedLasts(Before(h), i, k);
        }
      }
    }
  }

  lemma {:induction false} ConfirmedLasts(h: History, i: nat, k: nat)
    requires k <= |h| && HasConfirmed(h[..k], i)
    ensures HasConfirmed(h, i)
    decreases |h|
  {
    if k == |h| {
      assert h[..k] == h;
    } else {
      assert Before(h)[..k] == h[..k];
      ConfirmedLasts(Before(h), i, k);
    }
  }

  // The last tick matured a test failure: the entry went to PENDING.
  predicate Matured(h: History, i: nat) {
    h != [] && Run(h, i) == DEBOUNCE_THRESH && !HasConfirmed(Before(h), i)
  }

  // The tick, counted from 1, at which it last matured; 0 for never.
  function LastMatured(h: History, i: nat): (t: nat)
    ensures t <= |h|
  {
    if h == [] then 0 else if Matured(h, i) then |h| else LastMatured(Before(h), i)
  }

  function TimesMatured(h: History, i: nat): nat {
    if h == [] then 0 else TimesMatured(Before(h), i) + if Matured(h, i) then 1 else 0
  }

  // Among the first n entries, those that matured at the last tick.
  function MaturedNow(h: History, n: nat): (m: nat)
    ensures m <= n
  {
    if n == 0 then 0 else MaturedNow(h, n - 1) + if Matured(h, n - 1) then 1 else 0
  }

  function TotalMatured(h: History): nat {
    if h == [] then 0 else TotalMatured(Before(h)) + MaturedNow(h, DTC_COUNT)
  }

  // The place of the entry's last maturing among all maturings, tick by tick and within a
  // tick by table index; 0 for never.
  function Rank(h: History, i: nat): nat {
    if h == [] then 0
    else if Matured(h, i) then TotalMatured(Before(h)) + MaturedNow(h, i + 1)
    else Rank(Before(h), i)
  }

  // ----- The table, as a function of the history -----

  datatype DtcState = Inactive | Pending | Confirmed

  function StateOf(h: History, i: nat): DtcState {
    if HasConfirmed(h, i) then Confirmed
    else if Run(h, i) >= DEBOUNCE_THRESH then Pending
    else Inactive
  }

  datatype Snapshot = Snapshot(valid: bool, rpm: nat, speed: nat, coolant: nat)

  // DtcEntry_t
  datatype Entry = Entry(
    code: nat, state: DtcState, debounce: nat, hold: nat, severity: nat,
    failSeq: nat, occurrence: nat, permanent: bool, snapshot: Snapshot)

  predicate SnapshotRefines(s: Snapshot, h: History, i: nat) {
    && (s.valid <==> LastMatured(h, i) != 0)
    && (s.valid ==>
          var at := h[LastMatured(h, i) - 1];
          s.rpm == at.rpm && s.speed == at.speed && s.coolant == at.coolant)
  }

  // Every field of the entry is what the history says.
  predicate Refines(e: Entry, h: History, i: nat)
    requires i < DTC_COUNT
  {
    && e.code == CODES[i] && e.severity == SEVERITIES[i]
    && e.state == StateOf(h, i)
    && e.debounce == Min(Run(h, i), COUNT_MAX)
    && e.hold == (if HasConfirmed(h, i) then CONFIRM_HOLD
                  else if Run(h, i) >= DEBOUNCE_THRESH then Run(h, i) - 4
                  else 0)
    && e.failSeq == Min(Rank(h, i), SEQ_MAX)
    && e.occurrence == Min(TimesMatured(h, i), COUNT_MAX)
    && e.permanent == HasConfirmed(h, i)
    && SnapshotRefines(e.snapshot, h, i)
  }

  function Counter(h: History): nat {
    Min(TotalMatured(h), SEQ_MAX)
  }

  lemma Grows(h: History, s: Sim)
    ensures Before(h + [s]) == h && Last(h + [s]) == s
  {
  }

  // ----- Order -----

  lemma {:induction false} RankInTotal(h: History, i: nat)
    requires i < DTC_COUNT
    ensures Rank(h, i) <= TotalMatured(h)
    ensures Rank(h, i) == 0 <==> LastMatured(h, i) == 0
  {
    if h != [] {
      RankInTotal(Before(h), i);
      MaturedGrows(h, i + 1, DTC_COUNT);
    }
  }

  lemma {:induction false} MaturedGrows(h: History, m: nat, n: nat)
    requires m <= n
    ensures MaturedNow(h, m) <= MaturedNow(h, n)
    decreases n
  {
    if m < n {
      MaturedGrows(h, m, n - 1);
    }
  }

  // (tick, index) pairs in the order of events
  predicate Earlier(t: nat, i: nat, u: nat, j: nat) {
    t < u || (t == u && i < j)
  }

  // The rank orders entries as their last maturings follow one another.
  lemma {:induction false} RankOrder(h: History, i: nat, j: nat)
    requires i < DTC_COUNT && j < DTC_COUNT && i != j
    requires LastMatured(h, i) > 0 && LastMatured(h, j) > 0
    ensures Rank(h, i) < Rank(h, j) <==> Earlier(LastMatured(h, i), i, LastMatured(h, j), j)
    ensures Rank(h, i) != Rank(h, j)
  {
    if Matured(h, i) && Matured(h, j) {
      if i < j { MaturedGrows(h, i + 1, j); } else { MaturedGrows(h, j + 1, i); }
    } else if Matured(h, i) {
      RankInTotal(Before(h), j);
    } else if Matured(h, j) {
      RankInTotal(Before(h), i);
    } else {
      RankOrder(Before(h), i, j);
    }
  }

  // An entry is confirmed 49 ticks after it last matured, and has been pending in between.
  lemma {:induction false} ConfirmFollows(h: History, i: nat)
    ensures HasConfirmed(h, i) ==> LastMatured(h, i) > 0 && ConfirmTick(h, i) == LastMatured(h, i) + CONFIRM_HOLD - 1
    ensures !HasConfirmed(h, i) && Run(h, i) >= DEBOUNCE_THRESH ==>
              LastMatured(h, i) > 0 && |h| == LastMatured(h, i) + Run(h, i) - DEBOUNCE_THRESH
  {
    if h != [] {
      ConfirmFollows(Before(h), i);
    }
  }

  // Confirm order is the order of the last maturings.
  lemma ConfirmOrder(h: History, i: nat, j: nat)
    requires i < DTC_COUNT && j < DTC_COUNT && i != j && HasConfirmed(h, i) && HasConfirmed(h, j)
    ensures Rank(h, i) != Rank(h, j)
    ensures Rank(h, i) < Rank(h, j) <==> Earlier(ConfirmTick(h, i), i, ConfirmTick(h, j), j)
  {
    ConfirmFollows(h, i);
    ConfirmFollows(h, j);
    RankOrder(h, i, j);
  }
}
