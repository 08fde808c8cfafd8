// Periodic transmission, ISO 14229-1:2013 section 10.3: the subscriptions behind service 0x2A
// and the 10 ms scheduler (Core/Src/uds_service.c:73-81, 1637-1787).

module PeriodicSends {
  import opened Words
  import opened DynamicDids
  import IsoTpFrames

  const PERIODIC_SLOTS: nat := 4
  const SLOW: nat := 100
  const MEDIUM: nat := 10
  const FAST: nat := 2

  const SID_PERIODIC: Octet := 0x2A

  // periodic_sub_t; a divider of 0 marks an inactive slot.
  datatype Sub = Sub(pdid: Octet, divider: nat, counter: nat)

  predicate SubOk(s: Sub) {
    s.divider in {0, SLOW, MEDIUM, FAST} && (s.divider != 0 ==> s.counter < s.divider)
  }

  predicate IsFor(s: Sub, pdid: Octet) {
    s.divider != 0 && s.pdid == pdid
  }

  ghost predicate SubsOk(subs: seq<Sub>) {
    && |subs| == PERIODIC_SLOTS
    && (forall i :: 0 <= i < |subs| ==> SubOk(subs[i]))
    && (forall i, j :: 0 <= i < j < |subs| && subs[i].divider != 0 ==> !IsFor(subs[j], subs[i].pdid))
  }

  // ----- One tick of one subscription -----

  // `data` is what its identifier is assembled to, [] for nothing.
  function TickSub(s: Sub, data: seq<Octet>): (Sub, seq<seq<Octet>>) {
    if s.divider == 0 then (s, [])
    else if s.counter + 1 < s.divider then (s.(counter := s.counter + 1), [])
    else if data == [] then (s.(counter := 0, divider := 0), [])
    else (s.(counter := 0), [[s.pdid] + data])
  }

  function DataFor(t: seq<Slot>, pdid: Octet, w: World): seq<Octet> {
    Assembled(Definition(t, DYNAMIC_BASE + pdid), w)
  }

  // All slots after one tick.
  function NextSubs(subs: seq<Sub>, t: seq<Slot>, w: World): (next: seq<Sub>)
    ensures |next| == |subs|
  {
    seq(|subs|, i requires 0 <= i < |subs| => TickSub(subs[i], DataFor(t, subs[i].pdid, w)).0)
  }

  lemma TickKeepsOk(subs: seq<Sub>, t: seq<Slot>, w: World)
    requires SubsOk(subs)
    ensures SubsOk(NextSubs(subs, t, w))
  {
    hide DataFor;
  }

  // The frames of one tick, slot by slot.
  function FramesOf(subs: seq<Sub>, t: seq<Slot>, w: World): seq<seq<Octet>> {
    if subs == [] then []
    else
      var last := subs[|subs| - 1];
      FramesOf(subs[..|subs| - 1], t, w) + TickSub(last, DataFor(t, last.pdid, w)).1
  }

  // Every frame the scheduler sends fits a Single Frame, which is sent at once even while a
  // longer response is under way.
  lemma {:induction false} FramesFit(subs: seq<Sub>, t: seq<Slot>, w: World)
    ensures forall f :: f in FramesOf(subs, t, w) ==> 1 < |f| <= 1 + MAX_DATA <= IsoTpFrames.SF_MAX
  {
    hide Definition;
    if subs != [] {
      FramesFit(subs[..|subs| - 1], t, w);
    }
  }

  // ----- Many ticks -----

  // A subscription over a run of ticks, the identifier's definition staying in place.
  function RunSub(s: Sub, recs: seq<Rec>, ws: seq<World>): (Sub, seq<seq<Octet>>)
    decreases |ws|
  {
    if |ws| == 0 then (s, [])
    else
      var (r, sends) := RunSub(s, recs, ws[..|ws| - 1]);
      var (q, more) := TickSub(r, Assembled(recs, ws[|ws| - 1]));
      (q, sends + more)
  }

  lemma QuotientIs(n: nat, d: nat, q: nat, r: nat)
    requires n == q * d + r && r < d
    ensures q == n / d && r == n % d
  {
    assert n == n / d * d + n % d;
    Apart(q, n / d, d);
    Apart(n / d, q, d);
  }

  lemma {:induction false} Apart(a: nat, b: nat, d: nat)
    ensures a < b ==> a * d + d <= b * d
    decreases b
  {
    NextMultiple(a, d);
    if a + 1 < b {
      Apart(a, b - 1, d);
      NextMultiple(b - 1, d);
    }
  }

  lemma NextMultiple(q: nat, d: nat)
    ensures (q + 1) * d == q * d + d
  {
  }

  // For a subscription alone: after n ticks exactly n / divider sends.
  lemma {:induction false} SubSendsExactly(s: Sub, recs: seq<Rec>, first: World, ws: seq<World>)
    requires SubOk(s) && s.divider != 0 && s.counter == 0
    requires (forall r :: r in recs ==> RecordOk(r, first)) && 0 < Total(recs) <= MAX_DATA
    requires forall k :: 0 <= k < |ws| ==> SameLengths(first, ws[k])
    ensures var (q, sends) := RunSub(s, recs, ws);
            && q == s.(counter := |ws| % s.divider)
            && |sends| == |ws| / s.divider
            && forall j :: 0 <= j < |sends| ==>
                 SentAt(s, recs, ws, j) && sends[j] == [s.pdid] + Concat(recs, ws[SendTick(s, j)])
    decreases |ws|
  {
    hide RecordOk, Total, SameLengths, Concat, Assembled, SendTick;
    var n := |ws|;
    if n > 0 {
      var prev := ws[..n - 1];
      SubSendsExactly(s, recs, first, prev);
      var (r, sends) := RunSub(s, recs, prev);
      StaysAssemblable(recs, first, ws[n - 1]);
      TickCounts(s, n - 1, |sends|);
      forall j | 0 <= j < |sends|
        ensures SentAt(s, recs, ws, j)
      {
        assert SentAt(s, recs, prev, j);
        assert prev[SendTick(s, j)] == ws[SendTick(s, j)];
      }
    }
  }

  // The tick, counted from 0, of the j-th send.
  function SendTick(s: Sub, j: nat): nat
    requires s.divider > 0
  {
    NextMultiple(j, s.divider);
    (j + 1) * s.divider - 1
  }

  predicate SentAt(s: Sub, recs: seq<Rec>, ws: seq<World>, j: nat)
    requires s.divider > 0
  {
    SendTick(s, j) < |ws| && AllAvailable(recs, ws[SendTick(s, j)])
  }

  lemma TickCounts(s: Sub, n: nat, q: nat)
    requires s.divider > 0 && q == n / s.divider
    ensures if n % s.divider + 1 < s.divider
            then (n + 1) / s.divider == q && (n + 1) % s.divider == n % s.divider + 1
            else (n + 1) / s.divider == q + 1 && (n + 1) % s.divider == 0 && SendTick(s, q) == n
  {
    var d, r := s.divider, n % s.divider;
    assert n == q * d + r;
    NextMultiple(q, d);
    if r + 1 < d {
      QuotientIs(n + 1, d, q, r + 1);
    } else {
      QuotientIs(n + 1, d, q + 1, 0);
    }
  }

  // A send that is due but finds nothing to send ends the subscription, and no frame goes out.
  lemma StopsWithoutData(subs: seq<Sub>, i: nat, t: seq<Slot>, w: World)
    requires SubsOk(subs) && i < |subs| && subs[i].divider != 0 && subs[i].counter == subs[i].divider - 1
    requires DataFor(t, subs[i].pdid, w) == []
    ensures NextSubs(subs, t, w)[i].divider == 0
    ensures FramesWith(FramesOf(subs, t, w), subs[i].pdid) == []
  {
    OthersNotFor(subs, i);
    OnlyFrom(subs, t, w, i);
  }

  // ----- The whole scheduler over many ticks -----

  // What one tick finds: the table of definitions and the world.
  datatype Moment = Moment(t: seq<Slot>, w: World)

  // The slots after the ticks, and everything sent on the way.
  function RunAll(subs: seq<Sub>, ms: seq<Moment>): (seq<Sub>, seq<seq<Octet>>)
    decreases |ms|
  {
    if |ms| == 0 then (subs, [])
    else
      var (now, frames) := RunAll(subs, ms[..|ms| - 1]);
      var m := ms[|ms| - 1];
      (NextSubs(now, m.t, m.w), frames + FramesOf(now, m.t, m.w))
  }

  // The frames among these that carry this PDID.
  function FramesWith(frames: seq<seq<Octet>>, pdid: Octet): seq<seq<Octet>> {
    if frames == [] then []
    else
      var last := frames[|frames| - 1];
      FramesWith(frames[..|frames| - 1], pdid) + if last != [] && last[0] == pdid then [last] else []
  }

  lemma {:induction false} FramesWithBoth(a: seq<seq<Octet>>, b: seq<seq<Octet>>, pdid: Octet)
    ensures FramesWith(a + b, pdid) == FramesWith(a, pdid) + FramesWith(b, pdid)
    decreases |b|
  {
    if b == [] {
      assert a + b == a;
    } else {
      assert (a + b)[..|a + b| - 1] == a + b[..|b| - 1];
      FramesWithBoth(a, b[..|b| - 1], pdid);
    }
  }

  lemma {:induction false} NoneWith(subs: seq<Sub>, t: seq<Slot>, w: World, pdid: Octet)
    requires forall i :: 0 <= i < |subs| ==> !IsFor(subs[i], pdid)
    ensures FramesWith(FramesOf(subs, t, w), pdid) == []
  {
    hide DataFor;
    if subs != [] {
      var last := subs[|subs| - 1];
      NoneWith(subs[..|subs| - 1], t, w, pdid);
      FramesWithBoth(FramesOf(subs[..|subs| - 1], t, w), TickSub(last, DataFor(t, last.pdid, w)).1, pdid);
    }
  }

  // In one tick the frames with a PDID are those of its one active slot.
  lemma {:induction false} OnlyFrom(subs: seq<Sub>, t: seq<Slot>, w: World, i: nat)
    requires i < |subs| && subs[i].divider != 0
    requires forall j :: 0 <= j < |subs| && j != i ==> !IsFor(subs[j], subs[i].pdid)
    ensures FramesWith(FramesOf(subs, t, w), subs[i].pdid) == TickSub(subs[i], DataFor(t, subs[i].pdid, w)).1
    decreases |subs|
  {
    hide DataFor;
    var rest, last := subs[..|subs| - 1], subs[|subs| - 1];
    FramesWithBoth(FramesOf(rest, t, w), TickSub(last, DataFor(t, last.pdid, w)).1, subs[i].pdid);
    if i == |rest| {
      NoneWith(rest, t, w, subs[i].pdid);
    } else {
      OnlyFrom(rest, t, w, i);
    }
  }

  ghost predicate Defined(ms: seq<Moment>, pdid: Octet, recs: seq<Rec>, first: World) {
    forall k :: 0 <= k < |ms| ==>
      Definition(ms[k].t, DYNAMIC_BASE + pdid) == recs && SameLengths(first, ms[k].w)
  }

  function Worlds(ms: seq<Moment>): (ws: seq<World>)
    ensures |ws| == |ms|
  {
    seq(|ms|, k requires 0 <= k < |ms| => ms[k].w)
  }

  // The run of the whole scheduler does to one slot what the slot would do alone.
  lemma {:induction false} RunIsRunSub(subs: seq<Sub>, i: nat, recs: seq<Rec>, first: World, ms: seq<Moment>)
    requires SubsOk(subs) && i < |subs| && subs[i].divider != 0 && subs[i].counter == 0
    requires Definable(recs, first) && Defined(ms, subs[i].pdid, recs, first)
    ensures var (now, frames) := RunAll(subs, ms);
            && SubsOk(now)
            && (now[i], FramesWith(frames, subs[i].pdid)) == RunSub(subs[i], recs, Worlds(ms))
    decreases |ms|
  {
    hide Definable, SameLengths, Definition, Assembled;
    if |ms| > 0 {
      var n, m := |ms| - 1, ms[|ms| - 1];
      RunIsRunSub(subs, i, recs, first, ms[..n]);
      var (now, frames) := RunAll(subs, ms[..n]);
      assert Worlds(ms)[..n] == Worlds(ms[..n]);
      StillRuns(subs[i], recs, first, ms[..n]);
      TickKeepsOk(now, m.t, m.w);
      OthersNotFor(now, i);
      OnlyFrom(now, m.t, m.w, i);
      FramesWithBoth(frames, FramesOf(now, m.t, m.w), subs[i].pdid);
    }
  }

  lemma OthersNotFor(subs: seq<Sub>, i: nat)
    requires SubsOk(subs) && i < |subs| && subs[i].divider != 0
    ensures forall j :: 0 <= j < |subs| && j != i ==> !IsFor(subs[j], subs[i].pdid)
  {
  }

  lemma StillRuns(s: Sub, recs: seq<Rec>, first: World, ms: seq<Moment>)
    requires SubOk(s) && s.divider != 0 && s.counter == 0
    requires Definable(recs, first) && Defined(ms, s.pdid, recs, first)
    ensures RunSub(s, recs, Worlds(ms)).0.divider == s.divider && RunSub(s, recs, Worlds(ms)).0.pdid == s.pdid
  {
    hide RunSub, Total, RecordOk, SameLengths;
    SubSendsExactly(s, recs, first, Worlds(ms));
  }

  // Over any run of the scheduler with all its slots, n ticks after a PDID was subscribed:
  // while its identifier stays defined as it was and its sources keep their lengths, exactly
  // n / divider frames with this PDID have gone out, the j-th with what the identifier stood
  // for at the tick of that send.
  lemma SendsExactly(subs: seq<Sub>, i: nat, recs: seq<Rec>, first: World, ms: seq<Moment>)
    requires SubsOk(subs) && i < |subs| && subs[i].divider != 0 && subs[i].counter == 0
    requires Definable(recs, first) && Defined(ms, subs[i].pdid, recs, first)
    ensures var s, (now, frames) := subs[i], RunAll(subs, ms);
            var sends := FramesWith(frames, s.pdid);
            && |now| == |subs| && now[i] == s.(counter := |ms| % s.divider)
            && |sends| == |ms| / s.divider
            && forall j :: 0 <= j < |sends| ==>
                 && SendTick(s, j) < |ms| && AllAvailable(recs, ms[SendTick(s, j)].w)
                 && sends[j] == [s.pdid] + Concat(recs, ms[SendTick(s, j)].w)
  {
    RunIsRunSub(subs, i, recs, first, ms);
    SubSendsExactly(subs[i], recs, first, Worlds(ms));
    var s, sends := subs[i], RunSub(subs[i], recs, Worlds(ms)).1;
    forall j | 0 <= j < |sends|
      ensures SendTick(s, j) < |ms| && AllAvailable(recs, ms[SendTick(s, j)].w)
      ensures sends[j] == [s.pdid] + Concat(recs, ms[SendTick(s, j)].w)
    {
      assert SentAt(s, recs, Worlds(ms), j);
    }
  }

  // ----- Subscribing and stopping -----

  // The first active slot of this PDID, if any.
  function SubFor(subs: seq<Sub>, pdid: Octet): (k: int)
    ensures -1 <= k < |subs|
    ensures k >= 0 ==> IsFor(subs[k], pdid)
    ensures k < 0 ==> forall i :: 0 <= i < |subs| ==> !IsFor(subs[i], pdid)
  {
    if subs == [] then -1
    else if IsFor(subs[0], pdid) then 0
    else var k := SubFor(subs[1..], pdid); if k < 0 then -1 else k + 1
  }

  function FreeSub(subs: seq<Sub>): (k: int)
    ensures -1 <= k < |subs|
    ensures k >= 0 ==> subs[k].divider == 0
    ensures k < 0 ==> forall i :: 0 <= i < |subs| ==> subs[i].divider != 0
  {
    if subs == [] then -1
    else if subs[0].divider == 0 then 0
    else var k := FreeSub(subs[1..]); if k < 0 then -1 else k + 1
  }

  // The slot a subscription goes to, or none if the identifier is not defined or all are taken.
  function Target(subs: seq<Sub>, t: seq<Slot>, pdid: Octet): (k: int)
    ensures -1 <= k < |subs|
  {
    if Find(t, DYNAMIC_BASE + pdid) < 0 then -1
    else if SubFor(subs, pdid) >= 0 then SubFor(subs, pdid)
    else FreeSub(subs)
  }

  // One PDID after another, up to the first that is refused.
  function SubscribeAll(subs: seq<Sub>, t: seq<Slot>, pdids: seq<Octet>, divider: nat): (seq<Sub>, bool)
    decreases |pdids|
  {
    if pdids == [] then (subs, true)
    else
      var k := Target(subs, t, pdids[0]);
      if k < 0 then (subs, false)
      else SubscribeAll(subs[k := Sub(pdids[0], divider, 0)], t, pdids[1..], divider)
  }

  lemma TargetKeepsOk(subs: seq<Sub>, t: seq<Slot>, pdid: Octet, divider: nat)
    requires SubsOk(subs) && Target(subs, t, pdid) >= 0 && divider in {SLOW, MEDIUM, FAST}
    ensures SubsOk(subs[Target(subs, t, pdid) := Sub(pdid, divider, 0)])
  {
    hide Find;
  }

  lemma {:induction false} SubscribingKeepsOk(subs: seq<Sub>, t: seq<Slot>, pdids: seq<Octet>, divider: nat)
    requires SubsOk(subs) && divider in {SLOW, MEDIUM, FAST}
    ensures SubsOk(SubscribeAll(subs, t, pdids, divider).0)
    decreases |pdids|
  {
    hide SubsOk, Target;
    if pdids != [] {
      var k := Target(subs, t, pdids[0]);
      if k >= 0 {
        TargetKeepsOk(subs, t, pdids[0], divider);
        SubscribingKeepsOk(subs[k := Sub(pdids[0], divider, 0)], t, pdids[1..], divider);
      }
    }
  }

  // The slot a PDID goes to: its own if it is subscribed already, else a free one. It is refused
  // exactly if its identifier is not defined, or there is neither.
  lemma TargetExactly(subs: seq<Sub>, t: seq<Slot>, pdid: Octet)
    ensures var k := Target(subs, t, pdid);
            && (k >= 0 <==>
                  && (exists s :: s in t && s.did == 0xF200 + pdid)
                  && (exists s :: s in subs && (s.divider == 0 || s.pdid == pdid)))
            && (k >= 0 ==>
                  if exists s :: s in subs && IsFor(s, pdid) then IsFor(subs[k], pdid) else subs[k].divider == 0)
  {
    hide Find, SubFor, FreeSub;
  }

  // A request is served up to its first PDID that is refused; those before it are subscribed,
  // and no other subscription changes.
  lemma {:induction false} SubscribeExactly(subs: seq<Sub>, t: seq<Slot>, pdids: seq<Octet>, divider: nat)
    returns (j: nat)
    requires SubsOk(subs) && divider in {SLOW, MEDIUM, FAST}
    ensures j <= |pdids|
    ensures var (next, ok) := SubscribeAll(subs, t, pdids, divider);
            && |next| == |subs| && (ok <==> j == |pdids|)
            && (forall k :: 0 <= k < j ==> Sub(pdids[k], divider, 0) in next)
            && (j < |pdids| ==> Target(next, t, pdids[j]) < 0)
            && (forall i :: 0 <= i < |subs| && subs[i].divider != 0 && subs[i].pdid !in pdids ==> next[i] == subs[i])
    decreases |pdids|
  {
    hide Find, SubsOk;
    if pdids == [] {
      j := 0;
    } else {
      var k := Target(subs, t, pdids[0]);
      if k < 0 {
        j := 0;
      } else {
        var now := subs[k := Sub(pdids[0], divider, 0)];
        TargetKeepsOk(subs, t, pdids[0], divider);
        TargetExactly(subs, t, pdids[0]);
        j := SubscribeExactly(now, t, pdids[1..], divider);
        assert now[k] == Sub(pdids[0], divider, 0);
        FreshStays(now, t, pdids[1..], divider, pdids[0]);
        j := j + 1;
      }
    }
  }

  // A fresh subscription stays fresh while the rest of the same request is served.
  lemma {:induction false} FreshStays(subs: seq<Sub>, t: seq<Slot>, pdids: seq<Octet>, divider: nat, pdid: Octet)
    requires divider != 0 && Sub(pdid, divider, 0) in subs
    ensures Sub(pdid, divider, 0) in SubscribeAll(subs, t, pdids, divider).0
    decreases |pdids|
  {
    hide Find;
    if pdids != [] {
      var k := Target(subs, t, pdids[0]);
      if k >= 0 {
        var next := subs[k := Sub(pdids[0], divider, 0)];
        var i :| 0 <= i < |subs| && subs[i] == Sub(pdid, divider, 0);
        assert next[i] == Sub(pdid, divider, 0);
        FreshStays(next, t, pdids[1..], divider, pdid);
      }
    }
  }

  // A positive answer means: every PDID of the request is defined, and is subscribed afresh.
  lemma {:induction false} SubscribedMeans(subs: seq<Sub>, t: seq<Slot>, pdids: seq<Octet>, divider: nat, pdid: Octet)
    requires divider != 0 && SubscribeAll(subs, t, pdids, divider).1 && pdid in pdids
    ensures Find(t, DYNAMIC_BASE + pdid) >= 0
    ensures Sub(pdid, divider, 0) in SubscribeAll(subs, t, pdids, divider).0
    decreases |pdids|
  {
    hide Find, SubFor, FreeSub;
    var k := Target(subs, t, pdids[0]);
    var next := subs[k := Sub(pdids[0], divider, 0)];
    if pdids[0] == pdid {
      assert next[k] == Sub(pdid, divider, 0);
      FreshStays(next, t, pdids[1..], divider, pdid);
    } else {
      SubscribedMeans(next, t, pdids[1..], divider, pdid);
    }
  }

  // ----- In place -----

  class Scheduler {
    const subs: array<Sub>

    ghost predicate Valid()
      reads subs
    {
      subs.Length == PERIODIC_SLOTS && SubsOk(subs[..])
    }

    constructor ()
      ensures Valid() && fresh(subs) && forall i :: 0 <= i < PERIODIC_SLOTS ==> subs[i].divider == 0
    {
      subs := new Sub[PERIODIC_SLOTS](_ => Sub(0, 0, 0));
    }

    // UDS_PeriodicStopAll
    method StopAll()
      requires Valid()
      modifies subs
      ensures Valid() && forall i :: 0 <= i < PERIODIC_SLOTS ==> subs[i] == old(subs[i]).(divider := 0)
    {
      for s := 0 to PERIODIC_SLOTS
        invariant forall i :: 0 <= i < s ==> subs[i] == old(subs[i]).(divider := 0)
        invariant forall i :: s <= i < PERIODIC_SLOTS ==> subs[i] == old(subs[i])
      {
        subs[s] := subs[s].(divider := 0);
      }
    }

    // UDS_PeriodicTick
    method Tick(t: seq<Slot>, w: World) returns (frames: seq<seq<Octet>>)
      requires Valid()
      modifies subs
      ensures Valid()
      ensures subs[..] == NextSubs(old(subs[..]), t, w)
      ensures frames == FramesOf(old(subs[..]), t, w)
    {
      hide DataFor, TickSub, SubsOk;
      ghost var was := subs[..];
      frames := [];
      for s := 0 to PERIODIC_SLOTS
        invariant forall i :: 0 <= i < s ==> subs[i] == TickSub(was[i], DataFor(t, was[i].pdid, w)).0
        invariant forall i :: s <= i < PERIODIC_SLOTS ==> subs[i] == was[i]
        invariant frames == FramesOf(was[..s], t, w)
      {
        assert was[..s + 1][..s] == was[..s];
        var out := TickSlot(s, t, w);
        frames := frames + out;
      }
      assert was[..PERIODIC_SLOTS] == was;
      TickKeepsOk(was, t, w);
      assert subs[..] == NextSubs(was, t, w);
    }

    // The body of its loop.
    method TickSlot(s: nat, t: seq<Slot>, w: World) returns (out: seq<seq<Octet>>)
      requires subs.Length == PERIODIC_SLOTS && s < PERIODIC_SLOTS
      modifies subs
      ensures (subs[s], out) == TickSub(old(subs[s]), DataFor(t, old(subs[s]).pdid, w))
      ensures forall i :: 0 <= i < PERIODIC_SLOTS && i != s ==> subs[i] == old(subs[i])
    {
      out := [];
      if subs[s].divider == 0 {
        return;
      }
      subs[s] := subs[s].(counter := subs[s].counter + 1);
      if subs[s].counter < subs[s].divider {
        return;
      }
      subs[s] := subs[s].(counter := 0);
      var k := Find(t, DYNAMIC_BASE + subs[s].pdid);
      var data := [];
      if k >= 0 {
        data := Assemble(t[k].recs, w);
      }
      if data == [] {
        subs[s] := subs[s].(divider := 0);
        return;
      }
      out := [[subs[s].pdid] + data];
    }

    // The subscribing half of handle_read_data_periodic.
    method Subscribe(t: seq<Slot>, pdids: seq<Octet>, divider: nat) returns (ok: bool)
      requires Valid() && divider in {SLOW, MEDIUM, FAST}
      modifies subs
      ensures Valid() && (subs[..], ok) == SubscribeAll(old(subs[..]), t, pdids, divider)
    {
      hide SubsOk, Target;
      ghost var was := subs[..];
      SubscribingKeepsOk(was, t, pdids, divider);
      assert pdids[0..] == pdids;
      for i := 0 to |pdids|
        invariant subs.Length == PERIODIC_SLOTS
        invariant SubscribeAll(subs[..], t, pdids[i..], divider) == SubscribeAll(was, t, pdids, divider)
      {
        var k := Target(subs[..], t, pdids[i]);
        assert pdids[i..][1..] == pdids[i + 1..];
        if k < 0 {
          return false;
        }
        ghost var now := subs[..];
        subs[k] := Sub(pdids[i], divider, 0);
        assert subs[..] == now[k := Sub(pdids[i], divider, 0)];
      }
      ok := true;
    }
  }
}
