// Where the timer daemon files a timer, in unbounded time, and what its two lists mean
// (Middlewares/FreeRTOS-Kernel/timers.c:889-932).

module TimerWheel {
  import opened Words
  import opened OrderedEntries

  const LAST_TICK: nat := WORD_LIMIT - 1   // tmrMAX_TIME_BEFORE_OVERFLOW

  type TimerId = nat

  datatype Timer = Timer(period: nat, autoReload: bool, active: bool)

  // `origin` is the time of the last start, reset or period change, `calls` the callbacks since.
  datatype Story = Story(origin: nat, calls: nat)

  // The unbounded time of the k-th expiry.
  function Moment(origin: nat, period: nat, k: nat): nat {
    origin + k * period
  }

  lemma NextMoment(origin: nat, period: nat, k: nat)
    ensures Moment(origin, period, k + 1) == Moment(origin, period, k) + period
    ensures Moment(origin, period, 0) == origin
  {
  }

  lemma {:induction false} MomentsRise(origin: nat, period: nat, j: nat, k: nat)
    requires j <= k
    ensures Moment(origin, period, j) <= Moment(origin, period, k)
    decreases k
  {
    if j < k {
      MomentsRise(origin, period, j, k - 1);
      NextMoment(origin, period, k - 1);
    }
  }

  // ----- prvInsertTimerInActiveList: which way its comparisons send a timer -----

  datatype Place = ProcessNow | InCurrent | InOverflow

  function Placed(next: nat, now: nat, command: nat, period: nat): Place {
    if next <= now then
      if Elapsed(now, command) >= period then ProcessNow else InOverflow
    else if now < command && next >= command then ProcessNow
    else InCurrent
  }

  // For any period and a command less than a wrap ago, across any overflow: a timer is called
  // expired exactly if its true expiry is not after now, and is otherwise filed in the list of
  // the epoch its expiry falls in.
  lemma PlacedRight(command: nat, now: nat, period: nat)
    requires command <= now < command + WORD_LIMIT && 0 < period < WORD_LIMIT
    ensures var due := command + period;
            var place := Placed(due % WORD_LIMIT, now % WORD_LIMIT, command % WORD_LIMIT, period);
            && (place.ProcessNow? <==> due <= now)
            && (place.InCurrent? <==> now < due && due / WORD_LIMIT == now / WORD_LIMIT)
            && (place.InOverflow? <==> now < due && due / WORD_LIMIT == now / WORD_LIMIT + 1)
  {
    var due := command + period;
    ElapsedIsTime(now, command);
    ElapsedIsTime(due, command);
    if now < due {
      ElapsedIsTime(due, now);
    } else {
      ElapsedIsTime(now, due);
    }
  }

  // ----- What the daemon's state means -----

  datatype View = View(
    current: seq<Entry<TimerId>>, overflow: seq<Entry<TimerId>>,
    timers: map<TimerId, Timer>, stories: map<TimerId, Story>)

  function Due(t: Timer, s: Story): nat {
    Moment(s.origin, t.period, s.calls + 1)
  }

  predicate Known(v: View, t: TimerId) {
    t in v.timers && t in v.stories
  }

  // The timer's numbers make sense, and no callback came early.
  predicate Sound(timer: Timer, story: Story, limit: nat) {
    && 0 < timer.period < WORD_LIMIT
    && story.origin <= limit
    && Moment(story.origin, timer.period, story.calls) <= limit
  }

  ghost predicate AllSound(v: View, limit: nat) {
    && v.timers.Keys == v.stories.Keys
    && forall t :: t in v.timers ==> Sound(v.timers[t], v.stories[t], limit)
  }

  // The entries of a list fall due in its epoch.
  predicate DueIn(v: View, e: Entry<TimerId>, epoch: nat) {
    && Known(v, e.owner)
    && e.key < WORD_LIMIT
    && Due(v.timers[e.owner], v.stories[e.owner]) == epoch * WORD_LIMIT + e.key
  }

  ghost predicate Filed(v: View, list: seq<Entry<TimerId>>, epoch: nat) {
    && Sorted(list)
    && forall e :: e in list ==> DueIn(v, e, epoch)
  }

  function Copies(v: View, t: TimerId): nat {
    Count(v.current, t) + Count(v.overflow, t)
  }

  predicate IsActive(v: View, t: TimerId) {
    t in v.timers && v.timers[t].active
  }

  // An active timer is in one list, once; any other in none. `but` is a timer in hand.
  ghost predicate OnceEach(v: View, but: set<TimerId>) {
    forall t :: Copies(v, t) == if IsActive(v, t) && t !in but then 1 else 0
  }

  // With the lists in the given epoch and callbacks made up to `limit`.
  ghost predicate Inv(v: View, epoch: nat, limit: nat, but: set<TimerId>) {
    && AllSound(v, limit)
    && Filed(v, v.current, epoch) && Filed(v, v.overflow, epoch + 1)
    && OnceEach(v, but)
  }

  // ----- How the parts of a step change it -----

  function Taken(v: View, t: TimerId): View {
    v.(current := Without(v.current, t), overflow := Without(v.overflow, t))
  }

  lemma TakeOut(v: View, epoch: nat, limit: nat, but: set<TimerId>, t: TimerId)
    requires Inv(v, epoch, limit, but)
    ensures Inv(Taken(v, t), epoch, limit, but + {t})
  {
    hide Sound, DueIn, Count, Without, Sorted;
    WithoutMembers(v.current, t);
    WithoutMembers(v.overflow, t);
    WithoutKeepsSorted(v.current, t);
    WithoutKeepsSorted(v.overflow, t);
    forall u
      ensures Copies(Taken(v, t), u) == if IsActive(v, u) && u !in but + {t} then 1 else 0
    {
      CountWithout(v.current, t, u);
      CountWithout(v.overflow, t, u);
    }
    forall e | e in Taken(v, t).current
      ensures DueIn(Taken(v, t), e, epoch)
    {
      Names(v, e, epoch);
      SameDue(v, Taken(v, t), e, epoch);
    }
    forall e | e in Taken(v, t).overflow
      ensures DueIn(Taken(v, t), e, epoch + 1)
    {
      Names(v, e, epoch + 1);
      SameDue(v, Taken(v, t), e, epoch + 1);
    }
  }

  lemma SameDue(v: View, w: View, e: Entry<TimerId>, epoch: nat)
    requires DueIn(v, e, epoch)
    requires Known(w, e.owner) && w.timers[e.owner].period == v.timers[e.owner].period
    requires w.stories[e.owner] == v.stories[e.owner]
    ensures DueIn(w, e, epoch)
  {
  }

  // What the timer in hand is told changes nothing for the others.
  function Told(v: View, t: TimerId, timer: Timer, story: Story): View {
    v.(timers := v.timers[t := timer], stories := v.stories[t := story])
  }

  lemma InHandChanges(v: View, epoch: nat, limit: nat, but: set<TimerId>, t: TimerId, timer: Timer, story: Story)
    requires Inv(v, epoch, limit, but) && (t in but || !IsActive(v, t)) && Sound(timer, story, limit)
    requires timer.active ==> t in but
    ensures Inv(Told(v, t, timer, story), epoch, limit, but)
    ensures !timer.active ==> Inv(Told(v, t, timer, story), epoch, limit, but - {t})
  {
    hide Sound, DueIn, Count, Sorted;
    var w := Told(v, t, timer, story);
    forall u
      ensures Copies(w, u) == Copies(v, u) == if IsActive(w, u) && u !in but then 1 else 0
      ensures !timer.active ==> Copies(w, u) == if IsActive(w, u) && u !in but - {t} then 1 else 0
    {
      assert u != t ==> IsActive(w, u) == IsActive(v, u);
    }
    forall e | e in w.current
      ensures DueIn(w, e, epoch)
    {
      NotInHand(v, but, t, e);
      Names(v, e, epoch);
      SameDue(v, w, e, epoch);
    }
    forall e | e in w.overflow
      ensures DueIn(w, e, epoch + 1)
    {
      NotInHand(v, but, t, e);
      Names(v, e, epoch + 1);
      SameDue(v, w, e, epoch + 1);
    }
  }

  lemma NotInHand(v: View, but: set<TimerId>, t: TimerId, e: Entry<TimerId>)
    requires OnceEach(v, but) && (t in but || !IsActive(v, t)) && (e in v.current || e in v.overflow)
    ensures e.owner != t
  {
    if e in v.current { CountPositive(v.current, e); } else { CountPositive(v.overflow, e); }
    assert Copies(v, t) == 0;
  }

  lemma Names(v: View, e: Entry<TimerId>, epoch: nat)
    requires DueIn(v, e, epoch)
    ensures Known(v, e.owner)
  {
  }

  function PutIn(v: View, current: bool, e: Entry<TimerId>): View {
    if current then v.(current := InsertOrdered(v.current, e)) else v.(overflow := InsertOrdered(v.overflow, e))
  }

  lemma PutBack(v: View, epoch: nat, limit: nat, but: set<TimerId>, current: bool, e: Entry<TimerId>)
    requires Inv(v, epoch, limit, but) && e.owner in but && IsActive(v, e.owner)
    requires DueIn(v, e, if current then epoch else epoch + 1)
    ensures Inv(PutIn(v, current, e), epoch, limit, but - {e.owner})
  {
    hide Sound, DueIn, Count, Sorted, InsertOrdered;
    var w := PutIn(v, current, e);
    forall u
      ensures Copies(w, u) == if IsActive(w, u) && u !in but - {e.owner} then 1 else 0
    {
      CountInsert(v.current, e, u);
      CountInsert(v.overflow, e, u);
      assert Copies(v, u) == if IsActive(v, u) && u !in but then 1 else 0;
    }
    InsertMembers(v.current, e);
    InsertMembers(v.overflow, e);
    InsertKeepsSorted(v.current, e);
    InsertKeepsSorted(v.overflow, e);
    forall x | x in w.current
      ensures DueIn(w, x, epoch)
    {
      Names(v, x, epoch);
      SameDue(v, w, x, epoch);
    }
    forall x | x in w.overflow
      ensures DueIn(w, x, epoch + 1)
    {
      Names(v, x, epoch + 1);
      SameDue(v, w, x, epoch + 1);
    }
  }

  lemma LaterIsFine(v: View, epoch: nat, limit: nat, later: nat, but: set<TimerId>)
    requires Inv(v, epoch, limit, but) && limit <= later
    ensures Inv(v, epoch, later, but)
  {
    hide Filed, OnceEach;
  }

  // The tick counter has wrapped and the current list is worked off: the lists change places.
  lemma Switched(v: View, epoch: nat, limit: nat, but: set<TimerId>)
    requires Inv(v, epoch, limit, but) && v.current == []
    ensures Inv(v.(current := v.overflow, overflow := []), epoch + 1, limit, but)
  {
    hide Sound, Sorted;
    var w := v.(current := v.overflow, overflow := []);
    forall u
      ensures Copies(w, u) == if IsActive(w, u) && u !in but then 1 else 0
    {
      assert Copies(v, u) == if IsActive(v, u) && u !in but then 1 else 0;
    }
    forall e | e in w.current
      ensures DueIn(w, e, epoch + 1)
    {
      SameDue(v, w, e, epoch + 1);
    }
    assert Sorted(w.overflow) by { NothingSorted(); }
  }

  lemma NothingSorted()
    ensures Sorted<TimerId>([])
  {
  }

  // ----- The steps of the daemon, on its state as a value -----

  function Bumped(s: Story): Story {
    s.(calls := s.calls + 1)
  }

  // The timer in hand has its expiry `at0` behind it, is filed for the next one, and then has
  // its callback for `at0`.
  lemma FiledAgain(v: View, epoch: nat, now: nat, but: set<TimerId>, t: TimerId, key: nat, near: bool)
    requires Inv(v, epoch, now, but) && t in but && IsActive(v, t) && t in v.stories
    requires var due := Due(v.timers[t], v.stories[t]);
             && due <= now && key < WORD_LIMIT
             && due + v.timers[t].period == (if near then epoch else epoch + 1) * WORD_LIMIT + key
    ensures Inv(Told(PutIn(v, near, Entry(key, t)), t, v.timers[t], Bumped(v.stories[t])), epoch, now, but - {t})
  {
    hide Inv, Sorted, InsertOrdered, Moment;
    var timer, story := v.timers[t], v.stories[t];
    NextMoment(story.origin, timer.period, story.calls + 1);
    SoundIn(v, epoch, now, but, t);
    var w := Told(v, t, timer, Bumped(story));
    InHandChanges(v, epoch, now, but, t, timer, Bumped(story));
    PutBack(w, epoch, now, but, near, Entry(key, t));
    assert Told(PutIn(v, near, Entry(key, t)), t, timer, Bumped(story)) == PutIn(w, near, Entry(key, t));
  }

  // A callback for the expiry behind a timer that stays in hand.
  lemma CallInHand(v: View, epoch: nat, now: nat, but: set<TimerId>, t: TimerId)
    requires Inv(v, epoch, now, but) && t in but && t in v.timers && t in v.stories
    requires Due(v.timers[t], v.stories[t]) <= now
    ensures Inv(v.(stories := v.stories[t := Bumped(v.stories[t])]), epoch, now, but)
  {
    hide Inv, Moment;
    var timer, story := v.timers[t], v.stories[t];
    SoundIn(v, epoch, now, but, t);
    InHandChanges(v, epoch, now, but, t, timer, Bumped(story));
    assert v.timers[t := timer] == v.timers;
  }

  // The callback of a one-shot timer in hand whose expiry is behind it; it is active no more.
  lemma CallBehind(v: View, epoch: nat, now: nat, but: set<TimerId>, t: TimerId)
    requires Inv(v, epoch, now, but) && t in but && t in v.timers && t in v.stories
    requires Due(v.timers[t], v.stories[t]) <= now
    ensures Inv(Told(v, t, v.timers[t].(active := false), Bumped(v.stories[t])), epoch, now, but - {t})
  {
    hide Inv, Moment;
    var timer, story := v.timers[t], v.stories[t];
    SoundIn(v, epoch, now, but, t);
    InHandChanges(v, epoch, now, but, t, timer.(active := false), Bumped(story));
  }

  lemma KeyIsTick(epoch: nat, key: nat)
    requires key < WORD_LIMIT
    ensures (epoch * WORD_LIMIT + key) % WORD_LIMIT == key && (epoch * WORD_LIMIT + key) / WORD_LIMIT == epoch
  {
  }

  lemma EpochBehind(epoch: nat, tick: nat, at: nat)
    requires epoch * WORD_LIMIT + tick <= at
    ensures epoch <= at / WORD_LIMIT
  {
  }

  lemma PeriodInRange(v: View, limit: nat, t: TimerId)
    requires t in v.timers && t in v.stories && Sound(v.timers[t], v.stories[t], limit)
    ensures 0 < v.timers[t].period < WORD_LIMIT
  {
  }

  lemma SumWraps(a: nat, p: nat)
    ensures (a % WORD_LIMIT + p) % WORD_LIMIT == (a + p) % WORD_LIMIT
  {
  }

  lemma SplitTime(a: nat)
    ensures a == a / WORD_LIMIT * WORD_LIMIT + a % WORD_LIMIT
  {
  }

  lemma SoundIn(v: View, epoch: nat, limit: nat, but: set<TimerId>, t: TimerId)
    requires Inv(v, epoch, limit, but) && t in v.timers
    ensures t in v.stories && Sound(v.timers[t], v.stories[t], limit)
    ensures v.timers.Keys == v.stories.Keys
  {
    hide Filed, OnceEach, Sound;
  }

  lemma HeadDue(v: View, epoch: nat, limit: nat, but: set<TimerId>)
    requires Inv(v, epoch, limit, but) && v.current != []
    ensures var e := v.current[0];
            && e.owner !in but && IsActive(v, e.owner) && e.owner in v.stories && e.key < WORD_LIMIT
            && Due(v.timers[e.owner], v.stories[e.owner]) == epoch * WORD_LIMIT + e.key
  {
    hide Due, Sound, Sorted;
    var e := v.current[0];
    CountPositive(v.current, e);
    assert Copies(v, e.owner) > 0;
    assert DueIn(v, e, epoch);
  }

  // ----- How many entries are due -----

  function DueCount(s: seq<Entry<TimerId>>, now: nat): nat {
    if s == [] then 0 else (if s[0].key <= now then 1 else 0) + DueCount(s[1..], now)
  }

  lemma {:induction false} DueConcat(a: seq<Entry<TimerId>>, b: seq<Entry<TimerId>>, now: nat)
    ensures DueCount(a + b, now) == DueCount(a, now) + DueCount(b, now)
  {
    if a == [] {
      assert a + b == b;
    } else {
      assert (a + b)[1..] == a[1..] + b;
      DueConcat(a[1..], b, now);
    }
  }

  lemma DueInsert(s: seq<Entry<TimerId>>, e: Entry<TimerId>, now: nat)
    requires e.key > now
    ensures DueCount(InsertOrdered(s, e), now) == DueCount(s, now)
  {
    hide Position;
    var p := Position(s, e.key);
    DueConcat(s[..p], s[p..], now);
    DueConcat(s[..p], [e], now);
    DueConcat(s[..p] + [e], s[p..], now);
    assert s[..p] + s[p..] == s;
    assert [e][1..] == [];
  }

  lemma {:induction false} DueWithout(s: seq<Entry<TimerId>>, t: TimerId, now: nat)
    ensures DueCount(Without(s, t), now) <= DueCount(s, now)
    ensures s != [] && s[0].owner == t && s[0].key <= now ==> DueCount(Without(s, t), now) < DueCount(s, now)
  {
    if s != [] {
      DueWithout(s[1..], t, now);
      var head := if s[0].owner == t then [] else [s[0]];
      assert head != [] ==> head[1..] == [];
      DueConcat(head, Without(s[1..], t), now);
    }
  }

  // ----- What a step of the daemon leaves alone -----

  // w comes after v without a command: numbers kept, callbacks only added, auto-reload timers
  // stay active, a one-shot timer stops with the one callback it had left, and an inactive timer
  // is not called. Timers in hand are not touched at all.
  ghost predicate Follows(v: View, w: View, but: set<TimerId>) {
    && v.timers.Keys == w.timers.Keys == v.stories.Keys == w.stories.Keys
    && forall t :: t in v.timers ==>
         && StaysItself(v.timers[t], v.stories[t], w.timers[t], w.stories[t])
         && (t in but ==> w.timers[t] == v.timers[t] && w.stories[t] == v.stories[t])
  }

  lemma FollowsItself(v: View, epoch: nat, limit: nat, but: set<TimerId>)
    requires Inv(v, epoch, limit, but)
    ensures Follows(v, v, but)
  {
    hide Sound, Filed, OnceEach;
  }

  lemma FollowsSwitched(v: View, w: View, x: View, but: set<TimerId>)
    requires Follows(v, w, but) && x.timers == w.timers && x.stories == w.stories
    ensures Follows(v, x, but)
  {
    hide StaysItself;
  }

  // One timer has moved on, and by its own rules.
  lemma OneMoved(v: View, w: View, but: set<TimerId>, t: TimerId)
    requires v.timers.Keys == v.stories.Keys && t in v.timers && t !in but && t in w.timers && t in w.stories
    requires w.timers == v.timers[t := w.timers[t]] && w.stories == v.stories[t := w.stories[t]]
    requires StaysItself(v.timers[t], v.stories[t], w.timers[t], w.stories[t])
    ensures Follows(v, w, but)
  {
  }

  // The same for all timers but the one a command is about.
  ghost predicate FollowsBut(v: View, w: View, t: TimerId) {
    && v.timers.Keys == w.timers.Keys == v.stories.Keys == w.stories.Keys
    && forall u :: u in v.timers && u != t ==> StaysItself(v.timers[u], v.stories[u], w.timers[u], w.stories[u])
  }

  // Taking t out of its list, then a sample: t is as it was.
  lemma InHandKept(v: View, u: View, w: View, t: TimerId)
    requires u.timers == v.timers && u.stories == v.stories && Known(v, t) && Follows(u, w, {t})
    ensures Known(w, t) && w.timers[t] == v.timers[t] && w.stories[t] == v.stories[t]
    ensures FollowsBut(v, w, t)
  {
    hide StaysItself;
  }

  lemma OthersFollow(v: View, w: View, x: View, t: TimerId)
    requires FollowsBut(v, w, t) && Known(w, t)
    requires Known(x, t) && x.timers == w.timers[t := x.timers[t]] && x.stories == w.stories[t := x.stories[t]]
    ensures FollowsBut(v, x, t)
  {
    hide StaysItself;
  }

  lemma SoundStart(origin: nat, period: nat, limit: nat, autoReload: bool)
    requires 0 < period < WORD_LIMIT && origin <= limit
    ensures Sound(Timer(period, autoReload, true), Story(origin, 0), limit)
  {
    NextMoment(origin, period, 0);
  }

  lemma SameButIdle(timer: Timer, story: Story, limit: nat)
    requires Sound(timer, story, limit)
    ensures Sound(timer.(active := false), story, limit)
  {
  }

  lemma CallsExact(timer: Timer, story: Story, now: nat, k: nat)
    requires Sound(timer, story, now) && Due(timer, story) > now
    ensures Moment(story.origin, timer.period, k) <= now <==> k <= story.calls
  {
    hide Moment;
    if k <= story.calls {
      MomentsRise(story.origin, timer.period, k, story.calls);
    } else {
      MomentsRise(story.origin, timer.period, story.calls + 1, k);
    }
  }

  predicate StaysItself(a: Timer, s: Story, b: Timer, r: Story) {
    && b.period == a.period && b.autoReload == a.autoReload && r.origin == s.origin
    && r.calls >= s.calls
    && (b.active ==> a.active)
    && (!a.active ==> b == a && r == s)
    && (a.autoReload ==> b.active == a.active)
    && (!a.autoReload ==> r.calls + Left(b) == s.calls + Left(a))
  }

  function Left(t: Timer): nat {
    if t.active then 1 else 0
  }

  lemma FollowsOn(u: View, v: View, w: View, but: set<TimerId>)
    requires Follows(u, v, but) && Follows(v, w, but)
    ensures Follows(u, w, but)
  {
    hide StaysItself;
    forall t | t in u.timers
      ensures StaysItself(u.timers[t], u.stories[t], w.timers[t], w.stories[t])
    {
      StaysOn(u.timers[t], u.stories[t], v.timers[t], v.stories[t], w.timers[t], w.stories[t]);
    }
  }

  lemma StaysOn(a: Timer, s: Story, b: Timer, r: Story, c: Timer, q: Story)
    requires StaysItself(a, s, b, r) && StaysItself(b, r, c, q)
    ensures StaysItself(a, s, c, q)
  {
  }

  // ----- What follows once the daemon has caught up -----

  predicate CaughtUp(v: View, now: nat) {
    v.current == [] || v.current[0].key > now % WORD_LIMIT
  }

  // Then an active timer has had exactly one callback for each of its expiries up to now: the
  // k-th lies in the past if and only if it has been called.
  lemma CallsAreExpiries(v: View, now: nat, t: TimerId, k: nat)
    requires Inv(v, now / WORD_LIMIT, now, {}) && CaughtUp(v, now) && IsActive(v, t) && t in v.stories
    ensures Moment(v.stories[t].origin, v.timers[t].period, k) <= now <==> k <= v.stories[t].calls
  {
    hide Due, Moment, Sound, OnceEach, Count;
    ActiveDueLater(v, now, t);
    SoundIn(v, now / WORD_LIMIT, now, {}, t);
    CallsExact(v.timers[t], v.stories[t], now, k);
  }

  lemma ActiveDueLater(v: View, now: nat, t: TimerId)
    requires Inv(v, now / WORD_LIMIT, now, {}) && CaughtUp(v, now) && IsActive(v, t) && t in v.stories
    ensures Due(v.timers[t], v.stories[t]) > now
  {
    hide Moment, Sound, Count;
    var q, n := now / WORD_LIMIT, now % WORD_LIMIT;
    assert now == q * WORD_LIMIT + n;
    assert Copies(v, t) == 1;
    if Count(v.current, t) > 0 {
      var e := CountWitness(v.current, t);
      var i :| 0 <= i < |v.current| && v.current[i] == e;
      assert v.current[0].key <= v.current[i].key;
      assert DueIn(v, e, q);
    } else {
      var e := CountWitness(v.overflow, t);
      assert DueIn(v, e, q + 1);
      assert (q + 1) * WORD_LIMIT == q * WORD_LIMIT + WORD_LIMIT;
    }
  }

  // ----- How long the daemon sleeps -----

  datatype Wait = Forever | For(ticks: nat)

  // vQueueWaitForMessageRestricted with the next expiry of the current list, or 0 for none.
  function Sleep(v: View, tick: nat): Wait {
    if v.current == [] && v.overflow == [] then Forever
    else For(((if v.current == [] then 0 else v.current[0].key) - tick) % WORD_LIMIT)
  }

  // It never sleeps past an expiry, and for ever only if there is none.
  lemma NeverOversleeps(v: View, now: nat, t: TimerId)
    requires Inv(v, now / WORD_LIMIT, now, {}) && CaughtUp(v, now) && IsActive(v, t) && t in v.stories
    ensures var wait := Sleep(v, now % WORD_LIMIT);
            wait.For? && now + wait.ticks <= Due(v.timers[t], v.stories[t])
  {
    hide Due, Sound;
    var q, n := now / WORD_LIMIT, now % WORD_LIMIT;
    assert now == q * WORD_LIMIT + n;
    assert Copies(v, t) == 1;
    if v.current != [] {
      assert DueIn(v, v.current[0], q);
    }
    SleepLength(v, n, if v.current == [] then 0 else v.current[0].key);
    if Count(v.current, t) > 0 {
      var e := CountWitness(v.current, t);
      var i :| 0 <= i < |v.current| && v.current[i] == e;
      assert v.current[0].key <= v.current[i].key;
      assert DueIn(v, e, q);
    } else {
      var e := CountWitness(v.overflow, t);
      assert DueIn(v, e, q + 1);
      assert (q + 1) * WORD_LIMIT == q * WORD_LIMIT + WORD_LIMIT;
    }
  }

  lemma SleepLength(v: View, tick: nat, key: nat)
    requires tick < WORD_LIMIT && key == if v.current == [] then 0 else v.current[0].key
    requires v.current == [] || tick < key < WORD_LIMIT
    ensures (key - tick) % WORD_LIMIT <= WORD_LIMIT - tick
    ensures v.current != [] ==> (key - tick) % WORD_LIMIT == key - tick
  {
    if v.current == [] && tick > 0 {
      assert (key - tick) % WORD_LIMIT == WORD_LIMIT - tick;
    }
  }
}
