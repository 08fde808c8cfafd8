// The timer daemon of FreeRTOS, its two lists updated in place
// (Middlewares/FreeRTOS-Kernel/timers.c:695-741, 767-1115).

module TimerDaemon {
  import opened Words
  import opened OrderedEntries
  import opened TimerWheel

  class Daemon {
    var current: seq<Entry<TimerId>>
    var overflow: seq<Entry<TimerId>>
    var timers: map<TimerId, Timer>
    var lastTime: nat
    // the tick counter's high part, and what each timer has been through
    ghost var epoch: nat
    ghost var stories: map<TimerId, Story>

    ghost function Lists(): View
      reads this
    {
      View(current, overflow, timers, stories)
    }

    // The time of the last sample.
    ghost function Sampled(): nat
      reads this
    {
      epoch * WORD_LIMIT + lastTime
    }

    // Everything in order, but for timers in hand.
    ghost predicate ValidBut(but: set<TimerId>)
      reads this
    {
      lastTime < WORD_LIMIT && Inv(Lists(), epoch, Sampled(), but)
    }

    ghost predicate Valid()
      reads this
    {
      ValidBut({})
    }

    // A tick count read at the time `at`, at most one wrap after the last one.
    ghost predicate Reads(tick: nat, at: nat)
      reads this
    {
      tick == at % WORD_LIMIT && Sampled() <= at < Sampled() + WORD_LIMIT
    }

    constructor ()
      ensures Valid() && timers == map[] && Sampled() == 0
    {
      current, overflow, timers, stories := [], [], map[], map[];
      lastTime, epoch := 0, 0;
    }

    // prvInsertTimerInActiveList
    method InsertInActiveList(t: TimerId, next: nat, now: nat, command: nat, ghost commandAt: nat, ghost at: nat)
      returns (expired: bool)
      requires t in timers && 0 < timers[t].period < WORD_LIMIT
      requires commandAt <= at < commandAt + WORD_LIMIT && at / WORD_LIMIT == epoch
      requires command == commandAt % WORD_LIMIT && now == at % WORD_LIMIT
      requires next == (commandAt + timers[t].period) % WORD_LIMIT
      modifies this`current, this`overflow
      ensures var due := commandAt + timers[t].period;
              && (expired <==> due <= at)
              && (expired ==> Lists() == old(Lists()))
              && (!expired ==>
                    var near := due / WORD_LIMIT == epoch;
                    && (near || due / WORD_LIMIT == epoch + 1)
                    && Lists() == PutIn(old(Lists()), near, Entry(next, t)))
    {
      hide InsertOrdered;
      PlacedRight(commandAt, at, timers[t].period);
      expired := false;
      if next <= now {
        if Elapsed(now, command) >= timers[t].period {
          expired := true;
        } else {
          overflow := InsertOrdered(overflow, Entry(next, t));
        }
      } else {
        if now < command && next >= command {
          expired := true;
        } else {
          current := InsertOrdered(current, Entry(next, t));
        }
      }
    }

    // The timer's callback runs. What it does is not part of the daemon.
    ghost method Called(t: TimerId)
      requires t in stories
      modifies this`stories
      ensures stories == old(stories)[t := Bumped(old(stories)[t])]
    {
      stories := stories[t := Bumped(stories[t])];
    }

    // uxListRemove on the timer's item, wherever it is linked.
    method Unlink(t: TimerId, ghost limit: nat, ghost but: set<TimerId>)
      requires Inv(Lists(), epoch, limit, but)
      modifies this`current, this`overflow
      ensures Lists() == Taken(old(Lists()), t)
      ensures Inv(Lists(), epoch, limit, but + {t})
    {
      TakeOut(Lists(), epoch, limit, but, t);
      current, overflow := Without(current, t), Without(overflow, t);
    }

    // One turn of prvReloadTimer's loop condition: the timer, whose expiry at `e` is behind it,
    // is due again already, or is filed for its next expiry.
    method Refile(t: TimerId, e: nat, now: nat, ghost eAt: nat, ghost at: nat, ghost but: set<TimerId>)
      returns (again: bool)
      requires Inv(Lists(), epoch, at, but) && t in but && IsActive(Lists(), t) && t in stories
      requires eAt == Due(timers[t], stories[t]) <= at < eAt + WORD_LIMIT && at / WORD_LIMIT == epoch
      requires e == eAt % WORD_LIMIT && now == at % WORD_LIMIT
      modifies this`current, this`overflow
      ensures again <==> eAt + timers[t].period <= at
      ensures again ==> Lists() == old(Lists())
      ensures !again ==> Inv(Told(Lists(), t, timers[t], Bumped(stories[t])), epoch, at, but - {t})
      ensures DueCount(current, now) == old(DueCount(current, now))
    {
      hide Inv, Due, InsertOrdered, Sound;
      ghost var v := Lists();
      SoundIn(v, epoch, at, but, t);
      PeriodInRange(v, at, t);
      ghost var due := eAt + timers[t].period;
      var next := (e + timers[t].period) % WORD_LIMIT;
      assert next == due % WORD_LIMIT by { SumWraps(eAt, timers[t].period); }
      again := InsertInActiveList(t, next, now, e, eAt, at);
      if !again {
        ghost var near := due / WORD_LIMIT == epoch;
        SplitTime(due);
        SplitTime(at);
        FiledAgain(v, epoch, at, but, t, next, near);
        if near {
          DueInsert(v.current, Entry(next, t), now);
        }
      }
    }

    // prvReloadTimer: called with the timer in hand and its expiry at `expired` behind it; the
    // callback for that expiry is left to the caller.
    method ReloadTimer(t: TimerId, expired: nat, now: nat, ghost expiredAt: nat, ghost at: nat, ghost but: set<TimerId>)
      requires Inv(Lists(), epoch, at, but) && t in but && IsActive(Lists(), t) && t in stories
      requires expiredAt == Due(timers[t], stories[t]) <= at < expiredAt + WORD_LIMIT && at / WORD_LIMIT == epoch
      requires expired == expiredAt % WORD_LIMIT && now == at % WORD_LIMIT
      modifies this`current, this`overflow, this`stories
      ensures t in stories && stories == old(stories)[t := stories[t]]
      ensures stories[t].origin == old(stories[t].origin) && stories[t].calls >= old(stories[t].calls)
      ensures Inv(Told(Lists(), t, timers[t], Bumped(stories[t])), epoch, at, but - {t})
      ensures Due(timers[t], Bumped(stories[t])) > at
      ensures DueCount(current, now) == old(DueCount(current, now))
    {
      hide Inv, Moment, DueCount, Told;
      ghost var origin, period := stories[t].origin, timers[t].period;
      var e := expired;
      ghost var eAt := expiredAt;
      NextMoment(origin, period, stories[t].calls + 1);
      SoundIn(Lists(), epoch, at, but, t);
      var again := Refile(t, e, now, eAt, at, but);
      while again
        invariant t in stories && stories == old(stories)[t := stories[t]]
        invariant stories[t].origin == origin && stories[t].calls >= old(stories[t].calls)
        invariant eAt == Due(timers[t], stories[t]) <= at < eAt + WORD_LIMIT && e == eAt % WORD_LIMIT
        invariant again <==> eAt + period <= at
        invariant again ==> Inv(Lists(), epoch, at, but)
        invariant !again ==> Inv(Told(Lists(), t, timers[t], Bumped(stories[t])), epoch, at, but - {t})
        invariant DueCount(current, now) == old(DueCount(current, now))
        invariant period > 0
        decreases at - eAt
      {
        SumWraps(eAt, period);
        e := (e + timers[t].period) % WORD_LIMIT;
        eAt := eAt + period;
        CallInHand(Lists(), epoch, at, but, t);
        Called(t);
        NextMoment(origin, period, stories[t].calls);
        NextMoment(origin, period, stories[t].calls + 1);
        again := Refile(t, e, now, eAt, at, but);
      }
      NextMoment(origin, period, stories[t].calls + 1);
    }

    // prvProcessExpiredTimer: the head of the current list.
    method ProcessExpiredTimer(next: nat, now: nat, ghost at: nat, ghost but: set<TimerId>) returns (t: TimerId)
      requires Inv(Lists(), epoch, at, but) && at / WORD_LIMIT == epoch && now == at % WORD_LIMIT
      requires current != [] && next == current[0].key <= now
      modifies this`current, this`overflow, this`timers, this`stories
      ensures Inv(Lists(), epoch, at, but) && Follows(old(Lists()), Lists(), but)
      ensures t == old(current[0].owner) && Known(old(Lists()), t) && Known(Lists(), t)
      ensures timers[t].autoReload ==> Due(timers[t], stories[t]) > at
      ensures !timers[t].autoReload ==> stories[t].calls == old(stories[t].calls) + 1
      ensures DueCount(current, now) < old(DueCount(current, now))
    {
      hide Inv, Due, DueCount, Without, Sound;
      t := current[0].owner;
      ghost var v, eAt := Lists(), epoch * WORD_LIMIT + next;
      HeadDue(v, epoch, at, but);
      SplitTime(at);
      DueWithout(current, t, now);
      SoundIn(v, epoch, at, but, t);
      Unlink(t, at, but);
      assert but + {t} - {t} == but;
      if timers[t].autoReload {
        KeyIsTick(epoch, next);
        ReloadTimer(t, next, now, eAt, at, but + {t});
        assert timers[t := timers[t]] == timers;
      } else {
        CallBehind(Lists(), epoch, at, but + {t}, t);
        timers := timers[t := timers[t].(active := false)];
      }
      Called(t);
      OneMoved(v, Lists(), but, t);
    }

    // prvSwitchTimerLists: the rest of the current list is worked off as of the last tick
    // before the overflow; nothing comes back to it.
    method SwitchTimerLists(ghost but: set<TimerId>)
      requires ValidBut(but)
      modifies this`current, this`overflow, this`timers, this`epoch, this`stories
      ensures epoch == old(epoch) + 1 && Inv(Lists(), epoch, epoch * WORD_LIMIT - 1, but)
      ensures Follows(old(Lists()), Lists(), but)
    {
      hide Inv, Follows;
      ghost var v, at := Lists(), epoch * WORD_LIMIT + LAST_TICK;
      LaterIsFine(v, epoch, Sampled(), at, but);
      FollowsItself(v, epoch, at, but);
      KeyIsTick(epoch, LAST_TICK);
      while current != []
        invariant epoch == old(epoch) && Inv(Lists(), epoch, at, but) && Follows(v, Lists(), but)
        decreases DueCount(current, LAST_TICK)
      {
        ghost var u := Lists();
        HeadDue(u, epoch, at, but);
        var _ := ProcessExpiredTimer(current[0].key, LAST_TICK, at, but);
        FollowsOn(v, u, Lists(), but);
      }
      Switched(Lists(), epoch, at, but);
      ghost var w := Lists();
      current, overflow := overflow, current;
      epoch := epoch + 1;
      FollowsSwitched(v, w, Lists(), but);
    }

    // prvSampleTimeNow
    method SampleTimeNow(tick: nat, ghost at: nat, ghost but: set<TimerId>) returns (switched: bool)
      requires ValidBut(but) && Reads(tick, at)
      modifies this
      ensures ValidBut(but) && Sampled() == at && lastTime == tick && at / WORD_LIMIT == epoch
      ensures Follows(old(Lists()), Lists(), but)
      ensures switched <==> epoch != old(epoch)
      ensures !switched ==> Lists() == old(Lists())
    {
      hide Inv, Follows;
      ElapsedIsTime(at, Sampled());
      KeyIsTick(epoch, lastTime);
      SplitTime(at);
      FollowsItself(Lists(), epoch, Sampled(), but);
      switched := false;
      if tick < lastTime {
        SwitchTimerLists(but);
        switched := true;
        LaterIsFine(Lists(), epoch, epoch * WORD_LIMIT - 1, at, but);
      } else {
        LaterIsFine(Lists(), epoch, Sampled(), at, but);
      }
      lastTime := tick;
    }

    // prvGetNextExpireTime and prvProcessTimerOrBlockTask, up to the sleep.
    method ProcessTimerOrBlock(tick: nat, ghost at: nat) returns (blocked: bool, wait: Wait)
      requires Valid() && Reads(tick, at)
      modifies this
      ensures Valid() && Sampled() == at && Follows(old(Lists()), Lists(), {})
      ensures blocked ==> CaughtUp(Lists(), at) && wait == Sleep(Lists(), tick) && Lists() == old(Lists())
      ensures !blocked ==> epoch > old(epoch)
                           || (epoch == old(epoch) && DueCount(current, tick) < old(DueCount(current, tick)))
    {
      hide Inv, Follows, DueCount;
      var empty := current == [];
      var next := if empty then 0 else current[0].key;
      ghost var v := Lists();
      blocked, wait := false, Forever;
      var switched := SampleTimeNow(tick, at, {});
      if !switched {
        if !empty && next <= tick {
          ghost var u := Lists();
          var _ := ProcessExpiredTimer(next, tick, at, {});
          FollowsOn(v, u, Lists(), {});
        } else {
          blocked := true;
          wait := if empty && overflow == [] then Forever else For((next - tick) % WORD_LIMIT);
        }
      }
    }

    // The daemon's loop while no command comes in and the tick stands still, up to its sleep.
    method CatchUp(tick: nat, ghost at: nat) returns (wait: Wait)
      requires Valid() && Reads(tick, at)
      modifies this
      ensures Valid() && Sampled() == at && Follows(old(Lists()), Lists(), {})
      ensures forall t, k: nat :: t in stories && IsActive(Lists(), t) ==>
                (Moment(stories[t].origin, timers[t].period, k) <= at <==> k <= stories[t].calls)
      ensures forall t :: t in stories && IsActive(Lists(), t) ==>
                wait.For? && at + wait.ticks <= Due(timers[t], stories[t])
    {
      hide Inv, Follows, DueCount, Moment;
      ghost var v := Lists();
      FollowsItself(v, epoch, Sampled(), {});
      var blocked := false;
      wait := Forever;
      ghost var last := at / WORD_LIMIT;
      while !blocked
        invariant Valid() && (Reads(tick, at) || blocked) && Sampled() <= at && Follows(v, Lists(), {})
        invariant blocked ==> Sampled() == at && CaughtUp(Lists(), at) && wait == Sleep(Lists(), tick)
        decreases !blocked, last - epoch, DueCount(current, tick)
      {
        ghost var u := Lists();
        EpochBehind(epoch, lastTime, at);
        blocked, wait := ProcessTimerOrBlock(tick, at);
        FollowsOn(v, u, Lists(), {});
      }
      KeyIsTick(epoch, lastTime);
      forall t, k: nat | t in stories && IsActive(Lists(), t)
        ensures Moment(stories[t].origin, timers[t].period, k) <= at <==> k <= stories[t].calls
      {
        CallsAreExpiries(Lists(), at, t, k);
      }
      forall t | t in stories && IsActive(Lists(), t)
        ensures wait.For? && at + wait.ticks <= Due(timers[t], stories[t])
      {
        NeverOversleeps(Lists(), at, t);
      }
    }

    // ----- Commands -----

    // A timer as prvInitialiseNewTimer leaves it.
    method Create(t: TimerId, period: nat, autoReload: bool)
      requires Valid() && t !in timers && 0 < period < WORD_LIMIT
      modifies this`timers, this`stories
      ensures Valid() && timers == old(timers)[t := Timer(period, autoReload, false)]
      ensures stories == old(stories)[t := Story(0, 0)]
    {
      hide Inv;
      ghost var v, timer := Lists(), Timer(period, autoReload, false);
      NextMoment(0, period, 0);
      InHandChanges(v, epoch, Sampled(), {}, t, timer, Story(0, 0));
      assert {} - {t} == {};
      timers := timers[t := Timer(period, autoReload, false)];
      stories := stories[t := Story(0, 0)];
    }

    // How prvProcessReceivedCommands begins: the timer out of its list, then a sample.
    method TakeInHand(t: TimerId, tick: nat, ghost at: nat)
      requires Valid() && Reads(tick, at) && t in timers
      modifies this
      ensures ValidBut({t}) && Sampled() == at && lastTime == tick && at / WORD_LIMIT == epoch
      ensures Known(Lists(), t) && Known(old(Lists()), t)
      ensures timers[t] == old(timers[t]) && stories[t] == old(stories[t])
      ensures Sound(timers[t], stories[t], at)
      ensures FollowsBut(old(Lists()), Lists(), t)
    {
      hide Inv, Follows, Sound, StaysItself, FollowsBut;
      ghost var v := Lists();
      SoundIn(v, epoch, Sampled(), {}, t);
      Unlink(t, Sampled(), {});
      assert {} + {t} == {t};
      ghost var u := Lists();
      var _ := SampleTimeNow(tick, at, {t});
      InHandKept(v, u, Lists(), t);
      SoundIn(Lists(), epoch, at, {t}, t);
    }

    // tmrCOMMAND_START and tmrCOMMAND_RESET, given at `commandAt` and processed at `at`.
    method Start(t: TimerId, command: nat, tick: nat, ghost commandAt: nat, ghost at: nat)
      requires Valid() && Reads(tick, at) && t in timers
      requires commandAt <= at < commandAt + WORD_LIMIT && command == commandAt % WORD_LIMIT
      modifies this
      ensures Valid() && Sampled() == at && Known(Lists(), t)
      ensures timers[t].period == old(timers[t].period) && timers[t].autoReload == old(timers[t].autoReload)
      ensures stories[t].origin == commandAt
      ensures timers[t].autoReload ==>
                && timers[t].active
                && forall k: nat :: Moment(commandAt, timers[t].period, k) <= at <==> k <= stories[t].calls
      ensures !timers[t].autoReload ==>
                && stories[t].calls == (if commandAt + timers[t].period <= at then 1 else 0)
                && timers[t].active == (commandAt + timers[t].period > at)
      ensures FollowsBut(old(Lists()), Lists(), t)
    {
      hide Inv, Moment, Sound, Due, FollowsBut;
      ghost var v := Lists();
      TakeInHand(t, tick, at);
      ghost var w := Lists();
      PeriodInRange(w, at, t);
      StartInHand(t, command, tick, commandAt, at);
      OthersFollow(v, w, Lists(), t);
      SoundIn(Lists(), epoch, at, {}, t);
      forall k: nat | timers[t].autoReload
        ensures Moment(commandAt, timers[t].period, k) <= at <==> k <= stories[t].calls
      {
        CallsExact(timers[t], stories[t], at, k);
      }
    }

    method StartInHand(t: TimerId, command: nat, tick: nat, ghost commandAt: nat, ghost at: nat)
      requires Inv(Lists(), epoch, at, {t}) && Known(Lists(), t) && 0 < timers[t].period < WORD_LIMIT
      requires tick == at % WORD_LIMIT && at / WORD_LIMIT == epoch
      requires commandAt <= at < commandAt + WORD_LIMIT && command == commandAt % WORD_LIMIT
      modifies this`current, this`overflow, this`timers, this`stories
      ensures Inv(Lists(), epoch, at, {}) && Known(Lists(), t)
      ensures timers == old(timers)[t := timers[t]] && stories == old(stories)[t := stories[t]]
      ensures timers[t] == old(timers[t]).(active := timers[t].active) && stories[t].origin == commandAt
      ensures timers[t].autoReload ==> timers[t].active && Due(timers[t], stories[t]) > at
      ensures !timers[t].autoReload ==>
                && stories[t].calls == (if commandAt + timers[t].period <= at then 1 else 0)
                && timers[t].active == (commandAt + timers[t].period > at)
    {
      hide Inv, Moment, Sound, InsertOrdered, DueCount;
      assert {t} - {t} == {};
      ghost var w, period := Lists(), timers[t].period;
      NextMoment(commandAt, period, 0);
      SoundStart(commandAt, period, at, timers[t].autoReload);
      InHandChanges(w, epoch, at, {t}, t, timers[t].(active := true), Story(commandAt, 0));
      timers := timers[t := timers[t].(active := true)];
      stories := stories[t := Story(commandAt, 0)];
      SumWraps(commandAt, period);
      SplitTime(commandAt + period);
      var next := (command + timers[t].period) % WORD_LIMIT;
      var expired := InsertInActiveList(t, next, tick, command, commandAt, at);
      if expired {
        StartedLate(t, next, tick, commandAt + period, at);
      } else {
        PutBack(Told(w, t, timers[t], stories[t]), epoch, at, {t}, (commandAt + period) / WORD_LIMIT == epoch,
                Entry(next, t));
      }
    }

    // A start whose first expiry is behind it when it is processed.
    method StartedLate(t: TimerId, next: nat, now: nat, ghost expiredAt: nat, ghost at: nat)
      requires Inv(Lists(), epoch, at, {t}) && IsActive(Lists(), t) && t in stories
      requires expiredAt == Due(timers[t], stories[t]) <= at < expiredAt + WORD_LIMIT && at / WORD_LIMIT == epoch
      requires next == expiredAt % WORD_LIMIT && now == at % WORD_LIMIT
      modifies this`current, this`overflow, this`timers, this`stories
      ensures Inv(Lists(), epoch, at, {}) && Known(Lists(), t)
      ensures timers == old(timers)[t := timers[t]] && stories == old(stories)[t := stories[t]]
      ensures timers[t] == old(timers[t]).(active := timers[t].autoReload)
      ensures stories[t].origin == old(stories[t].origin)
      ensures timers[t].autoReload ==> Due(timers[t], stories[t]) > at
      ensures !timers[t].autoReload ==> stories[t].calls == old(stories[t].calls) + 1
    {
      hide Inv, Moment, Sound;
      assert {t} - {t} == {};
      if timers[t].autoReload {
        ReloadTimer(t, next, now, expiredAt, at, {t});
        assert timers[t := timers[t]] == timers;
      } else {
        CallBehind(Lists(), epoch, at, {t}, t);
        timers := timers[t := timers[t].(active := false)];
      }
      Called(t);
    }

    // tmrCOMMAND_CHANGE_PERIOD: starts anew from now.
    method ChangePeriod(t: TimerId, period: nat, tick: nat, ghost at: nat)
      requires Valid() && Reads(tick, at) && t in timers && 0 < period < WORD_LIMIT
      modifies this
      ensures Valid() && Sampled() == at && Known(Lists(), t)
      ensures timers[t] == old(timers[t]).(period := period, active := true) && stories[t] == Story(at, 0)
      ensures FollowsBut(old(Lists()), Lists(), t)
    {
      hide Inv, Moment, Sound, InsertOrdered, FollowsBut;
      assert {t} - {t} == {};
      ghost var v := Lists();
      TakeInHand(t, tick, at);
      ghost var w := Lists();
      NextMoment(at, period, 0);
      SoundStart(at, period, at, timers[t].autoReload);
      InHandChanges(w, epoch, at, {t}, t, timers[t].(period := period, active := true), Story(at, 0));
      timers := timers[t := timers[t].(period := period, active := true)];
      stories := stories[t := Story(at, 0)];
      SumWraps(at, period);
      SplitTime(at + period);
      var next := (tick + timers[t].period) % WORD_LIMIT;
      var expired := InsertInActiveList(t, next, tick, tick, at, at);
      PutBack(Told(w, t, timers[t], stories[t]), epoch, at, {t}, (at + period) / WORD_LIMIT == epoch, Entry(next, t));
      OthersFollow(v, w, Lists(), t);
    }

    // tmrCOMMAND_STOP, and tmrCOMMAND_DELETE of a statically allocated timer.
    method Stop(t: TimerId, tick: nat, ghost at: nat)
      requires Valid() && Reads(tick, at) && t in timers
      modifies this
      ensures Valid() && Sampled() == at && Known(Lists(), t)
      ensures timers[t] == old(timers[t]).(active := false) && stories[t] == old(stories[t])
      ensures FollowsBut(old(Lists()), Lists(), t)
    {
      hide Inv, Moment, Sound, FollowsBut;
      assert {t} - {t} == {};
      ghost var v := Lists();
      TakeInHand(t, tick, at);
      ghost var w := Lists();
      SameButIdle(timers[t], stories[t], at);
      InHandChanges(w, epoch, at, {t}, t, timers[t].(active := false), stories[t]);
      timers := timers[t := timers[t].(active := false)];
      assert stories[t := stories[t]] == stories;
      OthersFollow(v, w, Lists(), t);
    }
  }
}
