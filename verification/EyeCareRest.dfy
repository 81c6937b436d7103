/** The forced rest of the eye-care policy: how it begins, how it ends, and why a clock that is
    set back cannot stretch it (sysmodule/sysmodule_core.c, sysmodule/sysmodule_control.c). */
module EyeCareRest {
  import opened Wrappers

  const MOST_MINUTES: nat := 240

  datatype Policy = Policy(enabled: bool, playMinutes: nat, restMinutes: nat)

  /** The eye-care fields of the saved runtime state. */
  datatype Cycle = Cycle(day: nat, accumulated: nat, lastUsed: nat, usageKnown: bool, resting: bool, deadline: int,
                         breakId: nat, idleSince: int)

  /** A trustworthy reading of today's timer. */
  datatype Usage = Usage(used: nat, timerEnabled: bool)

  /** What one enforcement tick has to go by; `reopened` is the timer as read behind the lifted
      restriction when a rest ends, if it could be read. */
  datatype Tick = Tick(now: int, day: nat, bedtime: bool, limit: Option<nat>, dockBlocks: bool, usage: Option<Usage>,
                       reopened: Option<nat>)

  function Fresh(day: nat): Cycle {
    Cycle(day, 0, 0, false, false, 0, 0, 0)
  }

  /** The cycle behind a rest: it starts afresh, from the timer as it is now unless something else
      holds play back. */
  function Reopened(t: Tick): Cycle {
    if t.reopened.Some? && !t.bedtime && !t.dockBlocks
    then Fresh(t.day).(lastUsed := t.reopened.value, usageKnown := true)
    else Fresh(t.day)
  }

  function BreakId(day: nat, now: int): nat {
    var id := day * 0x1_0000_0000 + now % 0x1_0000_0000;
    if id == 0 then 1 else id
  }

  function Rest(c: Cycle, p: Policy, t: Tick): Cycle {
    c.(resting := true, deadline := t.now + p.restMinutes * 60, breakId := BreakId(t.day, t.now))
  }

  /** The policy is off, bedtime takes over, or today's limit is used up anyway. */
  predicate Leaves(c: Cycle, p: Policy, t: Tick) {
    !p.enabled || t.bedtime || (t.limit.Some? && c.usageKnown && c.lastUsed >= t.limit.value)
  }

  function Today(c: Cycle, day: nat): Cycle {
    if c.day != day then c.(day := day, lastUsed := 0) else c
  }

  /** Play time since the last rest; a stretch without use as long as a rest counts as one. */
  function Played(c: Cycle, p: Policy, t: Tick, used: nat): Cycle {
    var d :=
      if c.usageKnown && used >= c.lastUsed then
        if used == c.lastUsed then
          var idle := if c.idleSince == 0 || c.idleSince > t.now then t.now else c.idleSince;
          c.(idleSince := idle, accumulated := if t.now - idle >= p.restMinutes * 60 then 0 else c.accumulated)
        else
          var total := c.accumulated + used - c.lastUsed;
          c.(accumulated := if total > MOST_MINUTES then MOST_MINUTES else total, idleSince := t.now)
      else c.(idleSince := t.now);
    d.(lastUsed := used, usageKnown := true)
  }

  /** The cycle after a tick. */
  function Ticked(saved: Cycle, p: Policy, t: Tick): Cycle {
    var c := Today(saved, t.day);
    if Leaves(c, p, t) then (if c.resting then Reopened(t) else Fresh(t.day))
    else if c.resting then
      var latest := t.now + p.restMinutes * 60;
      var deadline := if c.deadline > latest then latest else c.deadline;
      if t.now >= deadline then Reopened(t) else c.(deadline := deadline)
    else if t.dockBlocks then c.(idleSince := 0)
    else if t.usage.None? || !(t.usage.value.timerEnabled || c.usageKnown) then c.(idleSince := 0)
    else
      var d := Played(c, p, t, t.usage.value.used);
      if t.limit.Some? && d.lastUsed >= t.limit.value then Fresh(t.day)
      else if d.accumulated >= p.playMinutes then Rest(d, p, t)
      else d
  }

  /** The cycle after the policy was replaced: a running rest is lengthened or shortened. */
  function Repolicied(c: Cycle, was: Policy, next: Policy, day: nat): Cycle {
    if !next.enabled || !was.enabled then Fresh(day)
    else if c.resting then c.(deadline := c.deadline + (next.restMinutes - was.restMinutes) * 60)
    else c
  }

  /** Does a rest hold back grants at this moment? */
  predicate BlocksGrants(p: Policy, c: Cycle, now: int) {
    p.enabled && c.resting && c.deadline > now
  }

  /** The deadline is no further off than one rest from that moment. */
  predicate IsDue(deadline: int, last: int, p: Policy) {
    deadline <= last + 60 * p.restMinutes
  }

  class EyeCare {
    var policy: Policy
    var day: nat
    var accumulated: nat
    var lastUsed: nat
    var usageKnown: bool
    var resting: bool
    var deadline: int
    var breakId: nat
    var idleSince: int

    function State(): Cycle
      reads this
    {
      Cycle(day, accumulated, lastUsed, usageKnown, resting, deadline, breakId, idleSince)
    }

    method Reset(now: nat)
      modifies this
      ensures State() == Fresh(now) && policy == old(policy)
    {
      day, accumulated, lastUsed, usageKnown := now, 0, 0, false;
      resting, deadline, breakId, idleSince := false, 0, 0, 0;
    }

    /** The eye-care part of one enforcement tick. */
    method Enforce(t: Tick) returns (entered: bool, left: bool)
      modifies this
      ensures State() == Ticked(old(State()), policy, t) && policy == old(policy)
      ensures entered == (!old(resting) && resting)
      ensures left == (old(resting) && !resting)
    {
      hide Played, BreakId;
      entered, left := false, false;
      if day != t.day {
        day, lastUsed := t.day, 0;
      }
      if !policy.enabled || t.bedtime || (t.limit.Some? && usageKnown && lastUsed >= t.limit.value) {
        left := resting;
        Reset(t.day);
        if left {
          Reopen(t);
        }
      } else if resting {
        var latest := t.now + policy.restMinutes * 60;
        if deadline > latest {
          deadline := latest;
        }
        if t.now >= deadline {
          left := true;
          Reset(t.day);
          Reopen(t);
        }
      } else if t.dockBlocks {
        idleSince := 0;
      } else if t.usage.Some? && (t.usage.value.timerEnabled || usageKnown) {
        Play(t, t.usage.value.used);
        if t.limit.Some? && lastUsed >= t.limit.value {
          Reset(t.day);
        } else if accumulated >= policy.playMinutes {
          entered := true;
          BeginRest(t);
        }
      } else {
        idleSince := 0;
      }
    }

    /** The timer is read once more when the restriction is lifted. */
    method Reopen(t: Tick)
      requires State() == Fresh(t.day)
      modifies this
      ensures State() == Reopened(t) && policy == old(policy)
    {
      if t.reopened.Some? && !t.bedtime && !t.dockBlocks {
        lastUsed, usageKnown := t.reopened.value, true;
      }
    }

    method BeginRest(t: Tick)
      modifies this
      ensures State() == Rest(old(State()), policy, t) && policy == old(policy)
    {
      resting, deadline := true, t.now + policy.restMinutes * 60;
      breakId := t.day * 0x1_0000_0000 + t.now % 0x1_0000_0000;
      if breakId == 0 {
        breakId := 1;
      }
    }

    method Play(t: Tick, used: nat)
      modifies this
      ensures State() == Played(old(State()), policy, t, used) && policy == old(policy) && resting == old(resting)
    {
      if usageKnown && used >= lastUsed {
        if used == lastUsed {
          if idleSince == 0 || idleSince > t.now {
            idleSince := t.now;
          }
          if t.now - idleSince >= policy.restMinutes * 60 {
            accumulated := 0;
          }
        } else {
          var total := accumulated + used - lastUsed;
          accumulated := if total > MOST_MINUTES then MOST_MINUTES else total;
          idleSince := t.now;
        }
      } else {
        idleSince := t.now;
      }
      lastUsed, usageKnown := used, true;
    }

    /** Switching the policy on or off starts afresh. Otherwise only the deadline of a running rest
        moves, so that it stays within a rest length of whatever moment it was within one of. */
    method SetPolicy(next: Policy, now: nat)
      modifies this
      ensures State() == Repolicied(old(State()), old(policy), next, now) && policy == next
      ensures !(old(policy).enabled && next.enabled) ==>
                State() == Fresh(now) && !BlocksGrants(policy, State(), deadline)
      ensures old(policy).enabled && next.enabled ==> State() == old(State()).(deadline := deadline)
      ensures old(policy).enabled && next.enabled && old(resting) ==>
                forall last: int :: IsDue(deadline, last, next) <==> IsDue(old(deadline), last, old(policy))
      ensures old(policy).enabled && next.enabled && !old(resting) ==> deadline == old(deadline)
    {
      var was := policy;
      policy := next;
      if !policy.enabled || !was.enabled {
        Reset(now);
      } else if resting {
        deadline := deadline + (policy.restMinutes - was.restMinutes) * 60;
      }
    }
  }

  // ---- Runs ----

  /** `saved` says whether the tick's state reached the card. */
  datatype Event = Ticking(t: Tick, saved: bool) | Setting(policy: Policy, day: nat)

  datatype World = World(policy: Policy, cycle: Cycle)

  function Next(w: World, e: Event): World {
    match e
    case Ticking(t, saved) => if saved then w.(cycle := Ticked(w.cycle, w.policy, t)) else w
    case Setting(policy, day) => World(policy, Repolicied(w.cycle, w.policy, policy, day))
  }

  function Run(w: World, events: seq<Event>): World {
    if events == [] then w else Next(Run(w, events[..|events| - 1]), events[|events| - 1])
  }

  /** The clock of the last tick that was saved. */
  function LastTick(events: seq<Event>): Option<int> {
    if events == [] then None
    else
      var e := events[|events| - 1];
      if e.Ticking? && e.saved then Some(e.t.now) else LastTick(events[..|events| - 1])
  }

  /** Through any clock jumps and any changes of the rest length: as of the last saved tick, the
      rest has no more than the configured length to go, and a policy in force keeps it so. */
  lemma {:induction false} RestIsNeverTooLong(w: World, events: seq<Event>)
    requires LastTick(events).Some?
    ensures var r := Run(w, events);
            r.cycle.resting ==> r.policy.enabled && IsDue(r.cycle.deadline, LastTick(events).value, r.policy)
  {
    var init, e := events[..|events| - 1], events[|events| - 1];
    if !(e.Ticking? && e.saved) {
      RestIsNeverTooLong(w, init);
    }
  }

  /** The clock no longer runs backwards from `start` on. */
  ghost predicate Forward(start: int, events: seq<Event>) {
    && (forall n | 0 <= n < |events| && events[n].Ticking? :: start <= events[n].t.now)
    && (forall m, n | 0 <= m < n < |events| && events[m].Ticking? && events[n].Ticking? ::
          events[m].t.now <= events[n].t.now)
  }

  /** The rest that was running at the start is still running throughout. */
  ghost predicate RestsThroughout(w: World, events: seq<Event>) {
    forall n | 0 <= n <= |events| :: Run(w, events[..n]).cycle.resting
  }

  lemma DeadlineStep(w: World, start: int, e: Event)
    requires w.cycle.resting && w.cycle.deadline <= start + 60 * w.policy.restMinutes
    requires (e.Ticking? ==> start <= e.t.now) && Next(w, e).cycle.resting
    ensures Next(w, e).cycle.deadline <= start + 60 * Next(w, e).policy.restMinutes
  {
  }

  lemma {:induction false} DeadlineOnlyMovesWithThePolicy(w: World, start: int, events: seq<Event>)
    requires w.cycle.resting && w.cycle.deadline <= start + 60 * w.policy.restMinutes
    requires Forward(start, events) && RestsThroughout(w, events)
    ensures Run(w, events).cycle.deadline <= start + 60 * Run(w, events).policy.restMinutes
  {
    hide Next;
    if events != [] {
      var init := events[..|events| - 1];
      forall n | 0 <= n <= |init| ensures init[..n] == events[..n] {
      }
      forall n | 0 <= n < |init| ensures init[n] == events[n] {
      }
      assert Run(w, events[..|init|]).cycle.resting && Run(w, events[..|events|]).cycle.resting;
      assert events[..|init|] == init && events[..|events|] == events;
      DeadlineOnlyMovesWithThePolicy(w, start, init);
      DeadlineStep(Run(w, init), start, events[|init|]);
    }
  }

  /** Once a tick at `start` was saved and the clock runs forward, the first saved tick that comes
      the rest length later finds the rest over, or ends it; nothing lets it outlive that tick. */
  lemma RestEndsInTime(w: World, start: Tick, events: seq<Event>, last: Tick)
    requires Ticked(w.cycle, w.policy, start).resting
    requires var begun := World(w.policy, Ticked(w.cycle, w.policy, start));
             && Forward(start.now, events) && RestsThroughout(begun, events)
             && last.now >= start.now + 60 * Run(begun, events).policy.restMinutes
    ensures var r := Run(World(w.policy, Ticked(w.cycle, w.policy, start)), events);
            && Ticked(r.cycle, r.policy, last) == Reopened(last) && !BlocksGrants(r.policy, r.cycle, last.now)
            && !Ticked(r.cycle, r.policy, last).resting && Ticked(r.cycle, r.policy, last).accumulated == 0
  {
    var begun := World(w.policy, Ticked(w.cycle, w.policy, start));
    DeadlineOnlyMovesWithThePolicy(begun, start.now, events);
    assert Run(begun, events[..|events|]).cycle.resting;
    assert events[..|events|] == events;
  }

  // ---- What a rest is for ----

  /** The tick gets to read today's timer. */
  predicate Measures(w: World, t: Tick) {
    && !Leaves(Today(w.cycle, t.day), w.policy, t) && !w.cycle.resting && !t.dockBlocks
    && t.usage.Some? && (t.usage.value.timerEnabled || w.cycle.usageKnown)
  }

  /** How far the timer has moved on since the last reading; midnight sets it to zero. */
  function Increment(w: World, e: Event): nat {
    if e.Ticking? && e.saved && Measures(w, e.t) && w.cycle.usageKnown then
      var before := if w.cycle.day == e.t.day then w.cycle.lastUsed else 0;
      if e.t.usage.value.used > before then e.t.usage.value.used - before else 0
    else 0
  }

  /** The measured play since the count last stood at zero. */
  function Earned(w: World, events: seq<Event>): nat {
    if events == [] || Run(w, events).cycle.accumulated == 0 then 0
    else
      var init := events[..|events| - 1];
      Earned(w, init) + Increment(Run(w, init), events[|events| - 1])
  }

  lemma NextIsEarned(w: World, e: Event)
    ensures Next(w, e).cycle.accumulated <= w.cycle.accumulated + Increment(w, e)
    ensures !w.cycle.resting && Next(w, e).cycle.resting ==>
              && e.Ticking? && e.saved && Measures(w, e.t) && Next(w, e).policy == w.policy
              && Next(w, e).cycle.accumulated >= w.policy.playMinutes
  {
  }

  /** However the timer, the clock and the policy behave, no play is counted twice or made up ... */
  lemma {:induction false} OnlyPlayCounts(policy: Policy, day: nat, events: seq<Event>)
    ensures var w := World(policy, Fresh(day)); Run(w, events).cycle.accumulated <= Earned(w, events)
  {
    hide Next, Increment;
    if events != [] {
      OnlyPlayCounts(policy, day, events[..|events| - 1]);
      NextIsEarned(Run(World(policy, Fresh(day)), events[..|events| - 1]), events[|events| - 1]);
    }
  }

  /** ... so a rest begins only when a reading of the timer shows that the play time was played. */
  lemma RestIsEarned(policy: Policy, day: nat, events: seq<Event>, e: Event)
    requires var w := World(policy, Fresh(day));
             !Run(w, events).cycle.resting && Run(w, events + [e]).cycle.resting
    ensures var w := World(policy, Fresh(day));
            && e.Ticking? && e.saved && Measures(Run(w, events), e.t)
            && Earned(w, events + [e]) >= Run(w, events).policy.playMinutes
  {
    hide Next, Increment, Measures;
    OnlyPlayCounts(policy, day, events + [e]);
    assert (events + [e])[..|events|] == events;
    NextIsEarned(Run(World(policy, Fresh(day)), events), e);
  }
}
