/** Accounting of play away from the TV on consoles without a direct usage counter
    (sysmodule/sysmodule_dock.c). Whatever cannot be measured is charged or blocks. */
module DockUsage {
  import opened Wrappers

  const MINUTE_NS: nat := 60_000_000_000
  const DAY_NS: nat := 1440 * MINUTE_NS

  datatype Mode = Docked | Undocked | Unknown

  datatype Target = Limited | Unlimited | Blocked

  datatype Policy = Policy(forceDocked: bool, limitEnabled: bool, dailyMinutes: nat)

  /** One answer of parental control about the running timer. */
  datatype Reading = NoAnswer | Reading(limited: bool, blocked: bool, configured: Option<nat>, remaining: Option<int>)

  /** The dock fields of the saved runtime state. */
  datatype Books = Books(tracking: bool, day: nat, usageKnown: bool, baselineKnown: bool, intervalUnknown: bool,
                         lastUsed: nat, undocked: nat, lastMode: Mode,
                         enforced: Target, enforcedDay: nat, enforcedMinutes: nat, waivedDay: Option<nat>)

  /** What one sample has to go by: the day, today's base limit, the mode, whether it is the first
      sample since start-up, and two readings of the timer. */
  datatype Sample = Sample(day: nat, policy: Policy, baseMinutes: nat, mode: Mode, boot: bool, first: Reading,
                           second: Reading)

  predicate Enabled(policy: Policy) {
    policy.forceDocked || policy.limitEnabled
  }

  /** The time used, believed only of a running limit that is the expected one: together with what
      remains it makes up the expected allowance exactly. */
  function UsedNs(r: Reading, expected: nat): (used: Option<nat>)
    ensures used.Some? ==>
              && r.Reading? && r.limited && r.configured == Some(expected)
              && r.remaining.Some? && r.remaining.value >= 0
              && used.value + r.remaining.value == expected * MINUTE_NS
    ensures used.None? && r.Reading? && r.limited && r.configured == Some(expected) && r.remaining.Some? ==>
              !(0 <= r.remaining.value <= expected * MINUTE_NS)
  {
    match r
    case NoAnswer => None
    case Reading(limited, _, configured, remaining) =>
      if !limited || configured.None? || remaining.None? || remaining.value < 0 || configured.value != expected
        then None
      else if remaining.value > configured.value * MINUTE_NS then None
      else Some(configured.value * MINUTE_NS - remaining.value)
  }

  function Charge(undocked: nat, delta: nat): nat {
    if delta + undocked > DAY_NS then DAY_NS else undocked + delta
  }

  // ---- What a sample means ----

  datatype Verdict =
    | Off                    // the policy is off
    | Begun                  // the first sample ever: the day so far cannot be measured
    | Resumed                // a new day under yesterday's block: all of it will be charged
    | Hidden                 // a block of today hides the timer
    | Unreadable
    | Unproven               // nothing to measure from, for the rest of the day
    | Regressed              // the timer ran backwards
    | Measured(used: nat)

  predicate Rollover(b: Books, day: nat) {
    b.tracking && b.day != day
  }

  /** A new day starts from zero. */
  function NewDay(b: Books, day: nat): Books {
    if Rollover(b, day) then
      b.(day := day, undocked := 0, usageKnown := true, baselineKnown := false, intervalUnknown := false)
    else b
  }

  /** The measured time: against today's base limit, or at midnight still against yesterday's target. */
  function Timer(b: Books, s: Sample): Option<nat> {
    var used := UsedNs(s.first, s.baseMinutes);
    if used.None? && Rollover(b, s.day) && b.enforcedDay != s.day && b.enforced.Limited?
      then UsedNs(s.second, b.enforcedMinutes)
    else used
  }

  function Judge(b: Books, s: Sample): Verdict {
    if !Enabled(s.policy) then Off
    else if !b.tracking then Begun
    else if Rollover(b, s.day) && b.enforced.Blocked? then Resumed
    else if b.enforced.Blocked? && b.enforcedDay == s.day then Hidden
    else
      match Timer(b, s)
      case None => Unreadable
      case Some(used) =>
        if Rollover(b, s.day) then Measured(used)
        else if !b.usageKnown && !b.baselineKnown then Unproven
        else if b.baselineKnown && used < b.lastUsed then Regressed
        else Measured(used)
  }

  /** Where a measurement starts from; nothing when there is no earlier point today. */
  function From(b: Books, s: Sample): Option<nat> {
    if Rollover(b, s.day) then Some(0) else if b.baselineKnown then Some(b.lastUsed) else None
  }

  /** The interval counts as TV play only from a docked sample straight to a docked one. */
  predicate AtTheTv(b: Books, s: Sample) {
    !s.boot && b.lastMode.Docked? && s.mode.Docked? && (Rollover(b, s.day) || !b.intervalUnknown)
  }

  function Sampled(b: Books, s: Sample): Books {
    var n := NewDay(b, s.day);
    match Judge(b, s)
    case Off => b.(baselineKnown := false)
    case Begun => b.(tracking := true, day := s.day, usageKnown := false)
    case Resumed => n.(lastUsed := 0, baselineKnown := true, intervalUnknown := true)
    case Hidden => n
    case Unreadable => n.(intervalUnknown := true, usageKnown := false)
    case Unproven => n
    case Regressed => n.(usageKnown := false, baselineKnown := false)
    case Measured(used) =>
      var undocked := match From(b, s)
                      case None => n.undocked
                      case Some(start) => if AtTheTv(b, s) then n.undocked else Charge(n.undocked, used - start);
      n.(undocked := undocked, usageKnown := true, lastUsed := used, baselineKnown := true, lastMode := s.mode,
         intervalUnknown := false)
  }

  /** Restarting the measurement after another allowance was installed. */
  function Rebased(b: Books, baseMinutes: Option<nat>, mode: Mode, first: Reading, second: Reading): Books {
    if (!b.usageKnown && !b.baselineKnown) || baseMinutes.None? then b
    else
      match UsedNs(first, baseMinutes.value)
      case None =>
        if second.Reading? && second.blocked then b else b.(intervalUnknown := true, usageKnown := false)
      case Some(used) =>
        if b.baselineKnown && (!b.usageKnown || b.intervalUnknown) && used < b.lastUsed then b.(baselineKnown := false)
        else
          var owed := b.baselineKnown && (!b.usageKnown || b.intervalUnknown);
          b.(undocked := if owed then Charge(b.undocked, used - b.lastUsed) else b.undocked,
             usageKnown := b.usageKnown || owed, baselineKnown := true, lastUsed := used,
             intervalUnknown := false, lastMode := mode)
  }

  /** Does the dock policy hold play back now? */
  predicate Blocks(policy: Policy, b: Books, day: nat, mode: Mode) {
    && Enabled(policy) && b.waivedDay != Some(day) && !mode.Docked?
    && (|| mode.Unknown? || policy.forceDocked
        || (policy.limitEnabled && (b.day != day || !b.usageKnown || b.undocked >= policy.dailyMinutes * MINUTE_NS)))
  }

  /** Entering a reading into books that stand at the reading's day. */
  function Booked(n: Books, used: nat, mode: Mode, boot: bool): Books {
    if !n.usageKnown && !n.baselineKnown then n
    else if n.baselineKnown && used < n.lastUsed then n.(usageKnown := false, baselineKnown := false)
    else
      var away := boot || n.intervalUnknown || !n.lastMode.Docked? || !mode.Docked?;
      n.(undocked := if n.baselineKnown && away then Charge(n.undocked, used - n.lastUsed) else n.undocked,
         usageKnown := true, lastUsed := used, baselineKnown := true, lastMode := mode, intervalUnknown := false)
  }

  lemma BookedIsSampled(b: Books, s: Sample, n: Books, used: nat)
    requires Enabled(s.policy) && b.tracking && !(b.enforced.Blocked? && (Rollover(b, s.day) || b.enforcedDay == s.day))
    requires Timer(b, s) == Some(used)
    requires n == if Rollover(b, s.day) then NewDay(b, s.day).(lastUsed := 0, baselineKnown := true) else b
    ensures Sampled(b, s) == Booked(n, used, s.mode, s.boot)
  {
    hide UsedNs;
  }

  class Dock {
    var tracking: bool
    var day: nat
    var usageKnown: bool
    var baselineKnown: bool
    var intervalUnknown: bool
    var lastUsed: nat
    var undocked: nat
    var lastMode: Mode
    var enforced: Target
    var enforcedDay: nat
    var enforcedMinutes: nat
    var waivedDay: Option<nat>
    var bootSampled: bool

    function State(): Books
      reads this
    {
      Books(tracking, day, usageKnown, baselineKnown, intervalUnknown, lastUsed, undocked, lastMode,
            enforced, enforcedDay, enforcedMinutes, waivedDay)
    }

    /** Readings come from outside: `first` and `second` are the two answers this call may ask for. */
    method SampleUsage(policy: Policy, now: nat, baseMinutes: nat, mode: Mode, first: Reading, second: Reading)
      requires undocked <= DAY_NS
      modifies this
      ensures State() == Sampled(old(State()), Sample(now, policy, baseMinutes, mode, !old(bootSampled), first, second))
      ensures bootSampled && undocked <= DAY_NS
    {
      hide UsedNs, Booked, Charge;
      var bootGap := !bootSampled;
      bootSampled := true;
      if !Enabled(policy) {
        baselineKnown := false;
        return;
      }
      var rollover := StartDay(now);
      if !tracking {
        tracking, day, usageKnown := true, now, false;
        return;
      }
      if rollover && enforced.Blocked? {
        lastUsed, baselineKnown, intervalUnknown := 0, true, true;
        return;
      }
      if enforced.Blocked? && enforcedDay == now {
        return;
      }
      var used := UsedNs(first, baseMinutes);
      if used.None? && rollover && enforcedDay != now && enforced.Limited? {
        used := UsedNs(second, enforcedMinutes);
      }
      if used.None? {
        intervalUnknown, usageKnown := true, false;
        return;
      }
      if rollover {
        lastUsed, baselineKnown := 0, true;
      }
      BookedIsSampled(old(State()), Sample(now, policy, baseMinutes, mode, bootGap, first, second), State(),
                      used.value);
      Book(used.value, mode, bootGap);
    }

    method StartDay(now: nat) returns (rollover: bool)
      modifies this
      ensures rollover == Rollover(old(State()), now)
      ensures State() == NewDay(old(State()), now) && bootSampled == old(bootSampled)
    {
      rollover := false;
      if tracking && day != now {
        rollover := true;
        day, undocked := now, 0;
        usageKnown, baselineKnown, intervalUnknown := true, false, false;
      }
    }

    method Book(used: nat, mode: Mode, bootGap: bool)
      requires undocked <= DAY_NS
      modifies this
      ensures State() == Booked(old(State()), used, mode, bootGap)
      ensures bootSampled == old(bootSampled) && undocked <= DAY_NS
    {
      if !usageKnown && !baselineKnown {
        return;
      }
      if baselineKnown {
        if used < lastUsed {
          usageKnown, baselineKnown := false, false;
          return;
        }
        if bootGap || intervalUnknown || !lastMode.Docked? || !mode.Docked? {
          var delta := used - lastUsed;
          undocked := if delta > DAY_NS - undocked then DAY_NS else undocked + delta;
        }
        usageKnown := true;
      }
      lastUsed, baselineKnown, lastMode, intervalUnknown := used, true, mode, false;
    }

    method Rebaseline(baseMinutes: Option<nat>, mode: Mode, first: Reading, second: Reading)
      requires undocked <= DAY_NS
      modifies this
      ensures State() == Rebased(old(State()), baseMinutes, mode, first, second)
      ensures bootSampled == old(bootSampled) && undocked <= DAY_NS
    {
      hide UsedNs;
      var continuity := baselineKnown;
      if !usageKnown && !continuity {
        return;
      }
      if baseMinutes.None? {
        return;
      }
      var used := UsedNs(first, baseMinutes.value);
      if used.None? {
        if second.Reading? && second.blocked {
          return;
        }
        intervalUnknown, usageKnown := true, false;
        return;
      }
      if continuity && (!usageKnown || intervalUnknown) {
        if used.value < lastUsed {
          baselineKnown := false;
          return;
        }
        var delta := used.value - lastUsed;
        undocked := if delta > DAY_NS - undocked then DAY_NS else undocked + delta;
        usageKnown := true;
      }
      baselineKnown, lastUsed, intervalUnknown, lastMode := true, used.value, false, mode;
    }

    /** The state part of a policy change: whatever is switched on or off, no charge is dropped,
        and once tracking has started nothing changes at all. */
    method SetPolicy(next: Policy, now: nat)
      modifies this
      ensures State() == PolicySet(old(State()), next, now) && bootSampled == old(bootSampled)
      ensures undocked == old(undocked) && baselineKnown == old(baselineKnown) && waivedDay == old(waivedDay)
      ensures old(tracking) ==> State() == old(State())
      ensures tracking <==> old(tracking) || Enabled(next)
      ensures !old(tracking) && tracking ==> day == now && usageKnown
    {
      if Enabled(next) && !tracking {
        tracking, day, usageKnown := true, now, true;
      }
    }
  }

  function PolicySet(b: Books, next: Policy, now: nat): Books {
    if Enabled(next) && !b.tracking then b.(tracking := true, day := now, usageKnown := true) else b
  }

  /** Play before the policy was first switched on is never charged: the first reading of that day
      only sets the starting point, and usage is known from it on. */
  lemma FirstReadingIsFree(b: Books, policy: Policy, s: Sample)
    requires !b.tracking && !b.baselineKnown && Enabled(policy) && Enabled(s.policy)
    requires Judge(PolicySet(b, policy, s.day), s).Measured?
    ensures var r := Sampled(PolicySet(b, policy, s.day), s);
            r.undocked == b.undocked && r.usageKnown && Some(r.lastUsed) == UsedNs(s.first, s.baseMinutes)
  {
    hide UsedNs;
  }

  // ---- Runs ----

  datatype Event =
    | Sampling(s: Sample)
    | Rebasing(baseMinutes: Option<nat>, mode: Mode, first: Reading, second: Reading)
    | Setting(policy: Policy, now: nat)
    | Waiving(now: nat)
    | Enforcing(target: Target, now: nat, minutes: nat)

  function After(b: Books, e: Event): Books {
    match e
    case Sampling(s) => Sampled(b, s)
    case Rebasing(base, mode, first, second) => Rebased(b, base, mode, first, second)
    case Setting(policy, now) => PolicySet(b, policy, now)
    case Waiving(now) => b.(waivedDay := Some(now))
    case Enforcing(target, now, minutes) => b.(enforced := target, enforcedDay := now, enforcedMinutes := minutes)
  }

  function Run(b: Books, events: seq<Event>): Books {
    if events == [] then b else After(Run(b, events[..|events| - 1]), events[|events| - 1])
  }

  predicate OnDay(e: Event, day: nat) {
    match e
    case Sampling(s) => s.day == day
    case Setting(_, now) => now == day
    case Waiving(now) => now == day
    case Enforcing(_, now, _) => now == day
    case Rebasing(_, _, _, _) => true
  }

  /** Nothing in the run happens on another day. */
  predicate Within(events: seq<Event>, day: nat) {
    forall n | 0 <= n < |events| :: OnDay(events[n], day)
  }

  /** The usage of a day can no longer be known. */
  predicate Lost(b: Books, day: nat) {
    b.tracking && b.day == day && !b.usageKnown && !b.baselineKnown
  }

  /** Once the timer has run backwards, nothing that happens that day makes the usage known again. */
  lemma {:induction false} RegressionSticks(b: Books, s: Sample, events: seq<Event>)
    requires Judge(b, s).Regressed? && Within(events, s.day)
    ensures Lost(Run(Sampled(b, s), events), s.day)
  {
    if events != [] {
      RegressionSticks(b, s, events[..|events| - 1]);
      assert OnDay(events[|events| - 1], s.day);
    }
  }

  /** ... so a limit on play away from the TV holds all of it back, waiver aside. */
  lemma RegressionBlocks(b: Books, s: Sample, events: seq<Event>, policy: Policy, mode: Mode)
    requires Judge(b, s).Regressed? && Within(events, s.day) && policy.limitEnabled && !mode.Docked?
    ensures Blocks(policy, Run(Sampled(b, s), events), s.day, mode) <==>
              Run(Sampled(b, s), events).waivedDay != Some(s.day)
  {
    RegressionSticks(b, s, events);
  }

  /** Within a day the charged time never shrinks, whatever is switched on or off. */
  lemma {:induction false} ChargesStay(b: Books, events: seq<Event>, day: nat)
    requires b.tracking && b.day == day && Within(events, day) && b.undocked <= DAY_NS
    ensures var r := Run(b, events); r.tracking && r.day == day && b.undocked <= r.undocked <= DAY_NS
  {
    if events != [] {
      ChargesStay(b, events[..|events| - 1], day);
      assert OnDay(events[|events| - 1], day);
    }
  }

  // ---- Conservation ----

  /** Time at the TV during one event. */
  function TvTime(b: Books, e: Event): nat {
    if e.Sampling? && Judge(b, e.s).Measured? && From(b, e.s).Some? && AtTheTv(b, e.s)
      && From(b, e.s).value <= Judge(b, e.s).used
    then Judge(b, e.s).used - From(b, e.s).value else 0
  }

  /** A measurement is outstanding: the last interval could not be read, and its start is known. */
  predicate Owes(b: Books) {
    b.baselineKnown && (!b.usageKnown || b.intervalUnknown)
  }

  /** The timer a rebaseline reads, unless it leaves the books alone. */
  function RebasedTo(b: Books, e: Event): Option<nat>
    requires e.Rebasing?
  {
    if (!b.usageKnown && !b.baselineKnown) || e.baseMinutes.None? then None else UsedNs(e.first, e.baseMinutes.value)
  }

  /** Time that counts as play away from the TV. */
  function Away(b: Books, e: Event): nat {
    match e
    case Sampling(s) =>
      if Judge(b, s).Measured? && From(b, s).Some? && !AtTheTv(b, s) && From(b, s).value <= Judge(b, s).used
      then Judge(b, s).used - From(b, s).value else 0
    case Rebasing(_, _, _, _) =>
      var used := RebasedTo(b, e);
      if used.Some? && Owes(b) && b.lastUsed <= used.value then used.value - b.lastUsed else 0
    case _ => 0
  }

  /** How far the timer has moved unwatched: a rebaseline that owes nothing follows another allowance,
      and the first sample behind a dropped starting point begins anew. It may have moved back. */
  function Skipped(b: Books, e: Event): int {
    match e
    case Sampling(s) =>
      if Judge(b, s).Measured? && From(b, s).None? then Judge(b, s).used - b.lastUsed else 0
    case Rebasing(_, _, _, _) =>
      var used := RebasedTo(b, e);
      if used.Some? && !Owes(b) then used.value - b.lastUsed else 0
    case _ => 0
  }

  /** What the saturation at a full day cuts off. */
  function CutOff(b: Books, e: Event): nat {
    var before := if e.Sampling? then NewDay(b, e.s.day).undocked else b.undocked;
    if before + Away(b, e) > DAY_NS then before + Away(b, e) - DAY_NS else 0
  }

  /** Where the time of an event goes. */
  datatype Part = AtTv | Charged | Unwatched | BeyondADay

  function Amount(part: Part, b: Books, e: Event): int {
    match part
    case AtTv => TvTime(b, e)
    case Charged => Away(b, e)
    case Unwatched => Skipped(b, e)
    case BeyondADay => CutOff(b, e)
  }

  function Total(part: Part, b: Books, events: seq<Event>): int {
    if events == [] then 0
    else
      var init := events[..|events| - 1];
      Total(part, b, init) + Amount(part, Run(b, init), events[|events| - 1])
  }

  ghost predicate Conserves(b: Books, e: Event) {
    var r := After(b, e);
    && r.tracking && r.day == b.day && r.undocked <= DAY_NS
    && r.undocked + CutOff(b, e) - b.undocked == Away(b, e)
    && Away(b, e) + TvTime(b, e) + Skipped(b, e) == r.lastUsed - b.lastUsed
  }

  lemma SampleConserves(b: Books, s: Sample)
    requires b.tracking && b.day == s.day && b.undocked <= DAY_NS
    ensures Conserves(b, Sampling(s))
  {
    hide Timer;
  }

  lemma RebaseConserves(b: Books, e: Event)
    requires e.Rebasing? && b.tracking && b.undocked <= DAY_NS
    ensures Conserves(b, e)
  {
    hide UsedNs;
  }

  lemma StepConserves(b: Books, e: Event)
    requires b.tracking && OnDay(e, b.day) && b.undocked <= DAY_NS
    ensures Conserves(b, e)
  {
    hide Sampled, Rebased, Judge;
    match e
    case Sampling(s) => SampleConserves(b, s);
    case Rebasing(_, _, _, _) => RebaseConserves(b, e);
    case _ =>
  }

  /** Whatever happens on a day, in whatever order: the timer has moved by what is charged, what was
      cut off at a full day, what was spent at the TV and what was skipped, and by nothing else. */
  lemma {:induction false} TimeIsConserved(b: Books, events: seq<Event>)
    requires b.tracking && Within(events, b.day) && b.undocked <= DAY_NS
    ensures var r := Run(b, events);
            && r.tracking && r.day == b.day && r.undocked <= DAY_NS
            && r.undocked + Total(BeyondADay, b, events) - b.undocked == Total(Charged, b, events)
            && Total(Charged, b, events) + Total(AtTv, b, events) + Total(Unwatched, b, events)
               == r.lastUsed - b.lastUsed
  {
    hide After, CutOff, Away, TvTime, Skipped;
    if events != [] {
      var init, last := events[..|events| - 1], events[|events| - 1];
      TimeIsConserved(b, init);
      assert OnDay(events[|init|], b.day);
      StepConserves(Run(b, init), last);
    }
  }

  /** A new day that found its starting point. */
  predicate Opens(b: Books, s: Sample) {
    Rollover(b, s.day) && (Judge(b, s).Resumed? || Judge(b, s).Measured?)
  }

  lemma DawnIsConserved(b: Books, s: Sample)
    requires Opens(b, s)
    ensures var r, e := Sampled(b, s), Sampling(s);
            && r.tracking && r.day == s.day && r.undocked <= DAY_NS
            && r.undocked + CutOff(b, e) + TvTime(b, e) == r.lastUsed
  {
    hide UsedNs;
  }

  /** Every nanosecond the timer counted since the day opened was spent at the TV, is charged exactly
      once, or was skipped: samples, rebaselines, policy changes, waivers, regressions and all. */
  lemma EveryMinuteIsAccountedFor(b: Books, s: Sample, events: seq<Event>)
    requires Opens(b, s) && Within(events, s.day)
    ensures var dawn, e := Sampled(b, s), Sampling(s);
            var r := Run(dawn, events);
            r.undocked + CutOff(b, e) + Total(BeyondADay, dawn, events)
            + TvTime(b, e) + Total(AtTv, dawn, events) + Total(Unwatched, dawn, events) == r.lastUsed
  {
    hide Sampled, Judge, After, Opens, CutOff, Away, TvTime, Skipped;
    DawnIsConserved(b, s);
    TimeIsConserved(Sampled(b, s), events);
  }

  /** Limits of at most a day. */
  predicate WithinADay(e: Event) {
    && (e.Sampling? ==> e.s.baseMinutes <= 1440)
    && (e.Rebasing? && e.baseMinutes.Some? ==> e.baseMinutes.value <= 1440)
  }

  ghost predicate NeverRegresses(b: Books, events: seq<Event>) {
    forall n | 0 <= n < |events| :: events[n].Sampling? ==> !Judge(Run(b, events[..n]), events[n].s).Regressed?
  }

  /** Without rebaselines, with the policy on and no regression nothing is skipped. */
  lemma {:induction false} NothingIsSkipped(b: Books, events: seq<Event>)
    requires b.tracking && b.baselineKnown && Within(events, b.day) && NeverRegresses(b, events)
    requires forall e <- events :: !e.Rebasing? && (e.Sampling? ==> Enabled(e.s.policy))
    ensures var r := Run(b, events); Total(Unwatched, b, events) == 0 && r.tracking && r.day == b.day && r.baselineKnown
  {
    if events != [] {
      hide Timer;
      var init := events[..|events| - 1];
      forall n | 0 <= n < |init| ensures init[..n] == events[..n] && init[n] == events[n] {
      }
      NothingIsSkipped(b, init);
      assert OnDay(events[|init|], b.day) && events[..|init|] == init;
    }
  }

  ghost predicate NeverBack(b: Books, events: seq<Event>) {
    forall n | 0 <= n < |events| :: Skipped(Run(b, events[..n]), events[n]) >= 0
  }

  lemma StepKeepsRoom(b: Books, e: Event)
    requires b.tracking && OnDay(e, b.day) && WithinADay(e) && b.undocked <= b.lastUsed <= DAY_NS
    requires Skipped(b, e) >= 0
    ensures CutOff(b, e) == 0 && After(b, e).undocked <= After(b, e).lastUsed <= DAY_NS
  {
  }

  /** With limits of at most a day, and a timer that no new allowance moves back, the saturation cuts
      nothing off. */
  lemma {:induction false} NothingIsCutOff(b: Books, events: seq<Event>)
    requires b.tracking && Within(events, b.day) && b.undocked <= b.lastUsed <= DAY_NS
    requires (forall e <- events :: WithinADay(e)) && NeverBack(b, events)
    ensures var r := Run(b, events);
            Total(BeyondADay, b, events) == 0 && r.tracking && r.day == b.day && r.undocked <= r.lastUsed <= DAY_NS
  {
    hide After, CutOff, Skipped, WithinADay;
    if events != [] {
      var init, last := events[..|events| - 1], events[|events| - 1];
      forall n | 0 <= n < |init| ensures init[..n] == events[..n] && init[n] == events[n] {
      }
      NothingIsCutOff(b, init);
      TimeIsConserved(b, init);
      assert OnDay(events[|init|], b.day) && events[..|init|] == init;
      StepConserves(Run(b, init), last);
      StepKeepsRoom(Run(b, init), last);
    }
  }

  /** Opening a day under such limits leaves room as well. */
  lemma DawnKeepsRoom(b: Books, s: Sample)
    requires Opens(b, s) && s.baseMinutes <= 1440 && b.enforcedMinutes <= 1440
    ensures CutOff(b, Sampling(s)) == 0 && Sampled(b, s).undocked <= Sampled(b, s).lastUsed <= DAY_NS
  {
  }

  /** Samples that found the timer unreadable or hidden. */
  ghost predicate Blind(b: Books, events: seq<Event>) {
    forall n | 0 <= n < |events| ::
      && events[n].Sampling?
      && (Judge(Run(b, events[..n]), events[n].s).Unreadable? || Judge(Run(b, events[..n]), events[n].s).Hidden?)
  }

  /** However long the timer could not be read, the next reading charges the whole stretch, TV or not. */
  lemma {:induction false} BlindStretchIsChargedInFull(b: Books, s: Sample, events: seq<Event>, next: Sample)
    requires b.tracking && b.baselineKnown && b.undocked <= DAY_NS && s.day == b.day == next.day
    requires Judge(b, s).Unreadable? && Within(events, b.day) && Blind(Sampled(b, s), events)
    requires Judge(Run(Sampled(b, s), events), next).Measured?
    ensures var r := Run(Sampled(b, s), events);
            var used := Judge(r, next).used;
            b.lastUsed <= used && Sampled(r, next).undocked == Charge(b.undocked, used - b.lastUsed)
  {
    BlindKeepsBooks(b, s, events);
  }

  lemma BlindStep(r: Books, s: Sample)
    requires r.tracking && r.day == s.day && (Judge(r, s).Unreadable? || Judge(r, s).Hidden?)
    ensures Sampled(r, s) == if Judge(r, s).Hidden? then r else r.(intervalUnknown := true, usageKnown := false)
  {
  }

  lemma {:induction false} BlindKeepsBooks(b: Books, s: Sample, events: seq<Event>)
    requires b.tracking && b.baselineKnown && s.day == b.day
    requires Judge(b, s).Unreadable? && Within(events, b.day) && Blind(Sampled(b, s), events)
    ensures var r := Run(Sampled(b, s), events);
            r.tracking && r.day == b.day && r.baselineKnown && r.intervalUnknown && r.lastUsed == b.lastUsed
              && r.undocked == b.undocked
  {
    hide Sampled, Judge;
    BlindStep(b, s);
    if events != [] {
      var init, last := events[..|events| - 1], events[|events| - 1];
      forall n | 0 <= n < |init| ensures init[..n] == events[..n] && init[n] == events[n] {
      }
      BlindKeepsBooks(b, s, init);
      assert OnDay(events[|init|], b.day) && events[..|init|] == init;
      BlindStep(Run(Sampled(b, s), init), last.s);
    }
  }
}
