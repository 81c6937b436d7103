/** How many minutes a grant really adds to today's limit
    (sysmodule/sysmodule_control.c, plan_grant and accumulate_today_limit). */
module GrantPlan {
  import opened Wrappers

  const MINUTE_NS: nat := 60_000_000_000
  const MAX_MINUTES: nat := 1440
  const INT64_MAX: nat := 0x7FFF_FFFF_FFFF_FFFF
  const TWO_16: nat := 0x1_0000
  const TWO_64: nat := 0x1_0000_0000_0000_0000

  type U16 = x: nat | x < 0x1_0000
  type U32 = x: nat | x < 0x1_0000_0000
  type U64 = x: nat | x < 0x1_0000_0000_0000_0000

  datatype DayRule = Unlimited | Limit(minutes: U16)

  /** What parental control reports about today. */
  datatype Status = Status(usageSupported: bool, usageAvailable: bool, usageDay: U16, usageNs: U64,
                           playedMinutesAvailable: bool, playedMinutes: U32, playedNsAvailable: bool, playedNs: U64)

  datatype Plan = Plan(ceiling: U16, target: U16, effective: U16, remainingAfter: int)

  /** Unsigned 64-bit arithmetic, written out. */
  function Wrap64(x: int): U64 {
    x % TWO_64
  }

  function Wrap16(x: int): U16 {
    x % TWO_16
  }

  /** The nanoseconds played today, or nothing when no trustworthy reading exists. */
  function Used(status: Status, day: U16): (used: Option<nat>)
    ensures used.Some? ==> used.value <= INT64_MAX
  {
    if status.usageSupported then
      if !status.usageAvailable || status.usageDay != day || status.usageNs > INT64_MAX then None
        else Some(status.usageNs)
    else if !status.playedMinutesAvailable then None
    else if status.playedNsAvailable then
      if status.playedNs > INT64_MAX then None else Some(status.playedNs)
    else if status.playedMinutes > INT64_MAX / MINUTE_NS then None
    else
      var ns := Wrap64(status.playedMinutes * MINUTE_NS);
      if ns > INT64_MAX then None else Some(ns)
  }

  /** Minutes begun, at most a day. */
  function Ceiling(used: nat): nat {
    var c := used / MINUTE_NS + (if used % MINUTE_NS != 0 then 1 else 0);
    if c > MAX_MINUTES then MAX_MINUTES else c
  }

  function Base(rule: DayRule, ceiling: nat): nat {
    var base := if rule.Limit? then rule.minutes else 0;
    if ceiling > base then ceiling else base
  }

  /** The plan with the source's integer widths; nothing when the reading is refused. */
  function PlanGrant(rule: DayRule, day: U16, status: Status, minutes: U16): Option<Plan> {
    match Used(status, day)
    case None => None
    case Some(used) =>
      var ceiling := Ceiling(used);
      var base := Base(rule, ceiling);
      var sum := Wrap64(base + minutes);
      var target := if sum > MAX_MINUTES then MAX_MINUTES else sum;
      var product := Wrap64(target * MINUTE_NS);
      Some(Plan(Wrap16(ceiling), Wrap16(target), Wrap16(Wrap64(target - base)),
                if product > used then Wrap64(product - used) / MINUTE_NS else 0))
  }

  /** The day's rules: an override for one day over whatever the other rules say. */
  class Rules {
    const standing: nat -> DayRule
    var overridden: Option<(nat, DayRule)>

    constructor (standing: nat -> DayRule)
      ensures this.standing == standing && overridden == None
    {
      this.standing, overridden := standing, None;
    }

    function Today(day: nat): DayRule
      reads this
    {
      if overridden.Some? && overridden.value.0 == day then overridden.value.1 else standing(day)
    }

    method AccumulateTodayLimit(day: U16, add: U16, played: U16) returns (total: U16)
      modifies this
      ensures total as int == Least(Base(old(Today(day)), played) + add, MAX_MINUTES)
      ensures overridden == Some((day, Limit(total)))
    {
      var active := Today(day);
      var base: U32 := if active.Limit? then active.minutes else 0;
      if played > base {
        base := played;
      }
      var sum: U32 := base + add;
      if sum > MAX_MINUTES {
        sum := MAX_MINUTES;
      }
      overridden := Some((day, Limit(sum)));
      total := sum;
    }

    /** The arithmetic of one award: refused without a trustworthy reading, and when nothing
        would be added. */
    method Award(day: U16, status: Status, minutes: U16) returns (effective: nat)
      requires WithinADay(Today(day))
      modifies this
      ensures WithinADay(Today(day)) && effective <= minutes
      ensures effective as int == match Used(status, day)
                           case None => 0
                           case Some(used) =>
                             var base := Base(old(Today(day)), Ceiling(used));
                             Least(base + minutes, MAX_MINUTES) - base
      ensures effective == 0 ==> overridden == old(overridden)
      ensures effective > 0 ==>
                && Used(status, day).Some?
                && Base(old(Today(day)), Ceiling(Used(status, day).value)) + effective <= MAX_MINUTES
                && Today(day) == Limit(Base(old(Today(day)), Ceiling(Used(status, day).value)) + effective)
    {
      hide PlanGrant, Used, Ceiling, Base;
      var plan := PlanGrant(Today(day), day, status, minutes);
      PlanNeedsAReading(Today(day), day, status, minutes);
      if plan.Some? {
        PlanIsExact(Today(day), day, status, minutes);
      }
      if plan.None? || plan.value.effective == 0 {
        return 0;
      }
      effective := plan.value.effective;
      var total := AccumulateTodayLimit(day, minutes, plan.value.ceiling);
    }
  }

  function Least(a: int, b: int): int {
    if a < b then a else b
  }

  /** The rules' own bound on a limit. */
  predicate WithinADay(rule: DayRule) {
    rule.Limit? ==> rule.minutes <= MAX_MINUTES
  }

  /** Nothing wraps, the award is never more than asked, the time left after it covers it,
      and what accumulate_today_limit will write is the planned target. */
  lemma PlanIsExact(rule: DayRule, day: U16, status: Status, minutes: U16)
    requires WithinADay(rule) && PlanGrant(rule, day, status, minutes).Some?
    ensures var used, plan := Used(status, day).value, PlanGrant(rule, day, status, minutes).value;
            && plan.ceiling as int == Ceiling(used)
            && plan.target as int == Least(Base(rule, Ceiling(used)) + minutes, MAX_MINUTES)
            && plan.effective as int == plan.target - Base(rule, Ceiling(used))
            && plan.effective <= minutes
            && plan.effective <= plan.remainingAfter <= INT64_MAX
            && (plan.remainingAfter > 0 ==> used + plan.remainingAfter * MINUTE_NS <= plan.target * MINUTE_NS)
            && plan.target * MINUTE_NS < used + (plan.remainingAfter + 1) * MINUTE_NS
  {
    hide Wrap64, Wrap16;
    var used := Used(status, day).value;
    var ceiling := Ceiling(used);
    var base := Base(rule, ceiling);
    var target := Least(base + minutes, MAX_MINUTES);
    Fits64(base + minutes);
    Fits64(target * MINUTE_NS);
    Fits64(target - base);
    Fits16(ceiling);
    Fits16(target);
    Fits16(target - base);
    Remaining(used, base, target);
  }

  lemma PlanNeedsAReading(rule: DayRule, day: U16, status: Status, minutes: U16)
    ensures PlanGrant(rule, day, status, minutes).Some? <==> Used(status, day).Some?
  {
  }

  lemma Fits64(x: int)
    requires 0 <= x < TWO_64
    ensures Wrap64(x) == x
  {
  }

  lemma Fits16(x: int)
    requires 0 <= x < TWO_16
    ensures Wrap16(x) == x
  {
  }

  /** The time left after the award covers it, because the base covers every minute begun. */
  lemma Remaining(used: nat, base: nat, target: nat)
    requires used <= INT64_MAX && Ceiling(used) <= base <= target <= MAX_MINUTES
    ensures var product := target * MINUTE_NS;
            && (product > used ==>
                  && Wrap64(product - used) == product - used
                  && target - base <= (product - used) / MINUTE_NS <= MAX_MINUTES)
            && (product <= used ==> target == base)
  {
    var product := target * MINUTE_NS;
    if product > used {
      Fits64(product - used);
      assert used <= base * MINUTE_NS;
      assert (target - base) * MINUTE_NS <= product - used;
    }
  }

  /** Beyond a day's length the subtraction wraps and the award would lower the limit: the plan
      keeps the limit, and awards no more than asked, exactly while the limit is within a day. */
  lemma AwardIsBoundedIff(rule: DayRule, day: U16, status: Status, minutes: U16)
    requires PlanGrant(rule, day, status, minutes).Some?
    ensures var plan := PlanGrant(rule, day, status, minutes).value;
            && (WithinADay(rule) <==> (rule.Limit? ==> rule.minutes <= plan.target))
            && (minutes <= MAX_MINUTES ==> (WithinADay(rule) <==> plan.effective <= minutes))
  {
    hide PlanGrant, Used, Ceiling;
    if WithinADay(rule) {
      PlanIsExact(rule, day, status, minutes);
    } else {
      PlanPastADay(rule, day, status, minutes);
    }
  }

  lemma WrapDown(d: int)
    requires 0 < d < TWO_16
    ensures Wrap16(Wrap64(-d)) == TWO_16 - d
  {
    assert Wrap64(-d) == TWO_64 - d;
    assert TWO_64 - d == 0xFFFF_FFFF_FFFF * TWO_16 + (TWO_16 - d);
  }

  /** What the plan is beyond a day's length: the target falls back to a day, and the award wraps. */
  lemma PlanPastADay(rule: DayRule, day: U16, status: Status, minutes: U16)
    requires rule.Limit? && rule.minutes > MAX_MINUTES && PlanGrant(rule, day, status, minutes).Some?
    ensures PlanGrant(rule, day, status, minutes).value.target as int == MAX_MINUTES
    ensures PlanGrant(rule, day, status, minutes).value.effective as int == TWO_16 - (rule.minutes - MAX_MINUTES)
  {
    hide Wrap64, Wrap16;
    var used := Used(status, day).value;
    assert Base(rule, Ceiling(used)) == rule.minutes;
    Fits64(rule.minutes + minutes);
    Fits16(MAX_MINUTES);
    WrapDown(rule.minutes - MAX_MINUTES);
  }

  /** A card whose override of today says 1441 minutes, nothing played: half an hour asked for is
      planned as 65535 minutes, to a limit one minute lower than before. */
  lemma AMinuteBeyondADay()
    ensures var status := Status(false, false, 0, 0, true, 0, false, 0);
            PlanGrant(Limit(1441), 0, status, 30) == Some(Plan(0, 1440, 65535, 1440))
  {
    PlanPastADay(Limit(1441), 0, Status(false, false, 0, 0, true, 0, false, 0), 30);
  }

  // ---- Any number of awards on one day ----

  datatype Request = Request(status: Status, minutes: U16)

  /** Whatever is asked, and whatever usage is reported at each request, the limit never falls
      and the minutes awarded that day add up to no more than the day had left above the limit
      or the minutes begun at the first award. */
  method AwardAll(rules: Rules, day: U16, requests: seq<Request>) returns (awarded: nat, ghost first: nat)
    requires WithinADay(rules.Today(day))
    modifies rules
    ensures WithinADay(rules.Today(day))
    ensures old(rules.Today(day)).Limit? ==>
              rules.Today(day).Limit? && old(rules.Today(day)).minutes <= rules.Today(day).minutes
    ensures awarded == 0 ==> rules.overridden == old(rules.overridden)
    ensures awarded > 0 ==>
              && first < |requests| && Used(requests[first].status, day).Some? && rules.Today(day).Limit?
              && Base(old(rules.Today(day)), Ceiling(Used(requests[first].status, day).value)) + awarded
                 <= rules.Today(day).minutes <= MAX_MINUTES
  {
    awarded, first := 0, 0;
    for n := 0 to |requests|
      invariant WithinADay(rules.Today(day))
      invariant old(rules.Today(day)).Limit? ==>
                  rules.Today(day).Limit? && old(rules.Today(day)).minutes <= rules.Today(day).minutes
      invariant awarded == 0 ==> rules.overridden == old(rules.overridden)
      invariant awarded > 0 ==>
                  && first < |requests| && Used(requests[first].status, day).Some? && rules.Today(day).Limit?
                  && Base(old(rules.Today(day)), Ceiling(Used(requests[first].status, day).value)) + awarded
                     <= rules.Today(day).minutes
    {
      var effective := rules.Award(day, requests[n].status, requests[n].minutes);
      if effective > 0 && awarded == 0 {
        first := n;
      }
      awarded := awarded + effective;
    }
  }
}
