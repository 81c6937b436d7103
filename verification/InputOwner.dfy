/** The overlay's input lease: a writer renews two slot files in turn, a reader in another
    process must not let input through while the lease runs (companion/input_owner.c). */
module InputOwner {
  import opened Wrappers

  const LEASE: nat := 30_000_000_000
  const RENEW: nat := 10_000_000_000
  const POLL: nat := 250_000_000
  const MAX_U64: nat := 0xFFFF_FFFF_FFFF_FFFF

  type U64 = x: nat | x <= MAX_U64

  /** The owner id is the writer's instance and the time of acquisition, printed. */
  datatype Owner = Owner(instance: nat, epoch: nat)

  datatype Lease = Lease(release: string, boot: string, owner: Owner, issued: nat, expires: nat, visible: bool)

  /** A slot file that is present. */
  datatype Text = LeaseText(lease: Lease) | Junk(bytes: string)

  /** The runtime file: which release and boot the backend announced. */
  datatype RuntimeFile = NoRuntime | BadRuntime | RuntimeOf(release: string, boot: string)

  datatype Binding = UnknownBinding | AbsentBinding | OtherBinding | Mine(boot: string)

  /** The result of looking at one slot. */
  datatype Found = Unreadable | Absent | Present(lease: Lease)

  type Slots = map<(string, nat), Text>

  /** The slots as another process can have met them, and when. */
  datatype Moment = Moment(slots: Slots, at: nat)

  /** A record of the given identity that the reader and the writer accept. */
  predicate Valid(l: Lease, release: string, boot: string) {
    && l.release == release && l.boot == boot
    && 0 < l.issued < l.expires <= MAX_U64 && l.expires - l.issued <= LEASE
  }

  function Look(slots: Slots, release: string, boot: string, k: nat): Found {
    if (boot, k) !in slots then Absent
    else
      match slots[(boot, k)]
      case Junk(_) => Unreadable
      case LeaseText(l) => if Valid(l, release, boot) then Present(l) else Unreadable
  }

  function LookRuntime(file: RuntimeFile, release: string): Binding {
    match file
    case NoRuntime => AbsentBinding
    case BadRuntime => UnknownBinding
    case RuntimeOf(r, b) => if r == release then Mine(b) else OtherBinding
  }

  /** The two slots of `boot` hold visible leases of `owner`; the one in slot `p` runs until `until`. */
  predicate Held(slots: Slots, release: string, boot: string, owner: Owner, p: nat, until: nat) {
    && p < 2
    && Owned(slots, release, boot, owner, 0) && Owned(slots, release, boot, owner, 1)
    && Look(slots, release, boot, p).lease.expires == until
  }

  predicate Owned(slots: Slots, release: string, boot: string, owner: Owner, k: nat) {
    var f := Look(slots, release, boot, k);
    f.Present? && f.lease.owner == owner && f.lease.visible
  }

  /** Slot `k` of `boot` holds a visible lease that runs until `until`. */
  predicate Covers(slots: Slots, release: string, boot: string, k: nat, until: nat) {
    var f := Look(slots, release, boot, k);
    f.Present? && f.lease.visible && f.lease.expires == until
  }

  /** Nobody's visible lease is running on `boot` at `now`, as far as both slots can be read. */
  predicate Free(slots: Slots, release: string, boot: string, now: nat) {
    forall k | 0 <= k < 2 ::
      var f := Look(slots, release, boot, k);
      f == Absent || (f.Present? && f.lease.issued <= now && (f.lease.visible ==> f.lease.expires <= now))
  }

  lemma BothAreHeld(slots: Slots, release: string, boot: string, owner: Owner, now: nat)
    requires 0 < now <= MAX_U64 - LEASE
    ensures var text := LeaseText(Lease(release, boot, owner, now, now + LEASE, true));
            Held(slots[(boot, 0) := text][(boot, 1) := text], release, boot, owner, 1, now + LEASE)
  {
  }

  ghost predicate SameOn(before: Slots, after: Slots, boot: string) {
    forall k: nat ::
      ((boot, k) in before <==> (boot, k) in after) && ((boot, k) in before ==> before[(boot, k)] == after[(boot, k)])
  }

  /** Only slots of `boot` differ. */
  ghost predicate OnlyOn(before: Slots, after: Slots, boot: string) {
    forall b: string :: b != boot ==> SameOn(before, after, b)
  }

  /** A lease pair of any other instance that is still running at `now` is untouched. */
  ghost predicate KeepsOthers(before: Slots, after: Slots, instance: nat, now: nat) {
    forall release, boot, owner: Owner, p: nat, until: nat ::
      Held(before, release, boot, owner, p, until) && owner.instance != instance && now < until ==>
        SameOn(before, after, boot)
  }

  /** Nobody but `instance` has a running lease pair on `boot`. */
  ghost predicate Unclaimed(slots: Slots, boot: string, instance: nat, now: nat) {
    forall release, owner: Owner, p: nat, until: nat ::
      Held(slots, release, boot, owner, p, until) ==> owner.instance == instance || until <= now
  }

  lemma FreeIsUnclaimed(slots: Slots, release: string, boot: string, instance: nat, now: nat)
    requires Free(slots, release, boot, now)
    ensures Unclaimed(slots, boot, instance, now)
  {
    forall r, owner: Owner, p: nat, until: nat | Held(slots, r, boot, owner, p, until) ensures until <= now {
      assert Look(slots, release, boot, p) != Absent;
    }
  }

  lemma OwnSlotIsUnclaimed(slots: Slots, release: string, boot: string, owner: Owner, k: nat, now: nat)
    requires k < 2
    requires var f := Look(slots, release, boot, k); f == Absent || (f.Present? && f.lease.owner == owner)
    ensures Unclaimed(slots, boot, owner.instance, now)
  {
    forall r, other: Owner, p: nat, until: nat | Held(slots, r, boot, other, p, until) ensures other == owner {
      assert Owned(slots, r, boot, other, k);
    }
  }

  lemma UnclaimedKeepsOthers(before: Slots, after: Slots, boot: string, instance: nat, now: nat)
    requires OnlyOn(before, after, boot) && Unclaimed(before, boot, instance, now)
    ensures KeepsOthers(before, after, instance, now)
  {
  }

  ghost predicate Grown(before: seq<Moment>, after: seq<Moment>) {
    |before| <= |after| && after[..|before|] == before
  }

  /** From `before` on, at no moment a running lease pair of another instance was touched. */
  ghost predicate Polite(before: Slots, after: Slots, trail: seq<Moment>, grown: seq<Moment>, instance: nat, now: nat) {
    && Grown(trail, grown)
    && KeepsOthers(before, after, instance, now)
    && forall n :: |trail| <= n < |grown| ==> grown[n].at == now && KeepsOthers(before, grown[n].slots, instance, now)
  }

  /** From `before` on, only slots of `boot` were touched. */
  ghost predicate Local(before: Slots, after: Slots, trail: seq<Moment>, grown: seq<Moment>, boot: string, now: nat) {
    && Grown(trail, grown)
    && OnlyOn(before, after, boot)
    && forall n :: |trail| <= n < |grown| ==> grown[n].at == now && OnlyOn(before, grown[n].slots, boot)
  }

  lemma OnlyThrough(a: Slots, b: Slots, c: Slots, boot: string)
    requires OnlyOn(a, b, boot) && OnlyOn(b, c, boot)
    ensures OnlyOn(a, c, boot)
  {
    forall other: string | other != boot ensures SameOn(a, c, other) {
      assert SameOn(a, b, other) && SameOn(b, c, other);
    }
  }

  lemma LocalThroughout(a: Slots, b: Slots, c: Slots, ta: seq<Moment>, tb: seq<Moment>, tc: seq<Moment>,
                        boot: string, now: nat)
    requires Local(a, b, ta, tb, boot, now) && Local(b, c, tb, tc, boot, now)
    ensures Local(a, c, ta, tc, boot, now)
  {
    OnlyThrough(a, b, c, boot);
    forall n | |ta| <= n < |tc| ensures tc[n].at == now && OnlyOn(a, tc[n].slots, boot) {
      if n < |tb| {
        assert tc[n] == tc[..|tb|][n];
      } else {
        OnlyThrough(a, b, tc[n].slots, boot);
      }
    }
    assert tc[..|ta|] == tc[..|tb|][..|ta|];
  }

  lemma KeptThrough(a: Slots, b: Slots, c: Slots, instance: nat, now: nat)
    requires KeepsOthers(a, b, instance, now) && KeepsOthers(b, c, instance, now)
    ensures KeepsOthers(a, c, instance, now)
  {
    forall r, boot, owner: Owner, p: nat, until: nat
      | Held(a, r, boot, owner, p, until) && owner.instance != instance && now < until
      ensures SameOn(a, c, boot)
    {
      assert SameOn(a, b, boot);
      assert Held(b, r, boot, owner, p, until);
    }
  }

  lemma PoliteThroughout(a: Slots, b: Slots, c: Slots, ta: seq<Moment>, tb: seq<Moment>, tc: seq<Moment>,
                         instance: nat, now: nat)
    requires Polite(a, b, ta, tb, instance, now) && Polite(b, c, tb, tc, instance, now)
    ensures Polite(a, c, ta, tc, instance, now)
  {
    KeptThrough(a, b, c, instance, now);
    forall n | |ta| <= n < |tc| ensures tc[n].at == now && KeepsOthers(a, tc[n].slots, instance, now) {
      if n < |tb| {
        assert tc[n] == tc[..|tb|][n];
      } else {
        KeptThrough(a, b, tc[n].slots, instance, now);
      }
    }
    assert tc[..|ta|] == tc[..|tb|][..|ta|];
  }

  lemma PoliteNothing(slots: Slots, trail: seq<Moment>, instance: nat, now: nat)
    ensures Polite(slots, slots, trail, trail, instance, now)
  {
  }

  /** Touching only `boot`, on which nobody else has a running pair, is polite. */
  lemma UnclaimedIsPolite(before: Slots, after: Slots, trail: seq<Moment>, grown: seq<Moment>,
                          boot: string, instance: nat, now: nat)
    requires Unclaimed(before, boot, instance, now) && Local(before, after, trail, grown, boot, now)
    ensures Polite(before, after, trail, grown, instance, now)
  {
    UnclaimedKeepsOthers(before, after, boot, instance, now);
    forall n | |trail| <= n < |grown| ensures KeepsOthers(before, grown[n].slots, instance, now) {
      UnclaimedKeepsOthers(before, grown[n].slots, boot, instance, now);
    }
  }

  // ---- What one call does to the pair of slots ----

  /** Whose turn it is on a boot: the slot to be renewed next, and when that is due. */
  datatype Turn = Turn(release: string, boot: string, slot: nat, due: nat, expires: nat)

  function At(slots: Slots, turn: Turn, k: nat): Found {
    Look(slots, turn.release, turn.boot, k)
  }

  predicate SamePair(a: Slots, b: Slots, turn: Turn) {
    At(a, turn, 0) == At(b, turn, 0) && At(a, turn, 1) == At(b, turn, 1)
  }

  /** A visible lease of full length from `now` on. */
  predicate IsNew(f: Found, now: nat) {
    f.Present? && f.lease.visible && f.lease.issued == now && f.lease.expires == now + LEASE
  }

  /** In the course of a renewal the slot is missing or new, and the other one as before. */
  predicate Renewing(before: Slots, now: Slots, turn: Turn, at: nat)
    requires turn.slot < 2
  {
    && turn.due <= at && At(now, turn, 1 - turn.slot) == At(before, turn, 1 - turn.slot)
    && (At(now, turn, turn.slot) == Absent || IsNew(At(now, turn, turn.slot), at))
  }

  /** At every moment of the call the pair is as before, or its slot is being renewed. */
  ghost predicate Turning(turn: Turn, before: Slots, trail: seq<Moment>, grown: seq<Moment>, at: nat)
    requires turn.slot < 2
  {
    && Grown(trail, grown)
    && forall n :: |trail| <= n < |grown| ==>
         grown[n].at == at && (SamePair(before, grown[n].slots, turn) || Renewing(before, grown[n].slots, turn, at))
  }

  /** After the call it is still the same slot's turn, or the slot has been renewed. */
  predicate Turned(turn: Turn, before: Slots, next: Turn, after: Slots, at: nat)
    requires turn.slot < 2
  {
    || (next == turn && SamePair(before, after, turn))
    || (next == turn.(slot := 1 - turn.slot, due := at + RENEW, expires := at + LEASE)
        && Renewing(before, after, turn, at) && IsNew(At(after, turn, turn.slot), at))
  }

  /** The slot shows the lease at every moment of the call and behind it. */
  ghost predicate CoversAll(after: Slots, trail: seq<Moment>, grown: seq<Moment>, release: string, boot: string, k: nat,
                            until: nat) {
    && Covers(after, release, boot, k, until)
    && forall n :: |trail| <= n < |grown| ==> Covers(grown[n].slots, release, boot, k, until)
  }

  lemma NothingTurned(turn: Turn, slots: Slots, trail: seq<Moment>, at: nat)
    requires turn.slot < 2
    ensures Turning(turn, slots, trail, trail, at) && Turned(turn, slots, turn, slots, at)
    ensures Covers(slots, turn.release, turn.boot, 1 - turn.slot, turn.expires) ==>
              CoversAll(slots, trail, trail, turn.release, turn.boot, 1 - turn.slot, turn.expires)
  {
  }

  lemma TurningCovers(turn: Turn, before: Slots, after: Slots, trail: seq<Moment>, grown: seq<Moment>, at: nat)
    requires turn.slot < 2 && Turning(turn, before, trail, grown, at)
    requires At(after, turn, 1 - turn.slot) == At(before, turn, 1 - turn.slot)
    requires Covers(before, turn.release, turn.boot, 1 - turn.slot, turn.expires)
    ensures CoversAll(after, trail, grown, turn.release, turn.boot, 1 - turn.slot, turn.expires)
  {
  }

  class Store {
    var runtime: RuntimeFile
    var slots: Slots
    /** Every state of the slots that another process can have met, oldest first. */
    ghost var trail: seq<Moment>
    /** Some storage step has failed. */
    ghost var faulted: bool

    /** Reading may fail at any time. */
    method Read(release: string, boot: string, k: nat) returns (f: Found)
      modifies this`faulted
      ensures f == Unreadable || f == Look(slots, release, boot, k)
      ensures (old(faulted) ==> faulted) && (!faulted ==> f == Look(slots, release, boot, k))
    {
      if * {
        f, faulted := Unreadable, true;
      } else {
        f := Look(slots, release, boot, k);
      }
    }

    method ReadRuntime(release: string) returns (b: Binding)
      modifies this`faulted
      ensures b == UnknownBinding || b == LookRuntime(runtime, release)
      ensures (old(faulted) ==> faulted) && (!faulted ==> b == LookRuntime(runtime, release))
    {
      if * {
        b, faulted := UnknownBinding, true;
      } else {
        b := LookRuntime(runtime, release);
      }
    }

    /** Replaces one slot; the adapter removes the old file before it renames the new one,
        so readers can meet the slot missing, and a failure can leave it missing. */
    method WriteAtomic(boot: string, k: nat, text: Text, ghost at: nat) returns (ok: bool)
      modifies this`slots, this`trail, this`faulted
      ensures (old(faulted) ==> faulted) && (!faulted ==> ok)
      ensures slots in {old(slots), old(slots) - {(boot, k)}, old(slots)[(boot, k) := text]}
      ensures ok ==> slots == old(slots)[(boot, k) := text]
      ensures Grown(old(trail), trail)
      ensures ok ==> trail == old(trail) + [Moment(old(slots) - {(boot, k)}, at), Moment(slots, at)]
      ensures forall n :: |old(trail)| <= n < |trail| ==>
                trail[n].at == at
                && (trail[n].slots == old(slots) - {(boot, k)} || trail[n].slots == old(slots)[(boot, k) := text])
    {
      ghost var before := slots;
      ghost var sound := faulted;
      ok, faulted := false, true;
      if * {
        return;
      }
      slots := slots - {(boot, k)};
      trail := trail + [Moment(slots, at)];
      if * {
        return;
      }
      slots := slots[(boot, k) := text];
      assert slots == before[(boot, k) := text];
      trail := trail + [Moment(slots, at)];
      if * {
        return;
      }
      ok, faulted := true, sound;
    }

    /** Another process may look at the slots at any time. */
    ghost method Glance(at: nat)
      modifies this`trail
      ensures trail == old(trail) + [Moment(slots, at)]
    {
      trail := trail + [Moment(slots, at)];
    }
  }

  // ---- The writer ----

  class Writer {
    const store: Store
    const release: string
    const instance: nat
    var boot: string
    var owner: Option<Owner>
    var epoch: nat
    var last: nat
    var expires: nat
    var renew: nat
    var nextSlot: nat
    var active: bool
    var released: bool
    var failed: bool

    constructor (store: Store, release: string, instance: nat)
      ensures this.store == store && this.release == release && this.instance == instance
      ensures Valid() && !active && owner == None && epoch == 0
    {
      this.store, this.release, this.instance := store, release, instance;
      boot, owner, epoch, last, expires, renew, nextSlot := "", None, 0, 0, 0, 0, 0;
      active, released, failed := false, false, false;
    }

    ghost predicate Valid()
      reads this
    {
      nextSlot < 2 && (owner.Some? ==> owner.value == Owner(instance, epoch)) && (active ==> owner.Some? && !released)
    }

    /** Both slots are the writer's own, and the one it will not touch next runs exactly as
        long as the writer believes it does. */
    ghost predicate Holding()
      reads this, store
    {
      && Valid() && owner.Some? && 0 < epoch <= last
      && Held(store.slots, release, boot, owner.value, 1 - nextSlot, expires)
    }

    ghost function NextTurn(): Turn
      reads this
    {
      Turn(release, boot, nextSlot, renew, expires)
    }

    /** The writer's claim at a moment: an active writer whose lease runs holds its slots. */
    ghost predicate Sound(now: nat)
      reads this, store
    {
      active && now < expires ==> Holding()
    }

    /** Both slots are still the writer's and the runtime still names its boot. */
    ghost predicate Renewable()
      reads this, store
    {
      && owner.Some? && LookRuntime(store.runtime, release) == Mine(boot)
      && Owned(store.slots, release, boot, owner.value, 0) && Owned(store.slots, release, boot, owner.value, 1)
    }

    /** When nothing fails, the lease is kept exactly under this condition. */
    ghost predicate Maintainable(now: nat)
      reads this, store
    {
      active && last <= now < expires && (now < renew || (Renewable() && 0 < now <= MAX_U64 - LEASE))
    }

    /** When nothing fails, a writer without a lease gets one exactly under this condition. */
    ghost predicate Obtainable(now: nat)
      reads this, store
    {
      && 0 < instance && epoch < now <= MAX_U64 - LEASE && LookRuntime(store.runtime, release).Mine?
      && Free(store.slots, release, LookRuntime(store.runtime, release).boot, now)
    }

    function Leased(now: nat, visible: bool): Text
      reads this
      requires owner.Some?
    {
      LeaseText(Lease(release, boot, owner.value, now, now + LEASE, visible))
    }

    method WriteLease(k: nat, now: U64, visible: bool) returns (ok: bool)
      requires owner.Some? && k < 2
      modifies store`slots, store`trail, store`faulted
      ensures store.slots in {old(store.slots), old(store.slots) - {(boot, k)},
                              old(store.slots)[(boot, k) := Leased(now, visible)]}
      ensures ok ==> 0 < now <= MAX_U64 - LEASE && store.slots == old(store.slots)[(boot, k) := Leased(now, visible)]
      ensures (old(store.faulted) ==> store.faulted) && (!store.faulted ==> (ok <==> 0 < now <= MAX_U64 - LEASE))
      ensures Local(old(store.slots), store.slots, old(store.trail), store.trail, boot, now)
      ensures forall n :: |old(store.trail)| <= n < |store.trail| ==>
                || store.trail[n].slots == old(store.slots) - {(boot, k)}
                || store.trail[n].slots == old(store.slots)[(boot, k) := Leased(now, visible)]
      ensures |store.trail| > |old(store.trail)| ==> 0 < now <= MAX_U64 - LEASE
      ensures ok ==>
                store.trail
                  == old(store.trail) + [Moment(old(store.slots) - {(boot, k)}, now), Moment(store.slots, now)]
    {
      if now == 0 || now > MAX_U64 - LEASE {
        return false;
      }
      ok := store.WriteAtomic(boot, k, Leased(now, visible), now);
      if ok {
        var observed := store.Read(release, boot, k);
        ok := observed.Present?;
      }
    }

    /** Takes the lease when both slots are readable and nobody's lease is running. */
    method Acquire(now: U64) returns (ok: bool)
      requires Valid()
      modifies this, store`slots, store`trail, store`faulted
      ensures Valid()
      ensures old(Sound(now)) ==> Sound(now)
      ensures ok ==> active && now < expires && last == now && 0 < instance && old(epoch) < now
      ensures ok && !old(active) ==>
                && Holding() && epoch == now && expires == now + LEASE && renew == now + RENEW && nextSlot == 0
                && LookRuntime(store.runtime, release) == Mine(boot)
                && Free(old(store.slots), release, boot, now)
      ensures old(active) ==> boot == old(boot) && epoch == old(epoch)
      ensures (!old(active) && active ==> old(epoch) < epoch) && old(epoch) <= epoch
      ensures last == old(last) || old(epoch) < epoch || (last == now && old(active) && now < old(expires))
      ensures old(active) && old(expires) <= now ==> !active || expires == old(expires)
      ensures (old(store.faulted) ==> store.faulted)
              && (!store.faulted ==>
                    (ok <==> if old(active) then 0 < instance && old(epoch) < now && old(Maintainable(now))
                     else old(Obtainable(now))))
      ensures old(active && Holding()) ==>
                && CoversAll(store.slots, old(store.trail), store.trail, release, boot, 1 - old(nextSlot), old(expires))
                && Turning(old(NextTurn()), old(store.slots), old(store.trail), store.trail, now)
                && (active ==> Turned(old(NextTurn()), old(store.slots), NextTurn(), store.slots, now))
      ensures Polite(old(store.slots), store.slots, old(store.trail), store.trail, instance, now)
    {
      if instance == 0 || now == 0 || now <= epoch {
        return false;
      }
      if active {
        ok := Maintain(now);
        return;
      }
      var binding := store.ReadRuntime(release);
      if !binding.Mine? {
        return false;
      }
      boot := binding.boot;
      for k := 0 to 2
        invariant Valid() && !active && boot == binding.boot && epoch == old(epoch) && last == old(last)
        invariant store.slots == old(store.slots) && store.trail == old(store.trail)
        invariant old(store.faulted) ==> store.faulted
        invariant forall n | 0 <= n < k ::
                    var f := Look(store.slots, release, boot, n);
                    f == Absent || (f.Present? && f.lease.issued <= now && (f.lease.visible ==> f.lease.expires <= now))
      {
        var found := store.Read(release, boot, k);
        if found.Unreadable?
          || (found.Present? && (found.lease.issued > now || (found.lease.visible && found.lease.expires > now))) {
          return false;
        }
      }
      FreeIsUnclaimed(store.slots, release, boot, instance, now);
      ok := TakeSlots(now);
    }

    method TakeSlots(now: U64) returns (ok: bool)
      requires Valid() && !active && epoch < now && Unclaimed(store.slots, boot, instance, now)
      modifies this, store`slots, store`trail, store`faulted
      ensures Valid() && boot == old(boot) && ok == active && epoch == now
      ensures (old(store.faulted) ==> store.faulted) && (!store.faulted ==> (ok <==> 0 < now <= MAX_U64 - LEASE))
      ensures ok ==>
                Holding() && epoch == last == now && expires == now + LEASE && renew == now + RENEW && nextSlot == 0
      ensures Polite(old(store.slots), store.slots, old(store.trail), store.trail, instance, now)
    {
      hide Polite, Local, Unclaimed, Grown, Held;
      ghost var before, told := store.slots, store.trail;
      owner := Some(Owner(instance, now));
      epoch, last := now, now;
      released, failed := false, false;
      ok := WriteBoth(now);
      if ok {
        BothAreHeld(before, release, boot, owner.value, now);
      }
      active, failed := ok, !ok;
      expires := if now <= MAX_U64 - LEASE then now + LEASE else 0;
      renew := if now <= MAX_U64 - RENEW then now + RENEW else 0;
      nextSlot := 0;
      UnclaimedIsPolite(before, store.slots, told, store.trail, boot, instance, now);
    }

    method WriteBoth(now: U64) returns (ok: bool)
      requires owner.Some?
      modifies store`slots, store`trail, store`faulted
      ensures ok ==> 0 < now <= MAX_U64 - LEASE
                     && store.slots == old(store.slots)[(boot, 0) := Leased(now, true)][(boot, 1) := Leased(now, true)]
      ensures (old(store.faulted) ==> store.faulted) && (!store.faulted ==> (ok <==> 0 < now <= MAX_U64 - LEASE))
      ensures Local(old(store.slots), store.slots, old(store.trail), store.trail, boot, now)
    {
      ok := WriteLease(0, now, true);
      if ok {
        ghost var between, told := store.slots, store.trail;
        ok := WriteLease(1, now, true);
        LocalThroughout(old(store.slots), between, store.slots, old(store.trail), told, store.trail, boot, now);
      }
    }

    /** Renews one slot when it is due; the slot it leaves alone keeps the old promise. */
    method Maintain(now: U64) returns (ok: bool)
      requires Valid()
      modifies this, store`slots, store`trail, store`faulted
      ensures Valid()
      ensures old(Sound(now)) ==> Sound(now)
      ensures ok == active && epoch == old(epoch) && boot == old(boot)
      ensures last == old(last) || old(epoch) < epoch || (last == now && old(active) && now < old(expires))
      ensures (old(store.faulted) ==> store.faulted) && (!store.faulted ==> (ok <==> old(Maintainable(now))))
      ensures ok ==> old(active) && old(last) <= now < old(expires) && last == now && now < expires
      ensures ok && now >= old(renew) ==>
                nextSlot == 1 - old(nextSlot) && expires == now + LEASE && renew == now + RENEW
      ensures ok && now < old(renew) ==> store.slots == old(store.slots) && expires == old(expires)
      ensures ok && now >= old(renew) ==>
                && |store.trail| == |old(store.trail)| + 2 && Grown(old(store.trail), store.trail)
                && store.trail[|old(store.trail)|].at == now
                && At(store.trail[|old(store.trail)|].slots, old(NextTurn()), old(nextSlot)) == Absent
      ensures !ok && old(active) ==> failed
      ensures Polite(old(store.slots), store.slots, old(store.trail), store.trail, instance, now)
      ensures old(active && Holding()) ==>
                && CoversAll(store.slots, old(store.trail), store.trail, release, boot, 1 - old(nextSlot), old(expires))
                && Turning(old(NextTurn()), old(store.slots), old(store.trail), store.trail, now)
                && (active ==> Turned(old(NextTurn()), old(store.slots), NextTurn(), store.slots, now))
    {
      hide Polite, Grown, Turning, Turned, CoversAll;
      PoliteNothing(store.slots, store.trail, instance, now);
      NothingTurned(NextTurn(), store.slots, store.trail, now);
      if !active {
        return false;
      }
      if now < last || now >= expires {
        active, failed := false, true;
        return false;
      }
      last := now;
      if now < renew {
        return true;
      }
      ok := RenewIfOwned(now);
      if !ok {
        active, failed := false, true;
      }
    }

    /** A renewal that is due. */
    method RenewIfOwned(now: U64) returns (ok: bool)
      requires Valid() && active && last == now < expires && renew <= now
      modifies this`nextSlot, this`expires, this`renew, store`slots, store`trail, store`faulted
      ensures Valid()
      ensures (old(store.faulted) ==> store.faulted)
              && (!store.faulted ==> (ok <==> old(Renewable()) && 0 < now <= MAX_U64 - LEASE))
      ensures ok ==> nextSlot == 1 - old(nextSlot) && expires == now + LEASE && renew == now + RENEW
      ensures ok && 0 < epoch <= last ==> Holding()
      ensures Polite(old(store.slots), store.slots, old(store.trail), store.trail, instance, now)
      ensures Turning(old(NextTurn()), old(store.slots), old(store.trail), store.trail, now)
      ensures old(Holding()) ==>
                CoversAll(store.slots, old(store.trail), store.trail, release, boot, 1 - old(nextSlot), old(expires))
      ensures ok ==> Turned(old(NextTurn()), old(store.slots), NextTurn(), store.slots, now)
      ensures ok ==>
                && |store.trail| == |old(store.trail)| + 2 && Grown(old(store.trail), store.trail)
                && store.trail[|old(store.trail)|].at == now
                && At(store.trail[|old(store.trail)|].slots, old(NextTurn()), old(nextSlot)) == Absent
    {
      hide Polite, Grown, Turning, Turned, CoversAll;
      PoliteNothing(store.slots, store.trail, instance, now);
      NothingTurned(NextTurn(), store.slots, store.trail, now);
      ok := MayRenew();
      if ok {
        ok := Renew(now);
        if old(Holding()) {
          TurningCovers(old(NextTurn()), old(store.slots), store.slots, old(store.trail), store.trail, now);
        }
      }
    }

    /** The runtime still names the bound boot and both slots are still the writer's own. */
    method MayRenew() returns (ok: bool)
      requires Valid() && active
      modifies store`faulted
      ensures (old(store.faulted) ==> store.faulted) && (!store.faulted ==> (ok <==> Renewable()))
      ensures ok ==>
                Owned(store.slots, release, boot, owner.value, 0) && Owned(store.slots, release, boot, owner.value, 1)
      ensures ok ==> LookRuntime(store.runtime, release) == Mine(boot)
    {
      var binding := store.ReadRuntime(release);
      if binding != Mine(boot) {
        return false;
      }
      for k := 0 to 2
        invariant old(store.faulted) ==> store.faulted
        invariant forall n | 0 <= n < k :: Owned(store.slots, release, boot, owner.value, n)
      {
        var found := store.Read(release, boot, k);
        if !found.Present? || found.lease.owner != owner.value || !found.lease.visible {
          return false;
        }
      }
      return true;
    }

    method Renew(now: U64) returns (ok: bool)
      requires Valid() && active && last == now < expires
      requires Owned(store.slots, release, boot, owner.value, 0) && Owned(store.slots, release, boot, owner.value, 1)
      modifies this`nextSlot, this`expires, this`renew, store`slots, store`trail, store`faulted
      ensures Valid()
      ensures (old(store.faulted) ==> store.faulted) && (!store.faulted ==> (ok <==> 0 < now <= MAX_U64 - LEASE))
      ensures ok ==> nextSlot == 1 - old(nextSlot) && expires == now + LEASE && renew == now + RENEW
      ensures ok && epoch <= last && 0 < epoch ==> Holding()
      ensures Polite(old(store.slots), store.slots, old(store.trail), store.trail, instance, now)
      ensures Look(store.slots, release, boot, 1 - old(nextSlot))
              == Look(old(store.slots), release, boot, 1 - old(nextSlot))
      ensures old(renew) <= now ==> Turning(old(NextTurn()), old(store.slots), old(store.trail), store.trail, now)
      ensures old(renew) <= now && ok ==> Turned(old(NextTurn()), old(store.slots), NextTurn(), store.slots, now)
      ensures ok ==>
                && |store.trail| == |old(store.trail)| + 2 && Grown(old(store.trail), store.trail)
                && store.trail[|old(store.trail)|].at == now
                && At(store.trail[|old(store.trail)|].slots, old(NextTurn()), old(nextSlot)) == Absent
    {
      ghost var before, told := store.slots, store.trail;
      OwnSlotIsUnclaimed(before, release, boot, owner.value, 0, now);
      ok := WriteLease(nextSlot, now, true);
      UnclaimedIsPolite(before, store.slots, told, store.trail, boot, instance, now);
      if ok {
        nextSlot, expires, renew := 1 - nextSlot, now + LEASE, now + RENEW;
      }
    }

    /** The last look before an input is passed on. */
    method Accept(now: U64) returns (ok: bool)
      requires Valid()
      modifies this, store`slots, store`trail, store`faulted
      ensures Valid()
      ensures old(Sound(now)) ==> Sound(now)
      ensures ok == active && epoch == old(epoch) && boot == old(boot)
      ensures last == old(last) || old(epoch) < epoch || (last == now && old(active) && now < old(expires))
      ensures (old(store.faulted) ==> store.faulted)
              && (!store.faulted ==>
                    (ok <==> old(Maintainable(now)) && LookRuntime(store.runtime, release) == Mine(boot)))
      ensures ok ==> old(active) && last == now < expires && LookRuntime(store.runtime, release) == Mine(boot)
      ensures ok ==> now < old(expires)
      ensures ok && old(Sound(now)) ==> Holding()
      ensures !ok && old(active) ==> failed
      ensures Polite(old(store.slots), store.slots, old(store.trail), store.trail, instance, now)
      ensures old(active && Holding()) ==>
                && CoversAll(store.slots, old(store.trail), store.trail, release, boot, 1 - old(nextSlot), old(expires))
                && Turning(old(NextTurn()), old(store.slots), old(store.trail), store.trail, now)
                && (active ==> Turned(old(NextTurn()), old(store.slots), NextTurn(), store.slots, now))
    {
      ok := Maintain(now);
      if ok {
        var binding := store.ReadRuntime(release);
        ok := binding == Mine(boot);
        if !ok {
          active, failed := false, true;
        }
      }
    }

    /** Marks the writer's own slots hidden; a slot of anyone else, or one that cannot be read, is left alone. */
    method Release(now: U64)
      requires Valid()
      modifies this`active, this`released, this`failed, store`slots, store`trail, store`faulted
      ensures Valid()
      ensures old(owner.Some? && !released) ==> !active && released && epoch == old(epoch)
      ensures old(owner.None? || released) ==> active == old(active) && store.slots == old(store.slots)
      ensures !failed && old(owner.Some? && !released && !failed) ==>
                forall k | 0 <= k < 2 :: (boot, k) in store.slots && store.slots[(boot, k)] == Leased(now, false)
      ensures (old(store.faulted) ==> store.faulted)
              && (!store.faulted && old(owner.Some? && !released && !failed) && last <= now
                  && 0 < now <= MAX_U64 - LEASE ==>
                    (failed <==> !old(Hideable(0)) || !old(Hideable(1))))
      ensures Polite(old(store.slots), store.slots, old(store.trail), store.trail, instance, now)
    {
      if owner.None? || released {
        return;
      }
      active, released := false, true;
      if now < last {
        failed := true;
        return;
      }
      hide Polite, Look;
      for k := 0 to 2
        invariant Valid() && !active && released && (old(store.faulted) ==> store.faulted)
        invariant k < 2 ==> Look(store.slots, release, boot, 1) == Look(old(store.slots), release, boot, 1)
        invariant k == 0 ==> Look(store.slots, release, boot, 0) == Look(old(store.slots), release, boot, 0)
        invariant !store.faulted && !old(failed) && 0 < now <= MAX_U64 - LEASE ==>
                    (failed <==> (k > 0 && !old(Hideable(0))) || (k > 1 && !old(Hideable(1))))
        invariant Polite(old(store.slots), store.slots, old(store.trail), store.trail, instance, now)
        invariant !failed ==> !old(failed) && forall n | 0 <= n < k ::
                    (boot, n) in store.slots && store.slots[(boot, n)] == Leased(now, false)
      {
        var found := store.Read(release, boot, k);
        if found.Unreadable? || (found.Present? && found.lease.owner != owner.value) {
          failed := true;
        } else {
          ghost var between, told := store.slots, store.trail;
          var done := HideSlot(k, now);
          PoliteThroughout(old(store.slots), between, store.slots, old(store.trail), told, store.trail, instance, now);
          if !done {
            failed := true;
          }
        }
      }
    }

    ghost predicate Hideable(k: nat)
      reads this, store
      requires owner.Some?
    {
      var f := Look(store.slots, release, boot, k);
      f == Absent || (f.Present? && f.lease.owner == owner.value)
    }

    method HideSlot(k: nat, now: U64) returns (ok: bool)
      requires Valid() && owner.Some? && k < 2
      requires var f := Look(store.slots, release, boot, k); f == Absent || (f.Present? && f.lease.owner == owner.value)
      modifies store`slots, store`trail, store`faulted
      ensures ok ==> store.slots == old(store.slots)[(boot, k) := Leased(now, false)]
      ensures Look(store.slots, release, boot, 1 - k) == Look(old(store.slots), release, boot, 1 - k)
      ensures (old(store.faulted) ==> store.faulted) && (!store.faulted ==> (ok <==> 0 < now <= MAX_U64 - LEASE))
      ensures Polite(old(store.slots), store.slots, old(store.trail), store.trail, instance, now)
    {
      ghost var before, told := store.slots, store.trail;
      OwnSlotIsUnclaimed(before, release, boot, owner.value, k, now);
      ok := WriteLease(k, now, false);
      UnclaimedIsPolite(before, store.slots, told, store.trail, boot, instance, now);
    }

    method Do(call: Call, now: U64)
      requires Valid()
      modifies this, store`slots, store`trail, store`faulted
      ensures Valid()
      ensures old(Sound(now)) ==> Sound(now)
      ensures Grown(old(store.trail), store.trail)
      ensures Polite(old(store.slots), store.slots, old(store.trail), store.trail, instance, now)
      ensures old(active && Holding()) && !call.Release? ==>
                && CoversAll(store.slots, old(store.trail), store.trail, release, old(boot), 1 - old(nextSlot),
                             old(expires))
                && Turning(old(NextTurn()), old(store.slots), old(store.trail), store.trail, now)
                && (active ==> Turned(old(NextTurn()), old(store.slots), NextTurn(), store.slots, now))
      ensures (old(active) ==> epoch == old(epoch) && (!call.Release? || !active))
              && (call.Release? ==> last == old(last))
      ensures old(active) && old(expires) <= now ==> !active || expires == old(expires)
      ensures (!old(active) && active ==> old(epoch) < epoch) && old(epoch) <= epoch
      ensures last == old(last) || old(epoch) < epoch || (last == now && old(active) && now < old(expires))
    {
      hide Look, Held, KeepsOthers, Turning, Turned;
      match call {
        case Acquire => var _ := Acquire(now);
        case Maintain => var _ := Maintain(now);
        case Accept => var _ := Accept(now);
        case Release => Release(now);
      }
    }
  }

  // ---- Several writers over one store ----

  datatype Call = Acquire | Maintain | Accept | Release

  /** A call of a writer, a new runtime file, or another process looking at the slots. */
  datatype Event = Call(writer: nat, call: Call, at: U64) | Announce(file: RuntimeFile, at: U64) | Glance(at: U64)

  /** Writers of one store, each with its own instance number. */
  ghost predicate Fleet(store: Store, writers: seq<Writer>)
    reads writers
  {
    && (forall w <- writers :: w.store == store && w.Valid())
    && (forall i, j | 0 <= i < j < |writers| :: writers[i].instance != writers[j].instance)
  }

  ghost predicate AllSound(store: Store, writers: seq<Writer>, now: nat)
    reads store, writers
    requires Fleet(store, writers)
  {
    forall i | 0 <= i < |writers| :: writers[i].Sound(now)
  }

  ghost predicate Leasing(w: Writer, now: nat)
    reads w
  {
    w.active && now < w.expires
  }

  /** The call takes the lease away from writer `i` by itself. */
  predicate GivesUp(e: Event, i: nat) {
    e.Call? && e.writer == i && e.call.Release?
  }

  /** What one event leaves to writer `i`, whose lease is running and who does not give it up:
      every state of the slots that another process can meet meanwhile still shows, in the slot
      not to be touched next, a lease running as long as the writer believes; and the pair
      changes by a renewal that is due, or not at all. */
  ghost predicate Keeps(turn: Turn, before: Slots, trail: seq<Moment>, w: Writer, after: Slots, grown: seq<Moment>,
                        at: nat)
    reads w
    requires turn.slot < 2
  {
    && CoversAll(after, trail, grown, turn.release, turn.boot, 1 - turn.slot, turn.expires)
    && Turning(turn, before, trail, grown, at)
    && (w.active ==> Turned(turn, before, w.NextTurn(), after, at))
  }

  /** One call of one writer, at any time not before the last. */
  method CallOne(store: Store, writers: seq<Writer>, e: Event, ghost now: nat)
    requires Fleet(store, writers) && AllSound(store, writers, now) && now <= e.at
    requires e.Call? && e.writer < |writers|
    modifies store, writers
    ensures Fleet(store, writers) && AllSound(store, writers, e.at)
    ensures Grown(old(store.trail), store.trail)
    ensures forall i | 0 <= i < |writers| && old(Leasing(writers[i], e.at)) && !GivesUp(e, i) ::
              Keeps(old(writers[i].NextTurn()), old(store.slots), old(store.trail), writers[i], store.slots,
                    store.trail, e.at)
    ensures forall i | 0 <= i < |writers| ::
              Ages(writers[i], old(writers[i].active), old(writers[i].epoch), old(writers[i].expires),
                   old(writers[i].last), e, i)
  {
    var w := writers[e.writer];
    ghost var before, told := store.slots, store.trail;
    hide Polite, Look, Held, Grown, CoversAll, Turning, Turned;
    w.Do(e.call, e.at);
    forall i | 0 <= i < |writers| && i != e.writer && Leasing(writers[i], e.at)
      ensures writers[i].Holding()
      ensures Keeps(writers[i].NextTurn(), before, told, writers[i], store.slots, store.trail, e.at)
    {
      var x := writers[i];
      PoliteKeeps(before, store.slots, told, store.trail, w.instance, e.at, x.release, x.boot, x.owner.value,
                  1 - x.nextSlot, x.expires);
      PoliteLeaves(before, store.slots, told, store.trail, w.instance, e.at, x.NextTurn(), x.owner.value);
    }
  }

  /** The same for any event: every other lease pair that is running survives it. */
  method Step(store: Store, writers: seq<Writer>, e: Event, ghost now: nat)
    requires Fleet(store, writers) && AllSound(store, writers, now) && now <= e.at
    requires e.Call? ==> e.writer < |writers|
    modifies store, writers
    ensures Fleet(store, writers) && AllSound(store, writers, e.at)
    ensures Grown(old(store.trail), store.trail)
    ensures forall i | 0 <= i < |writers| && old(Leasing(writers[i], e.at)) && !GivesUp(e, i) ::
              Keeps(old(writers[i].NextTurn()), old(store.slots), old(store.trail), writers[i], store.slots,
                    store.trail, e.at)
    ensures forall i | 0 <= i < |writers| ::
              Ages(writers[i], old(writers[i].active), old(writers[i].epoch), old(writers[i].expires),
                   old(writers[i].last), e, i)
    ensures e.Glance? ==> Moment(old(store.slots), e.at) in store.trail
  {
    hide Look;
    match e {
      case Call(_, _, _) =>
        CallOne(store, writers, e, now);
      case Announce(file, _) =>
        store.runtime := file;
      case Glance(at) =>
        store.Glance(at);
        assert store.trail[|old(store.trail)|] == Moment(old(store.slots), at);
    }
  }

  /** A lease that is lost is never the same lease again, and whoever passed the clock test of an
      old one was holding it then. */
  ghost predicate Ages(w: Writer, active: bool, epoch: nat, expires: nat, last: nat, e: Event, i: nat)
    reads w
  {
    && (w.last == last || epoch < w.epoch || (w.last == e.at && active && e.at < expires && !GivesUp(e, i)))
    && (active ==> w.epoch == epoch && (GivesUp(e, i) ==> !w.active))
    && (active && expires <= e.at ==> !w.active || w.expires == expires)
    && (!active && w.active ==> epoch < w.epoch) && epoch <= w.epoch
  }

  lemma PoliteLeaves(before: Slots, after: Slots, trail: seq<Moment>, grown: seq<Moment>, instance: nat, now: nat,
                     turn: Turn, owner: Owner)
    requires Polite(before, after, trail, grown, instance, now) && turn.slot < 2
    requires Held(before, turn.release, turn.boot, owner, 1 - turn.slot, turn.expires)
    requires owner.instance != instance && now < turn.expires
    ensures Turning(turn, before, trail, grown, now) && Turned(turn, before, turn, after, now)
  {
    assert SameOn(before, after, turn.boot);
    forall n | |trail| <= n < |grown| ensures SamePair(before, grown[n].slots, turn) {
      assert SameOn(before, grown[n].slots, turn.boot);
    }
  }

  lemma PoliteKeeps(before: Slots, after: Slots, trail: seq<Moment>, grown: seq<Moment>, instance: nat, now: nat,
                    release: string, boot: string, owner: Owner, p: nat, until: nat)
    requires Polite(before, after, trail, grown, instance, now)
    requires Held(before, release, boot, owner, p, until) && owner.instance != instance && now < until
    ensures Held(after, release, boot, owner, p, until)
    ensures CoversAll(after, trail, grown, release, boot, p, until)
  {
    assert SameOn(before, after, boot);
    forall n | |trail| <= n < |grown| ensures Covers(grown[n].slots, release, boot, p, until) {
      assert SameOn(before, grown[n].slots, boot);
    }
  }

  /** Any run of calls by any number of writers, on a clock that does not run backwards:
      at no time do two of them hold an unexpired lease on one boot. */
  method Run(store: Store, writers: seq<Writer>, events: seq<Event>, ghost end: nat)
    requires Fleet(store, writers) && forall w <- writers :: !w.active
    requires forall e <- events :: e.at <= end && (e.Call? ==> e.writer < |writers|)
    requires forall i, j | 0 <= i < j < |events| :: events[i].at <= events[j].at
    modifies store, writers
    ensures Fleet(store, writers)
    ensures forall i, j | 0 <= i < |writers| && 0 <= j < |writers| && Leasing(writers[i], end)
            && Leasing(writers[j], end)
              && writers[i].boot == writers[j].boot :: i == j
  {
    ghost var now: nat := 0;
    for n := 0 to |events|
      invariant Fleet(store, writers) && AllSound(store, writers, now)
      invariant now == if n == 0 then 0 else events[n - 1].at
    {
      Step(store, writers, events[n], now);
      now := events[n].at;
    }
    forall i, j
      | 0 <= i < |writers| && 0 <= j < |writers| && Leasing(writers[i], end) && Leasing(writers[j], end)
        && writers[i].boot == writers[j].boot
      ensures i == j
    {
      assert writers[i].Holding() && writers[j].Holding();
      OneHolder(store.slots, writers[i].release, writers[j].release, writers[i].boot, writers[i].owner.value,
                writers[j].owner.value);
    }
  }

  lemma OneHolder(slots: Slots, r: string, s: string, boot: string, one: Owner, other: Owner)
    requires Owned(slots, r, boot, one, 0) && Owned(slots, s, boot, other, 0)
    ensures one == other
  {
  }

  // ---- The reader ----

  datatype ReaderState = ReaderState(bound: Option<string>, acknowledged: Option<Owner>, last: nat, nextPoll: nat,
                                     blocked: bool, needsNeutral: bool)

  const FRESH := ReaderState(None, None, 0, 0, false, false)

  /** What one poll found: the runtime file and the two slots of the boot it was bound to. */
  datatype Sight = Sight(binding: Binding, first: Found, second: Found)

  function Bound(bound: Option<string>, binding: Binding): Option<string> {
    match binding
    case Mine(boot) => Some(boot)
    case OtherBinding => None
    case _ => bound
  }

  /** The lease issued last, the second slot winning a tie. */
  function Newest(first: Found, second: Found): Option<Lease> {
    if first.Present? && (!second.Present? || second.lease.issued < first.lease.issued) then Some(first.lease)
    else if second.Present? then Some(second.lease)
    else None
  }

  predicate Stops(f: Found, now: nat) {
    f.Unreadable? || (f.Present? && (now < f.lease.issued || (f.lease.visible && now < f.lease.expires)))
  }

  /** What a poll concludes once the files are read. */
  function Settled(s: ReaderState, nonNeutral: bool, stop: bool, newest: Option<Lease>): (ReaderState, bool) {
    var unmet := newest.Some? && Some(newest.value.owner) != s.acknowledged;
    if stop || ((s.needsNeutral || unmet) && nonNeutral) then (s.(blocked := true, needsNeutral := true), true)
    else
      (s.(acknowledged := if newest.Some? then Some(newest.value.owner) else s.acknowledged,
          blocked := false, needsNeutral := false), false)
  }

  function NextPoll(now: nat): nat {
    if now <= MAX_U64 - POLL then now + POLL else now
  }

  /** The state after one poll and its answer: does it hold the input back? */
  function Polled(s: ReaderState, now: nat, nonNeutral: bool, sight: Sight): (ReaderState, bool) {
    if now == 0 || now < s.last then (s.(blocked := true, needsNeutral := true), true)
    else if !nonNeutral && now < s.nextPoll then (s, s.blocked || s.needsNeutral)
    else
      var t := s.(bound := Bound(s.bound, sight.binding), last := now, nextPoll := NextPoll(now));
      var any := t.bound.Some?;
      Settled(t, nonNeutral, sight.binding.UnknownBinding?
              || (any && (Stops(sight.first, now) || Stops(sight.second, now))),
              if any then Newest(sight.first, sight.second) else None)
  }

  class Reader {
    const release: string
    var bound: Option<string>
    var acknowledged: Option<Owner>
    var last: nat
    var nextPoll: nat
    var blocked: bool
    var needsNeutral: bool

    constructor (release: string)
      ensures this.release == release && State() == FRESH
    {
      this.release := release;
      bound, acknowledged, last, nextPoll := None, None, 0, 0;
      blocked, needsNeutral := false, false;
    }

    function State(): ReaderState
      reads this
    {
      ReaderState(bound, acknowledged, last, nextPoll, blocked, needsNeutral)
    }

    /** A read may fail only in a poll that meets a fault. */
    method LookAt(slots: Slots, k: nat, fault: bool) returns (f: Found)
      requires bound.Some?
      ensures (fault && f == Unreadable) || f == Look(slots, release, bound.value, k)
    {
      var fails := *;
      f := if fault && fails then Unreadable else Look(slots, release, bound.value, k);
    }

    /** Reads both slots: does one of them stop the input, and which lease was issued last? */
    method ReadSlots(now: nat, first: Slots, second: Slots, fault: bool)
      returns (stop: bool, newest: Option<Lease>, ghost f0: Found, ghost f1: Found)
      requires bound.Some?
      ensures (fault && f0 == Unreadable) || f0 == Look(first, release, bound.value, 0)
      ensures (fault && f1 == Unreadable) || f1 == Look(second, release, bound.value, 1)
      ensures stop == (Stops(f0, now) || Stops(f1, now)) && newest == Newest(f0, f1)
    {
      hide Look;
      stop, newest, f0, f1 := false, None, Absent, Absent;
      for k := 0 to 2
        invariant k == 0 ==> f0 == Absent
        invariant k <= 1 ==> f1 == Absent
        invariant k >= 1 ==> (fault && f0 == Unreadable) || f0 == Look(first, release, bound.value, 0)
        invariant k == 2 ==> (fault && f1 == Unreadable) || f1 == Look(second, release, bound.value, 1)
        invariant stop == (Stops(f0, now) || Stops(f1, now)) && newest == Newest(f0, f1)
      {
        var found := LookAt(if k == 0 then first else second, k, fault);
        if k == 0 {
          f0 := found;
        } else {
          f1 := found;
        }
        if found.Unreadable?
          || (found.Present? && (found.lease.issued > now || (found.lease.visible && now < found.lease.expires))) {
          stop := true;
        }
        if found.Present? && (newest.None? || found.lease.issued >= newest.value.issued) {
          newest := Some(found.lease);
        }
      }
    }

    /** One poll. The three files are read one after the other, so the two slots may come from
        different moments: `first` is the store when slot 0 was read, `second` when slot 1 was. */
    method Block(now: U64, nonNeutral: bool, file: RuntimeFile, first: Slots, second: Slots, fault: bool)
      returns (held: bool, ghost sight: Sight)
      modifies this
      ensures (State(), held) == Polled(old(State()), now, nonNeutral, sight)
      ensures SeenIn(sight, release, Bound(old(bound), sight.binding), file, first, second, fault)
    {
      hide Look, Newest, Stops, Settled;
      sight := TrueSight(release, Bound(bound, LookRuntime(file, release)), file, first, second);
      if now == 0 || now < last {
        blocked, needsNeutral := true, true;
        return true, sight;
      }
      if !nonNeutral && now < nextPoll {
        return blocked || needsNeutral, sight;
      }
      last := now;
      nextPoll := NextPoll(now);
      var stop, newest, seen := ReadFiles(now, file, first, second, fault);
      sight := seen;
      held := Settle(nonNeutral, stop, newest);
    }

    method ReadFiles(now: nat, file: RuntimeFile, first: Slots, second: Slots, fault: bool)
      returns (stop: bool, newest: Option<Lease>, ghost sight: Sight)
      modifies this`bound
      ensures bound == Bound(old(bound), sight.binding) && SeenIn(sight, release, bound, file, first, second, fault)
      ensures stop
              == (sight.binding.UnknownBinding?
                  || (bound.Some? && (Stops(sight.first, now) || Stops(sight.second, now))))
      ensures newest == if bound.Some? then Newest(sight.first, sight.second) else None
    {
      var fails := *;
      var binding := if fault && fails then UnknownBinding else LookRuntime(file, release);
      if binding.Mine? {
        bound := Some(binding.boot);
      } else if binding.OtherBinding? {
        bound := None;
      }
      stop, newest := binding.UnknownBinding?, None;
      sight := Sight(binding, Unreadable, Unreadable);
      if bound.Some? {
        var active, lease, f0, f1 := ReadSlots(now, first, second, fault);
        stop, newest := stop || active, lease;
        sight := Sight(binding, f0, f1);
      }
    }

    method Settle(nonNeutral: bool, stop: bool, newest: Option<Lease>) returns (held: bool)
      modifies this`blocked, this`needsNeutral, this`acknowledged
      ensures (State(), held) == Settled(old(State()), nonNeutral, stop, newest)
    {
      if stop {
        blocked, needsNeutral := true, true;
        return true;
      }
      if newest.Some? && Some(newest.value.owner) != acknowledged {
        needsNeutral := true;
      }
      if needsNeutral && nonNeutral {
        blocked := true;
        return true;
      }
      if newest.Some? {
        acknowledged := Some(newest.value.owner);
      }
      blocked, needsNeutral := false, false;
      held := false;
    }
  }

  /** What a poll finds when every read succeeds. */
  function TrueSight(release: string, bound: Option<string>, file: RuntimeFile, first: Slots, second: Slots): Sight {
    if bound.None? then Sight(LookRuntime(file, release), Absent, Absent)
    else Sight(LookRuntime(file, release), Look(first, release, bound.value, 0), Look(second, release, bound.value, 1))
  }

  /** Each part of a sight is what the files held, or says that the read failed. */
  ghost predicate SeenIn(sight: Sight, release: string, bound: Option<string>, file: RuntimeFile, first: Slots,
                         second: Slots, fault: bool) {
    && ((fault && sight.binding == UnknownBinding) || sight.binding == LookRuntime(file, release))
    && (bound.Some? ==>
          && ((fault && sight.first == Unreadable) || sight.first == Look(first, release, bound.value, 0))
          && ((fault && sight.second == Unreadable) || sight.second == Look(second, release, bound.value, 1)))
  }

  // ---- Polls while writers run ----

  /** A poll that reads slot 0 as it was in `first` and slot 1 as it was in `second`, at clock
      `now`, finds no lease running in the one and nothing in the other. */
  predicate Misses(first: Slots, second: Slots, release: string, boot: string, now: nat) {
    !Stops(Look(first, release, boot, 0), now) && Look(second, release, boot, 1) == Absent
  }

  /** Whatever reads fail and whatever the reader remembers, the poll holds input back. */
  ghost predicate AlwaysHeld(first: Slots, second: Slots, release: string, boot: string, now: nat) {
    forall s: ReaderState, sight: Sight, file: RuntimeFile, fault: bool
      | Bound(s.bound, sight.binding) == Some(boot) && SeenIn(sight, release, Some(boot), file, first, second, fault)
      :: Polled(s, now, true, sight).1
  }

  /** One of the slots stopped the poll when it was read, unless slot 1 was just being renewed, a
      renewal period or more behind the moment slot 0 was read. */
  predicate PairSafe(x: Moment, y: Moment, release: string, boot: string, now: nat) {
    now <= x.at ==>
      || Stops(Look(x.slots, release, boot, 0), now)
      || Stops(Look(y.slots, release, boot, 1), now)
      || (Look(y.slots, release, boot, 1) == Absent && x.at + RENEW <= y.at)
  }

  /** A poll that read slot 0 at `x` and finds no lease there will be stopped by slot 1, at least
      until slot 1 is renewed, and that is not due within a renewal period. */
  predicate Tracked(x: Moment, slots: Slots, turn: Turn, now: nat) {
    now <= x.at ==>
      || Stops(At(x.slots, turn, 0), now)
      || (Stops(At(slots, turn, 1), now) && (turn.slot == 1 ==> x.at + RENEW <= turn.due))
  }

  ghost predicate Safe(trail: seq<Moment>, start: nat, release: string, boot: string, now: nat) {
    forall m, n | start <= m <= n < |trail| :: PairSafe(trail[m], trail[n], release, boot, now)
  }

  ghost predicate Past(trail: seq<Moment>, start: nat, slots: Slots, turn: Turn, now: nat, at: nat) {
    forall m | start <= m < |trail| :: trail[m].at <= at && Tracked(trail[m], slots, turn, now)
  }

  lemma OldPair(turn: Turn, before: Slots, x: Moment, y: Moment, now: nat)
    requires turn.slot < 2 && x.at <= y.at && Tracked(x, before, turn, now)
    requires SamePair(before, y.slots, turn) || Renewing(before, y.slots, turn, y.at)
    ensures PairSafe(x, y, turn.release, turn.boot, now)
  {
  }

  lemma NewPair(turn: Turn, x: Moment, y: Moment, now: nat)
    requires turn.slot < 2 && x.at == y.at < turn.expires
    requires Covers(x.slots, turn.release, turn.boot, 1 - turn.slot, turn.expires)
    requires Covers(y.slots, turn.release, turn.boot, 1 - turn.slot, turn.expires)
    ensures PairSafe(x, y, turn.release, turn.boot, now)
  {
  }

  lemma OldTracked(turn: Turn, before: Slots, next: Turn, after: Slots, x: Moment, now: nat, at: nat)
    requires turn.slot < 2 && x.at <= at && Tracked(x, before, turn, now) && Turned(turn, before, next, after, at)
    ensures Tracked(x, after, next, now)
  {
  }

  lemma NewTracked(turn: Turn, before: Slots, next: Turn, after: Slots, x: Moment, now: nat)
    requires turn.slot < 2 && x.at < turn.expires && Turned(turn, before, next, after, x.at)
    requires Covers(x.slots, turn.release, turn.boot, 1 - turn.slot, turn.expires)
    requires Covers(after, turn.release, turn.boot, 1 - turn.slot, turn.expires)
    ensures Tracked(x, after, next, now)
  {
  }

  /** One event keeps all pairs of moments safe. */
  lemma StaysSafe(turn: Turn, before: Slots, trail: seq<Moment>, after: Slots, grown: seq<Moment>,
                  start: nat, now: nat, from: nat, at: nat)
    requires turn.slot < 2 && start <= |trail| && from <= at < turn.expires
    requires Safe(trail, start, turn.release, turn.boot, now) && Past(trail, start, before, turn, now, from)
    requires Turning(turn, before, trail, grown, at)
    requires CoversAll(after, trail, grown, turn.release, turn.boot, 1 - turn.slot, turn.expires)
    ensures Safe(grown, start, turn.release, turn.boot, now)
  {
    hide PairSafe, Tracked, Covers, SamePair, Renewing;
    forall m | 0 <= m < |trail| ensures grown[m] == trail[m] {
      assert grown[m] == grown[..|trail|][m];
    }
    forall m, n | start <= m <= n < |grown| ensures PairSafe(grown[m], grown[n], turn.release, turn.boot, now) {
      if n < |trail| {
        assert PairSafe(trail[m], trail[n], turn.release, turn.boot, now);
      } else if m < |trail| {
        assert Tracked(trail[m], before, turn, now);
        OldPair(turn, before, grown[m], grown[n], now);
      } else {
        NewPair(turn, grown[m], grown[n], now);
      }
    }
  }

  lemma StaysTracked(turn: Turn, before: Slots, trail: seq<Moment>, next: Turn, after: Slots, grown: seq<Moment>,
                     start: nat, now: nat, from: nat, at: nat)
    requires turn.slot < 2 && start <= |trail| && from <= at < turn.expires
    requires Past(trail, start, before, turn, now, from)
    requires Turning(turn, before, trail, grown, at) && Turned(turn, before, next, after, at)
    requires CoversAll(after, trail, grown, turn.release, turn.boot, 1 - turn.slot, turn.expires)
    ensures Past(grown, start, after, next, now, at)
    ensures next.release == turn.release && next.boot == turn.boot && at < next.expires
  {
    TurnedOn(turn, before, next, after, at);
    hide Tracked, Covers, SamePair, Renewing, Turned;
    forall m | start <= m < |grown| ensures grown[m].at <= at && Tracked(grown[m], after, next, now) {
      if m < |trail| {
        assert grown[m] == grown[..|trail|][m];
        OldTracked(turn, before, next, after, grown[m], now, at);
      } else {
        NewTracked(turn, before, next, after, grown[m], now);
      }
    }
  }

  lemma TurnedOn(turn: Turn, before: Slots, next: Turn, after: Slots, at: nat)
    requires turn.slot < 2 && at < turn.expires && Turned(turn, before, next, after, at)
    ensures next.release == turn.release && next.boot == turn.boot && at < next.expires
  {
  }

  /** Given the one way of missing a lease, which polls hold input back: all but those that miss
      it, unless the reader has a reason of its own. */
  lemma PollIsHeldIff(s: ReaderState, now: nat, sight: Sight, release: string, boot: string,
                      file: RuntimeFile, x: Moment, y: Moment)
    requires 0 < now <= x.at && PairSafe(x, y, release, boot, now)
    requires Bound(s.bound, sight.binding) == Some(boot)
             && SeenIn(sight, release, Some(boot), file, x.slots, y.slots, false)
    ensures Polled(s, now, true, sight).1 <==>
              || !Misses(x.slots, y.slots, release, boot, now)
              || now < s.last || s.needsNeutral || sight.binding.UnknownBinding?
              || (sight.first.Present? && Some(sight.first.lease.owner) != s.acknowledged)
  {
    hide Look;
  }

  lemma AlwaysHeldIff(x: Moment, y: Moment, release: string, boot: string, now: nat)
    requires 0 < now <= x.at && PairSafe(x, y, release, boot, now)
    ensures AlwaysHeld(x.slots, y.slots, release, boot, now) <==> !Misses(x.slots, y.slots, release, boot, now)
    ensures Misses(x.slots, y.slots, release, boot, now) ==> x.at + RENEW <= y.at
  {
    hide Look;
    if Misses(x.slots, y.slots, release, boot, now) {
      var f := Look(x.slots, release, boot, 0);
      var s := ReaderState(Some(boot), if f.Present? then Some(f.lease.owner) else None, 0, 0, false, false);
      var sight := Sight(Mine(boot), f, Look(y.slots, release, boot, 1));
      var file := RuntimeOf(release, boot);
      assert SeenIn(sight, release, Some(boot), file, x.slots, y.slots, false);
      PollIsHeldIff(s, now, sight, release, boot, file, x, y);
      assert !Polled(s, now, true, sight).1;
    }
  }

  /** Which polls that read slot 0 at one moment and slot 1 at the same or a later one hold input
      back, whatever else they meet: exactly those that do not meet slot 0 without a running lease
      and slot 1 in the gap of a renewal. Missing both takes a whole renewal period. */
  ghost predicate HoldsPolls(x: Moment, y: Moment, release: string, boot: string, now: nat) {
    && (AlwaysHeld(x.slots, y.slots, release, boot, now) <==> !Misses(x.slots, y.slots, release, boot, now))
    && (y.at < x.at + RENEW ==> AlwaysHeld(x.slots, y.slots, release, boot, now))
  }

  /** The same lease is running at `end`, or the writer's own last call found it running then. */
  predicate KeptUntil(w: Writer, epoch: nat, last: nat, events: seq<Event>, end: nat)
    reads w
  {
    && w.epoch == epoch
    && (|| (w.active && end < w.expires)
        || (events != [] && last < w.last == end == events[|events| - 1].at
            && forall k | 0 <= k < |events| - 1 :: events[k].at < end))
  }

  /** Through any calls of all the writers, for as long as writer `i` keeps one lease, up to the end
      of a call that loses it by failing, for every poll whose clock read `now`. */
  method InputIsHeldWhileALeaseRuns(store: Store, writers: seq<Writer>, events: seq<Event>, i: nat,
                                    ghost start: nat, ghost end: nat, ghost now: nat)
    requires Fleet(store, writers) && AllSound(store, writers, start) && i < |writers| && Leasing(writers[i], start)
    requires forall e <- events :: start <= e.at <= end && (e.Call? ==> e.writer < |writers|)
    requires forall m, n | 0 <= m < n < |events| :: events[m].at <= events[n].at
    requires 0 < now
    modifies store, writers
    ensures Grown(old(store.trail), store.trail)
    ensures KeptUntil(writers[i], old(writers[i].epoch), old(writers[i].last), events, end) ==>
              forall m, n | |old(store.trail)| <= m <= n < |store.trail| && now <= store.trail[m].at ::
                HoldsPolls(store.trail[m], store.trail[n], writers[i].release, old(writers[i].boot), now)
  {
    hide Tracked, PairSafe, Look, Turning, Turned, CoversAll, Held;
    var w := writers[i];
    ghost var first, from: nat, leased, lasting := |store.trail|, start, true, true;
    ghost var release, boot := w.release, w.boot;
    for k := 0 to |events|
      invariant Fleet(store, writers) && AllSound(store, writers, from)
      invariant from == if k == 0 then start else events[k - 1].at
      invariant first == |old(store.trail)| && Grown(old(store.trail), store.trail)
      invariant lasting ==> Safe(store.trail, first, release, boot, now)
      invariant leased ==>
                  && lasting && w.active && w.boot == boot && w.epoch == old(w.epoch) && from < w.expires
                  && Past(store.trail, first, store.slots, w.NextTurn(), now, from)
      invariant k == 0 ==> leased
      invariant !leased ==> w.epoch > old(w.epoch) || (w.epoch == old(w.epoch) && (!w.active || w.expires <= from))
      invariant w.epoch > old(w.epoch) || w.last == old(w.last) || (k > 0 && w.last <= from)
      invariant (k > 0 && old(w.last) < w.last == from && w.epoch == old(w.epoch)
                 && forall l | 0 <= l < k - 1 :: events[l].at < from) ==> lasting
    {
      ghost var e, turn, before, told := events[k], w.NextTurn(), store.slots, store.trail;
      lasting := leased && e.at < w.expires && !GivesUp(e, i);
      Step(store, writers, events[k], from);
      if lasting {
        StaysSafe(turn, before, told, store.slots, store.trail, first, now, from, e.at);
        if w.active {
          StaysTracked(turn, before, told, w.NextTurn(), store.slots, store.trail, first, now, from, e.at);
        }
      }
      leased := lasting && w.active;
      from := e.at;
    }
    if KeptUntil(w, old(w.epoch), old(w.last), events, end) {
      assert lasting;
      forall m, n | first <= m <= n < |store.trail| && now <= store.trail[m].at
        ensures HoldsPolls(store.trail[m], store.trail[n], release, boot, now)
      {
        AlwaysHeldIff(store.trail[m], store.trail[n], release, boot, now);
      }
    }
  }

  /** A renewal on time: it succeeds unless something fails, and its slot is missing meanwhile. */
  method RenewOnTime(w: Writer, now: U64) returns (ok: bool)
    requires w.Valid() && w.active && w.Holding() && LookRuntime(w.store.runtime, w.release) == Mine(w.boot)
    requires w.last <= now && w.renew <= now < w.expires && 0 < now <= MAX_U64 - LEASE
    modifies w, w.store`slots, w.store`trail, w.store`faulted
    ensures (old(w.store.faulted) ==> w.store.faulted) && (!w.store.faulted ==> ok)
    ensures w.Valid() && w.boot == old(w.boot) && w.epoch == old(w.epoch)
    ensures ok ==> w.active && w.Holding() && w.last == now && w.renew == now + RENEW && w.expires == now + LEASE
                   && w.nextSlot == 1 - old(w.nextSlot)
    ensures ok ==> Grown(old(w.store.trail), w.store.trail) && |w.store.trail| > |old(w.store.trail)|
                   && IsGap(w.store.trail[|old(w.store.trail)|], w.release, w.boot, old(w.nextSlot), now)
  {
    hide Polite, Turning, Turned, CoversAll;
    ok := w.Maintain(now);
  }

  predicate IsGap(x: Moment, release: string, boot: string, k: nat, at: nat) {
    x.at == at && Look(x.slots, release, boot, k) == Absent
  }

  /** Missing both slots takes no other fault: an undisturbed writer that renews its slots on time
      passes through two moments, a renewal period apart, at which a poll misses its running lease. */
  method StalledPollMissesTheLease(release: string, boot: string, instance: nat)
    returns (store: Store, w: Writer, ok: bool, ghost m: nat, ghost n: nat)
    requires 0 < instance
    ensures !store.faulted ==> ok
    ensures ok ==>
              && w.release == release && w.boot == boot && w.active && w.epoch == 1 && 1 + 2 * RENEW < w.expires
              && m < n < |store.trail| && store.trail[m].at == 1 + RENEW && store.trail[n].at == 1 + 2 * RENEW
              && Misses(store.trail[m].slots, store.trail[n].slots, release, boot, 1 + RENEW)
              && !AlwaysHeld(store.trail[m].slots, store.trail[n].slots, release, boot, 1 + RENEW)
  {
    hide Polite, Turning, Turned, CoversAll, AlwaysHeld, Held, Misses, PairSafe, IsGap;
    m, n := 0, 0;
    store, w, ok := Alone(release, boot, instance);
    if ok {
      m := |store.trail|;
      ok := RenewOnTime(w, 1 + RENEW);
      if ok {
        n := |store.trail|;
        ghost var gap := store.trail[m];
        ok := RenewOnTime(w, 1 + 2 * RENEW);
        if ok {
          assert store.trail[m] == store.trail[..n][m] == gap;
          TwoGaps(store.trail[m], store.trail[n], release, boot, 1 + RENEW);
        }
      }
    }
  }

  /** A writer that has just taken the lease on an empty card. */
  method Alone(release: string, boot: string, instance: nat) returns (store: Store, w: Writer, ok: bool)
    requires 0 < instance
    ensures fresh(store) && fresh(w) && w.store == store && w.release == release && (!store.faulted ==> ok)
    ensures ok ==>
              w.Valid() && w.active && w.Holding() && LookRuntime(store.runtime, release) == Mine(boot)
                && w.boot == boot
                   && w.epoch == w.last == 1 && w.renew == 1 + RENEW && w.expires == 1 + LEASE && w.nextSlot == 0
  {
    hide Polite, Turning, Turned, CoversAll, Held;
    store := new Store;
    store.runtime, store.slots, store.trail, store.faulted := RuntimeOf(release, boot), map[], [], false;
    w := new Writer(store, release, instance);
    ok := w.Acquire(1);
  }

  lemma TwoGaps(x: Moment, y: Moment, release: string, boot: string, now: nat)
    requires IsGap(x, release, boot, 0, now) && IsGap(y, release, boot, 1, now + RENEW) && 0 < now
    ensures Misses(x.slots, y.slots, release, boot, now) && !AlwaysHeld(x.slots, y.slots, release, boot, now)
    ensures x.at == now && y.at == now + RENEW
  {
    AlwaysHeldIff(x, y, release, boot, now);
  }

  // ---- Runs of polls ----

  datatype Poll = Poll(now: nat, nonNeutral: bool, sight: Sight)

  function After(polls: seq<Poll>): ReaderState {
    if polls == [] then FRESH
    else
      var p := polls[|polls| - 1];
      Polled(After(polls[..|polls| - 1]), p.now, p.nonNeutral, p.sight).0
  }

  predicate HeldBack(polls: seq<Poll>, n: nat)
    requires n < |polls|
  {
    Polled(After(polls[..n]), polls[n].now, polls[n].nonNeutral, polls[n].sight).1
  }

  /** A neutral poll that answered no. */
  predicate Cleared(polls: seq<Poll>, n: nat)
    requires n < |polls|
  {
    !polls[n].nonNeutral && !HeldBack(polls, n)
  }

  lemma AfterStep(polls: seq<Poll>, n: nat)
    requires n < |polls|
    ensures After(polls[..n + 1]) == Polled(After(polls[..n]), polls[n].now, polls[n].nonNeutral, polls[n].sight).0
  {
    assert polls[..n + 1][..n] == polls[..n];
  }

  /** A reader that blocks also waits for a neutral poll. */
  lemma {:induction false} BlockedWaits(polls: seq<Poll>)
    ensures After(polls).blocked ==> After(polls).needsNeutral
  {
    if polls != [] {
      BlockedWaits(polls[..|polls| - 1]);
    }
  }

  predicate Waits(polls: seq<Poll>, n: nat)
    requires n <= |polls|
  {
    After(polls[..n]).needsNeutral
  }

  /** Once a poll has held input back, input passes again only after a neutral poll in between
      has answered no. */
  lemma {:induction false} InputWaitsForNeutral(polls: seq<Poll>, m: nat, n: nat)
    requires m < n < |polls| && HeldBack(polls, m) && polls[n].nonNeutral && !HeldBack(polls, n)
    ensures exists j | m < j < n :: Cleared(polls, j)
  {
    BlockedWaits(polls[..m]);
    AfterStep(polls, m);
    assert Waits(polls, m + 1);
    if forall j | m < j < n :: !Cleared(polls, j) {
      StaysWaiting(polls, m + 1, n);
      assert false;
    }
  }

  lemma {:induction false} StaysWaiting(polls: seq<Poll>, m: nat, n: nat)
    requires m <= n <= |polls| && Waits(polls, m)
    requires forall j | m <= j < n :: !Cleared(polls, j)
    ensures Waits(polls, n)
    decreases n - m
  {
    if m < n {
      AfterStep(polls, m);
      assert !Cleared(polls, m);
      StaysWaiting(polls, m + 1, n);
    }
  }

  /** The owner whose lease poll `n` saw issued last, if it read the slots. */
  function Noticed(polls: seq<Poll>, n: nat): Option<Owner>
    requires n < |polls|
  {
    var s, p := After(polls[..n]), polls[n];
    if p.now == 0 || p.now < s.last || (!p.nonNeutral && p.now < s.nextPoll) || Bound(s.bound, p.sight.binding).None?
      then None
    else
      match Newest(p.sight.first, p.sight.second)
      case None => None
      case Some(lease) => Some(lease.owner)
  }

  /** Input that passes under the lease file of some owner, running or long over, was preceded by
      a neutral poll that noticed that very owner and answered no: a lease nobody saw running
      still stops the next input. */
  lemma {:induction false} InputNeedsAnAcknowledgedOwner(polls: seq<Poll>, n: nat)
    requires n < |polls| && polls[n].nonNeutral && !HeldBack(polls, n) && Noticed(polls, n).Some?
    ensures exists j | 0 <= j < n :: Cleared(polls, j) && Noticed(polls, j) == Noticed(polls, n)
  {
    AcknowledgedByNeutral(polls, n);
  }

  lemma {:induction false} AcknowledgedByNeutral(polls: seq<Poll>, n: nat)
    requires n <= |polls| && After(polls[..n]).acknowledged.Some?
    ensures exists j | 0 <= j < n :: Cleared(polls, j) && Noticed(polls, j) == After(polls[..n]).acknowledged
  {
    if n > 0 {
      AfterStep(polls, n - 1);
      var s, t := After(polls[..n - 1]), After(polls[..n]);
      if s.acknowledged == t.acknowledged {
        AcknowledgedByNeutral(polls, n - 1);
      } else {
        assert Cleared(polls, n - 1) && Noticed(polls, n - 1) == t.acknowledged;
      }
    }
  }
}
