/** Redeeming a code: the award and its place in the replay ledger stand or fall together
    (sysmodule/sysmodule_request_grants.c, with the recovery transaction of
    sysmodule/sysmodule_storage.c). Every step that asks for its `Fate` may fail, and a file that
    is replaced may be lost by that; a power loss is a request whose remaining steps all fail. */
module Redemption {
  import opened Wrappers
  import opened LedgerText
  import opened NonceLedger
  import G = GrantPlan

  const FAILURE_LIMIT: nat := 5
  const COOLDOWN_SECONDS: nat := 600
  const MAX_HISTORY: nat := 100

  datatype RuntimeState = RuntimeState(v2Failed: nat, v2CooldownUntil: int, summaryDay: nat, summaryMinutes: nat,
                                       bufferDay: Option<nat>)

  /** What a missing state file is read as. */
  const NEW_STATE: RuntimeState := RuntimeState(0, 0, 0, 0, None)

  /** What has raised a saved limit: a code, or the daily buffer of a day. */
  datatype Credit = OfCode(e: Entry) | OfBuffer(day: nat)

  /** The rules file: the weekly and scheduled limits and the override of one day. */
  datatype Rules = Rules(standing: nat -> G.DayRule, overridden: Option<(nat, G.DayRule)>)

  /** Everything the recovery transaction of a redemption copies. */
  datatype Image = Image(pctl: Option<nat>, rules: Rules, state: RuntimeState, ledger: Option<string>,
                         history: seq<Entry>)

  datatype Recovery = Recovery(owner: string, image: Image)

  /** The files in which the recovery transaction keeps its copies. */
  datatype Part = PctlPart | RulesPart | StatePart | LedgerPart | OtherPart

  /** How the token library judged a code. */
  datatype Checked = Malformed | BadSignature | Refused | Good(minutes: G.U16, nonce: nat)

  datatype Verified = Rejected | Verified(e: Entry, minutes: G.U16)

  function DayOf(c: Credit): nat {
    match c
    case OfCode(e) => e.day
    case OfBuffer(day) => day
  }

  // ---- The books ----

  /** Nothing is credited twice. */
  ghost predicate Distinct(credited: seq<Credit>) {
    forall i, j | 0 <= i < j < |credited| :: credited[i] != credited[j]
  }

  /** The credits so far against the records: nothing twice, nothing for a later day, and from
      today on a code is credited if and only if the ledger records it, the daily buffer if and
      only if the state says so. */
  ghost predicate Consistent(parse: Parser, credited: seq<Credit>, text: Option<string>, bufferDay: Option<nat>,
                             today: nat) {
    && Contents(parse, text).Some? && Appendable(text)
    && Distinct(credited)
    && (forall c <- credited :: DayOf(c) <= today)
    && (forall e: Entry :: today <= e.day ==> (OfCode(e) in credited <==> e in Contents(parse, text).value))
    && (forall d: nat :: today <= d ==> (OfBuffer(d) in credited <==> bufferDay == Some(d)))
  }

  /** The books an open transaction has copied, and whose it is. */
  datatype Copy = Copy(owner: string, credited: seq<Credit>, text: Option<string>, bufferDay: Option<nat>, day: nat)

  /** What decides about credits: the credits themselves, their records, the flag that stops
      granting, and the open transaction. */
  datatype World = World(credited: seq<Credit>, text: Option<string>, bufferDay: Option<nat>, disabled: bool,
                         copy: Option<Copy>)

  ghost predicate InOrder(parse: Parser, w: World, today: nat) {
    Consistent(parse, w.credited, w.text, w.bufferDay, today)
  }

  ghost predicate CopyInOrder(parse: Parser, copy: Option<Copy>, today: nat) {
    copy.Some? ==>
      && copy.value.day <= today
      && Consistent(parse, copy.value.credited, copy.value.text, copy.value.bufferDay, copy.value.day)
  }

  /** Nothing is credited twice, and the books are in order or a transaction is open that was begun
      on books in order. */
  ghost predicate Guarded(parse: Parser, w: World, today: nat) {
    Distinct(w.credited) && CopyInOrder(parse, w.copy, today) && (InOrder(parse, w, today) || w.copy.Some?)
  }

  /** A request with this id would be let in on books out of order: it carries the id of the open
      transaction, and no flag stands. */
  ghost predicate Exposed(parse: Parser, w: World, id: string, today: nat) {
    !w.disabled && w.copy.Some? && w.copy.value.owner == id && !InOrder(parse, w, today)
  }

  /** Without a copy of it, a file was lost that held a record of today: the ledger with a code, or
      the state with the mark of the daily buffer. */
  ghost predicate Bereft(parse: Parser, a: World, b: World, today: nat) {
    && a.copy.None? && b.copy.None? && b.credited == a.credited
    && (|| (b.text == None && Contents(parse, a.text).Some? && Kept(Contents(parse, a.text).value, today) != [])
        || (b.bufferDay == None && a.bufferDay == Some(today)))
  }

  lemma ClearedIsGuardedIff(parse: Parser, w: World, today: nat)
    requires w.copy.None?
    ensures Guarded(parse, w, today) <==> InOrder(parse, w, today)
  {
  }

  /** What a request with this id does to the books. */
  ghost predicate RequestStep(parse: Parser, id: string, today: nat, a: World, b: World) {
    Guarded(parse, a, today) && !Exposed(parse, a, id, today) ==> Guarded(parse, b, today) || Bereft(parse, a, b, today)
  }

  /** What a rollback of the open transaction leaves: the transaction is still there, the credits
      being those of now, those copied, or none; or everything is as copied. */
  ghost predicate RolledBack(a: World, b: World)
    requires a.copy.Some?
  {
    || (b.copy == a.copy && b.credited in {a.credited, a.copy.value.credited, []})
    || (b.copy == None && AsCopied(b, a.copy.value))
  }

  predicate AsCopied(w: World, copy: Copy) {
    w.credited == copy.credited && w.text == copy.text && w.bufferDay == copy.bufferDay
  }

  lemma RollbackKeepsGuard(parse: Parser, a: World, b: World, today: nat)
    requires a.copy.Some? && RolledBack(a, b) && Distinct(a.credited) && CopyInOrder(parse, a.copy, today)
    ensures Guarded(parse, b, today)
  {
    hide Appendable, Contents;
  }

  lemma ConsistentLater(parse: Parser, credited: seq<Credit>, text: Option<string>, bufferDay: Option<nat>,
                        today: nat, later: nat)
    requires Consistent(parse, credited, text, bufferDay, today) && today <= later
    ensures Consistent(parse, credited, text, bufferDay, later)
  {
    hide Appendable, Contents;
  }

  /** Two steps back in a row are one. */
  lemma RolledBackTwice(a: World, b: World, c: World)
    requires a.copy.Some? && RolledBack(a, b) && (if b.copy.Some? then RolledBack(b, c) else c == b)
    ensures RolledBack(a, c)
  {
  }

  /** A lost file that held a record of today leaves the books out of order, and any other does not. */
  lemma LossIff(parse: Parser, a: World, today: nat)
    requires InOrder(parse, a, today)
    ensures InOrder(parse, a.(text := None), today) <==> Kept(Contents(parse, a.text).value, today) == []
    ensures InOrder(parse, a.(bufferDay := None), today) <==> a.bufferDay != Some(today)
  {
    var es := Contents(parse, a.text).value;
    assert Contents(parse, None) == Some([]) && Appendable(None);
    forall e: Entry ensures e in Kept(es, today) <==> e in es && today <= e.day {
      KeptAnswers(es, today, e);
    }
    if Kept(es, today) != [] {
      var e := Kept(es, today)[0];
      assert e in Kept(es, today) && e in es;
      assert OfCode(e) in a.credited;
      assert e !in Contents(parse, None).value;
    }
    if a.bufferDay == Some(today) {
      assert OfBuffer(today) in a.credited;
    }
    assert a.bufferDay.Some? && today <= a.bufferDay.value ==> OfBuffer(a.bufferDay.value) in a.credited;
  }

  /** So being bereft is exactly the way in which losing a file can hurt. */
  lemma BereftIsOutOfOrder(parse: Parser, a: World, b: World, today: nat)
    requires InOrder(parse, a, today) && Bereft(parse, a, b, today)
    ensures !InOrder(parse, b, today) && !Guarded(parse, b, today)
  {
    var es := Contents(parse, a.text).value;
    if a.bufferDay == Some(today) && b.bufferDay == None {
      assert OfBuffer(today) in a.credited;
    } else {
      var e := Kept(es, today)[0];
      KeptAnswers(es, today, e);
      assert OfCode(e) in a.credited;
      assert e !in Contents(parse, b.text).value;
    }
  }

  lemma ConsistentIsReadable(parse: Parser, credited: seq<Credit>, text: Option<string>, bufferDay: Option<nat>,
                             today: nat)
    requires Consistent(parse, credited, text, bufferDay, today)
    ensures Contents(parse, text).Some? && Appendable(text) && Distinct(credited)
    ensures forall e: Entry :: today <= e.day ==> (OfCode(e) in credited <==> e in Contents(parse, text).value)
    ensures forall d: nat :: today <= d ==> (OfBuffer(d) in credited <==> bufferDay == Some(d))
  {
  }

  /** The ledger may be rewritten as long as it gives the same answers. */
  lemma SameRecordsIff(parse: Parser, credited: seq<Credit>, a: Option<string>, b: Option<string>,
                       bufferDay: Option<nat>, today: nat)
    requires Contents(parse, a).Some? && (Consistent(parse, credited, a, bufferDay, today) ==> Appendable(b))
    requires Contents(parse, b) == Some(Kept(Contents(parse, a).value, today))
    ensures Consistent(parse, credited, a, bufferDay, today) ==> Consistent(parse, credited, b, bufferDay, today)
    ensures Appendable(a) && Consistent(parse, credited, b, bufferDay, today) ==>
              Consistent(parse, credited, a, bufferDay, today)
  {
    hide Appendable, Contents;
    forall e: Entry | today <= e.day ensures e in Contents(parse, b).value <==> e in Contents(parse, a).value {
      KeptAnswers(Contents(parse, a).value, today, e);
    }
  }

  /** A new code and its record: the books are in order behind them if and only if they were before. */
  lemma OneMoreCreditIff(parse: Parser, prior: seq<Credit>, before: Option<string>, after: Option<string>,
                         bufferDay: Option<nat>, e: Entry)
    requires Contents(parse, before).Some? && e !in Contents(parse, before).value && Appendable(before)
    requires Contents(parse, after) == Some(Contents(parse, before).value + [e]) && Appendable(after)
    ensures Consistent(parse, prior + [OfCode(e)], after, bufferDay, e.day)
            <==> Consistent(parse, prior, before, bufferDay, e.day)
  {
    hide Appendable, Contents;
    var more, c := prior + [OfCode(e)], OfCode(e);
    assert forall x :: x in more <==> x in prior || x == c;
    assert more[|prior|] == c && forall i | 0 <= i < |prior| :: more[i] == prior[i];
    if Consistent(parse, prior, before, bufferDay, e.day) {
      assert c !in prior;
    }
    if Consistent(parse, more, after, bufferDay, e.day) {
      assert c !in prior;
    }
  }

  lemma DistinctCredit(parse: Parser, prior: seq<Credit>, text: Option<string>, bufferDay: Option<nat>, e: Entry)
    requires Consistent(parse, prior, text, bufferDay, e.day) && e !in Contents(parse, text).value
    ensures OfCode(e) !in prior && Distinct(prior + [OfCode(e)])
  {
    hide Appendable, Contents;
  }

  /** A mark of a day that is still to come is overwritten by the next claim. */
  function MarkSoFar(bufferDay: Option<nat>, today: nat): Option<nat> {
    if bufferDay.Some? && bufferDay.value > today then None else bufferDay
  }

  /** A claimed buffer and its mark: the books are in order behind them if and only if they were
      before, a mark of a later day disregarded. */
  lemma OneMoreBufferIff(parse: Parser, prior: seq<Credit>, text: Option<string>, bufferDay: Option<nat>, today: nat)
    requires bufferDay != Some(today)
    ensures Consistent(parse, prior + [OfBuffer(today)], text, Some(today), today)
            <==> Consistent(parse, prior, text, MarkSoFar(bufferDay, today), today)
    ensures Consistent(parse, prior, text, bufferDay, today) ==>
              && MarkSoFar(bufferDay, today) == bufferDay
              && OfBuffer(today) !in prior && Distinct(prior + [OfBuffer(today)])
  {
    hide Appendable, Contents;
    var more, c, mark := prior + [OfBuffer(today)], OfBuffer(today), MarkSoFar(bufferDay, today);
    assert forall x :: x in more <==> x in prior || x == c;
    assert more[|prior|] == c && forall i | 0 <= i < |prior| :: more[i] == prior[i];
    if Consistent(parse, prior, text, bufferDay, today) {
      var day := if bufferDay.Some? then bufferDay.value else 0;
      assert today <= day ==> (OfBuffer(day) in prior <==> bufferDay == Some(day));
    }
    if Consistent(parse, prior, text, mark, today) {
      assert c !in prior;
    }
    if Consistent(parse, more, text, Some(today), today) {
      assert c !in prior;
      forall d: nat | today <= d ensures OfBuffer(d) in prior <==> mark == Some(d) {
        assert OfBuffer(d) in more <==> Some(today) == Some(d);
      }
    }
  }

  /** Two ledgers that answer alike from today on keep the same books in order. */
  lemma SameAnswersIff(parse: Parser, credited: seq<Credit>, a: Option<string>, b: Option<string>,
                       bufferDay: Option<nat>, today: nat)
    requires Contents(parse, a).Some? && Contents(parse, b).Some? && Appendable(a) && Appendable(b)
    requires forall e: Entry | today <= e.day :: e in Contents(parse, b).value <==> e in Contents(parse, a).value
    ensures Consistent(parse, credited, b, bufferDay, today) <==> Consistent(parse, credited, a, bufferDay, today)
  {
    hide Appendable, Contents;
  }

  // ---- The sysmodule ----

  ghost predicate Lawful(rules: Rules) {
    && (forall d: nat :: G.WithinADay(rules.standing(d)))
    && (rules.overridden.Some? ==> G.WithinADay(rules.overridden.value.1))
  }

  function TodayOf(rules: Rules, day: nat): G.DayRule {
    if rules.overridden.Some? && rules.overridden.value.0 == day then rules.overridden.value.1 else rules.standing(day)
  }

  class Sysmodule {
    const ledger: Ledger
    /** What a missing rules file is read as. */
    const defaults: Rules
    var pctl: Option<nat>
    var rules: Rules
    var state: RuntimeState
    var history: seq<Entry>
    var recovery: Option<Recovery>
    /** The copies of the open transaction that are needed and gone: its removal stopped half way. */
    var holes: set<Part>
    var disabled: bool
    /** The credits whose minutes are in the saved rules; `kept` are those in the rules copied by
        the recovery transaction, begun on `keptDay`. */
    ghost var credited: seq<Credit>
    ghost var kept: seq<Credit>
    ghost var keptDay: nat
    /** Some step has failed. */
    ghost var faulted: bool

    /** Whatever the ledger already records counts as credited. */
    constructor (ledger: Ledger, rules: Rules, defaults: Rules, ghost today: nat)
      requires GoodParser(ledger.parse) && ledger.Entries().Some? && Appendable(ledger.text)
      requires forall e <- ledger.Entries().value :: e.day <= today
      requires Lawful(rules) && Lawful(defaults)
      ensures Sane() && InOrder(ledger.parse, View(), today) && Guarded(ledger.parse, View(), today)
      ensures !disabled && recovery == None && holes == {} && !faulted && state == NEW_STATE
      ensures this.ledger == ledger && this.rules == rules && this.defaults == defaults
      ensures forall e: Entry :: OfCode(e) in credited <==> e in ledger.Entries().value
      ensures ledger.Entries() == Some([]) ==> credited == []
    {
      this.ledger, this.rules, this.defaults := ledger, rules, defaults;
      pctl, history, recovery, holes, disabled, state := None, [], None, {}, false, NEW_STATE;
      kept, keptDay, faulted := [], 0, false;
      ghost var es := Kept(ledger.Entries().value, 0);
      credited := seq(|es|, i requires 0 <= i < |es| => OfCode(es[i]));
      new;
      KeptInOrder(ledger.Entries().value, 0);
      forall e: Entry ensures OfCode(e) in credited <==> e in ledger.Entries().value {
        KeptAnswers(ledger.Entries().value, 0, e);
        if e in es {
          var i :| 0 <= i < |es| && es[i] == e;
          assert credited[i] == OfCode(e);
        }
      }
    }

    ghost predicate Sane()
      reads this`rules, this`recovery
    {
      GoodParser(ledger.parse) && Lawful(defaults) && Lawful(rules)
        && (recovery.Some? ==> Lawful(recovery.value.image.rules))
    }

    ghost function View(): World
      reads this`credited, this`state, this`disabled, this`recovery, this`kept, this`keptDay, ledger
    {
      World(credited, ledger.text, state.bufferDay, disabled,
            match recovery
            case None => None
            case Some(r) => Some(Copy(r.owner, kept, r.image.ledger, r.image.state.bufferDay, keptDay)))
    }

    ghost function Current(): Image
      reads this`pctl, this`rules, this`state, this`history, ledger
    {
      Image(pctl, rules, state, ledger.text, history)
    }

    /** Whether the open transaction is of a request with this id. */
    predicate Owns(id: string)
      reads this`recovery
    {
      recovery.Some? && recovery.value.owner == id
    }

    // ---- Single steps ----

    /** Whether the next step fails. */
    method Fails() returns (fails: bool)
      modifies this`faulted
      ensures faulted == (old(faulted) || fails)
    {
      fails := *;
      if fails {
        faulted := true;
      }
    }

    /** What becomes of the next file to be replaced. */
    method Meet() returns (fate: Fate)
      modifies this`faulted
      ensures faulted == (old(faulted) || !fate.Took?)
    {
      fate := *;
      if !fate.Took? {
        faulted := true;
      }
    }

    method SaveState(next: RuntimeState) returns (ok: bool)
      modifies this`faulted, this`state
      ensures if ok then state == next else state == old(state) || state == NEW_STATE
      ensures (old(faulted) ==> faulted) && (!faulted ==> ok)
    {
      var fate := Meet();
      ok := fate.Took?;
      state := Replaced(fate, state, next, NEW_STATE);
    }

    /** The credit itself: the limit and the record of who raised it are one file. */
    method SaveRules(next: (nat, G.DayRule), ghost c: Credit) returns (ok: bool)
      requires Lawful(rules) && Lawful(defaults) && G.WithinADay(next.1)
      modifies this`faulted, this`rules, this`credited
      ensures Lawful(rules)
      ensures ok ==> rules == old(rules).(overridden := Some(next)) && credited == old(credited) + [c]
      ensures !ok ==> (rules == old(rules) && credited == old(credited)) || (rules == defaults && credited == [])
      ensures (old(faulted) ==> faulted) && (!faulted ==> ok)
    {
      var fate := Meet();
      ok := fate.Took?;
      rules := Replaced(fate, rules, rules.(overridden := Some(next)), defaults);
      credited := Replaced(fate, credited, credited + [c], []);
    }

    /** The note that granting must stop; nobody looks at whether it could be written. */
    method StopGranting()
      modifies this`faulted, this`disabled
      ensures (old(faulted) ==> faulted) && (!faulted ==> disabled)
    {
      var fate := Meet();
      disabled := Replaced(fate, disabled, true, false);
    }

    method OwnedBy(id: string) returns (ok: bool)
      modifies this`faulted
      ensures ok ==> Owns(id)
      ensures (old(faulted) ==> faulted) && (!faulted ==> (ok <==> Owns(id)))
    {
      var unread := Fails();
      ok := !unread && recovery.Some? && recovery.value.owner == id;
    }

    // ---- The recovery transaction ----

    /** When nothing fails, a transaction can be opened (or is open already) exactly then. */
    ghost predicate Beginnable(id: string, today: nat)
      reads this`recovery, ledger
    {
      if recovery.Some? then recovery.value.owner == id
      else ledger.Entries().Some? && Fits(Kept(ledger.Entries().value, today))
           && Copyable(Compacted(ledger.parse, ledger.text, today))
    }

    /** From today on the ledger gives the same answers as before. */
    twostate predicate SameAnswers(today: nat)
      reads ledger
    {
      && old(ledger.Entries()).Some? && ledger.Entries().Some?
      && (old(Appendable(ledger.text)) ==> Appendable(ledger.text))
      && forall e: Entry | today <= e.day :: e in ledger.Entries().value <==> e in old(ledger.Entries().value)
    }

    /** The compaction keeps the books in order, unless it loses the ledger. */
    method CompactLedger(today: nat) returns (ok: bool)
      requires GoodParser(ledger.parse)
      modifies this`faulted, ledger
      ensures ok ==> SameAnswers(today)
      ensures ledger.text == old(ledger.text) || ok || (ledger.text == None && old(ledger.Entries()).Some?)
      ensures old(InOrder(ledger.parse, View(), today)) ==>
                (InOrder(ledger.parse, View(), today)
                 <==> ok || ledger.text == old(ledger.text) || Kept(old(ledger.Entries()).value, today) == [])
      ensures ok && old(Appendable(ledger.text)) ==>
                (InOrder(ledger.parse, View(), today) <==> old(InOrder(ledger.parse, View(), today)))
      ensures (old(faulted) ==> faulted)
              && (!faulted ==> (ok <==> old(ledger.Entries()).Some? && Fits(Kept(old(ledger.Entries()).value, today))))
      ensures ok ==> old(ledger.Entries()).Some? && ledger.text == Compacted(ledger.parse, old(ledger.text), today)
    {
      hide Consistent, Contents, GoodParser, Appendable, Compacted;
      var readFault := Fails();
      var fate := Meet();
      ghost var a := View();
      var compacted := ledger.Compact(today, readFault, !fate.Took?, fate.Lost?);
      ok := compacted == Done;
      if old(InOrder(ledger.parse, View(), today)) {
        ConsistentIsReadable(ledger.parse, credited, a.text, a.bufferDay, today);
        if !ok {
          LossIff(ledger.parse, a, today);
        }
      }
      if ok {
        if InOrder(ledger.parse, a, today) {
          ConsistentIsReadable(ledger.parse, credited, a.text, a.bufferDay, today);
        }
        SameRecordsIff(ledger.parse, credited, a.text, ledger.text, a.bufferDay, today);
        forall e: Entry
          ensures e in ledger.Entries().value <==> e in Contents(ledger.parse, a.text).value && today <= e.day {
          KeptAnswers(Contents(ledger.parse, a.text).value, today, e);
        }
      }
    }

    /** Compacts the ledger and copies everything that is not too long to be copied; a transaction
        left behind by this very request is taken up again, anyone else's stops the request. */
    method RecoveryBegin(id: string, today: nat) returns (ok: bool)
      requires Sane()
      modifies this`faulted, this`recovery, this`holes, this`kept, this`keptDay, ledger
      ensures Sane()
      ensures ok ==> Owns(id) && (old(ledger.Entries()).Some? ==> SameAnswers(today))
      ensures ok && !old(Owns(id)) ==> old(recovery).None? && recovery.value.image == Current() && kept == credited
                                       && old(ledger.Entries()).Some?
                                       && ledger.text == Compacted(ledger.parse, old(ledger.text), today)
      ensures !ok ==> recovery == old(recovery) && kept == old(kept) && keptDay == old(keptDay)
      ensures old(recovery.Some?) ==> recovery == old(recovery) && kept == old(kept) && keptDay == old(keptDay)
                                      && ledger.text == old(ledger.text) && (ok ==> old(Owns(id)))
      ensures old(InOrder(ledger.parse, View(), today) && CopyInOrder(ledger.parse, View().copy, today)) ==>
                && CopyInOrder(ledger.parse, View().copy, today)
                && (InOrder(ledger.parse, View(), today)
                    || (!ok && Bereft(ledger.parse, old(View()), View(), today)))
      ensures ok && old(Appendable(ledger.text)) ==>
                (InOrder(ledger.parse, View(), today) <==> old(InOrder(ledger.parse, View(), today)))
      ensures (old(faulted) ==> faulted) && (!faulted ==> (ok <==> old(Beginnable(id, today))))
    {
      hide Consistent, Contents, GoodParser, Appendable, Compacted, Lawful;
      if recovery.Some? {
        ok := OwnedBy(id);
        return;
      }
      ok := CompactLedger(today);
      if !ok {
        return;
      }
      var fails := Fails();
      if fails || |Before(ledger.text)| >= FILE_SIZE {
        return false;
      }
      recovery := Some(Recovery(id, Image(pctl, rules, state, ledger.text, history)));
      holes, kept, keptDay := {}, credited, today;
      ok := true;
    }

    /** Removing the transaction may fail silently, and half way: its files go one by one in no
        particular order, and it is open as long as the one that names the owner stands. */
    method RecoveryClear()
      modifies this`faulted, this`recovery, this`holes
      ensures recovery == None || recovery == old(recovery)
      ensures old(holes) <= holes
      ensures (old(faulted) ==> faulted) && (!faulted ==> recovery == None)
    {
      var fails := Fails();
      var unnamed, gone: set<Part> := *, *;
      holes := holes + gone;
      if !fails || unnamed {
        recovery := None;
      }
    }

    /** What becomes of a file that is put back from its copy; without the copy it is left alone. */
    method MeetPart(part: Part) returns (fate: Fate)
      modifies this`faulted
      ensures part in holes ==> fate.Failed? && faulted == old(faulted)
      ensures part !in holes ==> faulted == (old(faulted) || !fate.Took?)
    {
      if part in holes {
        return Failed;
      }
      fate := Meet();
    }

    method RestoreRules(copy: Rules) returns (ok: bool)
      requires Lawful(rules) && Lawful(defaults) && Lawful(copy)
      modifies this`faulted, this`rules, this`credited
      ensures Lawful(rules) && credited in {old(credited), kept, []}
      ensures ok ==> rules == copy && credited == kept && RulesPart !in holes
      ensures (old(faulted) ==> faulted) && (!faulted ==> (ok <==> RulesPart !in holes))
    {
      var fate := MeetPart(RulesPart);
      ok := fate.Took?;
      rules := Replaced(fate, rules, copy, defaults);
      credited := Replaced(fate, credited, kept, []);
    }

    method RestoreLedger(copy: Option<string>) returns (ok: bool)
      modifies this`faulted, ledger
      ensures ok ==> ledger.text == copy && LedgerPart !in holes
      ensures (old(faulted) ==> faulted) && (!faulted ==> (ok <==> LedgerPart !in holes))
    {
      var fate := MeetPart(LedgerPart);
      ok := fate.Took?;
      ledger.text := Replaced(fate, ledger.text, copy, None);
    }

    method RestoreState(copy: RuntimeState) returns (ok: bool)
      modifies this`faulted, this`state
      ensures if ok then state == copy && StatePart !in holes else state == old(state) || state == NEW_STATE
      ensures (old(faulted) ==> faulted) && (!faulted ==> (ok <==> StatePart !in holes))
    {
      var fate := MeetPart(StatePart);
      ok := fate.Took?;
      state := Replaced(fate, state, copy, NEW_STATE);
    }

    lemma OnlyTheseParts(parts: set<Part>)
      ensures parts == {} <==> PctlPart !in parts && RulesPart !in parts && StatePart !in parts
                               && LedgerPart !in parts && OtherPart !in parts
    {
      if parts != {} {
        var part :| part in parts;
        assert part.PctlPart? || part.RulesPart? || part.StatePart? || part.LedgerPart? || part.OtherPart?;
      }
    }

    /** Part by part; when one of them cannot be put back, the rest still is. */
    method RestoreAll(image: Image) returns (ok: bool)
      requires Lawful(rules) && Lawful(defaults) && Lawful(image.rules) && PctlPart !in holes
      modifies this`faulted, this`pctl, this`rules, this`state, this`history, this`credited, ledger
      ensures Lawful(rules) && credited in {old(credited), kept, []}
      ensures ok ==> Current() == image && credited == kept && holes == {}
      ensures (old(faulted) ==> faulted) && (!faulted ==> (ok <==> holes == {}))
    {
      hide Lawful;
      var fails := Fails();
      if !fails {
        pctl := image.pctl;
      }
      var whole := RestoreRules(image.rules);
      ok := !fails && whole;
      whole := RestoreState(image.state);
      ok := ok && whole;
      whole := RestoreLedger(image.ledger);
      ok := ok && whole;
      var fate := MeetPart(OtherPart);
      history := Replaced(fate, history, image.history, []);
      ok := ok && fate.Took?;
      OnlyTheseParts(holes);
    }

    /** Puts everything back. When some of it cannot be put back, the transaction stays; one with
        holes stays whatever is tried. */
    method RecoveryRollback() returns (ok: bool)
      requires Sane()
      modifies this`faulted, this`pctl, this`rules, this`state, this`history, this`recovery, this`holes,
               this`credited, ledger
      ensures Sane()
      ensures old(recovery).None? ==> ok && Current() == old(Current()) && View() == old(View()) && recovery == None
      ensures ok && old(recovery).Some? ==> Current() == old(recovery).value.image && credited == kept
      ensures ok ==> recovery == None || recovery == old(recovery)
      ensures !ok ==> recovery == old(recovery)
      ensures old(recovery).Some? ==> RolledBack(old(View()), View())
      ensures old(recovery).Some? && old(holes) != {} ==> !ok && recovery == old(recovery) && holes == old(holes)
      ensures (old(faulted) ==> faulted) && (!faulted && old(holes) == {} ==> ok && recovery == None)
    {
      hide GoodParser, Lawful;
      if recovery.None? {
        return true;
      }
      var unread := Fails();
      if unread || PctlPart in holes {
        return false;
      }
      ok := RestoreAll(recovery.value.image);
      if ok {
        RecoveryClear();
      }
    }

    /** Reports an error; a transaction of this request that is still open is rolled back. */
    method FinishWithError(id: string)
      requires Sane()
      modifies this`faulted, this`pctl, this`rules, this`state, this`history, this`recovery, this`holes, this`credited,
               this`disabled, ledger
      ensures Sane()
      ensures !old(Owns(id)) ==> Current() == old(Current()) && View() == old(View()) && recovery == old(recovery)
      ensures recovery == None || recovery == old(recovery)
      ensures old(Owns(id)) ==> RolledBack(old(View()), View())
      ensures old(Owns(id)) && recovery == None ==> Current() == old(recovery).value.image && credited == kept
      ensures old(faulted) ==> faulted
    {
      if recovery.Some? {
        var owned := OwnedBy(id);
        if owned {
          RollBackOrStop();
        }
      }
    }

    method RollBackOrStop()
      requires Sane() && recovery.Some?
      modifies this`faulted, this`pctl, this`rules, this`state, this`history, this`recovery, this`holes, this`credited,
               this`disabled, ledger
      ensures Sane()
      ensures recovery == None || recovery == old(recovery)
      ensures RolledBack(old(View()), View())
      ensures recovery == None ==> Current() == old(recovery).value.image && credited == kept
      ensures old(holes) != {} ==> recovery == old(recovery) && holes == old(holes)
      ensures (old(faulted) ==> faulted)
              && (!faulted && old(holes) == {} ==> recovery == None && disabled == old(disabled))
    {
      hide GoodParser, Lawful;
      var restored := RecoveryRollback();
      if !restored {
        StopGranting();
      }
    }

    /** The way out of every failure behind the start of the transaction. */
    method Abort(id: string)
      requires Sane() && Owns(id)
      modifies this`faulted, this`pctl, this`rules, this`state, this`history, this`recovery, this`holes, this`credited,
               this`disabled, ledger
      ensures Sane()
      ensures recovery == None || recovery == old(recovery)
      ensures RolledBack(old(View()), View())
      ensures recovery == None ==> Current() == old(recovery).value.image && credited == kept
      ensures old(faulted) ==> faulted
    {
      hide GoodParser, Lawful, RolledBack;
      ghost var a := View();
      RollBackOrStop();
      ghost var b := View();
      FinishWithError(id);
      RolledBackTwice(a, b, View());
    }

    // ---- The steps of a redemption ----

    twostate predicate AsBefore()
      reads this
    {
      && pctl == old(pctl) && rules == old(rules) && state == old(state) && history == old(history)
      && credited == old(credited)
    }

    /** Copies everything, then sets the day's limit; a failure behind the copy is rolled back. */
    method ApplyTarget(id: string, today: nat, minutes: nat) returns (ok: bool)
      requires Sane()
      modifies this`faulted, this`pctl, this`rules, this`state, this`history, this`recovery, this`holes, this`kept,
               this`keptDay, this`credited, this`disabled, ledger
      ensures Sane()
      ensures ok ==>
                && Owns(id) && disabled == old(disabled) && pctl == Some(minutes) && rules == old(rules)
                && state == old(state) && history == old(history) && credited == old(credited)
                && (old(ledger.Entries()).Some? ==> SameAnswers(today))
      ensures !old(Owns(id)) && ok ==> old(ledger.Entries()).Some?
      ensures !old(Owns(id)) && Owns(id) ==>
                && kept == old(credited) && recovery.value.image.rules == old(rules)
                && recovery.value.image
                  == Image(old(pctl), old(rules), old(state), recovery.value.image.ledger, old(history))
      ensures !old(Owns(id)) && !ok ==> Owns(id) || AsBefore()
      ensures old(recovery).Some? ==>
                && kept == old(kept) && keptDay == old(keptDay) && (recovery == None || recovery == old(recovery))
                && (ok ==> recovery == old(recovery) && ledger.text == old(ledger.text))
      ensures old(Owns(id)) && !ok && recovery == None ==> Current() == old(recovery).value.image && credited == kept
      ensures old(InOrder(ledger.parse, View(), today) && CopyInOrder(ledger.parse, View().copy, today)) ==>
                && CopyInOrder(ledger.parse, View().copy, today)
                && (ok ==> InOrder(ledger.parse, View(), today))
                && (Guarded(ledger.parse, View(), today) || (!ok && Bereft(ledger.parse, old(View()), View(), today)))
      ensures ok && old(Appendable(ledger.text)) ==>
                (InOrder(ledger.parse, View(), today) <==> old(InOrder(ledger.parse, View(), today)))
      ensures (old(faulted) ==> faulted) && (!faulted ==> (ok <==> old(Beginnable(id, today))))
    {
      hide Consistent, Contents, GoodParser, Appendable, Compacted, Lawful, RolledBack;
      ok := RecoveryBegin(id, today);
      if !ok {
        if InOrder(ledger.parse, View(), today) {
          ConsistentIsReadable(ledger.parse, credited, ledger.text, state.bufferDay, today);
        }
        return;
      }
      ghost var begun := View();
      ok := WriteTarget(minutes);
      if !ok {
        RollBackOrStop();
      }
      if InOrder(ledger.parse, begun, today) {
        ConsistentIsReadable(ledger.parse, begun.credited, begun.text, begun.bufferDay, today);
        if !ok && CopyInOrder(ledger.parse, begun.copy, today) {
          RollbackKeepsGuard(ledger.parse, begun, View(), today);
        }
      }
    }

    /** The backup, the two looks at the clock, and the write between them. */
    method WriteTarget(minutes: nat) returns (ok: bool)
      modifies this`faulted, this`pctl
      ensures ok ==> pctl == Some(minutes)
      ensures (old(faulted) ==> faulted) && (!faulted ==> ok)
    {
      var unsafe := Fails();
      if unsafe {
        return false;
      }
      var refused := Fails();
      if !refused {
        pctl := Some(minutes);
      }
      var late := Fails();
      ok := !refused && !late;
    }

    /** A code that is good, not locked out, and not recorded in a readable ledger. */
    ghost predicate Redeemable(v2: bool, c: Checked, today: nat, seconds: int)
      reads this`state, ledger
    {
      && c.Good? && (v2 ==> state.v2CooldownUntil <= seconds) && ledger.Entries().Some?
      && Entry(today, c.nonce, if v2 then 2 else 1) !in ledger.Entries().value
    }

    /** Short codes lock out for ten minutes after five bad ones; a code whose signature is bad
        is checked once more against the configuration as it is on disk. */
    method VerifyOfflineCode(v2: bool, first: Checked, reloaded: bool, again: Checked, today: nat, seconds: int)
      returns (r: Verified)
      requires GoodParser(ledger.parse) && today <= MAX_DAY
      requires forall c | c in {first, again} && c.Good? :: c.nonce <= (if v2 then MAX_NONCE_V2 else MAX_NONCE)
      modifies this`faulted, this`state
      ensures r.Verified? ==>
                && FitsToday(r.e, v2, today) && ledger.Entries().Some? && r.e !in ledger.Entries().value
                && FinalCheck(first, reloaded, again) == Good(r.minutes, r.e.nonce) && state == old(state)
                && (v2 ==> state.v2CooldownUntil <= seconds)
      ensures !v2 || old(state).v2CooldownUntil > seconds ==> state == old(state)
      ensures state == old(state) || (v2 && FinalCheck(first, reloaded, again) in {Malformed, BadSignature}
                                      && state in {OneMoreFailure(old(state), seconds), NEW_STATE})
      ensures (old(faulted) ==> faulted)
              && (!faulted ==>
                    (r.Verified? <==> old(Redeemable(v2, FinalCheck(first, reloaded, again), today, seconds))))
    {
      var st := state;
      if v2 {
        var unread := Fails();
        if unread {
          return Rejected;
        }
        if st.v2CooldownUntil > seconds {
          return Rejected;
        }
        if st.v2CooldownUntil != 0 {
          st := st.(v2Failed := 0, v2CooldownUntil := 0);
        }
      }
      var c := first;
      if c.BadSignature? && reloaded {
        c := again;
      }
      if v2 && (c.Malformed? || c.BadSignature?) {
        if st.v2Failed < FAILURE_LIMIT {
          st := st.(v2Failed := st.v2Failed + 1);
        }
        if st.v2Failed >= FAILURE_LIMIT {
          st := st.(v2CooldownUntil := seconds + COOLDOWN_SECONDS);
        }
        var _ := SaveState(st);
        return Rejected;
      }
      if !c.Good? {
        return Rejected;
      }
      var fault := Fails();
      var version := if v2 then 2 else 1;
      var answer := ledger.CheckNonceUsed(today, c.nonce, version, fault);
      if answer.ReadFailed? || answer.used {
        return Rejected;
      }
      r := Verified(Entry(today, c.nonce, version), c.minutes);
    }

    /** From the applied target to the consumed code. Whatever fails is rolled back; only a run
        in which every step succeeded leaves the code credited and recorded. */
    method Redeem(id: string, v2: bool, e: Entry, today: nat, total: G.U16, effective: nat)
      returns (granted: bool)
      requires Sane() && Sound(e) && e.day == today && total <= G.MAX_MINUTES
      requires ledger.Entries().Some? && e !in ledger.Entries().value
      modifies this`faulted, this`pctl, this`rules, this`state, this`history, this`recovery, this`holes, this`kept,
               this`keptDay, this`credited, this`disabled, ledger
      ensures Sane()
      ensures granted ==>
                && disabled == old(disabled) && pctl == Some(total as nat)
                && rules == old(rules).(overridden := Some((today, G.Limit(total))))
                && credited == old(credited) + [OfCode(e)]
                && (old(Appendable(ledger.text)) ==> ledger.Entries().Some? && e in ledger.Entries().value)
      ensures !old(Owns(id)) && !granted ==> Owns(id) || AsBefore()
      ensures old(InOrder(ledger.parse, View(), today) && CopyInOrder(ledger.parse, View().copy, today)) ==>
                && (granted ==> InOrder(ledger.parse, View(), today) && OfCode(e) !in old(credited))
                && (Guarded(ledger.parse, View(), today)
                    || (!granted && Bereft(ledger.parse, old(View()), View(), today)))
      ensures granted && old(Appendable(ledger.text)) ==>
                (InOrder(ledger.parse, View(), today) <==> old(InOrder(ledger.parse, View(), today)))
      ensures (old(faulted) ==> faulted)
              && (!faulted ==> (granted <==> old(Beginnable(id, today))) && (granted ==> recovery == None))
    {
      hide Consistent, Contents, GoodParser, Appendable, Compacted, Lawful, RolledBack, Sound;
      if old(InOrder(ledger.parse, View(), today)) {
        ConsistentIsReadable(ledger.parse, credited, ledger.text, state.bufferDay, today);
      }
      granted := ApplyTarget(id, today, total);
      if !granted {
        ghost var begun := View();
        FinishWithError(id);
        KeepsGuard(begun, View(), today);
        return;
      }
      granted := Raise(id, v2, e, today, total, effective);
    }

    /** Behind the applied target: a look at it, the saved rules, and the rest. */
    method Raise(id: string, v2: bool, e: Entry, today: nat, total: G.U16, effective: nat)
      returns (granted: bool)
      requires Sane() && Owns(id) && Sound(e) && e.day == today && total <= G.MAX_MINUTES
      requires ledger.Entries().Some? && e !in ledger.Entries().value
      modifies this`faulted, this`pctl, this`rules, this`state, this`history, this`recovery, this`holes, this`credited,
               this`disabled, ledger
      ensures Sane()
      ensures granted ==>
                && disabled == old(disabled) && pctl == old(pctl)
                && rules == old(rules).(overridden := Some((today, G.Limit(total))))
                && credited == old(credited) + [OfCode(e)] && (recovery == None || recovery == old(recovery))
                && (old(Appendable(ledger.text)) ==>
                      && ledger.Entries().Some? && e in ledger.Entries().value
                      && (InOrder(ledger.parse, View(), today) <==> old(InOrder(ledger.parse, View(), today))))
      ensures !granted ==>
                && (recovery == None || recovery == old(recovery))
                && (recovery == None ==> Current() == old(recovery).value.image && credited == kept)
      ensures old(InOrder(ledger.parse, View(), today) && CopyInOrder(ledger.parse, View().copy, today)) ==>
                && (granted ==> InOrder(ledger.parse, View(), today) && OfCode(e) !in old(credited))
                && Guarded(ledger.parse, View(), today)
      ensures (old(faulted) ==> faulted) && (!faulted ==> granted && recovery == None)
    {
      hide Consistent, Contents, GoodParser, Appendable, Lawful, RolledBack, Sound;
      ghost var begun := View();
      if InOrder(ledger.parse, begun, today) {
        DistinctCredit(ledger.parse, begun.credited, begun.text, begun.bufferDay, e);
        ConsistentIsReadable(ledger.parse, begun.credited, begun.text, begun.bufferDay, today);
      }
      granted := false;
      var unobserved := Fails();
      if unobserved {
        Abort(id);
        KeepsGuard(begun, View(), today);
        return;
      }
      var saved := SaveRules((today, G.Limit(total)), OfCode(e));
      ghost var credit := View();
      if !saved {
        Abort(id);
        KeepsGuard(credit, View(), today);
        return;
      }
      granted := Complete(id, v2, e, today, effective, begun.credited);
      KeepsGuard(credit, View(), today);
    }

    /** A rollback, or nothing at all, keeps the guard. */
    lemma KeepsGuard(a: World, b: World, today: nat)
      ensures Distinct(a.credited) && CopyInOrder(ledger.parse, a.copy, today) && a.copy.Some? && RolledBack(a, b) ==>
                Guarded(ledger.parse, b, today)
    {
      if Distinct(a.credited) && CopyInOrder(ledger.parse, a.copy, today) && a.copy.Some? && RolledBack(a, b) {
        RollbackKeepsGuard(ledger.parse, a, b, today);
      }
    }

    /** Behind the saved rules: result, histories, summary, and last of all the ledger. */
    method Complete(id: string, v2: bool, e: Entry, today: nat, effective: nat, ghost prior: seq<Credit>)
      returns (granted: bool)
      requires Sane() && Owns(id) && Sound(e) && e.day == today
      requires ledger.Entries().Some? && e !in ledger.Entries().value && credited == prior + [OfCode(e)]
      modifies this`faulted, this`pctl, this`rules, this`state, this`history, this`recovery, this`holes, this`credited,
               this`disabled, ledger
      ensures Sane()
      ensures granted ==>
                && disabled == old(disabled) && pctl == old(pctl) && rules == old(rules) && credited == old(credited)
                && (recovery == None || recovery == old(recovery)) && state.bufferDay == old(state).bufferDay
                && (old(Appendable(ledger.text)) ==>
                      && ledger.Entries().Some? && e in ledger.Entries().value
                      && (InOrder(ledger.parse, View(), today)
                          <==> Consistent(ledger.parse, prior, old(ledger.text), old(state).bufferDay, today)))
      ensures !granted ==>
                && RolledBack(old(View()), View()) && (recovery == None || recovery == old(recovery))
                && (recovery == None ==> Current() == old(recovery).value.image && credited == kept)
      ensures (old(faulted) ==> faulted) && (!faulted ==> granted && recovery == None)
    {
      hide Consistent, Contents, GoodParser, Appendable, Summed, Bounded, Lawful;
      granted := false;
      var unread := Fails();
      if unread {
        Abort(id);
        return;
      }
      var st := state;
      var untold := Fails();
      if untold {
        RollBackOrStop();
        return;
      }
      if v2 && (st.v2Failed != 0 || st.v2CooldownUntil != 0) {
        st := st.(v2Failed := 0, v2CooldownUntil := 0);
        var _ := SaveState(st);
      }
      var stored := SaveHistories(e, st, today, effective);
      if !stored {
        Abort(id);
        return;
      }
      granted := Seal(id, e, today, prior);
    }

    /** The last step: only when the ledger has the code does the credit stand. */
    method Seal(id: string, e: Entry, today: nat, ghost prior: seq<Credit>) returns (granted: bool)
      requires Sane() && Owns(id) && Sound(e) && e.day == today
      requires ledger.Entries().Some? && e !in ledger.Entries().value && credited == prior + [OfCode(e)]
      modifies this`faulted, this`pctl, this`rules, this`state, this`history, this`recovery, this`holes, this`credited,
               this`disabled, ledger
      ensures Sane()
      ensures granted ==>
                && disabled == old(disabled) && pctl == old(pctl) && rules == old(rules) && credited == old(credited)
                && state == old(state) && (recovery == None || recovery == old(recovery))
                && (old(Appendable(ledger.text)) ==>
                      && ledger.Entries().Some? && e in ledger.Entries().value
                      && (InOrder(ledger.parse, View(), today)
                          <==> Consistent(ledger.parse, prior, old(ledger.text), state.bufferDay, today)))
      ensures !granted ==>
                && RolledBack(old(View()), View()) && (recovery == None || recovery == old(recovery))
                && (recovery == None ==> Current() == old(recovery).value.image && credited == kept)
      ensures (old(faulted) ==> faulted) && (!faulted ==> granted && recovery == None)
    {
      hide Consistent, Contents, GoodParser, Appendable, Lawful;
      granted := RecordCode(e);
      if !granted {
        Abort(id);
        return;
      }
      if old(Appendable(ledger.text)) {
        OneMoreCreditIff(ledger.parse, prior, old(ledger.text), ledger.text, state.bufferDay, e);
      }
      RecoveryClear();
    }

    /** The last look at the clock, then the ledger. */
    method RecordCode(e: Entry) returns (ok: bool)
      requires GoodParser(ledger.parse) && Sound(e) && ledger.Entries().Some?
      modifies this`faulted, ledger
      ensures ok ==> Appendable(ledger.text)
      ensures ok && old(Appendable(ledger.text)) ==> ledger.Entries() == Some(old(ledger.Entries()).value + [e])
      ensures (old(faulted) ==> faulted) && (!faulted ==> ok)
    {
      ok := false;
      var late := Fails();
      if !late {
        var fault := Fails();
        var written: int := *;
        ok := ledger.ConsumeNonce(e, fault, if 0 <= written <= |Line(e)| then written else 0);
      }
    }

    /** The redemption history, the day's summary and the activity history. */
    method SaveHistories(e: Entry, st: RuntimeState, today: nat, effective: nat) returns (ok: bool)
      modifies this`faulted, this`history, this`state
      ensures ok ==> history == Bounded(old(history), e) && state == Summed(st, today, effective)
      ensures ok ==> state.bufferDay == st.bufferDay
      ensures (old(faulted) ==> faulted) && (!faulted ==> ok)
    {
      var fate := Meet();
      history := Replaced(fate, history, Bounded(history, e), []);
      if !fate.Took? {
        return false;
      }
      ok := SaveState(Summed(st, today, effective));
      if ok {
        var unrecorded := Fails();
        ok := !unrecorded;
      }
    }

    // ---- The requests ----

    /** A request that carries another id than the open transaction is turned away. */
    method LetIn(id: string) returns (ok: bool)
      modifies this`faulted
      ensures ok ==> recovery.None? || Owns(id)
      ensures (old(faulted) ==> faulted) && (!faulted ==> (ok <==> recovery.None? || Owns(id)))
    {
      ok := true;
      if recovery.Some? {
        ok := OwnedBy(id);
      }
    }

    /** What a granted code means: it was good and not recorded, it raised today's limit as planned,
        parental control was told the same, and it is recorded where that could be appended. */
    twostate predicate CodeGranted(code: Code, today: G.U16, status: Option<G.Status>, e: Entry)
      reads this, ledger
    {
      && !disabled && credited == old(credited) + [OfCode(e)] && e.day == today
      && code.Final().Good? && e.nonce == code.Final().nonce && e.version == (if code.v2 then 2 else 1)
      && old(ledger.Entries()).Some? && e !in old(ledger.Entries()).value
      && (old(Appendable(ledger.text)) ==> ledger.Entries().Some? && e in ledger.Entries().value)
      && status.Some? && TodayOf(rules, today).Limit? && pctl == Some(TodayOf(rules, today).minutes as nat)
      && TargetOf(old(TodayOf(rules, today)), status.value, today, code.Final().minutes)
         == Some(TodayOf(rules, today).minutes as nat)
    }

    /** A refused request leaves limit, rules, history and credits alone, or its transaction open. */
    twostate predicate Refuses(id: string)
      reads this
    {
      !old(Owns(id)) ==>
        || Owns(id)
        || (pctl == old(pctl) && rules == old(rules) && history == old(history) && credited == old(credited))
    }

    /** When nothing fails, a code that is let in is granted exactly then. */
    ghost predicate Grantable(id: string, code: Code, today: G.U16, seconds: int, status: Option<G.Status>,
                              unrestricted: bool)
      reads this`state, this`rules, this`recovery, ledger
    {
      && status.Some? && !unrestricted && Redeemable(code.v2, code.Final(), today, seconds)
      && TargetOf(TodayOf(rules, today), status.value, today, code.Final().minutes).Some?
      && Beginnable(id, today)
    }

    method ProcessOfflineCode(id: string, code: Code, today: G.U16, seconds: int, blocked: bool,
                              status: Option<G.Status>, unrestricted: bool)
      returns (granted: bool, ghost e: Entry)
      requires Sane() && code.WellFormed()
      modifies this`faulted, this`pctl, this`rules, this`state, this`history, this`recovery, this`holes, this`kept,
               this`keptDay, this`credited, this`disabled, ledger
      ensures Sane()
      ensures RequestStep(ledger.parse, id, today, old(View()), View())
      ensures if granted then CodeGranted(code, today, status, e) else Refuses(id)
      ensures granted ==> !old(disabled) && !blocked && (old(recovery).None? || old(Owns(id)))
      ensures granted && old(InOrder(ledger.parse, View(), today)) ==> OfCode(e) !in old(credited)
      ensures granted && old(Appendable(ledger.text)) ==>
                (InOrder(ledger.parse, View(), today) <==> old(InOrder(ledger.parse, View(), today)))
      ensures (old(faulted) ==> faulted) && (!faulted ==>
                && (granted <==> !blocked && !old(disabled)
                                 && old(Grantable(id, code, today, seconds, status, unrestricted)))
                && (granted ==> recovery == None)
                && (granted && old(Appendable(ledger.text)) ==>
                      (Guarded(ledger.parse, View(), today) <==> old(InOrder(ledger.parse, View(), today)))))
    {
      hide TargetOf, Redeemable, Contents, InOrder, CopyInOrder, Guarded, Bereft, GoodParser, Lawful, RolledBack,
           RequestStep;
      granted, e := false, Entry(today, 0, 1);
      ghost var a := View();
      var admitted := LetIn(id);
      if !admitted || blocked || disabled {
        FinishWithError(id);
        ErrorIsStep(id, today, a, a, View());
        return;
      }
      granted, e := RedeemAdmitted(id, code, today, seconds, status, unrestricted);
      if recovery.None? {
        ClearedIsGuardedIff(ledger.parse, View(), today);
      }
    }

    /** Behind the two gates of a request. */
    method RedeemAdmitted(id: string, code: Code, today: G.U16, seconds: int, status: Option<G.Status>,
                          unrestricted: bool)
      returns (granted: bool, ghost e: Entry)
      requires Sane() && code.WellFormed() && !disabled && (recovery.None? || Owns(id))
      modifies this`faulted, this`pctl, this`rules, this`state, this`history, this`recovery, this`holes, this`kept,
               this`keptDay, this`credited, this`disabled, ledger
      ensures Sane()
      ensures RequestStep(ledger.parse, id, today, old(View()), View())
      ensures if granted then CodeGranted(code, today, status, e) else Refuses(id)
      ensures granted && old(InOrder(ledger.parse, View(), today)) ==> OfCode(e) !in old(credited)
      ensures granted && old(Appendable(ledger.text)) ==>
                (InOrder(ledger.parse, View(), today) <==> old(InOrder(ledger.parse, View(), today)))
      ensures (old(faulted) ==> faulted) && (!faulted ==>
                && (granted <==> old(Grantable(id, code, today, seconds, status, unrestricted)))
                && (granted ==> recovery == None))
    {
      hide TargetOf, InOrder, CopyInOrder, Guarded, Bereft, Contents, GoodParser, Appendable, Beginnable, Lawful,
           RolledBack, Sound, RequestStep;
      granted, e := false, Entry(today, 0, 1);
      ghost var a := View();
      var v := VerifyOfflineCode(code.v2, code.first, code.reloaded, code.again, today, seconds);
      ghost var b := View();
      var total, effective := None, 0;
      if v.Verified? && status.Some? && !unrestricted {
        e := v.e;
        total, effective := PlanAward(today, status.value, v.minutes);
      }
      if total.None? {
        FinishWithError(id);
        ErrorIsStep(id, today, a, b, View());
        return;
      }
      if InOrder(ledger.parse, a, today) {
        NotYetCredited(a, e);
      }
      granted := Redeem(id, code.v2, v.e, today, total.value, effective);
      AdmittedIsStep(id, today, a, View());
    }

    /** An error leaves the books as they were, rolls them back, or has lost the state. */
    lemma ErrorIsStep(id: string, today: nat, a: World, b: World, c: World)
      requires b == a.(bufferDay := b.bufferDay)
      requires b == a || ((a.copy.None? || a.copy.value.owner == id) && b.bufferDay in {a.bufferDay, None})
      requires if a.copy.Some? && a.copy.value.owner == id then RolledBack(b, c) else c == b
      ensures RequestStep(ledger.parse, id, today, a, c)
    {
      hide Consistent, Contents, Appendable;
      if Guarded(ledger.parse, a, today) && !Exposed(ledger.parse, a, id, today) {
        if a.copy.Some? && a.copy.value.owner == id {
          RollbackKeepsGuard(ledger.parse, b, c, today);
        } else if b != a {
          LossIff(ledger.parse, a, today);
        }
      }
    }

    lemma NotYetCredited(a: World, e: Entry)
      requires InOrder(ledger.parse, a, e.day) && Contents(ledger.parse, a.text).Some?
      requires e !in Contents(ledger.parse, a.text).value
      ensures OfCode(e) !in a.credited
    {
    }

    lemma AdmittedIsStep(id: string, today: nat, a: World, b: World)
      requires !a.disabled && (a.copy.None? || a.copy.value.owner == id)
      requires InOrder(ledger.parse, a, today) && CopyInOrder(ledger.parse, a.copy, today) ==>
                 Guarded(ledger.parse, b, today) || Bereft(ledger.parse, a, b, today)
      ensures RequestStep(ledger.parse, id, today, a, b)
    {
    }

    /** How far an award would raise today's limit; nothing when it cannot be granted. */
    method PlanAward(today: G.U16, status: G.Status, minutes: G.U16) returns (total: Option<G.U16>, effective: nat)
      requires Sane()
      modifies this`faulted
      ensures total.Some? ==>
                && TargetOf(TodayOf(rules, today), status, today, minutes) == Some(total.value as nat)
                && total.value <= G.MAX_MINUTES
      ensures (old(faulted) ==> faulted)
              && (!faulted ==> (total.Some? <==> TargetOf(TodayOf(rules, today), status, today, minutes).Some?))
    {
      hide GoodParser, G.PlanGrant, G.Used, G.Ceiling;
      var unread := Fails();
      if unread {
        return None, 0;
      }
      var today' := new G.Rules(rules.standing);
      today'.overridden := rules.overridden;
      var active := today'.Today(today);
      var plan := G.PlanGrant(active, today, status, minutes);
      G.PlanNeedsAReading(active, today, status, minutes);
      if plan.Some? {
        G.PlanIsExact(active, today, status, minutes);
      }
      if active.Unlimited? || plan.None? || plan.value.effective == 0 {
        return None, 0;
      }
      var sum := today'.AccumulateTodayLimit(today, minutes, plan.value.ceiling);
      return Some(sum), plan.value.effective;
    }

    /** The daily buffer: as much as the policy grants, once a day. */
    method ClaimDailyBuffer(id: string, grant: G.U16, today: G.U16, blocked: bool, limitedToday: bool,
                            status: Option<G.Status>, unrestricted: bool)
      returns (granted: bool)
      requires Sane()
      modifies this`faulted, this`pctl, this`rules, this`state, this`history, this`recovery, this`holes, this`kept,
               this`keptDay, this`credited, this`disabled, ledger
      ensures Sane()
      ensures RequestStep(ledger.parse, id, today, old(View()), View())
      ensures granted ==>
                && !old(disabled) && !disabled && !blocked && grant > 0 && limitedToday && !unrestricted
                && (old(recovery).None? || old(Owns(id)))
                && credited == old(credited) + [OfBuffer(today)]
                && old(state).bufferDay != Some(today as nat) && state.bufferDay == Some(today as nat)
                && (old(recovery).None? ==>
                      && old(ledger.Entries()).Some?
                      && ledger.text == Compacted(ledger.parse, old(ledger.text), today))
      ensures granted && old(InOrder(ledger.parse, View(), today)) ==> OfBuffer(today) !in old(credited)
      ensures granted ==>
                && status.Some? && TodayOf(rules, today).Limit? && pctl == Some(TodayOf(rules, today).minutes as nat)
                && TargetOf(old(TodayOf(rules, today)), status.value, today, grant)
                   == Some(TodayOf(rules, today).minutes as nat)
      ensures !granted ==> Refuses(id)
      ensures granted && old(Appendable(ledger.text)) ==>
                (InOrder(ledger.parse, View(), today)
                 <==> old(Consistent(ledger.parse, credited, ledger.text, MarkSoFar(state.bufferDay, today), today)))
      ensures (old(faulted) ==> faulted) && (!faulted ==>
                (granted <==>
                   && !blocked && !old(disabled) && status.Some? && !unrestricted && limitedToday && grant > 0
                   && old(state).bufferDay != Some(today as nat)
                   && TargetOf(old(TodayOf(rules, today)), status.value, today, grant).Some?
                   && old(Beginnable(id, today)))
                && (granted ==> recovery == None))
    {
      hide TargetOf, Consistent, Contents, GoodParser, Appendable, Compacted, Lawful, RolledBack, RequestStep;
      granted := false;
      ghost var a := View();
      var admitted := LetIn(id);
      if !admitted || blocked || disabled || grant == 0 || state.bufferDay == Some(today as nat)
         || status.None? || !limitedToday || unrestricted {
        FinishWithError(id);
        ErrorIsStep(id, today, a, a, View());
        return;
      }
      var total, effective := PlanAward(today, status.value, grant);
      if total.None? {
        FinishWithError(id);
        ErrorIsStep(id, today, a, a, View());
        return;
      }
      if InOrder(ledger.parse, a, today) {
        OneMoreBufferIff(ledger.parse, a.credited, a.text, a.bufferDay, today);
      }
      granted := Claim(id, today, total.value, effective);
      AdmittedIsStep(id, today, a, View());
      if granted && old(Appendable(ledger.text)) {
        OneMoreBufferIff(ledger.parse, a.credited, ledger.text, a.bufferDay, today);
        if ledger.text != a.text {
          SameAnswersIff(ledger.parse, a.credited, a.text, ledger.text, MarkSoFar(a.bufferDay, today), today);
        }
      }
    }

    /** The transaction is opened before the target is worked out. */
    method Claim(id: string, today: nat, total: G.U16, effective: nat) returns (granted: bool)
      requires Sane() && total <= G.MAX_MINUTES && state.bufferDay != Some(today)
      modifies this`faulted, this`pctl, this`rules, this`state, this`history, this`recovery, this`holes, this`kept,
               this`keptDay, this`credited, this`disabled, ledger
      ensures Sane()
      ensures granted ==> disabled == old(disabled) && pctl == Some(total as nat)
                          && rules == old(rules).(overridden := Some((today, G.Limit(total))))
                          && credited == old(credited) + [OfBuffer(today)] && state.bufferDay == Some(today)
      ensures granted && !old(Owns(id)) ==>
                old(ledger.Entries()).Some? && ledger.text == Compacted(ledger.parse, old(ledger.text), today)
      ensures granted ==> ledger.text == old(ledger.text) || SameAnswers(today)
      ensures !old(Owns(id)) && !granted ==> Owns(id) || AsBefore()
      ensures old(InOrder(ledger.parse, View(), today) && CopyInOrder(ledger.parse, View().copy, today)) ==>
                && (granted ==> InOrder(ledger.parse, View(), today))
                && (Guarded(ledger.parse, View(), today)
                    || (!granted && Bereft(ledger.parse, old(View()), View(), today)))
      ensures (old(faulted) ==> faulted)
              && (!faulted ==> (granted <==> old(Beginnable(id, today))) && (granted ==> recovery == None))
    {
      hide Consistent, Contents, GoodParser, Appendable, Compacted, Lawful, RolledBack;
      var begun := RecoveryBegin(id, today);
      ghost var b := View();
      if InOrder(ledger.parse, b, today) {
        ConsistentIsReadable(ledger.parse, b.credited, b.text, b.bufferDay, today);
      }
      if !begun {
        FinishWithError(id);
        KeepsGuard(b, View(), today);
        return false;
      }
      granted := GrantBuffer(id, today, total, effective);
    }

    method GrantBuffer(id: string, today: nat, total: G.U16, effective: nat) returns (granted: bool)
      requires Sane() && Owns(id) && total <= G.MAX_MINUTES && state.bufferDay != Some(today)
      modifies this`faulted, this`pctl, this`rules, this`state, this`history, this`recovery, this`holes, this`kept,
               this`keptDay, this`credited, this`disabled, ledger
      ensures Sane()
      ensures granted ==> disabled == old(disabled) && pctl == Some(total as nat)
                          && rules == old(rules).(overridden := Some((today, G.Limit(total))))
                          && credited == old(credited) + [OfBuffer(today)] && state.bufferDay == Some(today)
                          && ledger.text == old(ledger.text)
      ensures kept == old(kept) && (recovery == None || recovery == old(recovery))
      ensures !granted && recovery == None ==> Current() == old(recovery).value.image && credited == kept
      ensures old(InOrder(ledger.parse, View(), today) && CopyInOrder(ledger.parse, View().copy, today)) ==>
                Guarded(ledger.parse, View(), today) && (granted ==> InOrder(ledger.parse, View(), today))
      ensures (old(faulted) ==> faulted) && (!faulted ==> granted && recovery == None)
    {
      hide Consistent, Contents, GoodParser, Appendable, Compacted, Lawful, RolledBack;
      granted := ApplyTarget(id, today, total);
      if !granted {
        if recovery.Some? {
          ghost var a := View();
          RollBackOrStop();
          KeepsGuard(a, View(), today);
        }
        ghost var b := View();
        FinishWithError(id);
        KeepsGuard(b, View(), today);
        return;
      }
      granted := RaiseBuffer(id, today, total, effective);
    }

    /** Behind the applied target: a look at it, the saved rules, and the rest. */
    method RaiseBuffer(id: string, today: nat, total: G.U16, effective: nat) returns (granted: bool)
      requires Sane() && Owns(id) && total <= G.MAX_MINUTES && state.bufferDay != Some(today)
      modifies this`faulted, this`pctl, this`rules, this`state, this`history, this`recovery, this`holes, this`credited,
               this`disabled, ledger
      ensures Sane()
      ensures granted ==> disabled == old(disabled) && pctl == old(pctl)
                          && rules == old(rules).(overridden := Some((today, G.Limit(total))))
                          && credited == old(credited) + [OfBuffer(today)] && state.bufferDay == Some(today)
                          && ledger.text == old(ledger.text)
      ensures recovery == None || recovery == old(recovery)
      ensures !granted && recovery == None ==> Current() == old(recovery).value.image && credited == kept
      ensures old(InOrder(ledger.parse, View(), today) && CopyInOrder(ledger.parse, View().copy, today)) ==>
                Guarded(ledger.parse, View(), today) && (granted ==> InOrder(ledger.parse, View(), today))
      ensures (old(faulted) ==> faulted) && (!faulted ==> granted && recovery == None)
    {
      hide Consistent, Contents, GoodParser, Appendable, Compacted, Lawful, RolledBack;
      ghost var a := View();
      if InOrder(ledger.parse, a, today) {
        OneMoreBufferIff(ledger.parse, a.credited, a.text, a.bufferDay, today);
        ConsistentIsReadable(ledger.parse, a.credited, a.text, a.bufferDay, today);
      }
      granted := false;
      var unobserved := Fails();
      var saved := false;
      if !unobserved {
        saved := SaveRules((today, G.Limit(total)), OfBuffer(today));
      }
      ghost var credit := View();
      if !saved {
        Abort(id);
      } else {
        granted := MarkBuffer(id, today, effective, a.credited);
      }
      KeepsGuard(credit, View(), today);
    }

    /** Behind the saved rules: the mark in the state, the activity history and the result. */
    method MarkBuffer(id: string, today: nat, effective: nat, ghost prior: seq<Credit>) returns (granted: bool)
      requires Sane() && Owns(id) && state.bufferDay != Some(today) && credited == prior + [OfBuffer(today)]
      modifies this`faulted, this`pctl, this`rules, this`state, this`history, this`recovery, this`holes, this`credited,
               this`disabled, ledger
      ensures Sane()
      ensures granted ==>
                && disabled == old(disabled) && pctl == old(pctl) && rules == old(rules) && credited == old(credited)
                && state.bufferDay == Some(today) && ledger.text == old(ledger.text)
                && (Consistent(ledger.parse, prior, old(ledger.text), old(state).bufferDay, today) ==>
                      InOrder(ledger.parse, View(), today))
      ensures recovery == None || recovery == old(recovery)
      ensures !granted ==>
                && RolledBack(old(View()), View())
                && (recovery == None ==> Current() == old(recovery).value.image && credited == kept)
      ensures (old(faulted) ==> faulted) && (!faulted ==> granted && recovery == None)
    {
      hide Consistent, GoodParser, Lawful;
      granted := false;
      var next := Summed(state.(bufferDay := Some(today)), today, effective);
      var stored := SaveState(next);
      var unrecorded := Fails();
      if !stored || unrecorded {
        Abort(id);
        return;
      }
      var untold := Fails();
      if untold {
        RollBackOrStop();
        return;
      }
      if Consistent(ledger.parse, prior, old(ledger.text), old(state).bufferDay, today) {
        OneMoreBufferIff(ledger.parse, prior, ledger.text, old(state).bufferDay, today);
      }
      RecoveryClear();
      granted := true;
    }

    // ---- Starts ----

    /** A start rolls an open transaction back and, either way, tries to stop granting. */
    method Boot()
      requires Sane()
      modifies this`faulted, this`pctl, this`rules, this`state, this`history, this`recovery, this`holes, this`credited,
               this`disabled, ledger
      ensures Sane()
      ensures old(recovery).None? ==> Current() == old(Current()) && View() == old(View())
      ensures old(recovery).Some? ==> RolledBack(old(View()), View())
      ensures old(faulted) ==> faulted
      ensures old(holes) != {} ==> recovery == old(recovery) && holes == old(holes)
      ensures !faulted && old(recovery).Some? ==> disabled
      ensures !faulted && old(recovery).Some? && old(holes) == {} ==>
                recovery == None && Current() == old(recovery).value.image && credited == kept
    {
      hide GoodParser, Lawful;
      if recovery.Some? {
        var unread := Fails();
        if unread {
          return;
        }
        var _ := RecoveryRollback();
        StopGranting();
      }
    }

    /** The parent's retry: granting resumes unless an open transaction cannot be rolled back. */
    method Retry() returns (ok: bool)
      requires Sane()
      modifies this`faulted, this`pctl, this`rules, this`state, this`history, this`recovery, this`holes, this`credited,
               this`disabled, ledger
      ensures Sane()
      ensures old(recovery).None? ==> Current() == old(Current()) && View() == old(View()).(disabled := disabled) && ok
      ensures old(recovery).Some? ==> RolledBack(old(View()), View())
      ensures ok && old(recovery).Some? ==> Current() == old(recovery).value.image && credited == kept
      ensures old(recovery).Some? && old(holes) != {} ==>
                !ok && recovery == old(recovery) && holes == old(holes) && (!faulted ==> disabled)
      ensures (old(faulted) ==> faulted)
              && (!faulted && (old(recovery).None? || old(holes) == {}) ==> ok && !disabled && recovery == None)
    {
      hide GoodParser, Lawful;
      if recovery.Some? {
        ok := RecoveryRollback();
        if !ok {
          StopGranting();
          return;
        }
      }
      ok := true;
      var stuck := Fails();
      if !stuck {
        disabled := false;
      }
    }
  }

  datatype Code = Code(v2: bool, first: Checked, reloaded: bool, again: Checked) {
    /** The ranges the token library decodes to. */
    predicate WellFormed() {
      && (first.Good? ==> first.nonce <= (if v2 then MAX_NONCE_V2 else MAX_NONCE))
      && (again.Good? ==> again.nonce <= (if v2 then MAX_NONCE_V2 else MAX_NONCE))
    }

    function Final(): Checked {
      FinalCheck(first, reloaded, again)
    }
  }

  /** The limit an award leads to: from the larger of the limit and the minutes begun, by at most
      what is asked; nothing when it would not rise. */
  ghost function TargetOf(before: G.DayRule, status: G.Status, today: G.U16, minutes: nat): Option<nat> {
    if before.Unlimited? || G.Used(status, today).None? then None
    else
      var base := G.Base(before, G.Ceiling(G.Used(status, today).value));
      if base < G.Least(base + minutes, G.MAX_MINUTES) then Some(G.Least(base + minutes, G.MAX_MINUTES)) else None
  }

  // ---- Runs ----

  datatype Event =
    | Redeeming(id: string, code: Code, today: G.U16, seconds: int, blocked: bool, status: Option<G.Status>,
                unrestricted: bool)
    | Claiming(id: string, grant: G.U16, today: G.U16, blocked: bool, limitedToday: bool, status: Option<G.Status>,
               unrestricted: bool)
    | Booting(today: G.U16)
    | Retrying(today: G.U16)
  {
    predicate IsRequest() {
      Redeeming? || Claiming?
    }
  }

  /** What an event does to the books. */
  ghost predicate Step(parse: Parser, e: Event, a: World, b: World) {
    if e.IsRequest() then RequestStep(parse, e.id, e.today, a, b)
    else Guarded(parse, a, e.today) ==> Guarded(parse, b, e.today)
  }

  /** The two ways in which an event can spoil the books: a request lets itself in on books out of
      order, or a file that held a record of the day is lost while no copy of it is kept. */
  ghost predicate Spoils(parse: Parser, e: Event, a: World, b: World) {
    e.IsRequest() && (Exposed(parse, a, e.id, e.today) || Bereft(parse, a, b, e.today))
  }

  /** Nothing has spoiled the books before event `n`. */
  ghost predicate Unspoiled(parse: Parser, events: seq<Event>, worlds: seq<World>, n: nat)
    requires n <= |events| && |worlds| == |events| + 1
  {
    forall k | 0 <= k < n :: !Spoils(parse, events[k], worlds[k], worlds[k + 1])
  }

  function DayBefore(events: seq<Event>, start: nat, n: nat): nat
    requires n <= |events|
  {
    if n == 0 then start else events[n - 1].today
  }

  ghost predicate Steps(parse: Parser, events: seq<Event>, worlds: seq<World>) {
    && |worlds| == |events| + 1
    && forall k | 0 <= k < |events| :: Step(parse, events[k], worlds[k], worlds[k + 1])
  }

  predicate Chronological(events: seq<Event>, start: nat) {
    && (forall k | 0 <= k < |events| :: start <= events[k].today)
    && (forall i, j | 0 <= i < j < |events| :: events[i].today <= events[j].today)
  }

  /** Whatever else fails, and wherever the power is lost: until one of the two has happened nothing
      has been credited twice, and the books are in order or a transaction begun on books in order is
      open. */
  lemma {:induction false} BooksSurvive(parse: Parser, events: seq<Event>, worlds: seq<World>, start: nat, n: nat)
    requires Steps(parse, events, worlds) && Chronological(events, start) && n <= |events|
    requires Guarded(parse, worlds[0], start) && Unspoiled(parse, events, worlds, n)
    ensures Guarded(parse, worlds[n], DayBefore(events, start, n)) && Distinct(worlds[n].credited)
  {
    hide Consistent, Contents, Appendable, Exposed, Bereft;
    if n > 0 {
      var e := events[n - 1];
      BooksSurvive(parse, events, worlds, start, n - 1);
      LaterIsGuarded(parse, worlds[n - 1], DayBefore(events, start, n - 1), e.today);
      assert Step(parse, e, worlds[n - 1], worlds[n]) && !Spoils(parse, e, worlds[n - 1], worlds[n]);
    }
  }

  lemma LaterIsGuarded(parse: Parser, w: World, today: nat, later: nat)
    requires Guarded(parse, w, today) && today <= later
    ensures Guarded(parse, w, later)
  {
    hide Consistent, Contents, Appendable;
    if InOrder(parse, w, today) {
      ConsistentLater(parse, w.credited, w.text, w.bufferDay, today, later);
    }
  }

  /** A loss is such a spoiling at once; letting a request in on books out of order is one as soon as
      that request is granted and cleared (`PerformEvent` for both kinds of requests). */
  lemma SpoiltForGood(parse: Parser, e: Event, a: World, b: World)
    requires e.IsRequest() && Guarded(parse, a, e.today) && Spoils(parse, e, a, b)
    requires Exposed(parse, a, e.id, e.today) ==>
               b.copy == None && (InOrder(parse, b, e.today) <==> InOrder(parse, a, e.today))
    ensures !Guarded(parse, b, e.today)
  {
    hide Consistent, Contents, Appendable;
    if !Exposed(parse, a, e.id, e.today) {
      BereftIsOutOfOrder(parse, a, b, e.today);
    }
  }

  /** Any run of requests, starts and retries on days that do not go backwards. */
  method Run(s: Sysmodule, events: seq<Event>, ghost start: nat) returns (ghost worlds: seq<World>)
    requires s.Sane() && Guarded(s.ledger.parse, s.View(), start) && Chronological(events, start)
    requires forall e <- events :: e.Redeeming? ==> e.code.WellFormed()
    modifies s, s.ledger
    ensures Steps(s.ledger.parse, events, worlds)
    ensures worlds[0] == old(s.View()) && worlds[|events|] == s.View()
    ensures forall n | 0 <= n <= |events| && Unspoiled(s.ledger.parse, events, worlds, n) ::
              Guarded(s.ledger.parse, worlds[n], DayBefore(events, start, n)) && Distinct(worlds[n].credited)
  {
    hide Guarded, RequestStep, Spoils, Distinct;
    var parse := s.ledger.parse;
    worlds := [s.View()];
    for n := 0 to |events|
      invariant s.Sane() && s.ledger.parse == parse && |worlds| == n + 1
      invariant worlds[0] == old(s.View()) && worlds[n] == s.View()
      invariant forall k | 0 <= k < n :: Step(parse, events[k], worlds[k], worlds[k + 1])
    {
      var _ := PerformEvent(s, events[n]);
      worlds := worlds + [s.View()];
    }
    forall n | 0 <= n <= |events| && Unspoiled(parse, events, worlds, n)
      ensures Guarded(parse, worlds[n], DayBefore(events, start, n)) && Distinct(worlds[n].credited)
    {
      BooksSurvive(parse, events, worlds, start, n);
    }
  }

  /** One event. A request let in on books out of order leaves them out of order without a copy, as
      soon as it is granted and cleared: unless a claim overwrites the mark of a day to come, or the
      ledger could not be appended to and was rewritten. */
  method PerformEvent(s: Sysmodule, e: Event) returns (granted: bool)
    requires s.Sane() && (e.Redeeming? ==> e.code.WellFormed())
    modifies s, s.ledger
    ensures s.Sane() && Step(s.ledger.parse, e, old(s.View()), s.View()) && (granted ==> e.IsRequest())
    ensures granted && s.recovery.None? && old(Appendable(s.ledger.text))
            && old(MarkSoFar(s.state.bufferDay, e.today) == s.state.bufferDay)
            && old(Exposed(s.ledger.parse, s.View(), e.id, e.today)) ==>
              !Guarded(s.ledger.parse, s.View(), e.today)
  {
    hide Consistent, Appendable;
    hide RequestStep, RolledBack, Guarded, Sysmodule.CodeGranted, Sysmodule.Refuses, Sysmodule.Grantable;
    ghost var a := s.View();
    granted := false;
    match e {
      case Redeeming(id, code, day, seconds, blocked, status, unrestricted) =>
        ghost var entry;
        granted, entry := s.ProcessOfflineCode(id, code, day, seconds, blocked, status, unrestricted);
      case Claiming(id, grant, day, blocked, limited, status, unrestricted) =>
        granted := s.ClaimDailyBuffer(id, grant, day, blocked, limited, status, unrestricted);
      case Booting(today) =>
        s.Boot();
        RestartIsStep(s.ledger.parse, a, s.View(), today);
      case Retrying(today) =>
        var _ := s.Retry();
        RestartIsStep(s.ledger.parse, a, s.View(), today);
    }
    if s.recovery.None? {
      ClearedIsGuardedIff(s.ledger.parse, s.View(), e.today);
    }
  }

  lemma RestartIsStep(parse: Parser, a: World, b: World, today: nat)
    requires if a.copy.Some? then RolledBack(a, b) else b == a.(disabled := b.disabled)
    ensures Guarded(parse, a, today) ==> Guarded(parse, b, today)
  {
    hide Consistent;
    if a.copy.Some? && Guarded(parse, a, today) {
      RollbackKeepsGuard(parse, a, b, today);
    }
  }

  // ---- The spoilt books ----

  /** In every state: a code that is credited and not recorded is credited again by an undisturbed
      request that is let in. */
  method UnrecordedIsCreditedAgain(s: Sysmodule, id: string, code: Code, today: G.U16, seconds: int,
                                   status: G.Status)
    returns (granted: bool, ghost e: Entry)
    requires s.Sane() && code.WellFormed() && !s.disabled && !s.faulted
    requires s.Grantable(id, code, today, seconds, Some(status), false)
    requires OfCode(Entry(today, code.Final().nonce, if code.v2 then 2 else 1)) in s.credited
    modifies s, s.ledger
    ensures !s.faulted ==>
              && granted && s.credited == old(s.credited) + [OfCode(e)] && OfCode(e) in old(s.credited)
              && !Distinct(s.credited)
  {
    hide Guarded, RequestStep, TargetOf;
    granted, e := s.ProcessOfflineCode(id, code, today, seconds, false, Some(status), false);
    if granted {
      Repeated(old(s.credited), OfCode(e));
    }
  }

  lemma Repeated(credited: seq<Credit>, c: Credit)
    requires c in credited
    ensures !Distinct(credited + [c])
  {
    var i :| 0 <= i < |credited| && credited[i] == c;
    var more := credited + [c];
    assert more[i] == more[|credited|];
  }

  /** An hour a day and nothing else. */
  const HOUR: Rules := Rules((d: nat) => G.Limit(60), None)

  /** Nothing played yet. */
  const IDLE: G.Status := G.Status(false, false, 0, 0, true, 0, false, 0)

  /** A good code for half an hour. */
  function HalfAnHour(nonce: nat): Code {
    Code(false, Good(30, nonce), false, Malformed)
  }

  lemma HalfAnHourRaises(rules: Rules, day: G.U16, minutes: G.U16)
    requires TodayOf(rules, day) == G.Limit(minutes) && minutes + 30 <= 1440
    ensures TargetOf(TodayOf(rules, day), IDLE, day, 30) == Some(minutes + 30)
  {
    assert G.Used(IDLE, day) == Some(0) && G.Ceiling(0) == 0;
  }

  /** A card without a ledger, an hour a day. */
  method Fresh(parse: Parser, day: G.U16) returns (s: Sysmodule)
    requires GoodParser(parse)
    ensures fresh(s) && fresh(s.ledger) && s.ledger.parse == parse && s.ledger.text == None && s.rules == HOUR
    ensures s.Sane() && !s.disabled && s.recovery == None && !s.faulted && s.state == NEW_STATE && s.credited == []
  {
    hide Guarded;
    EmptyLedger(parse, day);
    var ledger := new Ledger(parse, None);
    s := new Sysmodule(ledger, HOUR, HOUR, day);
  }

  /** Such a run, on an empty card: a request saves the raised rules and the power is lost. A start
      at which neither the transaction can be read nor the flag written changes nothing, and the
      request, still in its queue, is let in again: one code is credited twice. */
  method CutRequestIsCreditedTwice(parse: Parser, id: string, day: G.U16) returns (s: Sysmodule, again: bool)
    requires GoodParser(parse)
    ensures fresh(s) && s.ledger.parse == parse
    ensures !s.faulted ==>
              && again && s.credited == [OfCode(Entry(day, 7, 1)), OfCode(Entry(day, 7, 1))]
              && TodayOf(s.rules, day) == G.Limit(120) && s.pctl == Some(120)
  {
    hide Guarded, RequestStep, TargetOf, Contents, Appendable, InOrder;
    EmptyLedger(parse, day);
    s := Fresh(parse, day);
    again := false;
    var cut := CutBehindTheRules(s, id, day);
    if cut {
      HalfAnHourRaises(s.rules, day, 90);
      ghost var second;
      again, second := s.ProcessOfflineCode(id, HalfAnHour(7), day, 0, false, Some(IDLE), false);
    }
  }

  /** The steps of a request for code 7 up to the saved rules. */
  method CutBehindTheRules(s: Sysmodule, id: string, day: G.U16) returns (cut: bool)
    requires s.Sane() && s.recovery == None && s.rules == HOUR && s.credited == []
    requires s.ledger.text == None && !s.disabled
    modifies s, s.ledger
    ensures s.Sane() && (!s.faulted ==> cut) && (old(s.faulted) ==> s.faulted)
    ensures cut ==>
              && s.rules == HOUR.(overridden := Some((day as nat, G.Limit(90))))
                && s.credited == [OfCode(Entry(day, 7, 1))]
              && s.Owns(id) && !s.disabled && s.state == old(s.state)
              && s.ledger.Entries().Some? && Entry(day, 7, 1) !in s.ledger.Entries().value
  {
    hide Guarded, InOrder, Contents, Appendable, Compacted, Fits, Copyable;
    EmptyLedger(s.ledger.parse, day);
    cut := s.ApplyTarget(id, day, 90);
    if cut {
      cut := s.SaveRules((day, G.Limit(90)), OfCode(Entry(day, 7, 1)));
    }
  }

  lemma EmptyLedger(parse: Parser, day: nat)
    ensures Contents(parse, None) == Some([]) && Appendable(None)
    ensures Kept([], day) == [] && Fits([]) && Compacted(parse, None, day) == None && Copyable(None)
  {
  }

  /** A ledger lost in the gap of a compaction: the next request credits a code of today again. */
  method LostLedgerIsCreditedTwice(parse: Parser, id: string, stale: Entry, day: G.U16)
    returns (s: Sysmodule, again: bool)
    requires GoodParser(parse) && Sound(stale) && stale.day < day
    ensures fresh(s) && s.ledger.parse == parse
    ensures !s.faulted ==> again && OfCode(Entry(day, 7, 1)) in s.credited && !Distinct(s.credited)
  {
    hide Guarded, RequestStep, TargetOf, Fits, Copyable, Compacted, Contents, Line, Render, Unfinished, LinesFrom;
    var e := Entry(day, 7, 1);
    TwoRecords(parse, stale, e);
    RenderIsFinished([stale, e]);
    EmptyLedger(parse, day);
    var ledger := new Ledger(parse, Some(Render([stale, e])));
    s := new Sysmodule(ledger, HOUR, HOUR, day);
    var lost := s.ledger.Compact(day, false, true, true);
    HalfAnHourRaises(s.rules, day, 60);
    ghost var second;
    again, second := UnrecordedIsCreditedAgain(s, id, HalfAnHour(7), day, 0, IDLE);
  }

  /** A state lost by the note of a mistyped short code: the daily buffer is granted again. */
  method LostStateGrantsTheBufferTwice(parse: Parser, day: G.U16)
    returns (s: Sysmodule, once: bool, again: bool)
    requires GoodParser(parse)
    ensures fresh(s) && s.ledger.parse == parse
    ensures !s.faulted ==> once && again && s.credited == [OfBuffer(day), OfBuffer(day)]
  {
    hide Guarded, RequestStep, TargetOf, Contents, InOrder;
    EmptyLedger(parse, day);
    s := Fresh(parse, day);
    HalfAnHourRaises(s.rules, day, 60);
    once := s.ClaimDailyBuffer("first", 30, day, false, true, Some(IDLE), false);
    again := false;
    if once && s.recovery.None? {
      s.state := Replaced(Lost, s.state, OneMoreFailure(s.state, 0), NEW_STATE);
      HalfAnHourRaises(s.rules, day, 90);
      again := s.ClaimDailyBuffer("second", 30, day, false, true, Some(IDLE), false);
    }
  }

  /** The newest hundred. */
  function Bounded(history: seq<Entry>, e: Entry): seq<Entry> {
    (if |history| >= MAX_HISTORY then history[|history| - MAX_HISTORY + 1..] else history) + [e]
  }

  function Summed(st: RuntimeState, today: nat, effective: nat): RuntimeState {
    var before := if st.summaryDay == today then st.summaryMinutes else 0;
    st.(summaryDay := today, summaryMinutes := if before + effective > 1440 then 1440 else before + effective)
  }

  predicate FitsToday(e: Entry, v2: bool, today: nat) {
    Sound(e) && e.day == today && e.version == (if v2 then 2 else 1)
  }

  /** The judgement that counts. */
  function FinalCheck(first: Checked, reloaded: bool, again: Checked): Checked {
    if first.BadSignature? && reloaded then again else first
  }

  function OneMoreFailure(s: RuntimeState, seconds: int): RuntimeState {
    var failed := if s.v2CooldownUntil != 0 then 1 else if s.v2Failed < FAILURE_LIMIT then s.v2Failed + 1
      else s.v2Failed;
    s.(v2Failed := failed,
       v2CooldownUntil := if failed >= FAILURE_LIMIT then seconds + COOLDOWN_SECONDS else 0)
  }
}
