/** The PIN of the companion app and how guessing is slowed down (companion/auth.c). A write that
    fails leaves the file alone or has lost it. */
module PinBackoff {
  import opened Wrappers

  const FAILURE_LIMIT: nat := 5
  const INITIAL: nat := 30
  const MAXIMUM: nat := 600
  const MOST_FAILURES: nat := 1000
  const HASH_LENGTH: nat := 64
  const SALT_LENGTH: nat := 32

  datatype Record = Record(hash: string, salt: string, failed: int, cooldownUntil: int, updatedAt: int)

  /** The saved file: JSON of some record, or something else. */
  datatype File = Missing | Garbage | Saved(record: Record)

  datatype Status = Ok | Empty | BadArgument | ReadFailed | WriteFailed | InvalidFile | Denied | Cooldown

  predicate IsHex(s: string) {
    forall c <- s :: ('0' <= c <= '9') || ('a' <= c <= 'f') || ('A' <= c <= 'F')
  }

  /** What hashing a PIN under a salt prints. */
  predicate Shaped(hash: string, salt: string) {
    |hash| == HASH_LENGTH && IsHex(hash) && |salt| == SALT_LENGTH && IsHex(salt)
  }

  predicate ValidPin(pin: string) {
    1 <= |pin| <= 64 && forall c <- pin :: '0' <= c <= '9'
  }

  /** What the parser makes of a file. */
  function Parse(file: File): Status {
    match file
    case Missing => ReadFailed
    case Garbage => InvalidFile
    case Saved(r) =>
      if r.hash == "" && r.salt == "" then Empty
      else if !Shaped(r.hash, r.salt) || r.failed < 0 || r.failed > MOST_FAILURES || r.cooldownUntil < 0
        || r.updatedAt < 0 then InvalidFile
      else Ok
  }

  function Pow2(n: nat): (p: nat)
    ensures p >= 1
  {
    if n == 0 then 1 else 2 * Pow2(n - 1)
  }

  /** The wait after the n-th counted failure in a row. */
  function Delay(n: nat): nat {
    if n < FAILURE_LIMIT then 0
    else if INITIAL * Pow2(n - FAILURE_LIMIT) < MAXIMUM then INITIAL * Pow2(n - FAILURE_LIMIT)
    else MAXIMUM
  }

  lemma {:induction false} Pow2Grows(a: nat, b: nat)
    requires a <= b
    ensures Pow2(a) <= Pow2(b)
  {
    if a < b {
      Pow2Grows(a, b - 1);
    }
  }

  /** The doubling loop. */
  method CooldownSeconds(failed: nat) returns (delay: nat)
    requires failed >= FAILURE_LIMIT
    ensures delay == Delay(failed)
  {
    var shift := failed - FAILURE_LIMIT;
    delay := INITIAL;
    while shift > 0 && delay < MAXIMUM
      invariant 0 <= shift <= failed - FAILURE_LIMIT
      invariant delay == INITIAL * Pow2(failed - FAILURE_LIMIT - shift)
    {
      shift := shift - 1;
      delay := delay * 2;
    }
    Pow2Grows(failed - FAILURE_LIMIT - shift, failed - FAILURE_LIMIT);
    if delay > MAXIMUM {
      delay := MAXIMUM;
    }
  }

  /** One attempt against a readable record. */
  function Attempted(r: Record, matches: bool, now: int): (Record, Status, int)
    requires r.failed >= 0
  {
    if r.cooldownUntil > now then (r, Cooldown, r.cooldownUntil - now)
    else if matches then (r.(failed := 0, cooldownUntil := 0), Ok, 0)
    else
      var failed := if r.failed < MOST_FAILURES then r.failed + 1 else r.failed;
      var until := if failed >= FAILURE_LIMIT then now + Delay(failed) else 0;
      (r.(failed := failed, cooldownUntil := until), if until == 0 then Denied else Cooldown,
       if failed >= FAILURE_LIMIT then Delay(failed) else 0)
  }

  /** The file behind one attempt against it; only a record that changes is written. */
  function Looked(file: File, matches: bool, now: int, fate: Fate): File {
    if Parse(file) != Ok then file
    else
      var next := Attempted(file.record, matches, now).0;
      if next == file.record then file else Replaced(fate, file, Saved(next), Missing)
  }

  class Auth {
    /** The hash of a PIN under a salt. */
    const hashOf: (string, string) -> string
    var file: File

    constructor (hashOf: (string, string) -> string, file: File)
      ensures this.hashOf == hashOf && this.file == file
    {
      this.hashOf, this.file := hashOf, file;
    }

    method Write(r: Record, fate: Fate) returns (status: Status)
      modifies this
      ensures file == Replaced(fate, old(file), Saved(r), Missing)
      ensures status == if fate.Took? then Ok else WriteFailed
    {
      file := Replaced(fate, file, Saved(r), Missing);
      status := if fate.Took? then Ok else WriteFailed;
    }

    method VerifyPin(pin: string, now: int, fate: Fate) returns (status: Status, retryAfter: int)
      modifies this
      ensures !ValidPin(pin) ==> status == BadArgument && file == old(file)
      ensures ValidPin(pin) && Parse(old(file)) != Ok ==> status == Parse(old(file)) && file == old(file)
      ensures ValidPin(pin) && Parse(old(file)) == Ok ==>
                var r := old(file).record;
                var (next, answer, wait) := Attempted(r, r.hash == hashOf(pin, r.salt), now);
                && retryAfter == wait
                && file == Looked(old(file), r.hash == hashOf(pin, r.salt), now, fate)
                && status == if next == r || fate.Took? then answer else WriteFailed
    {
      retryAfter := 0;
      if !ValidPin(pin) {
        return BadArgument, 0;
      }
      status := Parse(file);
      if status != Ok {
        return;
      }
      var record := file.record;
      if record.cooldownUntil > now {
        return Cooldown, record.cooldownUntil - now;
      }
      if record.hash == hashOf(pin, record.salt) {
        if record.failed == 0 && record.cooldownUntil == 0 {
          return Ok, 0;
        }
        status := Write(record.(failed := 0, cooldownUntil := 0), fate);
        return;
      }
      if record.failed < MOST_FAILURES {
        record := record.(failed := record.failed + 1);
      }
      record := record.(cooldownUntil := 0);
      if record.failed >= FAILURE_LIMIT {
        var delay := CooldownSeconds(record.failed);
        record := record.(cooldownUntil := now + delay);
        retryAfter := delay;
      }
      status := Write(record, fate);
      if status == Ok {
        status := if record.cooldownUntil != 0 then Cooldown else Denied;
      }
    }

    method SetPin(pin: string, salt: string, now: int, fate: Fate) returns (status: Status)
      modifies this
      ensures !ValidPin(pin) ==> status == BadArgument && file == old(file)
      ensures ValidPin(pin) ==>
                && status == (if fate.Took? then Ok else WriteFailed)
                && file == Replaced(fate, old(file), Saved(Record(hashOf(pin, salt), salt, 0, 0, now)), Missing)
                && (fate.Took? && Shaped(hashOf(pin, salt), salt) ==> (Parse(file) == Ok <==> 0 <= now))
    {
      if !ValidPin(pin) {
        return BadArgument;
      }
      status := Write(Record(hashOf(pin, salt), salt, 0, 0, now), fate);
    }
  }

  // ---- Any number of attempts ----

  datatype Attempt = Attempt(matches: bool, now: int, fate: Fate)

  /** The file after some attempts. */
  function FileAfter(file: File, attempts: seq<Attempt>): File {
    if attempts == [] then file
    else
      var a := attempts[|attempts| - 1];
      Looked(FileAfter(file, attempts[..|attempts| - 1]), a.matches, a.now, a.fate)
  }

  /** Attempt `k` has lost the file. */
  predicate LosesAt(file: File, attempts: seq<Attempt>, k: nat)
    requires k < |attempts|
  {
    var f, a := FileAfter(file, attempts[..k]), attempts[k];
    Parse(f) == Ok && a.fate.Lost? && Attempted(f.record, a.matches, a.now).0 != f.record
  }

  /** Attempts never make a file unreadable, whatever the clock does, unless a failing write loses it:
      a record is only rewritten at a time no earlier than the end of its last cooldown. */
  lemma {:induction false} AttemptsKeepTheFileReadable(file: File, attempts: seq<Attempt>)
    ensures Parse(FileAfter(file, attempts)) == Ok <==>
              Parse(file) == Ok && forall k | 0 <= k < |attempts| :: !LosesAt(file, attempts, k)
    ensures Parse(file) == Ok && Parse(FileAfter(file, attempts)) != Ok ==> FileAfter(file, attempts) == Missing
    ensures Parse(file) != Ok ==> FileAfter(file, attempts) == file
  {
    if attempts != [] {
      hide Attempted, Parse, Looked;
      var n := |attempts| - 1;
      var init := attempts[..n];
      AttemptsKeepTheFileReadable(file, init);
      assert FileAfter(file, attempts[..n]) == FileAfter(file, init);
      forall k | 0 <= k < n ensures LosesAt(file, attempts, k) <==> LosesAt(file, init, k) {
        assert init[..k] == attempts[..k];
      }
      var f, a := FileAfter(file, init), attempts[n];
      LookedIsReadableIff(f, a.matches, a.now, a.fate);
      assert Parse(f) == Ok ==> (Parse(FileAfter(file, attempts)) == Ok <==> !LosesAt(file, attempts, n));
      assert (forall k | 0 <= k < |attempts| :: !LosesAt(file, attempts, k))
        <==> (forall k | 0 <= k < n :: !LosesAt(file, init, k)) && !LosesAt(file, attempts, n);
    }
  }

  lemma LookedIsReadableIff(file: File, matches: bool, now: int, fate: Fate)
    ensures Parse(Looked(file, matches, now, fate)) == Ok <==>
              Parse(file) == Ok && !(fate.Lost? && Attempted(file.record, matches, now).0 != file.record)
    ensures Parse(file) == Ok && Parse(Looked(file, matches, now, fate)) != Ok ==>
              Looked(file, matches, now, fate) == Missing
  {
  }

  /** Every record the program writes is accepted by the parser if and only if the PIN was set at a
      clock not before 1970, as long as no failing write loses it. */
  lemma WrittenRecordsAreReadableIff(hash: string, salt: string, now: int, attempts: seq<Attempt>)
    requires Shaped(hash, salt)
    ensures var file := Saved(Record(hash, salt, 0, 0, now));
            Parse(FileAfter(file, attempts)) == Ok <==>
              0 <= now && forall k | 0 <= k < |attempts| :: !LosesAt(file, attempts, k)
  {
    AttemptsKeepTheFileReadable(Saved(Record(hash, salt, 0, 0, now)), attempts);
  }

  /** A PIN set five seconds before 1970 is stored and never accepted. */
  method PinBeforeTheEpoch(auth: Auth, salt: string) returns (status: Status, later: Status)
    requires Shaped(auth.hashOf("1", salt), salt)
    modifies auth
    ensures status == Ok && Parse(auth.file) == InvalidFile && later == InvalidFile
  {
    status := auth.SetPin("1", salt, -5, Took);
    var answer, _ := auth.VerifyPin("1", 0, Took);
    later := answer;
  }

  /** The times of the wrong PINs that were looked at and noted since the last right one. */
  function Failures(file: File, attempts: seq<Attempt>): seq<int> {
    if attempts == [] then []
    else
      var init, a := attempts[..|attempts| - 1], attempts[|attempts| - 1];
      var f := FileAfter(file, init);
      if Parse(f) != Ok || f.record.cooldownUntil > a.now || !a.fate.Took? then Failures(file, init)
      else if a.matches then []
      else Failures(file, init) + [a.now]
  }

  /** The waits that lie between the fifth failure and the n-th. */
  function Waits(n: nat): nat {
    if n <= FAILURE_LIMIT then 0 else Waits(n - 1) + Delay(n - 1)
  }

  lemma {:induction false} LongWaits(n: nat)
    requires n >= 10
    ensures Waits(n) == 930 + 600 * (n - 10)
  {
    if n == 10 {
      assert Delay(5) == 30;
      assert Delay(6) == 60;
      assert Pow2(2) == 4;
      assert Delay(7) == 120;
      assert Pow2(3) == 8;
      assert Delay(8) == 240;
      assert Pow2(4) == 16;
      assert Delay(9) == 480;
      assert Waits(6) == 30;
      assert Waits(8) == 210;
    } else {
      LongWaits(n - 1);
      Pow2Grows(5, n - 1 - FAILURE_LIMIT);
      assert Pow2(5) == 32 by {
        assert Pow2(3) == 8;
      }
    }
  }

  /** A record that remembers the failures at the times `ts`, each spaced from the one before. */
  ghost predicate Remembers(r: Record, ts: seq<int>) {
    && r.failed == (if |ts| < MOST_FAILURES then |ts| else MOST_FAILURES)
    && r.cooldownUntil == (if |ts| >= FAILURE_LIMIT then ts[|ts| - 1] + Delay(|ts|) else 0)
    && Spaced(ts)
  }

  ghost predicate Spaced(ts: seq<int>) {
    forall n | FAILURE_LIMIT <= n <= |ts| :: ts[n - 1] >= ts[FAILURE_LIMIT - 1] + Waits(n)
  }

  lemma OneMoreFailure(r: Record, ts: seq<int>, now: int)
    requires Remembers(r, ts) && r.cooldownUntil <= now
    ensures Remembers(Attempted(r, false, now).0, ts + [now])
  {
    hide Delay;
    assert Spaced(ts + [now]) by {
      var more := ts + [now];
      forall n | FAILURE_LIMIT <= n <= |more| ensures more[n - 1] >= more[FAILURE_LIMIT - 1] + Waits(n) {
        if n <= |ts| {
          assert more[n - 1] == ts[n - 1];
        } else if n > FAILURE_LIMIT {
          assert ts[|ts| - 1] >= ts[FAILURE_LIMIT - 1] + Waits(|ts|);
        }
      }
    }
    CappedDelay(|ts| + 1);
  }

  /** Whatever the clock does and whatever write fails, from a fresh record every failure keeps its
      distance to the one before, so the n-th counted failure in a row comes at least Waits(n) after
      the fifth. */
  lemma {:induction false} FailuresAreSpaced(file: File, attempts: seq<Attempt>)
    requires file.Saved? ==> file.record.failed == 0 && file.record.cooldownUntil == 0
    ensures Spaced(Failures(file, attempts))
    ensures var f := FileAfter(file, attempts); Parse(f) == Ok ==> Remembers(f.record, Failures(file, attempts))
  {
    SpacedNothing();
    if attempts != [] {
      hide Delay, Spaced;
      var init, a := attempts[..|attempts| - 1], attempts[|attempts| - 1];
      FailuresAreSpaced(file, init);
      var f := FileAfter(file, init);
      if Parse(f) == Ok && f.record.cooldownUntil <= a.now && !a.matches {
        OneMoreFailure(f.record, Failures(file, init), a.now);
      }
    }
  }

  lemma SpacedNothing()
    ensures Spaced([])
  {
  }

  lemma CappedDelay(n: nat)
    ensures n > MOST_FAILURES ==> Delay(n) == Delay(MOST_FAILURES)
  {
    if n > MOST_FAILURES {
      assert Pow2(3) == 8;
      assert Pow2(5) == 32;
      Pow2Grows(5, MOST_FAILURES - FAILURE_LIMIT);
      Pow2Grows(5, n - FAILURE_LIMIT);
    }
  }

  /** The bound in seconds: 930 to the tenth failure, 600 more for each that follows. */
  lemma TenFailuresTakeFifteenMinutes(file: File, attempts: seq<Attempt>, n: nat)
    requires file.Saved? ==> file.record.failed == 0 && file.record.cooldownUntil == 0
    requires 10 <= n <= |Failures(file, attempts)|
    ensures Failures(file, attempts)[n - 1] - Failures(file, attempts)[4] >= 930 + 600 * (n - 10)
  {
    FailuresAreSpaced(file, attempts);
    LongWaits(n);
  }
}
