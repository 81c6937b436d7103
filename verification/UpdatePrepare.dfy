/** Preparing an update while other prepares may be running
    (companion/update_install.c, platform/update_fs.c). */
module UpdatePrepare {
  import opened CrashDisk
  import opened Wrappers
  import opened UpdateJournal
  import opened UpdateInstall

  // ---- Other transactions ----

  /** Paths that belong to transaction `t` alone. */
  predicate Own(p: Path, t: string) {
    || ((p.Stage? || p.Before? || p.ConfigBackup? || p.Record? || p.RecordTemporary?) && p.owner == t)
  }

  /** Paths that nobody but the lock's holder writes. */
  predicate Guarded(p: Path) {
    p.Live? || p.LiveTemporary? || p.Active? || p.ActiveTemporary? || p.Lock?
  }

  predicate Protected(img: Image, t: string, p: Path) {
    Own(p, t) || (Guarded(p) && Holds(img, Lock, LockText(t)))
  }

  /** What transaction `t` relies on from everybody else: its own files and, while it holds
      the lock, the guarded files are left alone; and nobody locks in its name. */
  ghost predicate Rely(t: string, a: Image, b: Image) {
    && (forall p :: Protected(a, t, p) ==> (p in a <==> p in b) && (p in a ==> a[p] == b[p]))
    && (Holds(b, Lock, LockText(t)) ==> Holds(a, Lock, LockText(t)))
  }

  /** What one step of transaction `t` guarantees to everybody else. */
  ghost predicate Guarantee(t: string, a: Image, b: Image) {
    forall other :: other != t ==> Rely(other, a, b)
  }

  /** Any number of steps of other transactions; none in a `quiet` world. */
  method Interleave(disk: Disk<Path, Content>, t: string, quiet: bool)
    modifies disk
    ensures Rely(t, old(disk.files), disk.files) && disk.health == old(disk.health)
    ensures quiet ==> disk.files == old(disk.files)
  {
    if !quiet {
      var other: Image := *;
      disk.files := Merge(disk.files, other, t);
    }
  }

  function Merge(img: Image, other: Image, t: string): Image {
    map p | p in img.Keys + other.Keys && p in (if Fixed(img, other, t, p) then img else other)
      :: (if Fixed(img, other, t, p) then img else other)[p]
  }

  predicate Fixed(img: Image, other: Image, t: string, p: Path) {
    Protected(img, t, p) || (p == Lock && Holds(other, Lock, LockText(t)))
  }

  // ---- Prepare ----

  /** Creates the lock file unless some lock file exists. */
  method Claim(disk: Disk<Path, Content>, t: string) returns (ok: bool)
    modifies disk
    ensures ok ==>
              Lock !in old(disk.files) && disk.files == old(disk.files)[Lock := LockText(t)]
                && disk.health == old(disk.health)
    ensures disk.files == old(disk.files)
            || (Lock !in old(disk.files) && disk.files == old(disk.files)[Lock := LockText(t)])
    ensures disk.health == Clean ==> old(disk.health) == Clean && (ok <==> Lock !in old(disk.files))
  {
    if disk.Exists(Lock) {
      return false;
    }
    ok := disk.Write(Lock, LockText(t), []);
    if ok {
      ok := disk.Commit();
    }
  }

  /** The live path's before image has been copied, and its staged content is the announced one. */
  predicate BackedUp(img: Image, j: Journal, i: nat)
    requires i < |j.files|
  {
    && Holds(img, Stage(j.transaction, i), Blob(j.files[i].after))
    && (if j.files[i].existed then Holds(img, Before(j.transaction, i), Blob(j.files[i].before))
        else j.files[i].before == "")
    && (i == 1 ==> j.files[i] == Entry(true, "", ""))
  }

  ghost predicate AllBackedUp(img: Image, j: Journal, n: nat)
    requires n <= |j.files|
  {
    forall i :: 0 <= i < n ==> BackedUp(img, j, i)
  }

  lemma OthersKeepBackups(t: string, a: Image, b: Image, j: Journal, n: nat)
    requires n <= |j.files| && j.transaction == t && Rely(t, a, b) && AllBackedUp(a, j, n)
    ensures AllBackedUp(b, j, n)
  {
    forall i | 0 <= i < n ensures BackedUp(b, j, i) {
      assert BackedUp(a, j, i);
      assert Protected(a, t, Stage(t, i)) && Protected(a, t, Before(t, i));
    }
  }

  /** When nobody else is active, the live path can be backed up exactly then. */
  predicate CanBackUp(img: Image, j: Journal, i: nat)
    requires i < |j.files|
  {
    && Holds(img, Stage(j.transaction, i), Blob(j.files[i].after))
    && (Live(i) in img ==> img[Live(i)].Blob? && Before(j.transaction, i) !in img)
    && (i == 1 ==> Holds(img, Live(1), Blob("")) && j.files[1].after == "")
  }

  /** What is recorded about a live path. */
  function Found(img: Image, j: Journal, i: nat): Entry
    requires i < |j.files|
  {
    if Live(i) in img && img[Live(i)].Blob? then Entry(true, img[Live(i)].bytes, j.files[i].after)
    else Entry(false, "", j.files[i].after)
  }

  /** The images differ at most in the first backups. */
  ghost predicate BackupsOnly(a: Image, b: Image, t: string, n: nat) {
    forall p: Path :: !(p.Before? && p.owner == t && p.file < n) ==> (p in a <==> p in b) && (p in a ==> a[p] == b[p])
  }

  /** The copy of a live path to a free backup name, read back. */
  method CopyLive(disk: Disk<Path, Content>, j: Journal, i: nat, bytes: string) returns (ok: bool)
    requires i < FILE_COUNT == |j.files| && AllBackedUp(disk.files, j, i)
    modifies disk
    ensures AllBackedUp(disk.files, j, i) && (Lock in disk.files ==> Holds(old(disk.files), Lock, disk.files[Lock]))
    ensures Guarantee(j.transaction, old(disk.files), disk.files)
    ensures ok ==> Live(i) in old(disk.files)
                   && disk.files == old(disk.files)[Before(j.transaction, i) := old(disk.files)[Live(i)]]
    ensures disk.health == Clean ==>
              old(disk.health) == Clean &&
              (ok <==> old(Holds(disk.files, Live(i), Blob(bytes)) && Before(j.transaction, i) !in disk.files))
    ensures ok ==> Holds(disk.files, Before(j.transaction, i), Blob(bytes))
                   && (Holds(old(disk.files), Stage(j.transaction, i), Blob(j.files[i].after)) ==>
                         Holds(disk.files, Stage(j.transaction, i), Blob(j.files[i].after)))
  {
    var backup := Before(j.transaction, i);
    var read := disk.Read(Live(i));
    if read.None? || disk.Exists(backup) {
      return false;
    }
    ok := disk.Write(backup, read.value, []);
    forall k | 0 <= k < i ensures BackedUp(disk.files, j, k) {
      assert BackedUp(old(disk.files), j, k);
    }
    if !ok {
      return;
    }
    ok := disk.Commit();
    if !ok {
      return;
    }
    ok := Matches(disk, backup, bytes);
  }

  /** The copy of one live path into the transaction's backups, with its two digests. */
  method BackUpFile(disk: Disk<Path, Content>, j: Journal, i: nat, quiet: bool) returns (ok: bool, j': Journal)
    requires i < FILE_COUNT == |j.files|
    requires AllBackedUp(disk.files, j, i)
    modifies disk
    ensures |j'.files| == FILE_COUNT && j' == j.(files := j.files[i := j'.files[i]])
    ensures j'.files[i].after == j.files[i].after
    ensures ok ==> AllBackedUp(disk.files, j', i + 1)
    ensures ok && quiet ==> BackupsOnly(old(disk.files), disk.files, j.transaction, i + 1)
                            && j'.files[i] == Found(old(disk.files), j, i)
    ensures disk.health == Clean ==> old(disk.health) == Clean && (quiet ==> (ok <==> CanBackUp(old(disk.files), j, i)))
    ensures Holds(disk.files, Lock, LockText(j.transaction)) ==> old(Holds(disk.files, Lock, LockText(j.transaction)))
  {
    hide AllBackedUp, Guarantee;
    j' := j;
    ghost var before := disk.files;
    Interleave(disk, j.transaction, quiet);
    OthersKeepBackups(j.transaction, before, disk.files, j, i);
    ok := Matches(disk, Stage(j.transaction, i), j.files[i].after);
    if !ok {
      return;
    }
    var entry := Entry(false, "", j.files[i].after);
    var live := disk.Read(Live(i));
    if live.Some? {
      if !live.value.Blob? {
        return false, j';
      }
      entry := Entry(true, live.value.bytes, entry.after);
      before := disk.files;
      Interleave(disk, j.transaction, quiet);
      OthersKeepBackups(j.transaction, before, disk.files, j, i);
      assert Protected(before, j.transaction, Stage(j.transaction, i));
      ok := CopyLive(disk, j, i, entry.before);
      if !ok {
        return;
      }
    } else if disk.Exists(Live(i)) {
      return false, j';
    }
    j' := j.(files := j.files[i := entry]);
    ok := i != 1 || entry == Entry(true, "", "");
    if ok {
      OneMoreBackup(disk.files, j, j', i);
    }
  }

  lemma OneMoreBackup(img: Image, j: Journal, j': Journal, i: nat)
    requires i < FILE_COUNT == |j.files| && AllBackedUp(img, j, i)
    requires |j'.files| == FILE_COUNT && j' == j.(files := j.files[i := j'.files[i]]) && BackedUp(img, j', i)
    ensures AllBackedUp(img, j', i + 1)
  {
    forall k | 0 <= k < i + 1 ensures BackedUp(img, j', k) {
      assert k < i ==> BackedUp(img, j, k);
    }
  }

  /** What a successful prepare leaves. */
  ghost predicate PreparedBy(img: Image, j: Journal) {
    && WellFormed(j) && j.phase == Prepared && j.nextFile == 0
    && Holds(img, Lock, LockText(j.transaction)) && Saved(img, j) && Savable(img, j, true)
    && AllBackedUp(img, j, FILE_COUNT) && AllBefore(img, j)
  }

  /** Whether the active record, if there is one, is of a finished transaction. */
  predicate NoOpenTransaction(img: Image) {
    Active in img ==> JournalAt(img, Active).Some? && Finished(JournalAt(img, Active).value.phase)
  }

  /** What is on the card under the claimed lock, wherever the prepare is stopped: the backups are
      complete, and the own record is there but for one gap of the last save. */
  ghost predicate Claimed(img: Image, j: Journal) {
    && WellFormed(j) && j.phase == Prepared
    && Holds(img, Lock, LockText(j.transaction)) && AllBackedUp(img, j, FILE_COUNT)
    && (Holds(img, Record(j.transaction), JournalText(j)) || (Record(j.transaction) !in img && AllBefore(img, j)))
  }

  /** A start-up then finds the journal exactly when it is the active record, or the lock leads to
      the own record past a finished transaction of another name, or past none. */
  lemma ClaimedLoadsIff(img: Image, j: Journal)
    requires Claimed(img, j)
    ensures Load(img) == Some(j) <==>
              || JournalAt(img, Active) == Some(j)
              || (NoOpenTransaction(img) && Record(j.transaction) in img
                  && (Active in img ==> JournalAt(img, Active).value.transaction != j.transaction))
  {
  }

  /** What it finds is enough to recover from, as long as the live paths are still the ones that
      were backed up. */
  lemma ClaimedIsRecoverable(img: Image, j: Journal)
    requires Claimed(img, j) && Load(img) == Some(j) && Savable(img, j, true)
    requires forall i :: 0 <= i < FILE_COUNT && i != 1 ==> Discardable(img, j, i)
    ensures AllBefore(img, j) ==> Recoverable(img, j)
  {
    if AllBefore(img, j) {
      forall i | 0 <= i < FILE_COUNT ensures Known(img, j, i) && !Missing(img, j, i) {
        assert BackedUp(img, j, i) && IsBefore(img, j, i);
      }
      assert IsBefore(img, j, 1);
    }
  }

  lemma SavedOrGap(a: Image, b: Image, j: Journal)
    requires b in SaveImages(a, j, true) && Holds(a, Record(j.transaction), JournalText(j))
    ensures Holds(b, Record(j.transaction), JournalText(j)) || Record(j.transaction) !in b
  {
  }

  /** While a transaction holds the lock, the others leave its preparation alone. */
  lemma OthersKeepPreparation(t: string, a: Image, b: Image, j: Journal)
    requires |j.files| == FILE_COUNT && j.transaction == t && Rely(t, a, b) && Holds(a, Lock, LockText(t))
    ensures Holds(b, Lock, LockText(t))
    ensures AllBefore(a, j) ==> AllBefore(b, j)
    ensures Saved(a, j) ==> Saved(b, j)
    ensures Claimed(a, j) ==> Claimed(b, j)
    ensures Savable(a, j, true) ==> Savable(b, j, true)
    ensures AllBackedUp(a, j, FILE_COUNT) ==> AllBackedUp(b, j, FILE_COUNT)
  {
    forall p | Guarded(p) || Own(p, t) ensures (p in a <==> p in b) && (p in a ==> a[p] == b[p]) {
      assert Protected(a, t, p);
    }
    assert Guarded(Lock) && Guarded(Active) && Guarded(ActiveTemporary) && Own(Record(t), t)
           && Own(RecordTemporary(t), t);
    if AllBefore(a, j) {
      forall i | 0 <= i < FILE_COUNT ensures IsBefore(b, j, i) {
        assert IsBefore(a, j, i) && Guarded(Live(i));
      }
    }
    if AllBackedUp(a, j, FILE_COUNT) {
      OthersKeepBackups(t, a, b, j, FILE_COUNT);
    }
  }

  ghost predicate RecordOnly(a: Image, b: Image, t: string) {
    forall p :: p !in {Record(t), RecordTemporary(t)} ==> (p in a <==> p in b) && (p in a ==> a[p] == b[p])
  }

  lemma RecordSaveFrame(a: Image, b: Image, j: Journal)
    requires b in SaveImages(a, j, false)
    ensures RecordOnly(a, b, j.transaction)
  {
  }

  /** A save of the own record is invisible to the others; a save of the active record is
      too, for whoever holds the lock. */
  lemma SaveIsGuaranteed(a: Image, b: Image, j: Journal, active: bool)
    requires b in SaveImages(a, j, active)
    requires active ==> Holds(a, Lock, LockText(j.transaction))
    ensures Guarantee(j.transaction, a, b)
  {
    hide SaveImages, JournalAt, Replaceable;
    if active {
      SaveFrame(a, j, b);
    } else {
      RecordSaveFrame(a, b, j);
    }
  }

  lemma BackupsAreElsewhere(a: Image, b: Image, j: Journal, j': Journal, i: nat)
    requires i < |j.files| == |j'.files| && j'.files[i] == j.files[i] && j'.transaction == j.transaction
    requires BackupsOnly(a, b, j.transaction, i)
    ensures CanBackUp(b, j', i) <==> CanBackUp(a, j, i)
    ensures Found(b, j', i) == Found(a, j, i)
  {
  }

  /** All live paths in turn. */
  method BackUpFiles(disk: Disk<Path, Content>, j: Journal, quiet: bool) returns (ok: bool, j': Journal)
    requires |j.files| == FILE_COUNT
    modifies disk
    ensures |j'.files| == FILE_COUNT && j' == j.(files := j'.files)
    ensures forall i :: 0 <= i < FILE_COUNT ==> j'.files[i].after == j.files[i].after
    ensures ok ==> AllBackedUp(disk.files, j', FILE_COUNT)
    ensures Holds(disk.files, Lock, LockText(j.transaction)) ==> old(Holds(disk.files, Lock, LockText(j.transaction)))
    ensures ok && quiet ==> BackupsOnly(old(disk.files), disk.files, j.transaction, FILE_COUNT)
    ensures ok && quiet ==> forall i :: 0 <= i < FILE_COUNT ==> j'.files[i] == Found(old(disk.files), j, i)
    ensures disk.health == Clean ==>
              old(disk.health) == Clean
              && (quiet ==> (ok <==> forall i :: 0 <= i < FILE_COUNT ==> CanBackUp(old(disk.files), j, i)))
  {
    hide CanBackUp, Found, AllBackedUp, BackupsOnly;
    j', ok := j, true;
    NothingBackedUp(disk.files, j);
    for i := 0 to FILE_COUNT
      invariant j' == j.(files := j'.files) && |j'.files| == FILE_COUNT
      invariant forall k :: 0 <= k < FILE_COUNT ==> j'.files[k].after == j.files[k].after
      invariant forall k :: i <= k < FILE_COUNT ==> j'.files[k] == j.files[k]
      invariant AllBackedUp(disk.files, j', i)
      invariant Holds(disk.files, Lock, LockText(j.transaction)) ==>
                  old(Holds(disk.files, Lock, LockText(j.transaction)))
      invariant disk.health == Clean ==> old(disk.health) == Clean
      invariant quiet ==> BackupsOnly(old(disk.files), disk.files, j.transaction, i)
      invariant quiet ==> forall k :: 0 <= k < i ==> j'.files[k] == Found(old(disk.files), j, k)
      invariant quiet && disk.health == Clean ==> forall k :: 0 <= k < i ==> CanBackUp(old(disk.files), j, k)
    {
      ghost var before, earlier := disk.files, j';
      if quiet {
        BackupsAreElsewhere(old(disk.files), disk.files, j, j', i);
      }
      ok, j' := BackUpFile(disk, j', i, quiet);
      if !ok {
        return;
      }
      if quiet {
        MoreBackups(old(disk.files), before, disk.files, j.transaction, i);
      }
    }
  }

  lemma NothingBackedUp(img: Image, j: Journal)
    ensures AllBackedUp(img, j, 0) && BackupsOnly(img, img, j.transaction, 0)
  {
  }

  lemma MoreBackups(a: Image, b: Image, c: Image, t: string, n: nat)
    requires BackupsOnly(a, b, t, n) && BackupsOnly(b, c, t, n + 1)
    ensures BackupsOnly(a, c, t, n + 1)
  {
  }

  /** The journal an undisturbed prepare writes. */
  function Planned(img: Image, j: Journal): Journal
    requires |j.files| == FILE_COUNT
  {
    j.(files := seq(FILE_COUNT, i requires 0 <= i < FILE_COUNT => Found(img, j, i)),
       outcome := "", nextFile := 0, phase := Prepared)
  }

  /** When its own record can be written. */
  ghost predicate Recordable(img: Image, j: Journal, config: string)
    requires |j.files| == FILE_COUNT
  {
    && Holds(img, ConfigBackup(j.transaction), Blob(config))
    && (forall i :: 0 <= i < FILE_COUNT ==> CanBackUp(img, j, i))
    && Replaceable(img, RecordTemporary(j.transaction), Planned(img, j))
  }

  /** The images differ at most in the transaction's own files. */
  ghost predicate OwnOnly(a: Image, b: Image, t: string) {
    forall p :: !Own(p, t) ==> (p in a <==> p in b) && (p in a ==> a[p] == b[p])
  }

  /** Everything up to the claim: the before images are copied and the own record written. */
  method WriteRecord(disk: Disk<Path, Content>, j: Journal, config: string, quiet: bool) returns (ok: bool, j': Journal)
    requires |j.files| == FILE_COUNT
    modifies disk
    ensures |j'.files| == FILE_COUNT && j'.transaction == j.transaction && j'.frozen == j.frozen
    ensures ok ==> WellFormed(j') && j'.phase == Prepared && j'.nextFile == 0 && AllBackedUp(disk.files, j', FILE_COUNT)
    ensures ok ==> Holds(disk.files, Record(j.transaction), JournalText(j'))
    ensures Holds(disk.files, Lock, LockText(j.transaction)) ==> old(Holds(disk.files, Lock, LockText(j.transaction)))
    ensures forall i :: 0 <= i < FILE_COUNT ==> j'.files[i].after == j.files[i].after
    ensures ok && quiet ==> j' == Planned(old(disk.files), j) && OwnOnly(old(disk.files), disk.files, j.transaction)
                            && RecordTemporary(j.transaction) !in disk.files
    ensures disk.health == Clean ==>
              old(disk.health) == Clean && (quiet ==> (ok <==> Recordable(old(disk.files), j, config)))
  {
    hide CanBackUp, Found, AllBackedUp, Guarantee, Rely, SaveImages, RecordOnly, BackupsOnly, OwnOnly;
    j' := j;
    ok := Matches(disk, ConfigBackup(j.transaction), config);
    if !ok {
      return;
    }
    ok, j' := BackUpFiles(disk, j, quiet);
    if !ok {
      return;
    }
    ghost var copied := j';
    j' := j'.(outcome := "", nextFile := 0, phase := Prepared);
    if quiet {
      assert j'.files == Planned(old(disk.files), j).files;
    }
    ghost var before := disk.files;
    SameBackups(before, copied, j');
    Interleave(disk, j.transaction, quiet);
    OthersKeepBackups(j.transaction, before, disk.files, j', FILE_COUNT);
    ok := SaveRecord(disk, j');
    if quiet {
      OwnFilesOnly(old(disk.files), before, disk.files, j');
    }
  }

  lemma SameBackups(img: Image, a: Journal, b: Journal)
    requires |a.files| == FILE_COUNT && a.files == b.files && a.transaction == b.transaction
    requires AllBackedUp(img, a, FILE_COUNT)
    ensures AllBackedUp(img, b, FILE_COUNT)
  {
    forall i | 0 <= i < FILE_COUNT ensures BackedUp(img, b, i) {
      assert BackedUp(img, a, i);
    }
  }

  lemma OwnFilesOnly(a: Image, b: Image, c: Image, j: Journal)
    requires BackupsOnly(a, b, j.transaction, FILE_COUNT) && RecordOnly(b, c, j.transaction)
    ensures OwnOnly(a, c, j.transaction)
    ensures Replaceable(b, RecordTemporary(j.transaction), j) <==> Replaceable(a, RecordTemporary(j.transaction), j)
  {
  }

  method SaveRecord(disk: Disk<Path, Content>, j: Journal) returns (ok: bool)
    requires |j.files| == FILE_COUNT && j.nextFile == 0 && AllBackedUp(disk.files, j, FILE_COUNT)
    modifies disk
    ensures AllBackedUp(disk.files, j, FILE_COUNT)
    ensures Holds(disk.files, Lock, LockText(j.transaction)) ==> old(Holds(disk.files, Lock, LockText(j.transaction)))
    ensures RecordOnly(old(disk.files), disk.files, j.transaction)
            && Guarantee(j.transaction, old(disk.files), disk.files)
    ensures ok ==> WellFormed(j) && Holds(disk.files, Record(j.transaction), JournalText(j))
                   && RecordTemporary(j.transaction) !in disk.files
    ensures disk.health == Clean ==>
              old(disk.health) == Clean && (ok <==> old(Replaceable(disk.files, RecordTemporary(j.transaction), j)))
  {
    ghost var before := disk.files;
    ok := Save(disk, j, false);
    SaveIsGuaranteed(before, disk.files, j, false);
    RecordSaveFrame(before, disk.files, j);
    assert BackedUp(before, j, 1);
    forall i | 0 <= i < FILE_COUNT ensures BackedUp(disk.files, j, i) {
      assert BackedUp(before, j, i);
    }
    BackedUpIsWellFormed(before, j);
  }

  lemma BackedUpIsWellFormed(img: Image, j: Journal)
    requires |j.files| == FILE_COUNT && j.nextFile == 0 && AllBackedUp(img, j, FILE_COUNT)
    ensures WellFormed(j)
  {
    forall i | 0 <= i < FILE_COUNT && !j.files[i].existed ensures j.files[i].before == "" {
      assert BackedUp(img, j, i);
    }
    assert BackedUp(img, j, 1);
  }

  /** Everything after the claim: the world is looked at again, now that nobody else may
      change it, and the transaction becomes the active one. */
  method Activate(disk: Disk<Path, Content>, j: Journal, quiet: bool) returns (ok: bool)
    requires WellFormed(j) && j.phase == Prepared && j.nextFile == 0
    requires Claimed(disk.files, j) && Holds(disk.files, Record(j.transaction), JournalText(j))
    modifies disk
    ensures ok ==> PreparedBy(disk.files, j)
    ensures Holds(disk.files, Lock, LockText(j.transaction)) ==> Claimed(disk.files, j)
    ensures disk.health == Clean ==>
              old(disk.health) == Clean &&
              (quiet ==> (ok <==>
                            old(NoOpenTransaction(disk.files) && AllBefore(disk.files, j)
                                && Savable(disk.files, j, true))))
  {
    hide AllBefore, AllBackedUp, SaveImages, JournalOnly;
    var t := j.transaction;
    ghost var before := disk.files;
    Interleave(disk, t, quiet);
    OthersKeepPreparation(t, before, disk.files, j);
    before := disk.files;
    if !NoOpenTransaction(disk.files) {
      var _ := Unlock(disk, t);
      assert Guarantee(t, before, disk.files);
      return false;
    }
    ok := FilesMatch(disk, j, false);
    if !ok {
      var _ := Unlock(disk, t);
      assert Guarantee(t, before, disk.files);
      return;
    }
    Interleave(disk, t, quiet);
    OthersKeepPreparation(t, before, disk.files, j);
    before := disk.files;
    ok := Save(disk, j, true);
    SaveIsGuaranteed(before, disk.files, j, true);
    SaveFrame(before, j, disk.files);
    SavedOrGap(before, disk.files, j);
    PreparationKept(before, disk.files, j);
  }

  lemma PreparationKept(a: Image, b: Image, j: Journal)
    requires |j.files| == FILE_COUNT && JournalOnly(a, b, j.transaction)
    ensures AllBefore(a, j) ==> AllBefore(b, j)
    ensures AllBackedUp(a, j, FILE_COUNT) ==> AllBackedUp(b, j, FILE_COUNT)
    ensures forall c :: Holds(a, Lock, c) ==> Holds(b, Lock, c)
  {
    forall i | 0 <= i < FILE_COUNT
      ensures (IsBefore(a, j, i) ==> IsBefore(b, j, i)) && (BackedUp(a, j, i) ==> BackedUp(b, j, i))
    {
    }
  }

  /** When nobody else is active, a prepare succeeds exactly then. */
  ghost predicate Preparable(img: Image, j: Journal, config: string)
    requires |j.files| == FILE_COUNT
  {
    && Lock !in img && NoOpenTransaction(img) && Recordable(img, j, config)
    && Replaceable(img, ActiveTemporary, Planned(img, j))
  }

  /** Nothing that decides about the activation lies among the transaction's own files. */
  lemma PlannedIsActivatable(a: Image, b: Image, j: Journal, config: string)
    requires |j.files| == FILE_COUNT && OwnOnly(a, b, j.transaction) && Lock !in a
    requires Recordable(a, j, config) && RecordTemporary(j.transaction) !in b
    requires AllBackedUp(b, Planned(a, j), FILE_COUNT)
    ensures var now, plan := b[Lock := LockText(j.transaction)], Planned(a, j);
            && Lock !in b && (NoOpenTransaction(now) <==> NoOpenTransaction(a)) && AllBefore(now, plan)
            && (Savable(now, plan, true) <==> Replaceable(a, ActiveTemporary, plan))
  {
    var now, plan := b[Lock := LockText(j.transaction)], Planned(a, j);
    BackedUpIsWellFormed(b, plan);
    forall i | 0 <= i < FILE_COUNT ensures IsBefore(now, plan, i) {
      assert CanBackUp(a, j, i) && !Own(Live(i), j.transaction);
    }
    assert !Own(Active, j.transaction) && !Own(ActiveTemporary, j.transaction) && !Own(Lock, j.transaction);
  }

  lemma ClaimKeepsBackups(a: Image, b: Image, j: Journal)
    requires |j.files| == FILE_COUNT && AllBackedUp(a, j, FILE_COUNT)
    requires b == a || (Lock !in a && b == a[Lock := LockText(j.transaction)])
    ensures AllBackedUp(b, j, FILE_COUNT) && Guarantee(j.transaction, a, b)
  {
    forall i | 0 <= i < FILE_COUNT ensures BackedUp(b, j, i) {
      assert BackedUp(a, j, i);
    }
  }

  /** Prepares `j` among any steps of other transactions. Success means owning the lock and
      the active record, with before images that are backed up and are what the live paths
      hold, as looked at under the lock. At every other end, a power loss included, the lock is
      not held in its name, or the card is as `Claimed` says. */
  method Prepare(disk: Disk<Path, Content>, j: Journal, config: string, quiet: bool) returns (ok: bool, j': Journal)
    requires |j.files| == FILE_COUNT
    modifies disk
    ensures ok ==> PreparedBy(disk.files, j') && j'.transaction == j.transaction && j'.frozen == j.frozen
    ensures ok ==> forall i :: 0 <= i < FILE_COUNT ==> j'.files[i].after == j.files[i].after
    ensures old(Lock in disk.files) ==> !ok && disk.files == old(disk.files)
    ensures old(Lock !in disk.files) && Holds(disk.files, Lock, LockText(j.transaction)) ==> Claimed(disk.files, j')
    ensures disk.health == Clean ==>
              old(disk.health) == Clean && (quiet ==> (ok <==> Preparable(old(disk.files), j, config)))
  {
    hide Recordable, Planned, Savable, Replaceable, OwnOnly, AllBackedUp, AllBefore, Guarantee;
    j' := j;
    if disk.Exists(Lock) {
      return false, j';
    }
    if disk.Exists(Active) {
      var earlier := Load(disk.files);
      if earlier.None? || !Finished(earlier.value.phase) {
        return false, j';
      }
    }
    ok, j' := WriteRecord(disk, j, config, quiet);
    if !ok {
      return;
    }
    if quiet && disk.health == Clean {
      PlannedIsActivatable(old(disk.files), disk.files, j, config);
    }
    var t := j.transaction;
    ghost var before := disk.files;
    Interleave(disk, t, quiet);
    OthersKeepBackups(t, before, disk.files, j', FILE_COUNT);
    before := disk.files;
    ok := Claim(disk, t);
    ClaimKeepsBackups(before, disk.files, j');
    if !ok {
      return;
    }
    ok := disk.Commit();
    if !ok {
      return;
    }
    ok := Activate(disk, j', quiet);
    if ok {
      before := disk.files;
      Interleave(disk, t, quiet);
      OthersKeepPreparation(t, before, disk.files, j');
    }
  }

  /** Installing and rolling back under the lock is invisible to the others too, at every stop: so
      `Install` and `Rollback` promise of what they leave. */
  lemma LockedWorkIsGuaranteed(t: string, a: Image, b: Image)
    requires ForeignKept(a, b, t) && Holds(a, Lock, LockText(t))
    ensures Guarantee(t, a, b)
  {
    forall other: string | other != t ensures Rely(other, a, b) {
      forall p | Protected(a, other, p) ensures (p in a <==> p in b) && (p in a ==> a[p] == b[p]) {
        assert Own(p, other) ==> Foreign(p, t);
      }
    }
  }

  /** One undisturbed or interrupted install, and one such rollback, as steps among others. */
  method WorkUnderTheLock(disk: Disk<Path, Content>, j: Journal, back: bool) returns (ok: bool, j': Journal)
    requires |j.files| == FILE_COUNT && Holds(disk.files, Lock, LockText(j.transaction))
    modifies disk
    ensures Guarantee(j.transaction, old(disk.files), disk.files)
  {
    hide Guarantee;
    ghost var a := disk.files;
    if back {
      ok, j' := Rollback(disk, j);
    } else {
      ok, j' := Install(disk, j);
    }
    LockedWorkIsGuaranteed(j.transaction, a, disk.files);
  }

  /** While one transaction holds the lock and does nothing itself, no schedule of guaranteed
      steps of other transactions lets another one prepare, and its preparation stays. */
  lemma {:induction false} NobodyElsePrepares(
      t: string, j: Journal, images: seq<Image>, actors: seq<string>, k: Journal)
    requires 1 <= |images| == |actors| + 1 && j.transaction == t
    requires PreparedBy(images[0], j)
    requires forall n :: 0 <= n < |actors| ==> actors[n] != t && Guarantee(actors[n], images[n], images[n + 1])
    ensures PreparedBy(images[|actors|], j)
    ensures PreparedBy(images[|actors|], k) ==> k.transaction == t && k == j
  {
    var n := |actors|;
    if n > 0 {
      NobodyElsePrepares(t, j, images[..n], actors[..n - 1], k);
      assert Guarantee(actors[n - 1], images[n - 1], images[n]);
      OthersKeepPreparation(t, images[n - 1], images[n], j);
    }
  }

  /** What the lemma above leaves out is the rollback of an installed transaction that has given its
      lock up. While it saves, others may prepare in exactly one image of each save: the gap in which
      the active record is being replaced. */
  lemma OnlyTheGapAdmitsOthers(img: Image, j: Journal)
    requires Savable(img, j, true) && !Finished(j.phase) && !NoOpenTransaction(img)
    ensures forall b :: b in SaveImages(img, j, true) ==> (NoOpenTransaction(b) <==> Active !in b)
    ensures exists b :: b in SaveImages(img, j, true) && Active !in b
  {
    var own := ReplaceImages(img, Record(j.transaction), RecordTemporary(j.transaction), j);
    var active := ReplaceImages(Last(own), Active, ActiveTemporary, j);
    var images := SaveImages(img, j, true);
    assert images == own + active;
    forall b | b in images ensures NoOpenTransaction(b) <==> Active !in b {
      assert b in own || b in active;
    }
    assert images[8] == active[3] && Active !in images[8];
  }

  /** When one has prepared in that gap, the rollback's next publication spoils its preparation unless
      it happens to put back the very content that was backed up; anything but the two contents of the
      preparation stops every later install and rollback of it. */
  lemma UnlockedPublicationSpoilsIff(img: Image, j: Journal, i: nat, bytes: string)
    requires PreparedBy(img, j) && i < FILE_COUNT
    ensures var b := img[Live(i) := Blob(bytes)];
            && (PreparedBy(b, j) <==> j.files[i].existed && bytes == j.files[i].before)
            && (Known(b, j, i) <==> bytes == j.files[i].after || (j.files[i].existed && bytes == j.files[i].before))
  {
    var b := img[Live(i) := Blob(bytes)];
    forall n | 0 <= n < FILE_COUNT
      ensures BackedUp(b, j, n) && (n != i ==> IsBefore(b, j, n))
    {
      assert BackedUp(img, j, n) && IsBefore(img, j, n);
    }
    assert BackedUp(img, j, i);
    assert AllBefore(b, j) <==> IsBefore(b, j, i);
  }

  /** A prepared transaction may be installed: it is settled once the leftover publication
      temporaries are its own, and installable if there are none. */
  lemma PreparedIsSettled(img: Image, j: Journal)
    requires PreparedBy(img, j)
    ensures (forall i :: 0 <= i < FILE_COUNT && i != 1 ==> Discardable(img, j, i)) <==> Settled(img, j)
    ensures (forall i :: 0 <= i < FILE_COUNT && i != 1 ==> LiveTemporary(i) !in img) ==> AllInstallable(img, j)
  {
    forall i | 0 <= i < FILE_COUNT
      ensures Known(img, j, i) && !Missing(img, j, i)
      ensures (i != 1 ==> LiveTemporary(i) !in img) ==> Installable(img, j, i)
    {
      assert BackedUp(img, j, i) && IsBefore(img, j, i);
    }
    assert IsBefore(img, j, 1) && BackedUp(img, j, 1);
  }
}
