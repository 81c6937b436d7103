/** The update transaction's journal: one record kept in two files, each replaced through a
    temporary (companion/update_install.c, platform/update_fs.c). */
module UpdateJournal {
  import opened CrashDisk
  import opened Wrappers

  const FILE_COUNT: nat := 13

  /** Files below the card's root. `Live` are the paths an update replaces. */
  datatype Path =
    | Live(file: nat) | LiveTemporary(file: nat)
    | Stage(owner: string, file: nat) | Before(owner: string, file: nat) | ConfigBackup(owner: string)
    | Record(owner: string) | RecordTemporary(owner: string)
    | Active | ActiveTemporary | Lock

  datatype Phase = Prepared | Installing | FilesInstalled | RollingBack | RecoveryRequired | Completed | RolledBack

  /** What is recorded about one live path. File contents stand for their size and digest,
      so two contents have equal digests only if they are equal. */
  datatype Entry = Entry(existed: bool, before: string, after: string)

  /** `frozen` stands for the fields fixed when the transaction is created, `outcome` for
      the target's process and boot identity, which are filled in at the end. */
  datatype Journal = Journal(
    transaction: string, frozen: string, outcome: string, phase: Phase, nextFile: nat, files: seq<Entry>)

  datatype Content = Blob(bytes: string) | JournalText(journal: Journal) | LockText(transaction: string)

  type Image = map<Path, Content>

  predicate Busy(p: Phase) {
    p in {Prepared, Installing, RollingBack, RecoveryRequired}
  }

  predicate Finished(p: Phase) {
    p in {Completed, RolledBack}
  }

  /** What the journal parser accepts. The second path is the sysmodule's boot flag: it
      exists, it is empty, and no update changes it. */
  predicate WellFormed(j: Journal) {
    && |j.files| == FILE_COUNT
    && j.nextFile <= FILE_COUNT
    && (forall i :: 0 <= i < FILE_COUNT && !j.files[i].existed ==> j.files[i].before == "")
    && j.files[1] == Entry(true, "", "")
  }

  /** The journals differ at most in how far the transaction has come. */
  predicate SameTransaction(a: Journal, b: Journal) {
    a.transaction == b.transaction && a.frozen == b.frozen && a.files == b.files
  }

  predicate Holds(img: Image, p: Path, c: Content) {
    p in img && img[p] == c
  }

  function JournalAt(img: Image, p: Path): Option<Journal> {
    if p in img && img[p].JournalText? && WellFormed(img[p].journal) then Some(img[p].journal) else None
  }

  // ---- Replacing one file ----

  /** A leftover temporary may be removed only if it is this text or an earlier text of the
      same transaction. */
  predicate Replaceable(img: Image, temporary: Path, j: Journal) {
    temporary in img ==>
      || img[temporary] == JournalText(j)
      || (JournalAt(img, temporary).Some? && WellFormed(j) && SameTransaction(JournalAt(img, temporary).value, j))
  }

  /** The images that replacing `p` by `j` passes through, in order. */
  function ReplaceImages(img: Image, p: Path, temporary: Path, j: Journal): (images: seq<Image>)
    ensures |images| > 0 && images[0] == img
  {
    if !Replaceable(img, temporary, j) then [img]
    else
      var cleared := img - {temporary};
      var written := cleared[temporary := JournalText(j)];
      var removed := written - {p};
      [img, cleared, written, removed, (removed - {temporary})[p := JournalText(j)]]
  }

  function Last<T>(s: seq<T>): T
    requires |s| > 0
  {
    s[|s| - 1]
  }

  method Replace(disk: Disk<Path, Content>, p: Path, temporary: Path, j: Journal) returns (ok: bool)
    requires p != temporary
    modifies disk
    ensures disk.files in old(ReplaceImages(disk.files, p, temporary, j))
    ensures ok ==> disk.files == Last(old(ReplaceImages(disk.files, p, temporary, j)))
                   && old(Replaceable(disk.files, temporary, j)) && disk.health == old(disk.health)
    ensures disk.health == Clean ==> old(disk.health) == Clean && (ok <==> old(Replaceable(disk.files, temporary, j)))
  {
    ghost var images := ReplaceImages(disk.files, p, temporary, j);
    if disk.Exists(temporary) {
      var text := disk.Read(temporary);
      if text.None? || !Replaceable(disk.files, temporary, j) {
        return false;
      }
      ok := disk.Remove(temporary);
      if !ok {
        return;
      }
      ok := disk.Commit();
      if !ok {
        return;
      }
    }
    assert disk.files == images[1];
    ok := disk.Write(temporary, JournalText(j), []);
    if !ok {
      return;
    }
    ok := disk.Commit();
    if !ok {
      return;
    }
    if disk.Exists(p) {
      ok := disk.Remove(p);
      if !ok {
        return;
      }
    }
    assert disk.files == images[3];
    ok := disk.Commit();
    if !ok {
      return;
    }
    ok := disk.Rename(temporary, p);
    if ok {
      ok := disk.Commit();
    }
  }

  // ---- Saving and loading ----

  predicate Savable(img: Image, j: Journal, active: bool) {
    && WellFormed(j)
    && Replaceable(img, RecordTemporary(j.transaction), j)
    && (active ==> Replaceable(img, ActiveTemporary, j))
  }

  /** The images that saving `j` passes through, in order: its own record first, the active
      record after that. */
  function SaveImages(img: Image, j: Journal, active: bool): (images: seq<Image>)
    ensures |images| > 0 && images[0] == img
  {
    if !WellFormed(j) then [img]
    else
      var own := ReplaceImages(img, Record(j.transaction), RecordTemporary(j.transaction), j);
      if !active || !Replaceable(img, RecordTemporary(j.transaction), j) then own
      else own + ReplaceImages(Last(own), Active, ActiveTemporary, j)
  }

  method ReadsBack(disk: Disk<Path, Content>, p: Path, j: Journal) returns (ok: bool)
    modifies disk
    ensures disk.files == old(disk.files)
    ensures ok ==> Holds(disk.files, p, JournalText(j)) && disk.health == old(disk.health)
    ensures disk.health == Clean ==> old(disk.health) == Clean && (ok <==> Holds(disk.files, p, JournalText(j)))
  {
    var text := disk.Read(p);
    return text == Some(JournalText(j));
  }

  method Save(disk: Disk<Path, Content>, j: Journal, active: bool) returns (ok: bool)
    modifies disk
    ensures disk.files in old(SaveImages(disk.files, j, active))
    ensures ok ==> disk.files == Last(old(SaveImages(disk.files, j, active)))
                   && old(Savable(disk.files, j, active)) && disk.health == old(disk.health)
    ensures disk.health == Clean ==> old(disk.health) == Clean && (ok <==> old(Savable(disk.files, j, active)))
  {
    if !WellFormed(j) {
      return false;
    }
    ghost var own := ReplaceImages(disk.files, Record(j.transaction), RecordTemporary(j.transaction), j);
    ok := Replace(disk, Record(j.transaction), RecordTemporary(j.transaction), j);
    if ok {
      ok := ReadsBack(disk, Record(j.transaction), j);
    }
    if ok && active {
      ok := Replace(disk, Active, ActiveTemporary, j);
      if ok {
        ok := ReadsBack(disk, Active, j);
      }
    }
  }

  /** Which journal a start-up finds. */
  function Load(img: Image): Option<Journal> {
    var active := JournalAt(img, Active);
    if Active in img && active.None? then None
    else if Lock !in img then active
    else if !img[Lock].LockText? then None
    else
      var owner := img[Lock].transaction;
      if active.Some? && active.value.transaction == owner then active
      else if active.Some? && !Finished(active.value.phase) then None
      else
        var record := JournalAt(img, Record(owner));
        if record.Some? && record.value.transaction == owner then record else None
  }

  /** The lock is held by the transaction and the active record names it. */
  predicate Named(img: Image, transaction: string) {
    && Holds(img, Lock, LockText(transaction))
    && JournalAt(img, Active).Some? && JournalAt(img, Active).value.transaction == transaction
  }

  /** Under its lock and with the active record in place, a transaction never loses its
      journal: every crash point of a save loads the old journal or the new one. */
  lemma SaveKeepsAJournal(img: Image, j: Journal, k: nat)
    requires WellFormed(j) && Named(img, j.transaction)
    requires k < |SaveImages(img, j, true)|
    ensures Load(SaveImages(img, j, true)[k]) in {JournalAt(img, Active), Some(j)}
    ensures Holds(SaveImages(img, j, true)[k], Lock, LockText(j.transaction))
  {
    var own := ReplaceImages(img, Record(j.transaction), RecordTemporary(j.transaction), j);
    if k < |own| {
      assert SaveImages(img, j, true)[k] == own[k];
    } else {
      assert SaveImages(img, j, true)[k] == ReplaceImages(Last(own), Active, ActiveTemporary, j)[k - |own|];
    }
  }

  /** That condition is exact. Without the lock the gap in the active record loads nothing;
      under the lock but without the active record, the gap in the own record does. */
  lemma SaveAlwaysLeavesAJournalIff(img: Image, j: Journal)
    requires Savable(img, j, true)
    requires Load(img).Some? && Load(img).value.transaction == j.transaction
    ensures (forall k :: 0 <= k < |SaveImages(img, j, true)| ==> Load(SaveImages(img, j, true)[k]).Some?)
       <==> Named(img, j.transaction)
  {
    var images := SaveImages(img, j, true);
    var own := ReplaceImages(img, Record(j.transaction), RecordTemporary(j.transaction), j);
    assert images == own + ReplaceImages(Last(own), Active, ActiveTemporary, j);
    if Named(img, j.transaction) {
      forall k | 0 <= k < |images| ensures Load(images[k]).Some? {
        SaveKeepsAJournal(img, j, k);
      }
    } else if Lock in img {
      assert Load(images[3]).None?;
    } else {
      assert images[8] == ReplaceImages(Last(own), Active, ActiveTemporary, j)[3];
      assert Load(images[8]).None?;
    }
  }

  /** A transaction that replaces every path but the boot flag. */
  function Sample(phase: Phase): Journal {
    Journal("t", "", "", phase, 0,
            seq(FILE_COUNT, i requires 0 <= i < FILE_COUNT =>
                  if i == 1 then Entry(true, "", "") else Entry(true, "old", "new")))
  }

  /** The records a completed install leaves: the lock is given up. */
  function UnlockedImage(): Image {
    map[Active := JournalText(Sample(FilesInstalled)), Record("t") := JournalText(Sample(FilesInstalled))]
  }

  /** The records while a prepare has claimed the card and not yet become the active one. */
  function ClaimedImage(): Image {
    map[Lock := LockText("t"), Record("t") := JournalText(Sample(Prepared))]
  }

  /** Both ways of missing the condition are met in use: the first save of a rollback behind a
      completed install, and the last save of a prepare on a card without an active record. */
  lemma SavesThatCanLoseTheJournal()
    ensures Load(UnlockedImage()) == Some(Sample(FilesInstalled)) && Savable(UnlockedImage(), Sample(RollingBack), true)
    ensures exists k :: 0 <= k < |SaveImages(UnlockedImage(), Sample(RollingBack), true)|
                        && Load(SaveImages(UnlockedImage(), Sample(RollingBack), true)[k]).None?
    ensures Load(ClaimedImage()) == Some(Sample(Prepared)) && Savable(ClaimedImage(), Sample(Prepared), true)
    ensures exists k :: 0 <= k < |SaveImages(ClaimedImage(), Sample(Prepared), true)|
                        && Load(SaveImages(ClaimedImage(), Sample(Prepared), true)[k]).None?
  {
    hide SaveImages, ReplaceImages;
    SaveAlwaysLeavesAJournalIff(UnlockedImage(), Sample(RollingBack));
    SaveAlwaysLeavesAJournalIff(ClaimedImage(), Sample(Prepared));
  }
}
