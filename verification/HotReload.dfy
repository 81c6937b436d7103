/** The hot-reload guard: the sysmodule's boot flag is renamed away while a release is
    replaced in place, under a `.tmp` journal (companion/hot_reload_guard.c). */
module HotReload {
  import opened CrashDisk
  import opened Wrappers

  datatype Path = BootFlag | BootFlagBackup | JournalFile | JournalTemporary

  datatype Phase = Prepared | BootDisabled | BootRestored | TargetLaunched

  /** Everything two generations of one journal must agree on. */
  datatype Transaction = Transaction(
    id: string, sourceRelease: string, targetRelease: string, sourceBoot: string, sourcePid: nat,
    capture: Option<string>)

  datatype Journal = Journal(transaction: Transaction, phase: Phase, targetPid: nat)

  /** `Record` is any text the journal reader accepts, `Other` any text it does not. */
  datatype Content = Empty | Record(journal: Journal) | Other(bytes: string)

  datatype Result = Ok | Conflict | IoError

  type Image = map<Path, Content>

  /** A journal that the reader accepts again: only a capture restart keeps its release. */
  predicate WellFormed(t: Transaction) {
    && t.id != "" && t.sourceRelease != "" && t.targetRelease != ""
    && (t.capture.Some? ==> t.sourceBoot != "")
    && (t.capture.Some? <==> t.sourceRelease == t.targetRelease)
  }

  function Encode(j: Journal): Content {
    if WellFormed(j.transaction) then Record(j) else Other("{}")
  }

  function Parse(img: Image, p: Path): Option<Journal> {
    if p in img && img[p].Record? && WellFormed(img[p].journal.transaction) then Some(img[p].journal) else None
  }

  predicate Holds(img: Image, p: Path, c: Content) {
    p in img && img[p] == c
  }

  predicate EmptyFile(img: Image, p: Path) {
    Holds(img, p, Empty)
  }

  /** The generation the journal reader settles on, if it settles on one. */
  function Choice(img: Image): Option<Journal> {
    var current := Parse(img, JournalFile);
    var pending := Parse(img, JournalTemporary);
    if pending.None? then current
    else if current.Some? && current.value.transaction != pending.value.transaction then None
    else pending
  }

  ghost predicate SameAt(a: Image, b: Image, p: Path) {
    (p in a <==> p in b) && (p in a ==> a[p] == b[p])
  }

  ghost predicate SameFlags(a: Image, b: Image) {
    SameAt(a, b, BootFlag) && SameAt(a, b, BootFlagBackup)
  }

  /** The boot flag exists under exactly one of its names, every readable generation is of
      `t`, and while the flag is away the journal can be read. */
  ghost predicate Guarded(t: Transaction, img: Image) {
    && (EmptyFile(img, BootFlag) || EmptyFile(img, BootFlagBackup))
    && !(BootFlag in img && BootFlagBackup in img)
    && (Parse(img, JournalFile).Some? ==> Parse(img, JournalFile).value.transaction == t)
    && (Parse(img, JournalTemporary).Some? ==> Parse(img, JournalTemporary).value.transaction == t)
    && (BootFlagBackup in img ==> Choice(img).Some?)
  }

  method WriteJournal(disk: Disk<Path, Content>, journal: Journal) returns (ok: bool)
    modifies disk
    ensures SameFlags(old(disk.files), disk.files)
    ensures JournalTemporary in old(disk.files) ==> !ok && disk.files == old(disk.files)
    ensures forall p :: p in {JournalFile, JournalTemporary} ==>
              Parse(disk.files, p).None? || Parse(disk.files, p) == Some(journal)
              || Parse(disk.files, p) == old(Parse(disk.files, p))
    ensures WellFormed(journal.transaction)
            && old(Choice(disk.files).Some? ==> Choice(disk.files).value.transaction == journal.transaction) ==>
              Choice(disk.files) == old(Choice(disk.files)) || Choice(disk.files) == Some(journal)
    ensures ok ==>
              JournalTemporary !in disk.files && Holds(disk.files, JournalFile, Encode(journal))
                && disk.health == old(disk.health)
    ensures disk.health == Clean ==> old(disk.health) == Clean && (ok <==> JournalTemporary !in old(disk.files))
  {
    if disk.Exists(JournalTemporary) {
      return false;
    }
    ok := disk.Write(JournalTemporary, Encode(journal), [Empty, Other("{"), Encode(journal)]);
    if !ok {
      if disk.Exists(JournalTemporary) {
        var _ := disk.Remove(JournalTemporary);
      }
      return false;
    }
    ok := disk.Commit();
    if !ok {
      return;
    }
    if disk.Exists(JournalFile) {
      ok := disk.Remove(JournalFile);
      if !ok {
        return;
      }
    }
    ok := disk.Commit();
    if !ok {
      return;
    }
    ok := disk.Rename(JournalTemporary, JournalFile);
    if ok {
      ok := disk.Commit();
    }
  }

  method ReadJournal(disk: Disk<Path, Content>) returns (journal: Option<Journal>)
    modifies disk
    ensures SameFlags(old(disk.files), disk.files)
    ensures old(Choice(disk.files)).None? ==> disk.files == old(disk.files) && journal.None?
    ensures Choice(disk.files) == old(Choice(disk.files))
    ensures forall p :: p in {JournalFile, JournalTemporary} ==>
              Parse(disk.files, p).None? || Parse(disk.files, p) == old(Parse(disk.files, p))
              || Parse(disk.files, p) == old(Choice(disk.files))
    ensures journal.Some? ==> journal == old(Choice(disk.files)) && JournalTemporary !in disk.files
                              && disk.health == old(disk.health)
    ensures disk.health == Clean ==> old(disk.health) == Clean && journal == old(Choice(disk.files))
  {
    var current := Parse(disk.files, JournalFile);
    if !disk.Exists(JournalTemporary) {
      return current;
    }
    var ok;
    var pending := Parse(disk.files, JournalTemporary);
    if pending.None? {
      if current.None? {
        return None;
      }
      ok := disk.Remove(JournalTemporary);
      if ok {
        ok := disk.Commit();
      }
      return if ok then current else None;
    }
    if current.Some? && current.value.transaction != pending.value.transaction {
      return None;
    }
    if disk.Exists(JournalFile) {
      ok := disk.Remove(JournalFile);
      if !ok {
        return None;
      }
    }
    ok := disk.Commit();
    if !ok {
      return None;
    }
    ok := disk.Rename(JournalTemporary, JournalFile);
    if ok {
      ok := disk.Commit();
    }
    return if ok then pending else None;
  }

  /** Renames the boot flag away. As everywhere here, the image at a power loss is the final
      image of a session that ends Dead, so the contract covers every crash point. */
  method DisableBoot(disk: Disk<Path, Content>, journal: Journal) returns (r: Result, journal': Journal)
    modifies disk
    ensures WellFormed(journal.transaction) && old(Guarded(journal.transaction, disk.files)) ==>
              Guarded(journal.transaction, disk.files)
    ensures r == Ok ==>
              && disk.health == old(disk.health) && JournalTemporary !in disk.files
              && journal' == journal.(phase := BootDisabled) && Holds(disk.files, JournalFile, Encode(journal'))
              && BootFlag !in disk.files && EmptyFile(disk.files, BootFlagBackup)
    ensures r == Conflict ==> SameFlags(old(disk.files), disk.files)
    ensures old(!EmptyFile(disk.files, BootFlag) || BootFlagBackup in disk.files) ==>
              r == Conflict && disk.files == old(disk.files)
    ensures disk.health == Clean && old(EmptyFile(disk.files, BootFlag) && BootFlagBackup !in disk.files) ==>
              (r == Ok <==> if old(JournalFile in disk.files)
                            then old(Choice(disk.files)).Some? && old(Choice(disk.files)).value.phase == Prepared
                                 && old(Choice(disk.files)).value.transaction == journal.transaction
                            else JournalTemporary !in old(disk.files))
  {
    journal' := journal;
    if !EmptyFile(disk.files, BootFlag) || disk.Exists(BootFlagBackup) {
      return Conflict, journal';
    }
    journal' := journal.(phase := Prepared);
    var ok;
    if disk.Exists(JournalFile) {
      var existing := ReadJournal(disk);
      if existing.None? || existing.value.phase != Prepared || existing.value.transaction != journal.transaction {
        return Conflict, journal';
      }
    } else {
      ok := WriteJournal(disk, journal');
      if !ok {
        return IoError, journal';
      }
    }
    ok := disk.Rename(BootFlag, BootFlagBackup);
    if !ok {
      return IoError, journal';
    }
    ok := disk.Commit();
    if !ok {
      return IoError, journal';
    }
    journal' := journal.(phase := BootDisabled);
    ok := WriteJournal(disk, journal');
    if ok {
      return Ok, journal';
    }
    ok := disk.Rename(BootFlagBackup, BootFlag);
    if ok {
      var _ := disk.Commit();
    }
    return IoError, journal';
  }

  method RestoreBoot(disk: Disk<Path, Content>, journal: Journal) returns (r: Result, journal': Journal)
    modifies disk
    ensures WellFormed(journal.transaction) && old(Guarded(journal.transaction, disk.files)) ==>
              Guarded(journal.transaction, disk.files)
    ensures r == Ok ==>
              && disk.health == old(disk.health) && JournalTemporary !in disk.files
              && journal' == journal.(phase := BootRestored) && Holds(disk.files, JournalFile, Encode(journal'))
              && EmptyFile(disk.files, BootFlag) && BootFlagBackup !in disk.files
    ensures old(BootFlag in disk.files) ==> SameFlags(old(disk.files), disk.files)
    ensures disk.health == Clean && old(Guarded(journal.transaction, disk.files) && JournalTemporary !in disk.files) ==>
              r == Ok
  {
    journal' := journal;
    if disk.Exists(BootFlag) && disk.Exists(BootFlagBackup) {
      return Conflict, journal';
    }
    var ok;
    if !disk.Exists(BootFlag) {
      if !EmptyFile(disk.files, BootFlagBackup) {
        return Conflict, journal';
      }
      ok := disk.Rename(BootFlagBackup, BootFlag);
      if !ok {
        return Conflict, journal';
      }
      ok := disk.Commit();
      if !ok {
        return IoError, journal';
      }
    } else if !EmptyFile(disk.files, BootFlag) || disk.Exists(BootFlagBackup) {
      return Conflict, journal';
    }
    journal' := journal.(phase := BootRestored);
    ok := WriteJournal(disk, journal');
    return if ok then Ok else IoError, journal';
  }

  method FinishJournal(disk: Disk<Path, Content>) returns (ok: bool)
    modifies disk
    ensures SameFlags(old(disk.files), disk.files)
    ensures old(BootFlagBackup in disk.files) ==> disk.files == old(disk.files) && !ok
    ensures forall t :: old(Guarded(t, disk.files)) ==> Guarded(t, disk.files)
    ensures ok ==> JournalFile !in disk.files && JournalTemporary !in disk.files
    ensures disk.health == Clean ==> old(disk.health) == Clean && (ok <==> BootFlagBackup !in old(disk.files))
  {
    if disk.Exists(BootFlagBackup) {
      return false;
    }
    ok := true;
    if disk.Exists(JournalFile) {
      ok := disk.Remove(JournalFile);
    }
    if disk.Exists(JournalTemporary) {
      var removed := disk.Remove(JournalTemporary);
      ok := ok && removed;
    }
    var committed := disk.Commit();
    return ok && committed;
  }

  /** What a companion does when it finds a transaction at start-up: from any image that an
      interruption left with the flag away, reading the journal and restoring brings the
      boot flag back. */
  method ReadThenRestore(disk: Disk<Path, Content>, ghost t: Transaction) returns (r: Result)
    requires WellFormed(t) && Guarded(t, disk.files) && BootFlagBackup in disk.files
    modifies disk
    ensures Guarded(t, disk.files)
    ensures disk.health == Clean ==> r == Ok && EmptyFile(disk.files, BootFlag) && BootFlagBackup !in disk.files
  {
    var journal := ReadJournal(disk);
    if journal.None? {
      return IoError;
    }
    var restored;
    r, restored := RestoreBoot(disk, journal.value);
  }
}
