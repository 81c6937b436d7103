/** Restricting the album entry: two files are moved aside, one is rewritten, and every failure
    is compensated (companion/album_restriction.c). A storage step succeeds or fails without
    effect, except that a failing write or rename may lose the file it was to replace. */
module AlbumRestriction {
  import opened AlbumState
  import opened Wrappers
  import I = IniTransform

  const MAX_BYTES: nat := 64 * 1024

  datatype Path =
    | Override | OverrideBackup | OverrideConflict
    | Package | PackageBackup | PackageConflict
    | StateFile

  datatype Status = Off | IsConfigured | Anomaly | UnknownStatus | External

  type Image = map<Path, string>

  /** How the files are read: completely or not at all. */
  function ReadText(img: Image, p: Path): Option<string> {
    if p in img && |img[p]| <= MAX_BYTES && '\0' !in img[p] then Some(img[p]) else None
  }

  function TextOr(text: Option<string>): string {
    if text.Some? then text.value else ""
  }

  class Store {
    const checksum: Checksum
    var files: Image
    /** How many more steps may fail. */
    var faults: nat

    constructor (checksum: Checksum, files: Image, faults: nat)
      ensures this.checksum == checksum && this.files == files && this.faults == faults
    {
      this.checksum, this.files, this.faults := checksum, files, faults;
    }

    method Fails() returns (fails: bool)
      modifies this`faults
      ensures faults == if fails then old(faults) - 1 else old(faults)
    {
      fails := *;
      if fails && faults > 0 {
        faults := faults - 1;
      } else {
        fails := false;
      }
    }

    method Read(p: Path) returns (text: Option<string>)
      modifies this`faults
      ensures faults <= old(faults) && (faults == old(faults) ==> text == ReadText(files, p))
      ensures text.Some? ==> text == ReadText(files, p)
    {
      var fails := Fails();
      text := if fails then None else ReadText(files, p);
    }

    /** The old file is removed before the new one is renamed; a failure in between loses it. */
    method Write(p: Path, text: string) returns (ok: bool)
      modifies this`files, this`faults
      ensures ok ==> files == old(files)[p := text] && faults == old(faults)
      ensures !ok ==> files in {old(files), old(files) - {p}} && faults + 1 == old(faults)
    {
      var fails := Fails();
      ok := !fails;
      if ok {
        files := files[p := text];
      } else {
        var lost := *;
        if lost {
          files := files - {p};
        }
      }
    }

    method Remove(p: Path) returns (ok: bool)
      requires p in files
      modifies this`files, this`faults
      ensures ok ==> files == old(files) - {p} && faults == old(faults)
      ensures !ok ==> files == old(files) && faults + 1 == old(faults)
    {
      var fails := Fails();
      ok := !fails;
      if ok {
        files := files - {p};
      }
    }

    /** Whatever stands at the new name is removed first; a failure in between loses that. */
    method Rename(from: Path, to: Path) returns (ok: bool)
      requires from in files && from != to
      modifies this`files, this`faults
      ensures ok ==> files == (old(files) - {from})[to := old(files)[from]] && faults == old(faults)
      ensures !ok ==> faults + 1 == old(faults)
                      && (files == old(files) || (to in old(files) && files == old(files) - {to}))
    {
      var fails := Fails();
      ok := !fails;
      if ok {
        files := (files - {from})[to := files[from]];
      } else {
        var lost := *;
        if lost && to in files {
          files := files - {to};
        }
      }
    }

    method SaveState(t: Transaction, phase: Phase) returns (ok: bool)
      modifies this`files, this`faults
      ensures ok ==> files == old(files)[StateFile := Format(t.(phase := phase))] && faults == old(faults)
      ensures !ok ==> files in {old(files), old(files) - {StateFile}} && faults + 1 == old(faults)
    {
      ok := Write(StateFile, Format(t.(phase := phase)));
    }

    method LoadState() returns (t: Option<Transaction>)
      modifies this`faults
      ensures faults <= old(faults) && (faults == old(faults) ==> t == StateOf(files))
      ensures t.Some? ==> t == StateOf(files)
    {
      var fails := Fails();
      t := if fails then None else StateOf(files);
    }

    /** Does a backup stand exactly where one is due, with the recorded checksum? */
    method ValidateBackup(due: bool, p: Path, sum: Sum) returns (ok: bool)
      modifies this`faults
      ensures faults <= old(faults) && (faults == old(faults) ==> ok == BackupValid(checksum, files, due, p, sum))
      ensures ok ==> BackupValid(checksum, files, due, p, sum)
    {
      if !due {
        return p !in files;
      }
      var text := Read(p);
      ok := text.Some? && checksum(text.value) == sum;
    }

    method ValidateBackups(t: Transaction) returns (ok: bool)
      modifies this`faults
      ensures faults <= old(faults) && (faults == old(faults) ==> ok == BackupsValid(checksum, files, t))
      ensures ok ==> BackupsValid(checksum, files, t)
    {
      ok := ValidateBackup(t.overrideExisted, OverrideBackup, t.overrideSum);
      if ok {
        ok := ValidateBackup(t.packageExisted, PackageBackup, t.packageSum);
      }
    }

    method GetStatus() returns (s: Status, backupValid: bool)
      modifies this`faults
      ensures faults <= old(faults)
      ensures faults == old(faults) ==>
                s == StatusOf(checksum, files) && backupValid == StatusBackups(checksum, files)
      ensures s == IsConfigured ==> StatusOf(checksum, files) == IsConfigured
    {
      hide BackupsValid, I.Transformed;
      var current: Option<string> := None;
      backupValid := false;
      if Override in files {
        current := Read(Override);
        if current.None? {
          return UnknownStatus, false;
        }
      }
      var active := false;
      if current.Some? {
        var target := I.TransformIni(current.value, MAX_BYTES + 1);
        active := target == current && Package !in files;
      }
      var state: Option<Transaction> := None;
      if StateFile in files {
        state := LoadState();
      }
      if StateFile !in files && OverrideBackup !in files && PackageBackup !in files {
        s := if active then External else Off;
      } else if state.Some? {
        backupValid := ValidateBackups(state.value);
        s := if state.value.phase == Configured && backupValid && active
          && checksum(current.value) == state.value.targetSum
             then IsConfigured else Anomaly;
      } else {
        s := Anomaly;
      }
    }
  }

  function StateOf(img: Image): Option<Transaction> {
    if StateFile in img && |img[StateFile]| < STATE_SIZE && '\0' !in img[StateFile] then Parse(img[StateFile]) else None
  }

  /** A record on the card is read as it was saved. */
  lemma RecordReads(t: Transaction)
    ensures forall img: Image :: StateFile in img && img[StateFile] == Format(t) ==> StateOf(img) == Some(t)
  {
    hide Format, Parse;
    ParseOfFormat(t);
    FormatFits(t);
  }

  predicate BackupValid(c: Checksum, img: Image, due: bool, p: Path, sum: Sum) {
    if due then ReadText(img, p).Some? && c(ReadText(img, p).value) == sum else p !in img
  }

  predicate BackupsValid(c: Checksum, img: Image, t: Transaction) {
    BackupValid(c, img, t.overrideExisted, OverrideBackup, t.overrideSum)
    && BackupValid(c, img, t.packageExisted, PackageBackup, t.packageSum)
  }

  /** The entry is restricted: the configuration is what rewriting it gives, and the package is away. */
  predicate TargetActive(img: Image) {
    && ReadText(img, Override).Some? && Package !in img
    && I.Transformed(ReadText(img, Override).value, MAX_BYTES + 1) == ReadText(img, Override)
  }

  function StatusOf(c: Checksum, img: Image): Status {
    if Override in img && ReadText(img, Override).None? then UnknownStatus
    else if StateFile !in img && OverrideBackup !in img && PackageBackup !in img then
      if TargetActive(img) then External else Off
    else
      match StateOf(img)
      case None => Anomaly
      case Some(t) =>
        if t.phase == Configured && BackupsValid(c, img, t) && TargetActive(img) && c(img[Override]) == t.targetSum
        then IsConfigured else Anomaly
  }

  predicate StatusBackups(c: Checksum, img: Image) {
    && !(Override in img && ReadText(img, Override).None?)
    && StateOf(img).Some? && BackupsValid(c, img, StateOf(img).value)
  }

  predicate Artifacts(img: Image) {
    StateFile in img || OverrideBackup in img || PackageBackup in img || OverrideConflict in img
      || PackageConflict in img
  }

  /** The transaction that enabling from `img` records. */
  function Plan(c: Checksum, img: Image, target: string): Transaction {
    Transaction(Enabling, Override in img, Package in img, c(TextOr(ReadText(img, Override))),
                c(TextOr(ReadText(img, Package))), c(target))
  }

  function MovedAside(img: Image, from: Path, to: Path): Image {
    if from in img then (img - {from})[to := img[from]] else img
  }

  /** The image of a successful enable. */
  function Enabled(c: Checksum, img: Image, target: string): Image {
    var moved := MovedAside(MovedAside(img, Override, OverrideBackup), Package, PackageBackup);
    moved[Override := target][StateFile := Format(Plan(c, img, target).(phase := Configured))]
  }

  /** Neither original is lost: each stands at its own name or at its backup's. */
  ghost predicate OriginalsSafe(before: Image, after: Image) {
    && (Override in before ==>
          (Override in after && after[Override] == before[Override])
          || (OverrideBackup in after && after[OverrideBackup] == before[Override]))
    && (Package in before ==>
          (Package in after && after[Package] == before[Package])
          || (PackageBackup in after && after[PackageBackup] == before[Package]))
  }

  // ---- Enabling ----

  ghost predicate SameAt(a: Image, b: Image, p: Path) {
    (p in a <==> p in b) && (p in a ==> a[p] == b[p])
  }

  /** Somewhere inside enabling from `img`: each original is at its own name or at its backup's. */
  ghost predicate Pending(img: Image, now: Image) {
    && !Artifacts(img) && OverrideConflict !in now && PackageConflict !in now
    && (if OverrideBackup in now then Override in img && now[OverrideBackup] == img[Override]
        else Override in img ==> SameAt(img, now, Override))
    && (if PackageBackup in now then Package in img && now[PackageBackup] == img[Package] && Package !in now
        else SameAt(img, now, Package))
  }

  lemma PendingIsSafe(img: Image, now: Image)
    requires Pending(img, now)
    ensures OriginalsSafe(img, now)
  {
  }

  lemma SameEverywhere(a: Image, b: Image)
    requires forall p: Path :: SameAt(a, b, p)
    ensures b == a
  {
    forall p: Path ensures p in a <==> p in b {
      assert SameAt(a, b, p);
    }
    forall p | p in a ensures a[p] == b[p] {
      assert SameAt(a, b, p);
    }
  }

  lemma NothingPending(img: Image, now: Image)
    requires Pending(img, now) && OverrideBackup !in now && PackageBackup !in now && SameAt(img, now, Override)
    ensures now - {StateFile} == img && (StateFile !in now ==> now == img)
  {
    forall p: Path ensures SameAt(img, now - {StateFile}, p) {
      match p {
        case Override => case OverrideBackup => case OverrideConflict =>
        case Package => case PackageBackup => case PackageConflict => case StateFile =>
      }
    }
    SameEverywhere(img, now - {StateFile});
  }

  method UndoOverride(store: Store, t: Transaction, ghost img: Image) returns (ok: bool)
    requires Pending(img, store.files) && t.overrideExisted == (Override in img)
    modifies store`files, store`faults
    ensures Pending(img, store.files) && store.faults <= old(store.faults)
    ensures ok ==> OverrideBackup !in store.files && SameAt(img, store.files, Override)
    ensures old(store.faults) == 0 ==> ok
  {
    ok := true;
    if OverrideBackup in store.files {
      if Override in store.files {
        ok := store.Remove(Override);
      }
      if ok {
        ok := store.Rename(OverrideBackup, Override);
      }
    } else if !t.overrideExisted && Override in store.files {
      ok := store.Remove(Override);
    }
  }

  /** Undoes enabling from any point inside it; a step that fails leaves both originals somewhere. */
  method RollbackEnable(store: Store, t: Transaction, ghost img: Image) returns (ok: bool)
    requires Pending(img, store.files)
    requires t.overrideExisted == (Override in img) && t.packageExisted == (Package in img)
    modifies store`files, store`faults
    ensures ok ==> store.files == img
    ensures old(store.faults) == 0 ==> ok
    ensures OriginalsSafe(img, store.files) && store.faults <= old(store.faults)
  {
    hide Format;
    ok := UndoOverride(store, t, img);
    if t.packageExisted && PackageBackup in store.files {
      var back := store.Rename(PackageBackup, Package);
      ok := ok && back;
    }
    PendingIsSafe(img, store.files);
    if ok {
      NothingPending(img, store.files);
      if StateFile in store.files {
        ok := store.Remove(StateFile);
      }
    }
    if !ok {
      var _ := store.SaveState(t, RollbackRequired);
    }
  }

  /** What enabling asks for before it touches anything. */
  predicate Enableable(c: Checksum, img: Image) {
    && StatusOf(c, img) != External && !Artifacts(img)
    && (Override in img ==> ReadText(img, Override).Some?)
    && (Package in img ==> ReadText(img, Package).Some?)
    && I.Transformed(TextOr(ReadText(img, Override)), MAX_BYTES + 1).Some?
  }

  method Enable(store: Store) returns (ok: bool, ghost target: string)
    modifies store`files, store`faults
    ensures ok ==>
              && !Artifacts(old(store.files))
              && I.Transformed(TextOr(ReadText(old(store.files), Override)), MAX_BYTES + 1) == Some(target)
              && store.files == Enabled(store.checksum, old(store.files), target)
              && (Override in old(store.files) ==> ReadText(old(store.files), Override).Some?)
              && (Package in old(store.files) ==> ReadText(old(store.files), Package).Some?)
    ensures !ok && old(store.faults) <= 1 ==> store.files == old(store.files)
    ensures old(store.faults) == 0 ==> (ok <==> Enableable(store.checksum, old(store.files)))
    ensures Artifacts(old(store.files)) ==> !ok && store.files == old(store.files)
    ensures OriginalsSafe(old(store.files), store.files) && store.faults <= old(store.faults)
  {
    hide I.Transformed, StatusOf, StatusBackups;
    target := "";
    var status, _ := store.GetStatus();
    if status == External || Artifacts(store.files) {
      return false, target;
    }
    var override, package := None, None;
    if Override in store.files {
      override := store.Read(Override);
      if override.None? {
        return false, target;
      }
    }
    if Package in store.files {
      package := store.Read(Package);
      if package.None? {
        return false, target;
      }
    }
    var updated := I.TransformIni(TextOr(override), MAX_BYTES + 1);
    if updated.None? {
      return false, target;
    }
    target := updated.value;
    var t := Transaction(Enabling, Override in store.files, Package in store.files,
                         store.checksum(TextOr(override)), store.checksum(TextOr(package)),
                         store.checksum(updated.value));
    ok := MoveAndRewrite(store, t, updated.value);
  }

  method MoveAndRewrite(store: Store, t: Transaction, target: string) returns (ok: bool)
    requires !Artifacts(store.files) && t.phase == Enabling
    requires t.overrideExisted == (Override in store.files) && t.packageExisted == (Package in store.files)
    modifies store`files, store`faults
    ensures ok ==>
              store.files == MovedAside(MovedAside(old(store.files), Override, OverrideBackup), Package, PackageBackup)
                                  [Override := target][StateFile := Format(t.(phase := Configured))]
    ensures !ok && old(store.faults) <= 1 ==> store.files == old(store.files)
    ensures old(store.faults) == 0 ==> ok
    ensures OriginalsSafe(old(store.files), store.files) && store.faults <= old(store.faults)
  {
    hide Pending, Artifacts, OriginalsSafe, Format;
    ghost var img := store.files;
    NothingMoved(img, Format(t));
    ok := store.SaveState(t, Enabling);
    if !ok {
      return;
    }
    ghost var begun := store.files;
    if t.overrideExisted {
      ok := store.Rename(Override, OverrideBackup);
    }
    if !ok {
      var _ := RollbackEnable(store, t, img);
      return;
    }
    OverrideMoved(img, begun);
    ghost var half := store.files;
    if t.packageExisted {
      ok := store.Rename(Package, PackageBackup);
    }
    if !ok {
      var _ := RollbackEnable(store, t, img);
      return;
    }
    PackageMoved(img, half, target);
    ok := store.Write(Override, target);
    if !ok {
      var _ := RollbackEnable(store, t, img);
      return;
    }
    PendingIsSafe(img, store.files);
    ok := store.SaveState(t, Configured);
    if !ok {
      var _ := RollbackEnable(store, t, img);
    } else {
      FinalImage(img, begun, Format(t), target, Format(t.(phase := Configured)));
    }
  }

  lemma NothingMoved(img: Image, text: string)
    ensures OriginalsSafe(img, img)
    ensures !Artifacts(img) ==> img - {StateFile} == img
    ensures !Artifacts(img) ==> Pending(img, img[StateFile := text]) && OverrideBackup !in img && PackageBackup !in img
  {
  }

  lemma OverrideMoved(img: Image, begun: Image)
    requires Pending(img, begun) && OverrideBackup !in begun && (Override in begun ==> Override in img)
    ensures Pending(img, MovedAside(begun, Override, OverrideBackup))
  {
  }

  lemma PackageMoved(img: Image, half: Image, target: string)
    requires Pending(img, half) && PackageBackup !in half && Override !in half
    ensures var moved := MovedAside(half, Package, PackageBackup);
            && Pending(img, moved) && Pending(img, moved - {Override})
            && Pending(img, moved[Override := target]) && Pending(img, moved[Override := target] - {StateFile})
  {
  }

  lemma FinalImage(img: Image, begun: Image, enabling: string, target: string, text: string)
    requires begun == img[StateFile := enabling]
    ensures
      var aside := MovedAside(MovedAside(img, Override, OverrideBackup), Package, PackageBackup);
      && MovedAside(MovedAside(begun, Override, OverrideBackup), Package, PackageBackup)
           [Override := target][StateFile := text]
         == aside[Override := target][StateFile := text]
      && OriginalsSafe(img, aside[Override := target][StateFile := text])
  {
  }

  // ---- Restoring ----

  /** What stands at the original names, moved out of the way. */
  function Rescued(img: Image): Image {
    MovedAside(MovedAside(img, Override, OverrideConflict), Package, PackageConflict)
  }

  /** The image from which a restore puts the backups back. */
  function RestoreBase(c: Checksum, img: Image, force: bool): Image {
    if force && StatusOf(c, img) == Anomaly then Rescued(img) else img
  }

  /** The backups back at the original names, the record gone. Only an unforced restore removes a
      configuration that had no original. */
  function Restored(img: Image, t: Transaction, force: bool): Image {
    var cleared := if force then img else img - {Override};
    var back := if t.overrideExisted then MovedAside(cleared, OverrideBackup, Override) else cleared;
    (if t.packageExisted then MovedAside(back, PackageBackup, Package) else back) - {StateFile}
  }

  /** When no step fails, a restore succeeds exactly then. */
  predicate Restorable(c: Checksum, img: Image, force: bool) {
    && StateOf(img).Some? && BackupsValid(c, img, StateOf(img).value)
    && if !force then StatusOf(c, img) == IsConfigured
       else
         && (StatusOf(c, img) == Anomaly ==> OverrideConflict !in img && PackageConflict !in img)
         && (StateOf(img).value.packageExisted ==> Package !in RestoreBase(c, img, true))
  }

  /** No backup is lost: each stands at its own name or back at the original's. */
  ghost predicate BackupsSafe(before: Image, after: Image) {
    && (OverrideBackup in before ==>
          (OverrideBackup in after && after[OverrideBackup] == before[OverrideBackup])
          || (Override in after && after[Override] == before[OverrideBackup]))
    && (PackageBackup in before ==>
          (PackageBackup in after && after[PackageBackup] == before[PackageBackup])
          || (Package in after && after[Package] == before[PackageBackup]))
  }

  lemma ConfiguredFacts(c: Checksum, img: Image)
    ensures StatusOf(c, img) == IsConfigured ==>
              && StateOf(img).Some? && BackupsValid(c, img, StateOf(img).value)
              && StateFile in img && Override in img && Package !in img
              && StateOf(img).value.phase == Configured
    ensures StateOf(img).Some? && BackupsValid(c, img, StateOf(img).value) ==>
              var t := StateOf(img).value;
              t.overrideExisted == (OverrideBackup in img) && t.packageExisted == (PackageBackup in img)
    ensures StateOf(img).Some? ==> StateFile in img
  {
    hide I.Transformed;
  }

  /** Somewhere inside putting back: the record says so or is lost, and each due backup is still there or home. */
  ghost predicate Halfway(c: Checksum, before: Image, after: Image, t: Transaction) {
    && (StateFile in after ==>
          after[StateFile] in {Format(t.(phase := Restoring)), Format(t.(phase := RollbackRequired))})
    && SameAt(before, after, OverrideConflict) && SameAt(before, after, PackageConflict)
    && BackHome(before, after, OverrideBackup, Override) && BackHome(before, after, PackageBackup, Package)
  }

  ghost predicate BackHome(before: Image, after: Image, backup: Path, home: Path) {
    && (backup in after ==> SameAt(before, after, backup))
    && (backup in before && backup !in after ==> home in after && after[home] == before[backup])
    && (home in after ==> SameAt(before, after, home) || (backup in before && after[home] == before[backup]))
  }

  /** What a failed restore leaves: the configured state untouched; a recorded transaction that is
      never configured again and that a forced restore finishes exactly if no backup has moved and
      no conflict file is in the way; or no record, and then no restore ever runs. */
  ghost predicate Unfinished(c: Checksum, before: Image, after: Image)
    requires StateOf(before).Some?
  {
    var t := StateOf(before).value;
    var whole := (OverrideBackup in before ==> OverrideBackup in after)
      && (PackageBackup in before ==> PackageBackup in after);
    && (StatusOf(c, after) == IsConfigured <==> after == before)
    && (after != before ==>
          && (StateFile in after ==>
                StateOf(after) in {Some(t.(phase := Restoring)), Some(t.(phase := RollbackRequired))})
          && !Restorable(c, after, false)
          && (Restorable(c, after, true) <==>
                StateFile in after && whole && OverrideConflict !in before && PackageConflict !in before))
  }

  /** Without its record a configured transaction is over: the app calls it an anomaly, or somebody
      else's if nothing was backed up, and neither enabling nor any restore runs again. */
  lemma LostRecordIsFinal(c: Checksum, img: Image)
    requires StatusOf(c, img) == IsConfigured
    ensures var lost := img - {StateFile};
            && StatusOf(c, lost) == (if OverrideBackup in img || PackageBackup in img then Anomaly else External)
            && !Enableable(c, lost) && !Restorable(c, lost, false) && !Restorable(c, lost, true)
  {
    hide I.Transformed, Parse;
    assert ReadText(img - {StateFile}, Override) == ReadText(img, Override);
  }

  lemma NothingDone(c: Checksum, img: Image)
    ensures StatusOf(c, img) == IsConfigured ==> StateOf(img).Some? && Unfinished(c, img, img)
    ensures BackupsSafe(img, img)
  {
    hide I.Transformed, Restorable;
  }

  lemma HalfwayIsUnfinished(c: Checksum, before: Image, after: Image, t: Transaction)
    requires StatusOf(c, before) == IsConfigured && StateOf(before) == Some(t)
    requires Halfway(c, before, after, t)
    ensures Unfinished(c, before, after)
  {
    hide I.Transformed, Format, Parse;
    ConfiguredFacts(c, before);
    var r, b := t.(phase := Restoring), t.(phase := RollbackRequired);
    RecordReads(r);
    RecordReads(b);
    assert StateFile in after ==> StateOf(after) == Some(r) || StateOf(after) == Some(b);
    assert after != before;
    assert StateFile in after ==> StatusOf(c, after) == Anomaly;
    assert Package !in Rescued(after);
  }

  /** Moves the present files to the conflict names, or leaves them where they are. */
  method RescueCurrent(store: Store) returns (ok: bool)
    modifies store`files, store`faults
    ensures store.faults <= old(store.faults)
    ensures ok ==> store.files == Rescued(old(store.files))
    ensures old(store.faults) == 0 ==>
              (ok <==> OverrideConflict !in old(store.files) && PackageConflict !in old(store.files))
    ensures !ok && old(store.faults) <= 1 ==> store.files == old(store.files)
    ensures SameAt(old(store.files), store.files, OverrideBackup)
            && SameAt(old(store.files), store.files, PackageBackup)
    ensures SameAt(old(store.files), store.files, StateFile)
  {
    if OverrideConflict in store.files || PackageConflict in store.files {
      return false;
    }
    ghost var img := store.files;
    var rescued := Override in store.files;
    if rescued {
      ok := store.Rename(Override, OverrideConflict);
      if !ok {
        return;
      }
    }
    ok := true;
    if Package in store.files {
      ok := store.Rename(Package, PackageConflict);
      if !ok && rescued {
        var back := store.Rename(OverrideConflict, Override);
        if back {
          RenamedBack(img, Override, OverrideConflict);
        }
      }
    }
  }

  lemma RenamedBack(img: Image, from: Path, to: Path)
    requires from in img && to !in img && from != to
    ensures (MovedAside(img, from, to) - {to})[from := img[from]] == img
  {
  }

  /** The unforced restore runs only from a configured state that nobody else has changed; the
      forced one from every state with valid backups. */
  method Restore(store: Store, force: bool) returns (ok: bool)
    modifies store`files, store`faults
    ensures old(store.faults) == 0 ==> (ok <==> Restorable(store.checksum, old(store.files), force))
    ensures old(store.faults) == 0 && ok ==>
              store.files == Restored(RestoreBase(store.checksum, old(store.files), force),
                                      StateOf(old(store.files)).value, force)
    ensures StateOf(old(store.files)).None? ==> !ok && store.files == old(store.files)
    ensures !force && ok ==>
              && StatusOf(store.checksum, old(store.files)) == IsConfigured
              && store.files == Restored(old(store.files), StateOf(old(store.files)).value, false)
    ensures !force && StatusOf(store.checksum, old(store.files)) != IsConfigured ==> store.files == old(store.files)
    ensures !force && !ok && StatusOf(store.checksum, old(store.files)) == IsConfigured ==>
              Unfinished(store.checksum, old(store.files), store.files)
    ensures BackupsSafe(old(store.files), store.files)
  {
    hide I.Transformed, StatusOf, StatusBackups, BackupsValid, StateOf, Rescued;
    ConfiguredFacts(store.checksum, store.files);
    ghost var img := store.files;
    NothingDone(store.checksum, img);
    var state := store.LoadState();
    if state.None? {
      return false;
    }
    var t := state.value;
    var valid := store.ValidateBackups(t);
    if !valid {
      return false;
    }
    var status, _ := store.GetStatus();
    if !force && status != IsConfigured {
      return false;
    }
    if force && status == Anomaly {
      ok := RescueCurrent(store);
      if !ok {
        return;
      }
    }
    ghost var base := store.files;
    ok := PutBack(store, t, force);
    if !ok && !force && store.files != base {
      HalfwayIsUnfinished(store.checksum, base, store.files, t);
    }
  }

  /** Everything but the named paths is as before. */
  ghost predicate OnlyAt(before: Image, after: Image, p: Path, q: Path) {
    forall r :: r != p && r != q ==> SameAt(before, after, r)
  }

  method ReturnOverride(store: Store, t: Transaction, force: bool) returns (ok: bool)
    requires t.overrideExisted == (OverrideBackup in store.files)
    modifies store`files, store`faults
    ensures ok ==>
              var cleared := if force then old(store.files) else old(store.files) - {Override};
              store.files == (if t.overrideExisted then MovedAside(cleared, OverrideBackup, Override) else cleared)
    ensures (old(store.faults) == 0 ==> ok && store.faults == 0)
    ensures OnlyAt(old(store.files), store.files, Override, OverrideBackup)
    ensures BackHome(old(store.files), store.files, OverrideBackup, Override)
  {
    ok := true;
    if !force && Override in store.files {
      ok := store.Remove(Override);
    }
    if t.overrideExisted {
      var back := store.Rename(OverrideBackup, Override);
      ok := ok && back;
    }
  }

  method ReturnPackage(store: Store, t: Transaction) returns (ok: bool)
    requires t.packageExisted == (PackageBackup in store.files)
    modifies store`files, store`faults
    ensures ok ==> store.files == if t.packageExisted then MovedAside(old(store.files), PackageBackup, Package)
            else old(store.files)
    ensures (old(store.faults) == 0 ==> ok && store.faults == 0)
    ensures OnlyAt(old(store.files), store.files, Package, PackageBackup)
    ensures BackHome(old(store.files), store.files, PackageBackup, Package)
  {
    ok := true;
    if t.packageExisted {
      ok := store.Rename(PackageBackup, Package);
    }
  }

  method PutBack(store: Store, t: Transaction, force: bool) returns (ok: bool)
    requires StateFile in store.files
    requires t.overrideExisted == (OverrideBackup in store.files) && t.packageExisted == (PackageBackup in store.files)
    modifies store`files, store`faults
    ensures ok ==> store.files == Restored(old(store.files), t, force)
    ensures old(store.faults) == 0 ==> (ok <==> !(t.packageExisted && Package in old(store.files)))
    ensures !ok ==> store.files == old(store.files) || Halfway(store.checksum, old(store.files), store.files, t)
    ensures BackupsSafe(old(store.files), store.files)
  {
    hide Restored, MovedAside, Format;
    ok := store.SaveState(t, Restoring);
    if !ok {
      return;
    }
    if t.packageExisted && Package in store.files {
      var _ := store.SaveState(t, RollbackRequired);
      return false;
    }
    ok := MoveBack(store, t, force, old(store.files));
  }

  method MoveBack(store: Store, t: Transaction, force: bool, ghost before: Image) returns (ok: bool)
    requires StateFile in before && store.files == before[StateFile := Format(t.(phase := Restoring))]
    requires t.overrideExisted == (OverrideBackup in before) && t.packageExisted == (PackageBackup in before)
    modifies store`files, store`faults
    ensures ok ==> store.files == Restored(before, t, force)
    ensures old(store.faults) == 0 ==> ok
    ensures !ok ==> Halfway(store.checksum, before, store.files, t)
    ensures BackupsSafe(before, store.files)
  {
    hide BackHome, Restored, MovedAside, Format;
    ghost var begun := store.files;
    ok := ReturnOverride(store, t, force);
    ghost var half := store.files;
    assert SameAt(begun, half, PackageBackup);
    var back := ReturnPackage(store, t);
    BothHome(before, begun, half, store.files);
    if ok && back {
      RestoredInSteps(before, begun, half, store.files, t, force);
      ok := store.Remove(StateFile);
    } else {
      ok := false;
    }
    if !ok {
      ghost var moved := store.files;
      var _ := store.SaveState(t, RollbackRequired);
      RecordChanged(before, moved, store.files);
    }
  }

  lemma BothHome(before: Image, begun: Image, half: Image, after: Image)
    requires StateFile in begun && begun == before[StateFile := begun[StateFile]]
    requires OnlyAt(begun, half, Override, OverrideBackup) && BackHome(begun, half, OverrideBackup, Override)
    requires OnlyAt(half, after, Package, PackageBackup) && BackHome(half, after, PackageBackup, Package)
    ensures SameAt(begun, after, StateFile)
    ensures SameAt(before, after, OverrideConflict) && SameAt(before, after, PackageConflict)
    ensures BackHome(before, after, OverrideBackup, Override) && BackHome(before, after, PackageBackup, Package)
    ensures BackupsSafe(before, after)
  {
    assert SameAt(begun, half, StateFile) && SameAt(half, after, StateFile);
    assert SameAt(begun, half, OverrideConflict) && SameAt(half, after, OverrideConflict);
    assert SameAt(begun, half, PackageConflict) && SameAt(half, after, PackageConflict);
    assert SameAt(half, after, Override) && SameAt(half, after, OverrideBackup);
    assert SameAt(begun, half, Package) && SameAt(begun, half, PackageBackup);
  }

  lemma RestoredInSteps(before: Image, begun: Image, half: Image, after: Image, t: Transaction, force: bool)
    requires StateFile in before && StateFile in begun && begun == before[StateFile := begun[StateFile]]
    requires var cleared := if force then begun else begun - {Override};
             half == if t.overrideExisted then MovedAside(cleared, OverrideBackup, Override) else cleared
    requires after == if t.packageExisted then MovedAside(half, PackageBackup, Package) else half
    ensures after - {StateFile} == Restored(before, t, force) && StateFile in after
    ensures BackupsSafe(before, after) ==> BackupsSafe(before, after - {StateFile})
  {
  }

  lemma RecordChanged(before: Image, moved: Image, after: Image)
    requires OnlyAt(moved, after, StateFile, StateFile)
    requires BackHome(before, moved, OverrideBackup, Override) && BackHome(before, moved, PackageBackup, Package)
    requires SameAt(before, moved, OverrideConflict) && SameAt(before, moved, PackageConflict)
             && BackupsSafe(before, moved)
    ensures BackHome(before, after, OverrideBackup, Override) && BackHome(before, after, PackageBackup, Package)
    ensures SameAt(before, after, OverrideConflict) && SameAt(before, after, PackageConflict)
            && BackupsSafe(before, after)
  {
    assert SameAt(moved, after, Override) && SameAt(moved, after, OverrideBackup)
           && SameAt(moved, after, OverrideConflict);
    assert SameAt(moved, after, Package) && SameAt(moved, after, PackageBackup)
           && SameAt(moved, after, PackageConflict);
  }

  // ---- The two together ----

  datatype Request = ToEnable | ToRestore(force: bool)

  /** Where a backup stands without a record, whatever the user asks for is refused and moves
      nothing, however often and whatever fails. */
  method NothingHelps(store: Store, requests: seq<Request>) returns (answers: seq<bool>)
    requires StateFile !in store.files && (OverrideBackup in store.files || PackageBackup in store.files)
    modifies store`files, store`faults
    ensures store.files == old(store.files) && |answers| == |requests| && true !in answers
  {
    answers := [];
    for i := 0 to |requests|
      invariant store.files == old(store.files) && |answers| == i && true !in answers
    {
      var ok: bool;
      if requests[i].ToEnable? {
        ghost var target;
        ok, target := Enable(store);
      } else {
        ok := Restore(store, requests[i].force);
      }
      answers := answers + [ok];
    }
  }

  lemma EnabledStatus(c: Checksum, img: Image, target: string)
    requires !Artifacts(img)
    requires (Override in img ==> ReadText(img, Override).Some?) && (Package in img ==> ReadText(img, Package).Some?)
    requires I.Transformed(TextOr(ReadText(img, Override)), MAX_BYTES + 1) == Some(target)
    ensures var e := Enabled(c, img, target);
            && StatusBackups(c, e) && (Restorable(c, e, false) <==> StatusOf(c, e) == IsConfigured)
            && StateOf(e) == Some(Plan(c, img, target).(phase := Configured))
            && StatusOf(c, e) == if I.Transformed(target, MAX_BYTES + 1) == Some(target) then IsConfigured else Anomaly
  {
    hide I.Transformed, Format, Parse;
    I.ResultFits(TextOr(ReadText(img, Override)), MAX_BYTES + 1);
    I.ResultHasNoNul(TextOr(ReadText(img, Override)), MAX_BYTES + 1);
    var e, t := Enabled(c, img, target), Plan(c, img, target).(phase := Configured);
    RecordReads(t);
    assert StateOf(e) == Some(t);
    assert ReadText(e, Override) == Some(target);
  }

  /** A restore right after enabling gives back every file exactly. */
  lemma RestoreUndoesEnable(c: Checksum, img: Image, target: string)
    requires !Artifacts(img)
    ensures Restored(Enabled(c, img, target), Plan(c, img, target).(phase := Configured), false) == img
    ensures Restored(Enabled(c, img, target), Plan(c, img, target).(phase := Configured), true) == img <==>
              Override in img
  {
    hide Format;
  }

  /** After a successful enable the app reports the restriction as configured, and an unforced
      restore gives back the original files, exactly when the original configuration does not end
      in a bare CR without holding any CRLF. Otherwise the rewriting would change its own result,
      so the status is an anomaly and the unforced restore refuses. */
  method EnableThenRestore(store: Store) returns (enabled: bool, restored: bool)
    requires store.faults == 0
    modifies store`files, store`faults
    ensures enabled <==> Enableable(store.checksum, old(store.files))
    ensures enabled ==> (restored <==> !I.EndsInBareCr(TextOr(ReadText(old(store.files), Override))))
    ensures !enabled || restored ==> store.files == old(store.files)
    ensures enabled && !restored ==>
              StatusOf(store.checksum, store.files) == Anomaly && StatusBackups(store.checksum, store.files)
  {
    hide I.Transformed, I.EndsInBareCr, StatusOf, StatusBackups, Restored, Enabled, BackupsValid, Restorable;
    ghost var img, c := store.files, store.checksum;
    ghost var target;
    enabled, target := Enable(store);
    restored := false;
    if enabled {
      EnabledStatus(c, img, target);
      I.RewriteIsIdempotentIff(TextOr(ReadText(img, Override)), MAX_BYTES + 1);
      RestoreUndoesEnable(c, img, target);
      restored := Restore(store, false);
    }
  }

  /** The shortest such configuration: one letter and a bare CR. Enabling succeeds, the status is an
      anomaly, and the unforced restore refuses. */
  lemma BareCrIsAnAnomaly(c: Checksum)
    ensures var img := map[Override := "a\r"];
            && Enableable(c, img)
            && var target := I.Transformed("a\r", MAX_BYTES + 1).value;
               StatusOf(c, Enabled(c, img, target)) == Anomaly && !Restorable(c, Enabled(c, img, target), false)
  {
    hide I.Transformed, I.EndsInBareCr;
    var img: Image := map[Override := "a\r"];
    I.BareCrIsNotIdempotent(MAX_BYTES + 1);
    assert ReadText(img, Override) == Some("a\r");
    EnabledStatus(c, img, I.Transformed("a\r", MAX_BYTES + 1).value);
  }
}
