/** The Device Lab boot-flag switch: a two-generation `.tmp` journal around two flag files
    (device_lab/boot_flags.c). */
module BootFlags {
  import opened CrashDisk
  import opened Wrappers

  datatype Path = StandardFlag | StandardBackup | LabFlag | LabTemporary | JournalFile | JournalTemporary

  datatype Phase = Prepared | StandardDisabled | LabEnabled | LabDisabled | Restored

  datatype Journal = Journal(phase: Phase, standardWasEnabled: bool)

  /** `Record` is any text the journal reader accepts, `Other` any text it does not. */
  datatype Content = Empty | Record(journal: Journal) | Other(bytes: string)

  datatype Result = Ok | AlreadyDone | RecoveryRequired | Conflict | IoError

  datatype Status = Normal | Enabled | RestoredState | Recovery | Contradiction

  type Image = map<Path, Content>

  function Order(p: Phase): nat {
    match p
    case Prepared => 0
    case StandardDisabled => 1
    case LabEnabled => 2
    case LabDisabled => 3
    case Restored => 4
  }

  function Parse(img: Image, p: Path): Option<Journal> {
    if p in img && img[p].Record? then Some(img[p].journal) else None
  }

  /** What an interrupted write of `j` may leave: nothing, unreadable text, or text that
      already carries every field the reader looks for. */
  function TornRecords(j: Journal): seq<Content> {
    [Empty, Other("{"), Record(j)]
  }

  /** The generation a recovery settles on, if it settles on one. */
  function Choice(img: Image): Option<Journal> {
    var current := Parse(img, JournalFile);
    var pending := Parse(img, JournalTemporary);
    if pending.None? then current
    else if current.Some? && !Follows(current.value, pending.value) then None
    else pending
  }

  /** `later` may replace `earlier` as the next generation. */
  predicate Follows(earlier: Journal, later: Journal) {
    earlier.standardWasEnabled == later.standardWasEnabled && Order(earlier.phase) <= Order(later.phase)
  }

  ghost predicate SameAt(a: Image, b: Image, p: Path) {
    (p in a <==> p in b) && (p in a ==> a[p] == b[p])
  }

  ghost predicate SameStandard(a: Image, b: Image) {
    SameAt(a, b, StandardFlag) && SameAt(a, b, StandardBackup)
  }

  /** The images differ in the journal files only. */
  ghost predicate SameFlags(a: Image, b: Image) {
    SameStandard(a, b) && SameAt(a, b, LabFlag) && SameAt(a, b, LabTemporary)
  }

  // ---- What a transaction started on a given standard flag may look like ----

  /** `flag` is the standard boot flag as it was before the first enable. */
  ghost predicate Home(flag: Option<Content>, img: Image) {
    && StandardBackup !in img
    && (StandardFlag in img <==> flag.Some?)
    && (flag.Some? ==> img[StandardFlag] == flag.value)
  }

  ghost predicate Away(flag: Option<Content>, img: Image) {
    && flag.Some?
    && StandardFlag !in img
    && StandardBackup in img && img[StandardBackup] == flag.value
  }

  ghost predicate Disabled(flag: Option<Content>, img: Image) {
    if flag.Some? then Away(flag, img) else Home(flag, img)
  }

  /** No generation is whole yet (or none is left), so no flag has been touched. */
  ghost predicate Untouched(flag: Option<Content>, img: Image) {
    && JournalFile !in img && Parse(img, JournalTemporary).None?
    && Home(flag, img) && LabFlag !in img
  }

  /** Some generation is whole, and it explains where the flags are. */
  ghost predicate Journaled(flag: Option<Content>, img: Image) {
    && Choice(img).Some?
    && Choice(img).value.standardWasEnabled == flag.Some?
    && (JournalFile in img ==> img[JournalFile].Record?)
    && (LabFlag in img ==> img[LabFlag] == Empty)
    && match Choice(img).value.phase
       case Prepared => LabFlag !in img && (Home(flag, img) || Away(flag, img))
       case StandardDisabled => Disabled(flag, img)
       case LabEnabled => Disabled(flag, img)
       case LabDisabled => LabFlag !in img && (Home(flag, img) || Away(flag, img))
       case Restored => LabFlag !in img && Home(flag, img)
  }

  ghost predicate Safe(flag: Option<Content>, img: Image) {
    Untouched(flag, img) || Journaled(flag, img)
  }

  // ---- Journal steps ----

  method RecoverJournal(disk: Disk<Path, Content>) returns (journal: Option<Journal>)
    modifies disk
    ensures SameFlags(old(disk.files), disk.files)
    ensures old(Choice(disk.files)).Some? ==> Choice(disk.files) == old(Choice(disk.files))
    ensures old(Choice(disk.files)).None? ==> disk.files == old(disk.files) && journal.None?
    ensures JournalFile in disk.files && JournalFile !in old(disk.files) ==> disk.files[JournalFile].Record?
    ensures JournalFile in disk.files && JournalFile in old(disk.files) ==>
              disk.files[JournalFile] == old(disk.files)[JournalFile] || disk.files[JournalFile].Record?
    ensures journal.Some? ==>
              && journal == old(Choice(disk.files))
              && JournalTemporary !in disk.files && Parse(disk.files, JournalFile) == journal
              && disk.health == old(disk.health)
    ensures disk.health == Clean ==> old(disk.health) == Clean && journal == old(Choice(disk.files))
  {
    var currentExists := disk.Exists(JournalFile);
    var current := Parse(disk.files, JournalFile);
    if !disk.Exists(JournalTemporary) {
      return current;
    }
    var pending := Parse(disk.files, JournalTemporary);
    if pending.None? {
      if current.None? {
        return None;
      }
      var ok := disk.Remove(JournalTemporary);
      return if ok then current else None;
    }
    if current.Some? && !Follows(current.value, pending.value) {
      return None;
    }
    if currentExists {
      var ok := disk.Remove(JournalFile);
      if !ok {
        return None;
      }
    }
    var ok := disk.Rename(JournalTemporary, JournalFile);
    return if ok then pending else None;
  }

  method WriteJournal(disk: Disk<Path, Content>, journal: Journal) returns (ok: bool)
    modifies disk
    ensures SameFlags(old(disk.files), disk.files)
    ensures JournalTemporary in old(disk.files) ==>
              !ok && disk.files == old(disk.files) && disk.health == old(disk.health)
    ensures old(Choice(disk.files)).None? || Follows(old(Choice(disk.files)).value, journal) ==>
              Choice(disk.files) == old(Choice(disk.files)) || Choice(disk.files) == Some(journal)
    ensures JournalFile !in old(disk.files) && Choice(disk.files).None? ==> JournalFile !in disk.files
    ensures JournalFile in disk.files ==>
              || (JournalFile in old(disk.files) && disk.files[JournalFile] == old(disk.files)[JournalFile])
              || disk.files[JournalFile] == Record(journal)
    ensures ok ==> JournalTemporary !in disk.files && Parse(disk.files, JournalFile) == Some(journal)
                   && disk.health == old(disk.health)
    ensures disk.health == Clean ==> old(disk.health) == Clean && (ok <==> JournalTemporary !in old(disk.files))
  {
    if disk.Exists(JournalTemporary) {
      return false;
    }
    ok := disk.Write(JournalTemporary, Record(journal), TornRecords(journal));
    if !ok {
      if disk.Exists(JournalTemporary) {
        var _ := disk.Remove(JournalTemporary);
      }
      return false;
    }
    if disk.Exists(JournalFile) {
      ok := disk.Remove(JournalFile);
      if !ok {
        return;
      }
    }
    ok := disk.Rename(JournalTemporary, JournalFile);
  }

  method CreateEmptyAtomic(disk: Disk<Path, Content>) returns (ok: bool)
    modifies disk
    ensures SameStandard(old(disk.files), disk.files)
    ensures SameAt(old(disk.files), disk.files, JournalFile) && SameAt(old(disk.files), disk.files, JournalTemporary)
    ensures LabFlag in old(disk.files) ==> disk.files == old(disk.files) && !ok
    ensures LabFlag in disk.files && LabFlag !in old(disk.files) ==> disk.files[LabFlag] == Empty
    ensures ok ==> LabFlag in disk.files && LabTemporary !in disk.files && disk.health == old(disk.health)
    ensures disk.health == Clean ==>
              old(disk.health) == Clean && (ok <==> LabFlag !in old(disk.files) && LabTemporary !in old(disk.files))
  {
    if disk.Exists(LabFlag) || disk.Exists(LabTemporary) {
      return false;
    }
    ok := disk.Write(LabTemporary, Empty, [Empty]);
    if ok {
      ok := disk.Rename(LabTemporary, LabFlag);
    }
    if !ok {
      var _ := disk.Remove(LabTemporary);
    }
  }

  // ---- The two operations ----

  predicate Material(img: Image) {
    JournalFile in img || JournalTemporary in img
  }

  /** The standard flag is where the journal's owner found it and nothing else is left. */
  predicate Exact(journal: Journal, img: Image) {
    LabFlag !in img && StandardBackup !in img && (journal.standardWasEnabled <==> StandardFlag in img)
  }

  predicate EmptyFile(img: Image, p: Path) {
    p in img && img[p] == Empty
  }

  predicate LabActive(journal: Journal, img: Image) {
    EmptyFile(img, LabFlag) && StandardFlag !in img && (journal.standardWasEnabled <==> StandardBackup in img)
  }

  /** The bytes of the standard flag are under one of its two names, and a file under
      another name is never overwritten. */
  ghost predicate FlagKept(img: Image, img': Image) {
    || SameStandard(img, img')
    || (StandardFlag in img && StandardBackup !in img
        && StandardFlag !in img' && StandardBackup in img' && img'[StandardBackup] == img[StandardFlag])
    || (StandardBackup in img && StandardFlag !in img
        && StandardBackup !in img' && StandardFlag in img' && img'[StandardFlag] == img[StandardBackup])
  }

  /** Where a successful enable ends. */
  ghost predicate EnabledBy(a: Image, h: Health, b: Image, h': Health) {
    && h' == h && JournalTemporary !in b
    && Parse(b, JournalFile) == Some(Journal(LabEnabled, StandardFlag in a))
    && LabActive(Journal(LabEnabled, StandardFlag in a), b)
  }

  /** Which answer an enable gives when no step fails. */
  ghost predicate EnableAnswer(a: Image, r: Result) {
    && (r == Ok <==> (!Material(a) || (Choice(a).Some? && Choice(a).value.phase == Restored)) && LabTemporary !in a)
    && (r == AlreadyDone <==> Choice(a).Some? && Choice(a).value.phase == LabEnabled && LabFlag in a)
    && r in {Ok, AlreadyDone, RecoveryRequired}
  }

  /** One enable from image `a` that leaves image `b`, completed or not. */
  ghost predicate EnableSession(flag: Option<Content>, a: Image, h: Health, b: Image, h': Health, r: Result) {
    && (Safe(flag, a) ==> Safe(flag, b))
    && FlagKept(a, b)
    && (LabFlag in a ==> SameAt(a, b, LabFlag))
    && (r == Ok ==> EnabledBy(a, h, b, h'))
    && (h' == Clean && Safe(flag, a) ==> EnableAnswer(a, r))
  }

  /** Where a completed restore ends. */
  ghost predicate RestoredBy(a: Image, h: Health, b: Image, h': Health) {
    && h' == h && JournalTemporary !in b && Choice(a).Some?
    && Parse(b, JournalFile) == Some(Journal(Restored, Choice(a).value.standardWasEnabled))
    && Exact(Parse(b, JournalFile).value, b)
  }

  /** One restore from image `a` that leaves image `b`, completed or not. */
  ghost predicate RestoreSession(flag: Option<Content>, a: Image, h: Health, b: Image, h': Health, r: Result) {
    && (Journaled(flag, a) ==> Journaled(flag, b))
    && FlagKept(a, b)
    && SameAt(a, b, LabTemporary)
    && (Choice(a).None? ==> r == Conflict && b == a)
    && (LabFlag in a && a[LabFlag] != Empty ==> SameFlags(a, b) && r != Ok)
    && (r == Ok || r == AlreadyDone ==> RestoredBy(a, h, b, h'))
    && (h' == Clean && Journaled(flag, a) ==> r == Ok || r == AlreadyDone)
  }

  /** The part of an enable that runs once no earlier transaction is in the way. */
  method BeginTransaction(disk: Disk<Path, Content>, ghost flag: Option<Content>) returns (r: Result)
    requires !Material(disk.files)
    modifies disk
    ensures old(Untouched(flag, disk.files)) ==> Safe(flag, disk.files)
    ensures FlagKept(old(disk.files), disk.files)
    ensures LabFlag in old(disk.files) ==> SameAt(old(disk.files), disk.files, LabFlag)
    ensures old(StandardBackup in disk.files || LabFlag in disk.files) ==>
              r == Conflict && disk.files == old(disk.files)
    ensures r == Ok ==> EnabledBy(old(disk.files), old(disk.health), disk.files, disk.health)
    ensures disk.health == Clean && old(Untouched(flag, disk.files)) ==>
              r == if old(LabTemporary in disk.files) then RecoveryRequired else Ok
    ensures disk.health == Clean ==> old(disk.health) == Clean
  {
    if disk.Exists(StandardBackup) || disk.Exists(LabFlag) {
      return Conflict;
    }
    var standard := disk.Exists(StandardFlag);
    var ok := WriteJournal(disk, Journal(Prepared, standard));
    if !ok {
      return IoError;
    }
    if standard {
      ok := disk.Rename(StandardFlag, StandardBackup);
      if !ok {
        return RecoveryRequired;
      }
    }
    ok := WriteJournal(disk, Journal(StandardDisabled, standard));
    if ok {
      ok := CreateEmptyAtomic(disk);
    }
    if !ok {
      return RecoveryRequired;
    }
    ok := WriteJournal(disk, Journal(LabEnabled, standard));
    if !ok {
      return RecoveryRequired;
    }
    return Ok;
  }

  /** Device Lab enable. The contract covers every interruption: the image at a power loss
      is the final image of a session that ends Dead. */
  method Enable(disk: Disk<Path, Content>, ghost flag: Option<Content>) returns (r: Result)
    modifies disk
    ensures EnableSession(flag, old(disk.files), old(disk.health), disk.files, disk.health, r)
    ensures old(!Material(disk.files) && (StandardBackup in disk.files || LabFlag in disk.files)) ==>
              r == Conflict && disk.files == old(disk.files)
  {
    if Material(disk.files) {
      var recovered := RecoverJournal(disk);
      if recovered.None? {
        return RecoveryRequired;
      }
      var journal := recovered.value;
      if journal.phase == LabEnabled && LabActive(journal, disk.files) {
        return AlreadyDone;
      }
      if journal.phase == Restored && Exact(journal, disk.files) {
        var removed := disk.Remove(JournalFile);
        if !removed {
          return IoError;
        }
      } else {
        return RecoveryRequired;
      }
    }
    r := BeginTransaction(disk, flag);
  }

  ghost predicate MovedBack(img: Image, img': Image) {
    && StandardBackup in img && StandardFlag !in img
    && img' == (img - {StandardBackup})[StandardFlag := img[StandardBackup]]
  }

  /** Renames the backup back, or refuses when the two names are not as the journal says. */
  method ReturnStandardFlag(disk: Disk<Path, Content>, wasEnabled: bool) returns (r: Result)
    modifies disk
    ensures disk.files == old(disk.files) || MovedBack(old(disk.files), disk.files)
    ensures r == Ok ==> disk.health == old(disk.health) && StandardBackup !in disk.files
                        && (wasEnabled <==> StandardFlag in disk.files)
    ensures disk.health == Clean ==>
              old(disk.health) == Clean &&
              (r == Ok <==> if wasEnabled then old(StandardFlag in disk.files <==> StandardBackup !in disk.files)
                            else old(StandardFlag !in disk.files && StandardBackup !in disk.files))
    ensures r != AlreadyDone
  {
    if wasEnabled {
      if disk.Exists(StandardFlag) && disk.Exists(StandardBackup) {
        return Conflict;
      }
      if !disk.Exists(StandardFlag) {
        if !disk.Exists(StandardBackup) {
          return RecoveryRequired;
        }
        var ok := disk.Rename(StandardBackup, StandardFlag);
        if !ok {
          return RecoveryRequired;
        }
      }
    } else if disk.Exists(StandardFlag) || disk.Exists(StandardBackup) {
      return Conflict;
    }
    return Ok;
  }

  /** Removes an empty lab flag and records that it is gone. */
  method DisableLab(disk: Disk<Path, Content>, unfinished: Journal, ghost flag: Option<Content>) returns (r: Result)
    requires JournalTemporary !in disk.files && Parse(disk.files, JournalFile) == Some(unfinished)
    requires unfinished.phase != Restored
    modifies disk
    ensures old(Journaled(flag, disk.files)) ==> Journaled(flag, disk.files)
    ensures SameStandard(old(disk.files), disk.files) && SameAt(old(disk.files), disk.files, LabTemporary)
    ensures old(LabFlag in disk.files && disk.files[LabFlag] != Empty) ==>
              disk.files == old(disk.files) && r == Conflict
    ensures r == Ok ==>
              && disk.health == old(disk.health) && JournalTemporary !in disk.files && LabFlag !in disk.files
              && Parse(disk.files, JournalFile) == Some(unfinished.(phase := LabDisabled))
    ensures r != AlreadyDone
    ensures disk.health == Clean ==> old(disk.health) == Clean && (old(Journaled(flag, disk.files)) ==> r == Ok)
  {
    if disk.Exists(LabFlag) {
      if !EmptyFile(disk.files, LabFlag) {
        return Conflict;
      }
      var removed := disk.Remove(LabFlag);
      if !removed {
        return IoError;
      }
    }
    var ok := WriteJournal(disk, unfinished.(phase := LabDisabled));
    return if ok then Ok else RecoveryRequired;
  }

  /** The part of a restore that runs under a recovered, unfinished journal. */
  method UndoTransaction(disk: Disk<Path, Content>, unfinished: Journal, ghost flag: Option<Content>)
    returns (r: Result)
    requires JournalTemporary !in disk.files && Parse(disk.files, JournalFile) == Some(unfinished)
    requires unfinished.phase != Restored
    modifies disk
    ensures old(Journaled(flag, disk.files)) ==> Journaled(flag, disk.files)
    ensures FlagKept(old(disk.files), disk.files) && SameAt(old(disk.files), disk.files, LabTemporary)
    ensures old(LabFlag in disk.files && disk.files[LabFlag] != Empty) ==>
              SameFlags(old(disk.files), disk.files) && r == Conflict
    ensures r == Ok ==>
              && disk.health == old(disk.health) && JournalTemporary !in disk.files
              && Parse(disk.files, JournalFile) == Some(unfinished.(phase := Restored))
              && Exact(unfinished, disk.files)
    ensures r != AlreadyDone
    ensures disk.health == Clean ==> old(disk.health) == Clean && (old(Journaled(flag, disk.files)) ==> r == Ok)
  {
    r := DisableLab(disk, unfinished, flag);
    if r != Ok {
      return;
    }
    r := ReturnStandardFlag(disk, unfinished.standardWasEnabled);
    if r != Ok {
      return;
    }
    var ok := WriteJournal(disk, unfinished.(phase := Restored));
    if !ok {
      return RecoveryRequired;
    }
  }

  /** Device Lab restore, with the same reading of interruptions. */
  method Restore(disk: Disk<Path, Content>, ghost flag: Option<Content>) returns (r: Result)
    modifies disk
    ensures RestoreSession(flag, old(disk.files), old(disk.health), disk.files, disk.health, r)
  {
    var recovered := RecoverJournal(disk);
    if recovered.None? {
      return Conflict;
    }
    var journal := recovered.value;
    if journal.phase == Restored {
      return if Exact(journal, disk.files) then AlreadyDone else Conflict;
    }
    r := UndoTransaction(disk, journal, flag);
  }

  // ---- What an interrupted transaction promises ----

  /** Every session from image `k` on is a restore. */
  ghost predicate RestoresFrom(flag: Option<Content>, images: seq<Image>, healths: seq<Health>,
                               results: seq<Result>, k: nat)
    requires |images| == |healths| == |results|
  {
    forall i | k < i < |images| :: RestoreSession(flag, images[i - 1], Clean, images[i], healths[i], results[i])
  }

  /** Every session is an enable or a restore. */
  ghost predicate Sessions(flag: Option<Content>, images: seq<Image>, healths: seq<Health>, results: seq<Result>)
    requires |images| == |healths| == |results|
  {
    forall i | 1 <= i < |images| ::
      || EnableSession(flag, images[i - 1], Clean, images[i], healths[i], results[i])
      || RestoreSession(flag, images[i - 1], Clean, images[i], healths[i], results[i])
  }

  /** Through any mixture of enables and restores, each stopped anywhere, the standard flag
      exists under exactly one of its names with its own bytes. */
  lemma {:induction false} AnySessionsKeepTheFlag(
      flag: Option<Content>, images: seq<Image>, healths: seq<Health>, results: seq<Result>)
    requires 1 <= |images| == |healths| == |results|
    requires Safe(flag, images[0]) && Sessions(flag, images, healths, results)
    ensures Safe(flag, images[|images| - 1])
    ensures Home(flag, images[|images| - 1]) || Away(flag, images[|images| - 1])
  {
    var n := |images| - 1;
    if n > 0 {
      AnySessionsKeepTheFlag(flag, images[..n], healths[..n], results[..n]);
    }
  }

  /** After any mixture of sessions, first enables and later ones, and behind it at least one restore,
      each stopped anywhere, one restore that runs through reports success exactly when a journal
      generation was whole in front of the restores, and the standard flag, the backup and the lab
      flag are back as they were; without that generation nothing had moved. */
  lemma {:induction false} RestoreSurvivesAnyCrashes(
      flag: Option<Content>, images: seq<Image>, healths: seq<Health>, results: seq<Result>, k: nat)
    requires k + 1 < |images| == |healths| == |results|
    requires Safe(flag, images[0]) && Sessions(flag, images, healths, results)
    requires RestoresFrom(flag, images, healths, results, k)
    ensures if Choice(images[k]).Some? then Journaled(flag, images[|images| - 1])
            else images[|images| - 1] == images[k]
    ensures healths[|images| - 1] == Clean ==>
              && (results[|images| - 1] in {Ok, AlreadyDone} <==> Choice(images[k]).Some?)
              && Home(flag, images[|images| - 1]) && LabFlag !in images[|images| - 1]
  {
    var n := |images| - 1;
    AnySessionsKeepTheFlag(flag, images[..k + 1], healths[..k + 1], results[..k + 1]);
    if n > k + 1 {
      RestoreSurvivesAnyCrashes(flag, images[..n], healths[..n], results[..n], k);
    }
    assert RestoreSession(flag, images[n - 1], Clean, images[n], healths[n], results[n]);
  }

  /** A power loss between creating and renaming the temporary lab flag leaves a file that
      neither operation ever removes. */
  lemma {:induction false} StrayLabTemporaryBlocksEnable(
      flag: Option<Content>, a: Image, b: Image, c: Image, h: Health, r: Result, r': Result)
    requires Journaled(flag, a) && LabTemporary in a
    requires RestoreSession(flag, a, Clean, b, Clean, r)
    requires EnableSession(flag, b, Clean, c, h, r')
    ensures r in {Ok, AlreadyDone}
    ensures r' != Ok
  {
  }

  /** No standard flag; the transaction has come to creating the lab flag. */
  function Creating(): Image {
    map[JournalFile := Record(Journal(StandardDisabled, false))]
  }

  /** Such a card: power was lost while the temporary lab flag was written. The restore reports
      success, and from then on every undisturbed enable asks for a recovery. */
  lemma StrayLabTemporaryExample(b: Image, c: Image, r: Result, r': Result)
    requires RestoreSession(None, Creating()[LabTemporary := Empty], Clean, b, Clean, r)
    requires EnableSession(None, b, Clean, c, Clean, r')
    ensures Wrote(Clean, Creating(), Dead, Creating()[LabTemporary := Empty], false, LabTemporary, Empty, [Empty])
    ensures r in {Ok, AlreadyDone} && r' == RecoveryRequired
  {
    var a := Creating()[LabTemporary := Empty];
    StrayLabTemporaryBlocksEnable(None, a, b, c, Clean, r, r');
    assert Choice(b) == Parse(b, JournalFile);
  }

  // ---- The read-only inspection ----

  /** The generation the inspection shows. */
  function Shown(img: Image): Option<Journal> {
    var current := Parse(img, JournalFile);
    var pending := Parse(img, JournalTemporary);
    if pending.Some? && (current.None? || Follows(current.value, pending.value)) then pending
    else if current.Some? && pending.None? then current
    else None
  }

  function Inspect(img: Image): Status {
    if !Material(img) then
      if StandardBackup in img || LabFlag in img then Contradiction else Normal
    else if Shown(img).None? then Contradiction
    else
      var journal := Shown(img).value;
      if journal.phase == LabEnabled && LabActive(journal, img) then Enabled
      else if journal.phase == Restored && Exact(journal, img) then RestoredState
      else if journal.phase in {Prepared, StandardDisabled, LabDisabled} then Recovery
      else Contradiction
  }

  /** The inspection shows the generation a recovery would settle on. */
  lemma InspectionAgreesWithRecovery(img: Image)
    ensures Shown(img) == Choice(img)
  {
  }

  /** What each answer of the inspection means on an image an interruption can leave. In
      particular a reported contradiction is either a first generation that never became
      whole, or a lab flag already removed by a restore that can simply be repeated. */
  lemma InspectionOfAnInterruptedImage(flag: Option<Content>, img: Image)
    requires Safe(flag, img)
    ensures Inspect(img) == Normal <==> !Material(img)
    ensures Inspect(img) == Enabled <==> Choice(img).Some? && Choice(img).value.phase == LabEnabled && LabFlag in img
    ensures Inspect(img) == RestoredState <==> Choice(img).Some? && Choice(img).value.phase == Restored
    ensures Inspect(img) == Contradiction <==>
              || (Choice(img).None? && JournalTemporary in img)
              || (Choice(img).Some? && Choice(img).value.phase == LabEnabled && LabFlag !in img)
  {
  }

  /** Two such images: a first generation that was torn, and a lab flag removed just before the
      power was lost. Both are reported as contradictions, and a restore of the second succeeds. */
  lemma ReportedContradictions(b: Image, r: Result)
    requires RestoreSession(None, map[JournalFile := Record(Journal(LabEnabled, false))], Clean, b, Clean, r)
    ensures var torn: Image := map[JournalTemporary := Other("{")];
            Wrote(Clean, map[], Dead, torn, false, JournalTemporary, Record(Journal(Prepared, false)),
                  TornRecords(Journal(Prepared, false)))
            && Untouched(None, torn) && Inspect(torn) == Contradiction
    ensures var enabled: Image := map[JournalFile := Record(Journal(LabEnabled, false)), LabFlag := Empty];
            Inspect(enabled) == Enabled && Inspect(enabled - {LabFlag}) == Contradiction
            && enabled - {LabFlag} == map[JournalFile := Record(Journal(LabEnabled, false))]
    ensures r in {Ok, AlreadyDone} && Inspect(b) == RestoredState
  {
    var torn: Image := map[JournalTemporary := Other("{")];
    assert TornRecords(Journal(Prepared, false))[1] == Other("{");
    var enabled: Image := map[JournalFile := Record(Journal(LabEnabled, false)), LabFlag := Empty];
    assert enabled - {LabFlag} == map[JournalFile := Record(Journal(LabEnabled, false))];
    assert Journaled(None, enabled - {LabFlag});
  }
}
