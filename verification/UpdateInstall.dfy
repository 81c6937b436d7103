/** Installing an update over the live files and rolling it back
    (companion/update_install.c, platform/update_fs.c). */
module UpdateInstall {
  import opened CrashDisk
  import opened Wrappers
  import opened UpdateJournal

  // ---- What the live paths may hold ----

  predicate IsBefore(img: Image, j: Journal, i: nat)
    requires i < |j.files|
  {
    if j.files[i].existed then Holds(img, Live(i), Blob(j.files[i].before)) else Live(i) !in img
  }

  predicate IsAfter(img: Image, j: Journal, i: nat)
    requires i < |j.files|
  {
    Holds(img, Live(i), Blob(j.files[i].after))
  }

  ghost predicate AllBefore(img: Image, j: Journal)
    requires |j.files| == FILE_COUNT
  {
    forall i :: 0 <= i < FILE_COUNT ==> IsBefore(img, j, i)
  }

  ghost predicate AllAfter(img: Image, j: Journal)
    requires |j.files| == FILE_COUNT
  {
    forall i :: 0 <= i < FILE_COUNT ==> IsAfter(img, j, i)
  }

  /** The before image is backed up, and a live path that is present holds one of the
      transaction's two contents. */
  predicate Known(img: Image, j: Journal, i: nat)
    requires i < |j.files|
  {
    && (j.files[i].existed ==> Holds(img, Before(j.transaction, i), Blob(j.files[i].before)))
    && (Live(i) in img ==> IsAfter(img, j, i) || (j.files[i].existed && IsBefore(img, j, i)))
  }

  predicate Missing(img: Image, j: Journal, i: nat)
    requires i < |j.files|
  {
    j.files[i].existed && Live(i) !in img
  }

  /** A leftover publication temporary can be discarded. */
  predicate Discardable(img: Image, j: Journal, i: nat)
    requires i < |j.files|
  {
    LiveTemporary(i) in img ==>
      || img[LiveTemporary(i)] == Blob(j.files[i].after)
      || (j.files[i].existed && img[LiveTemporary(i)] == Blob(j.files[i].before))
  }

  /** No live path other than `n` is missing. */
  ghost predicate OnlyMissing(img: Image, j: Journal, n: nat)
    requires |j.files| == FILE_COUNT
  {
    forall i :: 0 <= i < FILE_COUNT && Missing(img, j, i) ==> i == n
  }

  /** No live path is missing. */
  ghost predicate Whole(img: Image, j: Journal)
    requires |j.files| == FILE_COUNT
  {
    forall i :: 0 <= i < FILE_COUNT ==> !Missing(img, j, i)
  }

  /** From here one rollback that runs through restores everything: see `Rollback`. */
  ghost predicate Ready(img: Image, j: Journal) {
    && WellFormed(j) && (Busy(j.phase) || j.phase == FilesInstalled)
    && (forall i :: 0 <= i < FILE_COUNT ==> Known(img, j, i))
    && (forall i :: 0 <= i < FILE_COUNT && i != 1 ==> Discardable(img, j, i))
    && OnlyMissing(img, j, j.nextFile)
    && Live(1) in img
    && Savable(img, j, true)
    && (Lock in img ==> Holds(img, Lock, LockText(j.transaction)))
  }

  /** A transaction between two steps: its active journal is `j` and it holds the lock. */
  ghost predicate Settled(img: Image, j: Journal) {
    Ready(img, j) && Named(img, j.transaction) && JournalAt(img, Active) == Some(j)
  }

  /** A start-up finds the transaction's journal, and that journal explains every live path
      well enough for one rollback. */
  ghost predicate Recoverable(img: Image, j: Journal) {
    && Load(img).Some? && SameTransaction(Load(img).value, j)
    && if Load(img).value.phase == RolledBack
       then |j.files| == FILE_COUNT && AllBefore(img, j) && (Lock in img ==> Holds(img, Lock, LockText(j.transaction)))
       else Ready(img, Load(img).value)
  }

  /** Paths no step of transaction `t` may write. */
  predicate Foreign(p: Path, t: string) {
    p.Stage? || p.Before? || p.ConfigBackup? || ((p.Record? || p.RecordTemporary?) && p.owner != t)
  }

  /** None of them has been written, and the lock is as it was or given up. */
  ghost predicate ForeignKept(a: Image, b: Image, t: string) {
    && (forall p :: Foreign(p, t) ==> (p in a <==> p in b) && (p in a ==> a[p] == b[p]))
    && (Lock in b ==> Lock in a && b[Lock] == a[Lock])
  }

  lemma ForeignThrough(a: Image, b: Image, c: Image, t: string)
    requires ForeignKept(a, b, t) && ForeignKept(b, c, t)
    ensures ForeignKept(a, c, t)
  {
  }

  // ---- Steps ----

  method Matches(disk: Disk<Path, Content>, p: Path, bytes: string) returns (b: bool)
    modifies disk
    ensures disk.files == old(disk.files)
    ensures b ==> Holds(disk.files, p, Blob(bytes)) && disk.health == old(disk.health) != Dead
    ensures disk.health == Clean ==> old(disk.health) == Clean && (b <==> Holds(disk.files, p, Blob(bytes)))
  {
    var c := disk.Read(p);
    return c == Some(Blob(bytes));
  }

  method FilesMatch(disk: Disk<Path, Content>, j: Journal, target: bool) returns (b: bool)
    requires |j.files| == FILE_COUNT
    modifies disk
    ensures disk.files == old(disk.files)
    ensures b ==> disk.health == old(disk.health)
    ensures b ==> if target then AllAfter(disk.files, j) else AllBefore(disk.files, j)
    ensures disk.health == Clean ==>
              old(disk.health) == Clean && (b <==> if target then AllAfter(disk.files, j) else AllBefore(disk.files, j))
  {
    for i := 0 to FILE_COUNT
      invariant disk.files == old(disk.files) && disk.health == old(disk.health)
      invariant forall k :: 0 <= k < i ==> if target then IsAfter(disk.files, j, k) else IsBefore(disk.files, j, k)
    {
      if !target && !j.files[i].existed {
        if disk.Exists(Live(i)) {
          assert !IsBefore(disk.files, j, i);
          return false;
        }
      } else {
        b := Matches(disk, Live(i), if target then j.files[i].after else j.files[i].before);
        if !b {
          assert disk.health == Clean ==> if target then !IsAfter(disk.files, j, i) else !IsBefore(disk.files, j, i);
          return;
        }
      }
    }
    return true;
  }

  /** The images that publishing `source` over live path `i` passes through, in order. */
  function PublishImages(img: Image, source: Path, i: nat, expected: Option<string>,
                         allowMissing: bool): (images: seq<Image>)
    ensures |images| > 0 && images[0] == img
  {
    if LiveTemporary(i) in img || source !in img then [img]
    else
      var written := img[LiveTemporary(i) := img[source]];
      if !Publishable(img, source, i, expected, allowMissing) then [img, written]
      else
        var removed := written - {Live(i)};
        [img, written, removed, (removed - {LiveTemporary(i)})[Live(i) := img[source]]]
  }

  predicate Publishable(img: Image, source: Path, i: nat, expected: Option<string>, allowMissing: bool) {
    && LiveTemporary(i) !in img && source in img
    && (if Live(i) in img then expected.Some? && img[Live(i)] == Blob(expected.value) else allowMissing)
  }

  method Publish(disk: Disk<Path, Content>, source: Path, i: nat, expected: Option<string>, allowMissing: bool)
    returns (ok: bool)
    requires !source.Live? && !source.LiveTemporary?
    modifies disk
    ensures disk.files in old(PublishImages(disk.files, source, i, expected, allowMissing))
    ensures ok ==> disk.files == Last(old(PublishImages(disk.files, source, i, expected, allowMissing)))
                   && old(Publishable(disk.files, source, i, expected, allowMissing))
                     && disk.health == old(disk.health) != Dead
    ensures disk.health == Clean ==>
              old(disk.health) == Clean && (ok <==> old(Publishable(disk.files, source, i, expected, allowMissing)))
  {
    ghost var images := PublishImages(disk.files, source, i, expected, allowMissing);
    if disk.Exists(LiveTemporary(i)) {
      return false;
    }
    var bytes := disk.Read(source);
    if bytes.None? {
      return false;
    }
    ok := disk.Write(LiveTemporary(i), bytes.value, []);
    if !ok {
      return;
    }
    ok := disk.Commit();
    if !ok {
      return;
    }
    assert disk.files == images[1];
    var from := disk.Read(source);
    var copied := disk.Read(LiveTemporary(i));
    if from.None? || copied.None? || from != copied {
      return false;
    }
    if disk.Exists(Live(i)) {
      var current := disk.Read(Live(i));
      if current.None? || expected.None? || current.value != Blob(expected.value) {
        return false;
      }
      ok := disk.Remove(Live(i));
      if !ok {
        return;
      }
    } else if !allowMissing {
      return false;
    }
    assert disk.files == images[2];
    ok := disk.Commit();
    if !ok {
      return;
    }
    ok := disk.Rename(LiveTemporary(i), Live(i));
    if ok {
      ok := disk.Commit();
    }
  }

  method DiscardTemporary(disk: Disk<Path, Content>, j: Journal, i: nat) returns (ok: bool)
    requires i < |j.files|
    modifies disk
    ensures disk.files == old(disk.files) || disk.files == old(disk.files) - {LiveTemporary(i)}
    ensures ok ==> disk.files == old(disk.files) - {LiveTemporary(i)} && disk.health == old(disk.health)
                   && old(Discardable(disk.files, j, i))
    ensures disk.health == Clean ==> old(disk.health) == Clean && (ok <==> old(Discardable(disk.files, j, i)))
  {
    if !disk.Exists(LiveTemporary(i)) {
      return true;
    }
    var bytes := disk.Read(LiveTemporary(i));
    if bytes.None? || !Discardable(disk.files, j, i) {
      return false;
    }
    ok := disk.Remove(LiveTemporary(i));
    if ok {
      ok := disk.Commit();
    }
  }

  method Unlock(disk: Disk<Path, Content>, transaction: string) returns (ok: bool)
    modifies disk
    ensures disk.files == old(disk.files)
         || (old(Holds(disk.files, Lock, LockText(transaction))) && disk.files == old(disk.files) - {Lock})
    ensures ok ==> Lock !in disk.files && disk.health == old(disk.health)
    ensures disk.health == Clean ==>
              old(disk.health) == Clean
                && (ok <==> old(Lock in disk.files ==> Holds(disk.files, Lock, LockText(transaction))))
  {
    if !disk.Exists(Lock) {
      return true;
    }
    var text := disk.Read(Lock);
    if text != Some(LockText(transaction)) {
      return false;
    }
    ok := disk.Remove(Lock);
    if ok {
      ok := disk.Commit();
    }
  }

  /** The images differ in the journal files of transaction `t` only. */
  ghost predicate JournalOnly(a: Image, b: Image, t: string) {
    forall p :: p !in {Record(t), RecordTemporary(t), Active, ActiveTemporary} ==>
      (p in a <==> p in b) && (p in a ==> a[p] == b[p])
  }

  ghost predicate Saved(img: Image, j: Journal) {
    Holds(img, Active, JournalText(j)) && Holds(img, Record(j.transaction), JournalText(j))
  }

  lemma JournalIsOwn(a: Image, b: Image, t: string)
    requires JournalOnly(a, b, t)
    ensures ForeignKept(a, b, t)
  {
  }

  // ---- What one step does to a settled transaction ----

  /** A replacement touches its two files only, and once it may start it may start again. */
  lemma ReplaceFrame(img: Image, p: Path, temporary: Path, j: Journal, img': Image)
    requires img' in ReplaceImages(img, p, temporary, j) && p != temporary
    ensures forall q :: q != p && q != temporary ==> (q in img <==> q in img') && (q in img ==> img[q] == img'[q])
    ensures Replaceable(img, temporary, j) ==> Replaceable(img', temporary, j)
    ensures Replaceable(img, temporary, j) && img' == Last(ReplaceImages(img, p, temporary, j)) ==>
              Holds(img', p, JournalText(j))
  {
  }

  /** A save touches the transaction's journal files only. */
  lemma SaveFrame(img: Image, j: Journal, img': Image)
    requires img' in SaveImages(img, j, true)
    ensures JournalOnly(img, img', j.transaction)
    ensures Savable(img, j, true) ==> Savable(img', j, true)
    ensures Savable(img, j, true) && img' == Last(SaveImages(img, j, true)) ==> Saved(img', j)
  {
    hide ReplaceImages;
    if WellFormed(j) {
      var own := ReplaceImages(img, Record(j.transaction), RecordTemporary(j.transaction), j);
      var next := ReplaceImages(Last(own), Active, ActiveTemporary, j);
      ReplaceFrame(img, Record(j.transaction), RecordTemporary(j.transaction), j, Last(own));
      if img' in own {
        ReplaceFrame(img, Record(j.transaction), RecordTemporary(j.transaction), j, img');
      }
      if img' in next {
        ReplaceFrame(Last(own), Active, ActiveTemporary, j, img');
      }
      assert Savable(img, j, true) ==> Last(SaveImages(img, j, true)) == Last(next);
      assert Last(next) in next;
    }
  }

  lemma SaveFromSettled(img: Image, j: Journal, j': Journal, img': Image)
    requires Settled(img, j)
    requires j' == j.(phase := j'.phase, nextFile := j'.nextFile) && j'.nextFile <= FILE_COUNT
    requires OnlyMissing(img, j, j'.nextFile)
    requires Busy(j'.phase) || j'.phase == FilesInstalled || (j'.phase == RolledBack && AllBefore(img, j))
    requires img' in SaveImages(img, j', true)
    ensures Savable(img, j', true)
    ensures Recoverable(img', j)
    ensures img' == Last(SaveImages(img, j', true)) && j'.phase != RolledBack ==> Settled(img', j')
  {
    SaveFrame(img, j', img');
    var k :| 0 <= k < |SaveImages(img, j', true)| && SaveImages(img, j', true)[k] == img';
    SaveKeepsAJournal(img, j', k);
    forall i | 0 <= i < FILE_COUNT ensures Known(img', j, i) && Known(img', j', i) {
      assert Known(img, j, i);
    }
    forall i | 0 <= i < FILE_COUNT && i != 1 ensures Discardable(img', j, i) && Discardable(img', j', i) {
      assert Discardable(img, j, i);
    }
    forall i | 0 <= i < FILE_COUNT && (Missing(img', j, i) || Missing(img', j', i))
      ensures i == j.nextFile == j'.nextFile {
      assert Missing(img, j, i);
    }
    if AllBefore(img, j) {
      forall i | 0 <= i < FILE_COUNT ensures IsBefore(img', j, i) {
        assert IsBefore(img, j, i);
      }
    }
  }

  /** `source` holds one of the two contents of live path `i`. */
  predicate Offers(img: Image, source: Path, j: Journal, i: nat)
    requires i < |j.files|
  {
    source in img
      && (img[source] == Blob(j.files[i].after) || (j.files[i].existed && img[source] == Blob(j.files[i].before)))
  }

  lemma PublishTouches(img: Image, source: Path, i: nat, expected: Option<string>, allowMissing: bool, img': Image)
    requires img' in PublishImages(img, source, i, expected, allowMissing)
    ensures forall p :: p !in {Live(i), LiveTemporary(i)} ==>
              (p in img <==> p in img') && (p in img ==> img[p] == img'[p])
    ensures Live(i) in img' ==>
              (source in img && img'[Live(i)] == img[source]) || (Live(i) in img && img'[Live(i)] == img[Live(i)])
    ensures LiveTemporary(i) in img' ==>
              || (source in img && img'[LiveTemporary(i)] == img[source])
              || (LiveTemporary(i) in img && img'[LiveTemporary(i)] == img[LiveTemporary(i)])
  {
  }

  /** Publishing the before or the after content over the path the journal names. */
  lemma PublishFromSettled(img: Image, j: Journal, source: Path, expected: Option<string>, allowMissing: bool,
                           img': Image)
    requires Settled(img, j) && j.nextFile < FILE_COUNT && j.nextFile != 1
    requires !source.Live? && !source.LiveTemporary?
    requires Offers(img, source, j, j.nextFile)
    requires img' in PublishImages(img, source, j.nextFile, expected, allowMissing)
    ensures Recoverable(img', j)
    ensures Live(j.nextFile) in img' ==> Settled(img', j)
  {
    var n := j.nextFile;
    PublishTouches(img, source, n, expected, allowMissing, img');
    hide PublishImages, Replaceable;
    forall i | 0 <= i < FILE_COUNT
      ensures Known(img', j, i) && (i != 1 ==> Discardable(img', j, i)) && (Missing(img', j, i) ==> i == n)
    {
      assert Known(img, j, i) && (Missing(img, j, i) ==> i == j.nextFile);
      assert i != 1 ==> Discardable(img, j, i);
    }
    assert Load(img') == Some(j);
  }

  lemma DiscardFromSettled(img: Image, j: Journal, n: nat)
    requires Settled(img, j)
    ensures Settled(img - {LiveTemporary(n)}, j)
  {
    var img' := img - {LiveTemporary(n)};
    forall i | 0 <= i < FILE_COUNT
      ensures Known(img', j, i) && (i != 1 ==> Discardable(img', j, i)) && (Missing(img', j, i) ==> i == j.nextFile)
    {
      assert Known(img, j, i) && (Missing(img, j, i) ==> i == j.nextFile);
      assert i != 1 ==> Discardable(img, j, i);
    }
  }

  lemma UnlockFromSettled(img: Image, j: Journal)
    requires Settled(img, j)
    ensures Recoverable(img, j) && Recoverable(img - {Lock}, j)
  {
    var img' := img - {Lock};
    forall i | 0 <= i < FILE_COUNT
      ensures Known(img', j, i) && (i != 1 ==> Discardable(img', j, i)) && (Missing(img', j, i) ==> i == j.nextFile)
    {
      assert Known(img, j, i) && (Missing(img, j, i) ==> i == j.nextFile);
      assert i != 1 ==> Discardable(img, j, i);
    }
  }

  lemma RecoverableFor(img: Image, a: Journal, b: Journal)
    requires Recoverable(img, a) && SameTransaction(a, b)
    ensures Recoverable(img, b)
  {
    if Load(img).value.phase == RolledBack {
      forall i | 0 <= i < FILE_COUNT ensures IsBefore(img, b, i) {
        assert IsBefore(img, a, i);
      }
    }
  }

  /** The phases and positions a settled transaction may be advanced to. */
  ghost predicate NextOf(img: Image, j: Journal, j': Journal) {
    && |j.files| == FILE_COUNT
    && j' == j.(phase := j'.phase, nextFile := j'.nextFile) && j'.nextFile <= FILE_COUNT
    && OnlyMissing(img, j, j'.nextFile)
    && (Busy(j'.phase) || j'.phase == FilesInstalled || (j'.phase == RolledBack && AllBefore(img, j)))
  }

  /** Saves `j'` as the next state of `j`. */
  method Advance(disk: Disk<Path, Content>, ghost j: Journal, j': Journal) returns (ok: bool)
    requires SameTransaction(j, j')
    modifies disk
    ensures JournalOnly(old(disk.files), disk.files, j.transaction)
    ensures old(Settled(disk.files, j) && NextOf(disk.files, j, j')) ==> Recoverable(disk.files, j)
    ensures ok ==> Saved(disk.files, j') && Savable(disk.files, j', true)
                   && disk.health == old(disk.health) && old(Savable(disk.files, j', true))
    ensures ok && j'.phase != RolledBack && old(Settled(disk.files, j) && NextOf(disk.files, j, j')) ==>
              Settled(disk.files, j')
    ensures disk.health == Clean ==> old(disk.health) == Clean && (ok <==> old(Savable(disk.files, j', true)))
  {
    ghost var start := disk.files;
    ok := Save(disk, j', true);
    SaveFrame(start, j', disk.files);
    if Settled(start, j) && NextOf(start, j, j') {
      SaveFromSettled(start, j, j', disk.files);
    }
  }

  /** The images differ in the two files of one live path only. */
  ghost predicate FileOnly(a: Image, b: Image, i: nat) {
    forall p :: p !in {Live(i), LiveTemporary(i)} ==> (p in a <==> p in b) && (p in a ==> a[p] == b[p])
  }

  /** The paths one file's turn may write. */
  ghost predicate OnlyFile(a: Image, b: Image, t: string, i: nat) {
    forall p :: p !in {Live(i), LiveTemporary(i), Record(t), RecordTemporary(t), Active, ActiveTemporary} ==>
      (p in a <==> p in b) && (p in a ==> a[p] == b[p])
  }

  lemma FileIsOwn(a: Image, b: Image, t: string, i: nat)
    requires OnlyFile(a, b, t, i)
    ensures ForeignKept(a, b, t)
  {
  }

  lemma NothingWritten(a: Image, t: string)
    ensures ForeignKept(a, a, t)
  {
  }

  // ---- Install ----

  /** The staged content is the announced one and the live path still holds its before image. */
  predicate Installable(img: Image, j: Journal, i: nat)
    requires i < |j.files|
  {
    && Holds(img, Stage(j.transaction, i), Blob(j.files[i].after))
    && IsBefore(img, j, i)
    && (i != 1 ==> LiveTemporary(i) !in img)
  }

  /** Publishes `source` over the live path the journal names, then flushes. */
  method Overwrite(disk: Disk<Path, Content>, ghost j: Journal, source: Path, i: nat, expected: Option<string>,
                   allowMissing: bool)
    returns (ok: bool)
    requires i < FILE_COUNT == |j.files| && i != 1
    requires !source.Live? && !source.LiveTemporary?
    modifies disk
    ensures FileOnly(old(disk.files), disk.files, i)
    ensures old(Settled(disk.files, j) && j.nextFile == i && Offers(disk.files, source, j, i)) ==>
              Recoverable(disk.files, j)
    ensures ok ==>
              && disk.health == old(disk.health) != Dead
                && old(Publishable(disk.files, source, i, expected, allowMissing))
              && Holds(disk.files, Live(i), old(disk.files)[source]) && LiveTemporary(i) !in disk.files
              && (old(Settled(disk.files, j) && j.nextFile == i && Offers(disk.files, source, j, i)) ==>
                    Settled(disk.files, j))
    ensures disk.health == Clean ==>
              old(disk.health) == Clean && (ok <==> old(Publishable(disk.files, source, i, expected, allowMissing)))
  {
    ghost var start := disk.files;
    ok := Publish(disk, source, i, expected, allowMissing);
    if ok {
      ok := disk.Commit();
    }
    if Settled(start, j) && j.nextFile == i && Offers(start, source, j, i) {
      PublishFromSettled(start, j, source, expected, allowMissing, disk.files);
    }
  }

  /** The checks before a live path may be replaced. */
  method Check(disk: Disk<Path, Content>, j: Journal, i: nat) returns (ok: bool)
    requires i < FILE_COUNT == |j.files|
    modifies disk
    ensures disk.files == old(disk.files)
    ensures ok ==> disk.health == old(disk.health)
    ensures ok ==> Holds(disk.files, Stage(j.transaction, i), Blob(j.files[i].after)) && IsBefore(disk.files, j, i)
    ensures disk.health == Clean ==>
              old(disk.health) == Clean &&
              (ok <==> Holds(disk.files, Stage(j.transaction, i), Blob(j.files[i].after)) && IsBefore(disk.files, j, i))
  {
    ok := Matches(disk, Stage(j.transaction, i), j.files[i].after);
    if ok {
      if j.files[i].existed {
        ok := Matches(disk, Live(i), j.files[i].before);
      } else {
        ok := !disk.Exists(Live(i));
      }
    }
  }

  lemma TurnMakesWhole(a: Image, b: Image, j: Journal, i: nat)
    requires i < FILE_COUNT == |j.files| && OnlyFile(a, b, j.transaction, i)
    requires OnlyMissing(a, j, i) && !Missing(b, j, i)
    ensures Whole(b, j)
  {
    forall k | 0 <= k < FILE_COUNT ensures !Missing(b, j, k) {
      assert k != i ==> (Missing(a, j, k) <==> Missing(b, j, k));
    }
  }

  /** Checks the staged content and the live path, and replaces the one by the other. The
      boot flag is checked only. */
  method ReplaceLive(disk: Disk<Path, Content>, j: Journal, i: nat) returns (ok: bool)
    requires i < FILE_COUNT == |j.files|
    modifies disk
    ensures FileOnly(old(disk.files), disk.files, i)
    ensures j.nextFile == i && old(Settled(disk.files, j)) ==> Recoverable(disk.files, j)
    ensures ok ==>
              && disk.health == old(disk.health) && IsAfter(disk.files, j, i) && old(Installable(disk.files, j, i))
              && (j.nextFile == i && old(Settled(disk.files, j)) ==> Settled(disk.files, j))
    ensures disk.health == Clean ==> old(disk.health) == Clean
    ensures disk.health == Clean && j.nextFile == i && old(Settled(disk.files, j)) ==>
              (ok <==> old(Installable(disk.files, j, i)))
  {
    ghost var start := disk.files;
    if Settled(start, j) {
      UnlockFromSettled(start, j);
    }
    hide Recoverable, Ready;
    var entry := j.files[i];
    ok := Check(disk, j, i);
    if !ok {
      return;
    }
    if i != 1 {
      var expected := if entry.existed then Some(entry.before) else None;
      ok := Overwrite(disk, j, Stage(j.transaction, i), i, expected, !entry.existed);
      if !ok {
        return;
      }
    } else if Settled(start, j) {
      BootFlagUnchanged(start, j);
    }
    ok := Matches(disk, Live(i), entry.after);
  }

  lemma BootFlagUnchanged(img: Image, j: Journal)
    requires Settled(img, j)
    ensures |j.files| == FILE_COUNT && j.files[1].before == j.files[1].after && j.files[1].existed
  {
  }

  /** One turn of the install loop. */
  method InstallFile(disk: Disk<Path, Content>, j: Journal, i: nat) returns (ok: bool, j': Journal)
    requires i < FILE_COUNT == |j.files|
    modifies disk
    ensures j' == j.(nextFile := j'.nextFile)
    ensures OnlyFile(old(disk.files), disk.files, j.transaction, i)
    ensures j.phase == Installing && old(Settled(disk.files, j) && OnlyMissing(disk.files, j, i)) ==>
              Recoverable(disk.files, j)
    ensures ok ==>
              && disk.health == old(disk.health) && j'.nextFile == i + 1
              && IsAfter(disk.files, j, i) && Saved(disk.files, j')
              && old(Installable(disk.files, j, i))
              && (j.phase == Installing && old(Settled(disk.files, j) && OnlyMissing(disk.files, j, i)) ==>
                    Settled(disk.files, j') && Whole(disk.files, j))
    ensures disk.health == Clean ==> old(disk.health) == Clean
    ensures disk.health == Clean && j.phase == Installing
            && old(Settled(disk.files, j) && OnlyMissing(disk.files, j, i)) ==>
              (ok <==> old(Installable(disk.files, j, i)))
  {
    hide Recoverable, Ready, Whole, OnlyMissing, Savable;
    ghost var start := disk.files;
    ghost var settled := j.phase == Installing && Settled(start, j) && OnlyMissing(start, j, i);
    if settled {
      SettledFacts(start, j, j.(nextFile := i));
    }
    j' := j.(nextFile := i);
    ok := Advance(disk, j, j');
    if !ok {
      return;
    }
    ghost var begun, saved := j', disk.files;
    ok := ReplaceLive(disk, j', i);
    if settled {
      RecoverableFor(disk.files, begun, j);
    }
    if !ok {
      return;
    }
    ghost var replaced := disk.files;
    j' := j.(nextFile := i + 1);
    if settled {
      WholeAfterSave(start, saved, j, j);
      TurnMakesWhole(saved, replaced, j, i);
      WholeFor(replaced, j, begun);
      SettledFacts(replaced, begun, j');
    }
    ok := Advance(disk, begun, j');
    if settled {
      RecoverableFor(disk.files, begun, j);
      WholeAfterSave(replaced, disk.files, j, j);
    }
  }

  lemma SettledFacts(img: Image, j: Journal, j': Journal)
    requires Settled(img, j) && j' == j.(nextFile := j'.nextFile) && j'.nextFile <= FILE_COUNT
    ensures WellFormed(j) && Savable(img, j, true) && Savable(img, j', true)
            && (Busy(j.phase) || j.phase == FilesInstalled)
  {
  }

  lemma InstallableMeansBefore(img: Image, j: Journal)
    requires |j.files| == FILE_COUNT
    ensures (forall i :: 0 <= i < FILE_COUNT ==> Installable(img, j, i)) ==> AllBefore(img, j)
  {
    if forall i :: 0 <= i < FILE_COUNT ==> Installable(img, j, i) {
      forall i | 0 <= i < FILE_COUNT ensures IsBefore(img, j, i) {
        assert Installable(img, j, i);
      }
    }
  }

  /** The live paths are untouched between the two images. */
  ghost predicate SameLive(a: Image, b: Image) {
    forall i :: (Live(i) in a <==> Live(i) in b) && (Live(i) in a ==> a[Live(i)] == b[Live(i)])
  }

  lemma SameLiveImages(a: Image, b: Image, j: Journal)
    requires |j.files| == FILE_COUNT && SameLive(a, b)
    ensures AllBefore(a, j) <==> AllBefore(b, j)
    ensures AllAfter(a, j) <==> AllAfter(b, j)
  {
    forall i | 0 <= i < FILE_COUNT
      ensures IsBefore(a, j, i) <==> IsBefore(b, j, i)
      ensures IsAfter(a, j, i) <==> IsAfter(b, j, i)
    {
    }
  }

  /** Records the last phase and gives up the lock. */
  lemma SavedIsOwn(a: Image, b: Image, c: Image, t: string)
    requires JournalOnly(a, b, t) && (c == b || c == b - {Lock})
    ensures ForeignKept(a, c, t) && SameLive(a, c)
  {
  }

  method Conclude(disk: Disk<Path, Content>, ghost j: Journal, j': Journal) returns (ok: bool)
    requires j' == j.(phase := j'.phase) && |j.files| == FILE_COUNT
    requires j'.phase == FilesInstalled || j'.phase == RolledBack
    modifies disk
    ensures SameLive(old(disk.files), disk.files)
    ensures ForeignKept(old(disk.files), disk.files, j.transaction)
    ensures old(Settled(disk.files, j)) && (j'.phase == RolledBack ==> old(AllBefore(disk.files, j))) ==>
              Recoverable(disk.files, j)
    ensures ok ==> disk.health == old(disk.health) && Saved(disk.files, j') && Lock !in disk.files
                   && old(Savable(disk.files, j', true)
                          && (Lock in disk.files ==> Holds(disk.files, Lock, LockText(j.transaction))))
    ensures disk.health == Clean ==>
              old(disk.health) == Clean &&
              (ok <==> old(Savable(disk.files, j', true)
                           && (Lock in disk.files ==> Holds(disk.files, Lock, LockText(j.transaction)))))
  {
    hide ForeignKept, SameLive;
    ghost var start := disk.files;
    ok := Advance(disk, j, j');
    SavedIsOwn(start, disk.files, disk.files, j.transaction);
    if !ok {
      return;
    }
    ghost var saved := disk.files;
    ok := Unlock(disk, j'.transaction);
    SavedIsOwn(start, saved, disk.files, j.transaction);
    if Settled(start, j) && j'.phase == FilesInstalled {
      UnlockFromSettled(saved, j');
      RecoverableFor(disk.files, j', j);
    } else if Settled(start, j) && AllBefore(start, j) {
      SameLiveImages(start, disk.files, j);
      assert Load(disk.files) == Some(j');
    }
  }

  /** The end of an install: every live path is checked once more, then the lock is given up. */
  method FinishInstall(disk: Disk<Path, Content>, j: Journal) returns (ok: bool, j': Journal)
    requires |j.files| == FILE_COUNT
    modifies disk
    ensures j' == j.(phase := j'.phase)
    ensures ForeignKept(old(disk.files), disk.files, j.transaction)
    ensures old(Settled(disk.files, j)) ==> Recoverable(disk.files, j)
    ensures ok ==>
              && disk.health == old(disk.health)
              && AllAfter(disk.files, j) && Saved(disk.files, j') && j'.phase == FilesInstalled && Lock !in disk.files
    ensures disk.health == Clean ==> old(disk.health) == Clean
    ensures disk.health == Clean && old(Settled(disk.files, j)) ==> (ok <==> old(AllAfter(disk.files, j)))
  {
    ghost var start := disk.files;
    if Settled(start, j) {
      UnlockFromSettled(start, j);
    }
    j' := j;
    ok := FilesMatch(disk, j, true);
    if ok {
      j' := j.(phase := FilesInstalled);
      ok := Conclude(disk, j, j');
      SameLiveImages(start, disk.files, j);
    }
  }

  ghost predicate AllInstallable(img: Image, j: Journal)
    requires |j.files| == FILE_COUNT
  {
    forall i :: 0 <= i < FILE_COUNT ==> Installable(img, j, i)
  }

  lemma OthersKept(a: Image, b: Image, j: Journal, i: nat)
    requires i < FILE_COUNT == |j.files| && OnlyFile(a, b, j.transaction, i)
    ensures forall k :: 0 <= k < FILE_COUNT && k != i ==>
              (IsAfter(a, j, k) <==> IsAfter(b, j, k)) && (Installable(a, j, k) <==> Installable(b, j, k))
  {
  }

  lemma WholeFor(img: Image, j: Journal, j': Journal)
    requires |j.files| == FILE_COUNT && SameTransaction(j, j')
    ensures Whole(img, j) <==> Whole(img, j')
    ensures Whole(img, j) ==> forall n: nat :: OnlyMissing(img, j', n)
    ensures AllBefore(img, j) ==> Whole(img, j)
  {
    if Whole(img, j) {
      forall i | 0 <= i < FILE_COUNT ensures !Missing(img, j', i) {
        assert !Missing(img, j, i);
      }
    }
    if Whole(img, j') {
      forall i | 0 <= i < FILE_COUNT ensures !Missing(img, j, i) {
        assert !Missing(img, j', i);
      }
    }
    if AllBefore(img, j) {
      forall i | 0 <= i < FILE_COUNT ensures !Missing(img, j, i) {
        assert IsBefore(img, j, i);
      }
    }
  }

  method InstallFiles(disk: Disk<Path, Content>, j: Journal) returns (ok: bool, j': Journal)
    requires |j.files| == FILE_COUNT && j.phase == Installing
    modifies disk
    ensures j' == j.(nextFile := j'.nextFile)
    ensures ForeignKept(old(disk.files), disk.files, j.transaction)
    ensures old(Settled(disk.files, j) && Whole(disk.files, j)) ==> Recoverable(disk.files, j)
    ensures ok ==> disk.health == old(disk.health) && old(AllInstallable(disk.files, j)) && AllAfter(disk.files, j)
    ensures ok && old(Settled(disk.files, j) && Whole(disk.files, j)) ==> Settled(disk.files, j')
    ensures disk.health == Clean ==> old(disk.health) == Clean
    ensures disk.health == Clean && old(Settled(disk.files, j) && Whole(disk.files, j)) ==>
              (ok <==> old(AllInstallable(disk.files, j)))
  {
    hide Settled, Recoverable, Whole, ForeignKept;
    ghost var start := disk.files;
    ghost var settled := Settled(start, j) && Whole(start, j);
    j' := j;
    NothingWritten(start, j.transaction);
    if settled {
      UnlockFromSettled(start, j);
    }
    for i := 0 to FILE_COUNT
      invariant j' == j.(nextFile := j'.nextFile) && disk.health == old(disk.health)
      invariant ForeignKept(start, disk.files, j.transaction)
      invariant settled ==> Settled(disk.files, j') && Whole(disk.files, j) && Recoverable(disk.files, j)
      invariant forall k :: 0 <= k < i ==> IsAfter(disk.files, j, k) && Installable(start, j, k)
      invariant forall k :: i <= k < FILE_COUNT ==> (Installable(disk.files, j, k) <==> Installable(start, j, k))
    {
      ghost var turn, before := j', disk.files;
      WholeFor(before, j, turn);
      ok, j' := InstallFile(disk, j', i);
      FileIsOwn(before, disk.files, j.transaction, i);
      ForeignThrough(start, before, disk.files, j.transaction);
      if settled {
        RecoverableFor(disk.files, turn, j);
      }
      assert Installable(before, turn, i) <==> Installable(start, j, i);
      if !ok {
        return;
      }
      WholeFor(disk.files, j, turn);
      OthersKept(before, disk.files, j, i);
    }
    return true, j';
  }

  /** Installs a prepared transaction. The image at a power loss is the final image of a
      session that ends Dead, so `Recoverable` holds at every crash point. */
  method Install(disk: Disk<Path, Content>, j: Journal) returns (ok: bool, j': Journal)
    requires |j.files| == FILE_COUNT
    modifies disk
    ensures SameTransaction(j, j')
    ensures ForeignKept(old(disk.files), disk.files, j.transaction)
    ensures old(Settled(disk.files, j)) ==> Recoverable(disk.files, j)
    ensures ok ==>
              && disk.health == old(disk.health)
              && AllAfter(disk.files, j) && Saved(disk.files, j') && j'.phase == FilesInstalled && Lock !in disk.files
    ensures disk.health == Clean && old(Settled(disk.files, j)) ==>
              (ok <==> j.phase == Prepared && old(AllInstallable(disk.files, j)))
  {
    hide ForeignKept;
    ghost var start := disk.files;
    j' := j;
    NothingWritten(start, j.transaction);
    if Settled(start, j) {
      UnlockFromSettled(start, j);
    }
    if j.phase != Prepared {
      return false, j';
    }
    InstallableMeansBefore(start, j);
    ok := FilesMatch(disk, j, false);
    if !ok {
      return;
    }
    WholeFor(start, j, j);
    j' := j.(phase := Installing);
    ok := Advance(disk, j, j');
    JournalIsOwn(start, disk.files, j.transaction);
    if !ok {
      return;
    }
    SameInstallable(start, disk.files, j, j');
    WholeAfterSave(start, disk.files, j, j');
    ghost var begun, saved := j', disk.files;
    ok, j' := InstallFiles(disk, j');
    ForeignThrough(start, saved, disk.files, j.transaction);
    if ok {
      SameAfter(disk.files, begun, j');
      ghost var replaced, installed := j', disk.files;
      ok, j' := FinishInstall(disk, j');
      ForeignThrough(start, installed, disk.files, j.transaction);
      SameAfter(disk.files, replaced, j);
      if Settled(start, j) {
        RecoverableFor(disk.files, replaced, j);
      }
    } else if Settled(start, j) {
      RecoverableFor(disk.files, begun, j);
    }
  }

  lemma WholeAfterSave(a: Image, b: Image, j: Journal, j': Journal)
    requires |j.files| == FILE_COUNT && SameTransaction(j, j') && JournalOnly(a, b, j.transaction)
    ensures Whole(a, j) <==> Whole(b, j')
    ensures forall n: nat :: OnlyMissing(a, j, n) <==> OnlyMissing(b, j', n)
  {
    forall i | 0 <= i < FILE_COUNT ensures Missing(a, j, i) <==> Missing(b, j', i) {
    }
  }

  lemma SameInstallable(a: Image, b: Image, j: Journal, j': Journal)
    requires |j.files| == FILE_COUNT && SameTransaction(j, j') && JournalOnly(a, b, j.transaction)
    ensures AllInstallable(a, j) <==> AllInstallable(b, j')
  {
    forall i | 0 <= i < FILE_COUNT ensures Installable(a, j, i) <==> Installable(b, j', i) {
    }
  }

  lemma SameAfter(img: Image, j: Journal, j': Journal)
    requires |j.files| == FILE_COUNT && SameTransaction(j, j')
    ensures AllAfter(img, j) <==> AllAfter(img, j')
  {
    forall i | 0 <= i < FILE_COUNT ensures IsAfter(img, j, i) <==> IsAfter(img, j', i) {
    }
  }

  // ---- Rollback ----

  /** Every backup is good, every present path holds one of the two contents, and a path
      may be missing only where the journal says the interruption was. */
  ghost predicate Explained(img: Image, j: Journal)
    requires |j.files| == FILE_COUNT
  {
    forall i :: 0 <= i < FILE_COUNT ==> Known(img, j, i) && (Missing(img, j, i) ==> i == j.nextFile)
  }

  method Validate(disk: Disk<Path, Content>, j: Journal) returns (ok: bool)
    requires |j.files| == FILE_COUNT
    modifies disk
    ensures disk.files == old(disk.files)
    ensures ok ==> (disk.health == old(disk.health) || disk.health == Faulted) && Explained(disk.files, j)
    ensures disk.health == Clean ==> old(disk.health) == Clean && (ok <==> Explained(disk.files, j))
  {
    for i := 0 to FILE_COUNT
      invariant disk.files == old(disk.files)
      invariant disk.health == old(disk.health) || disk.health == Faulted
      invariant disk.health == Clean ==> old(disk.health) == Clean
      invariant forall k :: 0 <= k < i ==> Known(disk.files, j, k) && (Missing(disk.files, j, k) ==> k == j.nextFile)
    {
      var entry := j.files[i];
      if entry.existed {
        ok := Matches(disk, Before(j.transaction, i), entry.before);
        if !ok {
          assert disk.health == Clean ==> !Known(disk.files, j, i);
          return;
        }
      }
      if disk.Exists(Live(i)) {
        ok := Matches(disk, Live(i), entry.after);
        if !ok && entry.existed {
          ok := Matches(disk, Live(i), entry.before);
        }
        if !ok {
          assert disk.health == Clean ==> !Known(disk.files, j, i);
          return;
        }
      } else if entry.existed && i != j.nextFile {
        assert Missing(disk.files, j, i);
        return false;
      }
      assert Known(disk.files, j, i);
    }
    return true;
  }

  lemma RemoveFromSettled(img: Image, j: Journal, n: nat)
    requires Settled(img, j) && n < FILE_COUNT && !j.files[n].existed
    ensures Settled(img - {Live(n)}, j)
  {
    var img' := img - {Live(n)};
    forall i | 0 <= i < FILE_COUNT
      ensures Known(img', j, i) && (i != 1 ==> Discardable(img', j, i)) && (Missing(img', j, i) ==> i == j.nextFile)
    {
      assert Known(img, j, i) && (Missing(img, j, i) ==> i == j.nextFile);
      assert i != 1 ==> Discardable(img, j, i);
    }
  }

  /** Discards the publication temporary of one path. */
  method Discard(disk: Disk<Path, Content>, j: Journal, i: nat) returns (ok: bool)
    requires i < |j.files|
    modifies disk
    ensures disk.files == old(disk.files) || disk.files == old(disk.files) - {LiveTemporary(i)}
    ensures old(Settled(disk.files, j)) ==> Settled(disk.files, j)
    ensures ok ==>
              LiveTemporary(i) !in disk.files && disk.health == old(disk.health) && old(Discardable(disk.files, j, i))
    ensures disk.health == Clean ==> old(disk.health) == Clean && (ok <==> old(Discardable(disk.files, j, i)))
  {
    ghost var start := disk.files;
    if Settled(start, j) {
      DiscardFromSettled(start, j, i);
    }
    ok := DiscardTemporary(disk, j, i);
  }

  /** Puts one live path back, whichever of its two contents it holds. */
  method PutBack(disk: Disk<Path, Content>, j: Journal, i: nat) returns (ok: bool)
    requires i < FILE_COUNT == |j.files| && i != 1
    requires Known(disk.files, j, i) && LiveTemporary(i) !in disk.files
    modifies disk
    ensures FileOnly(old(disk.files), disk.files, i)
    ensures old(Settled(disk.files, j)) && j.nextFile == i ==> Recoverable(disk.files, j)
    ensures ok ==>
              && (disk.health == old(disk.health) || disk.health == Faulted)
              && IsBefore(disk.files, j, i) && LiveTemporary(i) !in disk.files
              && (old(Settled(disk.files, j)) && j.nextFile == i ==> Settled(disk.files, j))
    ensures disk.health == Clean ==> old(disk.health) == Clean && ok
  {
    ghost var start := disk.files;
    if Settled(start, j) {
      UnlockFromSettled(start, j);
    }
    if j.files[i].existed {
      ok := Matches(disk, Live(i), j.files[i].before);
      if !ok {
        ok := Overwrite(disk, j, Before(j.transaction, i), i, Some(j.files[i].after), true);
      }
    } else {
      if disk.Exists(Live(i)) {
        if Settled(start, j) {
          RemoveFromSettled(start, j, i);
          UnlockFromSettled(start - {Live(i)}, j);
        }
        ok := Matches(disk, Live(i), j.files[i].after);
        if !ok {
          return;
        }
        ok := disk.Remove(Live(i));
        if !ok {
          return;
        }
      }
      ok := disk.Commit();
    }
  }

  /** The path the journal names, from a leftover temporary to its before content. */
  method RestoreOne(disk: Disk<Path, Content>, j: Journal, i: nat) returns (ok: bool)
    requires i < FILE_COUNT == |j.files| && i != 1 && j.nextFile == i && Known(disk.files, j, i)
    modifies disk
    ensures FileOnly(old(disk.files), disk.files, i)
    ensures old(Settled(disk.files, j)) ==> Recoverable(disk.files, j)
    ensures ok ==>
              && (disk.health == old(disk.health) || disk.health == Faulted)
              && IsBefore(disk.files, j, i) && old(Discardable(disk.files, j, i))
              && (old(Settled(disk.files, j)) ==> Settled(disk.files, j))
    ensures disk.health == Clean ==> old(disk.health) == Clean && (ok <==> old(Discardable(disk.files, j, i)))
  {
    hide Recoverable, Ready, Discardable;
    ok := Discard(disk, j, i);
    if old(Settled(disk.files, j)) {
      UnlockFromSettled(disk.files, j);
    }
    if ok {
      ok := PutBack(disk, j, i);
    }
  }

  /** One turn of the rollback loop. */
  method RollBackFile(disk: Disk<Path, Content>, j: Journal, i: nat) returns (ok: bool, j': Journal)
    requires i < FILE_COUNT == |j.files| && i != 1
    requires j.phase == RollingBack && Known(disk.files, j, i)
    modifies disk
    ensures j' == j.(nextFile := i)
    ensures OnlyFile(old(disk.files), disk.files, j.transaction, i)
    ensures old(Settled(disk.files, j) && OnlyMissing(disk.files, j, i)) ==> Recoverable(disk.files, j)
    ensures ok ==>
              && (disk.health == old(disk.health) || disk.health == Faulted)
              && IsBefore(disk.files, j, i) && Savable(disk.files, j', true)
              && old(Discardable(disk.files, j, i) && Savable(disk.files, j', true))
              && (old(Settled(disk.files, j) && OnlyMissing(disk.files, j, i)) ==>
                    Settled(disk.files, j') && Whole(disk.files, j))
    ensures disk.health == Clean ==>
              old(disk.health) == Clean && (ok <==> old(Discardable(disk.files, j, i) && Savable(disk.files, j', true)))
  {
    hide Recoverable, Ready, Whole;
    ghost var start := disk.files;
    j' := j.(nextFile := i);
    ok := Advance(disk, j, j');
    if !ok {
      return;
    }
    ghost var settled := Settled(disk.files, j');
    ok := RestoreOne(disk, j', i);
    if settled {
      RecoverableFor(disk.files, j', j);
    }
    if ok && OnlyMissing(start, j, i) {
      TurnMakesWhole(start, disk.files, j, i);
    }
  }

  /** The two files of one live path are the same in both images. */
  ghost predicate SameFile(a: Image, b: Image, i: nat) {
    && (Live(i) in a <==> Live(i) in b) && (Live(i) in a ==> a[Live(i)] == b[Live(i)])
    && (LiveTemporary(i) in a <==> LiveTemporary(i) in b)
    && (LiveTemporary(i) in a ==> a[LiveTemporary(i)] == b[LiveTemporary(i)])
  }

  ghost predicate SameLock(a: Image, b: Image) {
    (Lock in a <==> Lock in b) && (Lock in a ==> a[Lock] == b[Lock])
  }

  ghost predicate AllDiscardable(img: Image, j: Journal)
    requires |j.files| == FILE_COUNT
  {
    forall i :: 0 <= i < FILE_COUNT && i != 1 ==> Discardable(img, j, i)
  }

  /** How far the rollback loop has come: paths from `i` on are restored, the ones below
      (and the boot flag, which the loop skips) are as they were at the start. */
  ghost predicate RestoredFrom(start: Image, img: Image, j: Journal, i: nat)
    requires |j.files| == FILE_COUNT
  {
    && ForeignKept(start, img, j.transaction) && SameLock(start, img)
    && (forall k: nat :: k < i || k == 1 ==> SameFile(start, img, k))
    && (forall k :: 0 <= k < FILE_COUNT && (k < i || k == 1) ==> Known(img, j, k))
    && (forall k :: i <= k < FILE_COUNT && k != 1 ==> IsBefore(img, j, k) && Discardable(start, j, k))
  }

  lemma TurnMayStart(start: Image, img: Image, j: Journal, j': Journal, i: nat)
    requires i < FILE_COUNT == |j.files| && SameTransaction(j, j') && RestoredFrom(start, img, j, i + 1)
    ensures Known(img, j', i) && (Discardable(img, j', i) <==> Discardable(start, j, i))
  {
    assert SameFile(start, img, i) && Known(img, j, i);
  }

  lemma TurnExtends(start: Image, a: Image, b: Image, j: Journal, j': Journal, i: nat)
    requires i < FILE_COUNT == |j.files| && i != 1 && SameTransaction(j, j')
    requires RestoredFrom(start, a, j, i + 1) && OnlyFile(a, b, j.transaction, i)
    requires IsBefore(b, j', i) && Discardable(start, j, i)
    ensures RestoredFrom(start, b, j, i)
  {
    forall k: nat | k < i || k == 1
      ensures SameFile(start, b, k) && (k < FILE_COUNT ==> Known(b, j, k))
    {
      assert SameFile(start, a, k) && (k < FILE_COUNT ==> Known(a, j, k));
    }
    forall k | i <= k < FILE_COUNT && k != 1 ensures IsBefore(b, j, k) && Discardable(start, j, k) {
      assert k == i || IsBefore(a, j, k);
    }
  }

  lemma TurnStops(start: Image, a: Image, b: Image, j: Journal, i: nat)
    requires i < FILE_COUNT == |j.files| && RestoredFrom(start, a, j, i + 1) && OnlyFile(a, b, j.transaction, i)
    ensures ForeignKept(start, b, j.transaction)
  {
  }

  lemma SavableFor(img: Image, j: Journal, j': Journal)
    requires j' == j.(nextFile := j'.nextFile) && j'.nextFile <= FILE_COUNT && Savable(img, j, true)
    ensures Savable(img, j', true)
  {
  }

  lemma TurnSkips(start: Image, img: Image, j: Journal)
    requires |j.files| == FILE_COUNT && RestoredFrom(start, img, j, 2)
    ensures RestoredFrom(start, img, j, 1)
  {
  }

  /** What the loop has established when it ends. */
  lemma LoopEnds(start: Image, img: Image, j: Journal)
    requires |j.files| == FILE_COUNT && RestoredFrom(start, img, j, 0)
    ensures forall i :: 0 <= i < FILE_COUNT && i != 1 ==> IsBefore(img, j, i)
    ensures SameFile(start, img, 1) && AllDiscardable(start, j)
  {
  }

  lemma LoopKeeps(start: Image, img: Image, j: Journal, i: nat)
    requires |j.files| == FILE_COUNT && RestoredFrom(start, img, j, i)
    ensures ForeignKept(start, img, j.transaction) && SameLock(start, img)
  {
  }

  method RollBackFiles(disk: Disk<Path, Content>, j: Journal) returns (ok: bool, j': Journal)
    requires |j.files| == FILE_COUNT && j.phase == RollingBack
    requires forall i :: 0 <= i < FILE_COUNT ==> Known(disk.files, j, i)
    requires Savable(disk.files, j, true)
    modifies disk
    ensures j' == j.(nextFile := j'.nextFile) && j'.nextFile <= FILE_COUNT
    ensures ForeignKept(old(disk.files), disk.files, j.transaction)
    ensures old(Settled(disk.files, j) && OnlyMissing(disk.files, j, FILE_COUNT - 1)) ==> Recoverable(disk.files, j)
    ensures ok ==>
              && (disk.health == old(disk.health) || disk.health == Faulted)
              && (forall i :: 0 <= i < FILE_COUNT && i != 1 ==> IsBefore(disk.files, j, i))
              && SameFile(old(disk.files), disk.files, 1) && SameLock(old(disk.files), disk.files)
              && old(AllDiscardable(disk.files, j)) && Savable(disk.files, j', true)
              && (old(Settled(disk.files, j) && OnlyMissing(disk.files, j, FILE_COUNT - 1)) ==> Settled(disk.files, j'))
    ensures disk.health == Clean ==> old(disk.health) == Clean && (ok <==> old(AllDiscardable(disk.files, j)))
  {
    hide Settled, Recoverable, Whole, OnlyMissing, Known, RestoredFrom, Discardable, IsBefore, SameFile,
         OnlyFile, ForeignKept, SameLock, Savable;
    ghost var start := disk.files;
    ghost var settled := Settled(start, j) && OnlyMissing(start, j, FILE_COUNT - 1);
    j' := j;
    if settled {
      UnlockFromSettled(start, j);
    }
    LoopStarts(start, j);
    var i := FILE_COUNT;
    while i > 0
      invariant 0 <= i <= FILE_COUNT
      invariant j' == j.(nextFile := j'.nextFile) && j'.nextFile <= FILE_COUNT
      invariant disk.health == old(disk.health) || disk.health == Faulted
      invariant disk.health == Clean ==> old(disk.health) == Clean
      invariant RestoredFrom(start, disk.files, j, i) && Savable(disk.files, j', true)
      invariant settled ==> Settled(disk.files, j') && Recoverable(disk.files, j)
      invariant settled ==> if i == FILE_COUNT then j' == j && disk.files == start else Whole(disk.files, j)
    {
      i := i - 1;
      if i == 1 {
        TurnSkips(start, disk.files, j);
      } else {
        ghost var turn, before := j', disk.files;
        WholeFor(before, j, turn);
        TurnMayStart(start, before, j, turn, i);
        ok, j' := RollBackFile(disk, j', i);
        if settled {
          RecoverableFor(disk.files, turn, j);
        }
        SavableFor(before, turn, j');
        if !ok {
          TurnStops(start, before, disk.files, j, i);
          return;
        }
        WholeFor(disk.files, j, turn);
        TurnExtends(start, before, disk.files, j, turn, i);
      }
    }
    LoopKeeps(start, disk.files, j, 0);
    LoopEnds(start, disk.files, j);
    ok := true;
  }

  lemma LoopStarts(start: Image, j: Journal)
    requires |j.files| == FILE_COUNT && forall i :: 0 <= i < FILE_COUNT ==> Known(start, j, i)
    ensures RestoredFrom(start, start, j, FILE_COUNT)
    ensures Savable(start, j, true) ==> j.nextFile <= FILE_COUNT
  {
  }

  /** The end of a rollback: every live path is checked, then the lock is given up. */
  method FinishRollback(disk: Disk<Path, Content>, j: Journal) returns (ok: bool, j': Journal)
    requires |j.files| == FILE_COUNT
    modifies disk
    ensures j' == j.(phase := j'.phase)
    ensures ForeignKept(old(disk.files), disk.files, j.transaction)
    ensures old(Settled(disk.files, j)) ==> Recoverable(disk.files, j)
    ensures ok ==> disk.health == old(disk.health) && AllBefore(disk.files, j)
                   && Saved(disk.files, j') && j'.phase == RolledBack && Lock !in disk.files
    ensures disk.health == Clean ==>
              old(disk.health) == Clean &&
              (ok <==> old(AllBefore(disk.files, j) && Savable(disk.files, j.(phase := RolledBack), true)
                           && (Lock in disk.files ==> Holds(disk.files, Lock, LockText(j.transaction)))))
  {
    ghost var start := disk.files;
    if Settled(start, j) {
      UnlockFromSettled(start, j);
    }
    j' := j;
    ok := FilesMatch(disk, j, false);
    if ok {
      j' := j.(phase := RolledBack);
      ok := Conclude(disk, j, j');
      SameLiveImages(start, disk.files, j);
    }
  }

  /** The part of a rollback that writes: nothing is restored before every path is explained. */
  method RollBackExplained(disk: Disk<Path, Content>, j: Journal) returns (ok: bool, j': Journal)
    requires |j.files| == FILE_COUNT && (Busy(j.phase) || j.phase == FilesInstalled)
    requires Explained(disk.files, j)
    modifies disk
    ensures SameTransaction(j, j')
    ensures ForeignKept(old(disk.files), disk.files, j.transaction)
    ensures old(Settled(disk.files, j) && OnlyMissing(disk.files, j, FILE_COUNT - 1)) ==> Recoverable(disk.files, j)
    ensures ok ==>
              && (disk.health == old(disk.health) || disk.health == Faulted)
              && AllBefore(disk.files, j) && Lock !in disk.files && j'.phase == RolledBack && Saved(disk.files, j')
    ensures disk.health == Clean ==> old(disk.health) == Clean
    ensures disk.health == Clean ==> (ok <==> old(Ready(disk.files, j)))
  {
    hide Settled, Recoverable, Ready, Known, Whole, Explained, AllDiscardable, IsBefore, OnlyMissing,
         ForeignKept;
    ReadyIff(disk.files, j);
    ghost var start := disk.files;
    ghost var settled := Settled(start, j) && OnlyMissing(start, j, FILE_COUNT - 1);
    j' := j.(phase := RollingBack);
    ok := Advance(disk, j, j');
    JournalIsOwn(start, disk.files, j.transaction);
    if !ok {
      return;
    }
    WholeAfterSave(start, disk.files, j, j');
    ExplainedAfterSave(start, disk.files, j, j');
    ghost var begun, saved := j', disk.files;
    ok, j' := RollBackFiles(disk, j');
    ForeignThrough(start, saved, disk.files, j.transaction);
    if settled {
      RecoverableFor(disk.files, begun, j);
    }
    if !ok {
      return;
    }
    RestoredIff(start, disk.files, j, begun);
    SameBefore(disk.files, j, j');
    ghost var restoring, restored := j', disk.files;
    ok, j' := FinishRollback(disk, j');
    ForeignThrough(start, restored, disk.files, j.transaction);
    SameBefore(disk.files, j, restoring);
    if settled {
      RecoverableFor(disk.files, restoring, j);
    }
  }

  /** What a validated rollback still depends on. */
  lemma ReadyIff(img: Image, j: Journal)
    requires |j.files| == FILE_COUNT && (Busy(j.phase) || j.phase == FilesInstalled) && Explained(img, j)
    ensures Ready(img, j) <==>
              AllDiscardable(img, j) && Live(1) in img && Savable(img, j, true)
              && (Lock in img ==> Holds(img, Lock, LockText(j.transaction)))
    ensures Savable(img, j, true) <==> Savable(img, j.(phase := RollingBack), true)
    ensures Savable(img, j, true) || Settled(img, j) ==> WellFormed(j)
    ensures OnlyMissing(img, j, j.nextFile)
  {
  }

  lemma ExplainedAfterSave(a: Image, b: Image, j: Journal, j': Journal)
    requires |j.files| == FILE_COUNT && SameTransaction(j, j') && JournalOnly(a, b, j.transaction) && Explained(a, j)
    ensures forall i :: 0 <= i < FILE_COUNT ==> Known(b, j', i)
    ensures AllDiscardable(a, j) <==> AllDiscardable(b, j')
    ensures ForeignKept(a, b, j.transaction) && SameLock(a, b) && SameFile(a, b, 1)
  {
    forall i | 0 <= i < FILE_COUNT
      ensures Known(b, j', i) && (Discardable(a, j, i) <==> Discardable(b, j', i))
    {
      assert Known(a, j, i);
    }
  }

  lemma SameBefore(img: Image, j: Journal, j': Journal)
    requires |j.files| == FILE_COUNT && SameTransaction(j, j')
    ensures AllBefore(img, j) <==> AllBefore(img, j')
  {
    forall i | 0 <= i < FILE_COUNT ensures IsBefore(img, j, i) <==> IsBefore(img, j', i) {
    }
  }

  /** With every other path restored, all that is left to ask is whether the boot flag,
      which no update publishes, is still there. */
  lemma RestoredIff(start: Image, img: Image, j: Journal, begun: Journal)
    requires WellFormed(j) && SameTransaction(j, begun) && Explained(start, j)
    requires forall i :: 0 <= i < FILE_COUNT && i != 1 ==> IsBefore(img, begun, i)
    requires SameFile(start, img, 1)
    ensures AllBefore(img, j) <==> Live(1) in start
  {
    assert Known(start, j, 1);
    forall i | 0 <= i < FILE_COUNT && i != 1 ensures IsBefore(img, j, i) {
      assert IsBefore(img, begun, i);
    }
    assert IsBefore(img, j, 1) <==> Live(1) in start;
  }

  /** Rolls a transaction back. Two claims: a rollback that starts settled leaves a
      recoverable image wherever it is stopped; and one that is not disturbed succeeds
      exactly when it starts from a `Ready` image, restoring every path. */
  method Rollback(disk: Disk<Path, Content>, j: Journal) returns (ok: bool, j': Journal)
    requires |j.files| == FILE_COUNT
    modifies disk
    ensures SameTransaction(j, j')
    ensures ForeignKept(old(disk.files), disk.files, j.transaction)
    ensures old(Settled(disk.files, j) && OnlyMissing(disk.files, j, FILE_COUNT - 1)) ==> Recoverable(disk.files, j)
    ensures ok ==>
              && (disk.health == old(disk.health) || disk.health == Faulted)
              && AllBefore(disk.files, j) && Lock !in disk.files && j'.phase == RolledBack
              && (j.phase != RolledBack ==> Saved(disk.files, j'))
    ensures disk.health == Clean && j.phase != RolledBack ==> (ok <==> old(Ready(disk.files, j)))
    ensures disk.health == Clean && j.phase == RolledBack ==>
              (ok <==> old(AllBefore(disk.files, j)
                           && (Lock in disk.files ==> Holds(disk.files, Lock, LockText(j.transaction)))))
  {
    ghost var start := disk.files;
    j' := j;
    if Settled(start, j) {
      UnlockFromSettled(start, j);
    }
    if j.phase == RolledBack {
      ok := FilesMatch(disk, j, false);
      if ok {
        ok := Unlock(disk, j.transaction);
        SameLiveImages(start, disk.files, j);
      }
      return;
    }
    if !Busy(j.phase) && j.phase != FilesInstalled {
      return false, j';
    }
    ok := Validate(disk, j);
    if !ok {
      return;
    }
    ok, j' := RollBackExplained(disk, j);
  }

  /** What the companion does with a transaction it finds at start-up. One rollback that is
      not disturbed brings every live path back from any recoverable image. */
  method LoadAndRollBack(disk: Disk<Path, Content>, ghost j: Journal) returns (ok: bool)
    requires Recoverable(disk.files, j) && WellFormed(j)
    modifies disk
    ensures ForeignKept(old(disk.files), disk.files, j.transaction)
    ensures ok ==> AllBefore(disk.files, j) && Lock !in disk.files
    ensures disk.health == Clean ==> ok
  {
    var loaded := Load(disk.files).value;
    var last;
    ok, last := Rollback(disk, loaded);
    SameBefore(disk.files, j, loaded);
    SameBefore(old(disk.files), j, loaded);
  }

  // ---- Exactly when a rollback may be stopped ----

  /** The journal under which a rollback begins, and the one with which it turns to the last path. */
  function Begun(j: Journal): Journal {
    j.(phase := RollingBack)
  }

  function Turned(j: Journal): Journal {
    j.(phase := RollingBack, nextFile := FILE_COUNT - 1)
  }

  /** What a rollback writes first, before it looks at any live path again: two saves. */
  function FirstImages(img: Image, j: Journal): seq<Image> {
    var first := SaveImages(img, Begun(j), true);
    first + SaveImages(Last(first), Turned(j), true)
  }

  /** Under the lock and with no path before the last one missing, both saves are recoverable
      throughout. */
  lemma FirstImagesAreRecoverable(a: Image, j: Journal, b: Image)
    requires Settled(a, j) && OnlyMissing(a, j, FILE_COUNT - 1) && b in FirstImages(a, j)
    ensures Recoverable(b, j)
  {
    hide Settled, Recoverable, Ready, OnlyMissing, SaveImages, Savable, Known;
    SettledIsReady(a, j);
    var first := SaveImages(a, Begun(j), true);
    if b in first {
      SaveFromSettled(a, j, Begun(j), b);
    } else {
      var middle := Last(first);
      assert middle in first;
      SaveFromSettled(a, j, Begun(j), middle);
      SaveFrame(a, Begun(j), middle);
      MissingKept(a, middle, j, Begun(j));
      SettledIsReady(middle, Begun(j));
      SaveFromSettled(middle, Begun(j), Turned(j), b);
      RecoverableFor(b, Begun(j), j);
    }
  }

  lemma SettledIsReady(img: Image, j: Journal)
    requires Settled(img, j)
    ensures Ready(img, j) && OnlyMissing(img, j, j.nextFile) && j.nextFile <= FILE_COUNT && |j.files| == FILE_COUNT
    ensures Busy(j.phase) || j.phase == FilesInstalled
  {
  }

  lemma MissingKept(a: Image, b: Image, j: Journal, k: Journal)
    requires SameTransaction(j, k) && |j.files| == FILE_COUNT && JournalOnly(a, b, j.transaction)
    ensures forall n :: OnlyMissing(a, j, n) <==> OnlyMissing(b, k, n)
  {
    forall i | 0 <= i < FILE_COUNT ensures Missing(a, j, i) <==> Missing(b, k, i) {
    }
    forall n ensures OnlyMissing(a, j, n) <==> OnlyMissing(b, k, n) {
      if OnlyMissing(a, j, n) {
        forall i | 0 <= i < FILE_COUNT && Missing(b, k, i) ensures i == n {
          assert Missing(a, j, i);
        }
      }
      if OnlyMissing(b, k, n) {
        forall i | 0 <= i < FILE_COUNT && Missing(a, j, i) ensures i == n {
          assert Missing(b, k, i);
        }
      }
    }
  }

  /** Without the lock, as after a completed install, or with a journal that is found through the
      lock's own record only, as after a stopped prepare, the first save passes an image in which no
      start-up finds the transaction. */
  lemma UnnamedRollbackCanLoseTheJournal(a: Image, j: Journal)
    requires Ready(a, j) && Load(a) == Some(j) && !Named(a, j.transaction)
    ensures exists b :: b in FirstImages(a, j) && Load(b).None? && !Recoverable(b, j)
  {
    var first := SaveImages(a, Begun(j), true);
    SaveAlwaysLeavesAJournalIff(a, Begun(j));
    var k :| 0 <= k < |first| && Load(first[k]).None?;
    assert FirstImages(a, j)[k] == first[k];
  }

  /** With an earlier path missing, the second save leaves a journal that a start-up loads and
      that does not explain the gap. */
  lemma TurnedJournalCanHideTheGap(a: Image, j: Journal)
    requires Settled(a, j) && !OnlyMissing(a, j, FILE_COUNT - 1)
    ensures exists b ::
              b in FirstImages(a, j) && Load(b) == Some(Turned(j)) && !Ready(b, Turned(j)) && !Recoverable(b, j)
  {
    hide Recoverable, SaveImages, Known;
    SettledIsReady(a, j);
    var first := SaveImages(a, Begun(j), true);
    var middle := Last(first);
    assert middle in first;
    SaveFromSettled(a, j, Begun(j), middle);
    SaveFrame(a, Begun(j), middle);
    MissingKept(a, middle, j, Begun(j));
    var second := SaveImages(middle, Turned(j), true);
    var b := Last(second);
    assert b in second;
    SaveFrame(middle, Turned(j), b);
    MissingKept(middle, b, Begun(j), Turned(j));
    SavedIsLoaded(b, Turned(j));
    NotRecoverable(b, j, Turned(j));
    assert FirstImages(a, j)[|first| + |second| - 1] == b;
  }

  lemma SavedIsLoaded(b: Image, k: Journal)
    requires Saved(b, k) && WellFormed(k) && Holds(b, Lock, LockText(k.transaction))
    ensures Load(b) == Some(k)
  {
  }

  lemma NotRecoverable(b: Image, j: Journal, k: Journal)
    requires Load(b) == Some(k) && k.phase != RolledBack && !Ready(b, k)
    ensures !Recoverable(b, j)
  {
  }

  /** The exact condition. A rollback of whatever transaction a start-up loads can be stopped anywhere
      and recovered by the next one if and only if its journal explains every path, it holds the
      lock, the active record names it, and no path but the last is missing; that it then can is
      what `Rollback` promises for all its steps, and otherwise it cannot begin, or one of its first
      two saves is a point of no return. */
  lemma RollbackIsSafeIff(a: Image, j: Journal)
    requires Load(a) == Some(j) && (Busy(j.phase) || j.phase == FilesInstalled)
    ensures (forall b :: b in FirstImages(a, j) ==> Recoverable(b, j))
       <==> Ready(a, j) && Named(a, j.transaction) && OnlyMissing(a, j, FILE_COUNT - 1)
  {
    assert FirstImages(a, j)[0] == a;
    if !Ready(a, j) {
      assert !Recoverable(a, j);
    } else if !Named(a, j.transaction) {
      UnnamedRollbackCanLoseTheJournal(a, j);
    } else if OnlyMissing(a, j, FILE_COUNT - 1) {
      forall b | b in FirstImages(a, j) ensures Recoverable(b, j) {
        FirstImagesAreRecoverable(a, j, b);
      }
    } else {
      TurnedJournalCanHideTheGap(a, j);
    }
  }

  /** Stopped behind those two saves, a rollback of a settled transaction leaves the journal that
      turns to the last path, and that journal explains the image exactly if no path before the
      last was missing when it began; otherwise every later rollback refuses. */
  lemma StoppedRollbackIsReadyIff(a: Image, j: Journal)
    requires Settled(a, j)
    ensures var b := Last(FirstImages(a, j));
            Load(b) == Some(Turned(j)) && (Ready(b, Turned(j)) <==> OnlyMissing(a, j, FILE_COUNT - 1))
  {
    hide SaveImages;
    SettledIsReady(a, j);
    var first := SaveImages(a, Begun(j), true);
    var middle := Last(first);
    assert middle in first;
    SaveFromSettled(a, j, Begun(j), middle);
    SaveFrame(a, Begun(j), middle);
    MissingKept(a, middle, j, Begun(j));
    var b := Last(SaveImages(middle, Turned(j), true));
    assert b in SaveImages(middle, Turned(j), true) && Last(FirstImages(a, j)) == b;
    SaveFrame(middle, Turned(j), b);
    MissingKept(middle, b, Begun(j), Turned(j));
    SavedIsLoaded(b, Turned(j));
    if OnlyMissing(a, j, FILE_COUNT - 1) {
      SaveFromSettled(middle, Begun(j), Turned(j), b);
    }
  }

  // ---- Two such transactions ----

  function SamplePaths(): set<Path> {
    (set i: nat | i < FILE_COUNT :: Live(i)) + (set i: nat | i < FILE_COUNT :: Before("t", i)) + {Active, Record("t")}
  }

  function SampleContent(phase: Phase, p: Path): Content {
    match p
    case Live(i) => Blob(if i == 1 then "" else "new")
    case Before(_, i) => Blob(if i == 1 then "" else "old")
    case _ => JournalText(Sample(phase))
  }

  /** All its paths replaced, all its backups in place. */
  function SampleImage(phase: Phase): Image {
    map p | p in SamplePaths() :: SampleContent(phase, p)
  }

  /** An image of the sample transaction, in which the first path may be missing. */
  ghost predicate Sampled(a: Image, phase: Phase) {
    && (forall i :: 0 < i < FILE_COUNT ==> Holds(a, Live(i), Blob(if i == 1 then "" else "new")))
    && (Live(0) in a ==> a[Live(0)] == Blob("new"))
    && (forall i :: 0 <= i < FILE_COUNT ==> Holds(a, Before("t", i), Blob(if i == 1 then "" else "old")))
    && (forall i :: LiveTemporary(i) !in a) && RecordTemporary("t") !in a && ActiveTemporary !in a
    && Holds(a, Active, JournalText(Sample(phase)))
  }

  lemma SampleLivePaths(phase: Phase)
    ensures forall i :: 0 <= i < FILE_COUNT ==> Holds(SampleImage(phase), Live(i), Blob(if i == 1 then "" else "new"))
  {
    forall i: nat | i < FILE_COUNT ensures Live(i) in SamplePaths() {
    }
  }

  lemma SampleBackups(phase: Phase)
    ensures forall i :: 0 <= i < FILE_COUNT ==>
              Holds(SampleImage(phase), Before("t", i), Blob(if i == 1 then "" else "old"))
  {
    forall i: nat | i < FILE_COUNT ensures Before("t", i) in SamplePaths() {
    }
  }

  lemma SampleOthers(phase: Phase)
    ensures var a := SampleImage(phase);
            && (forall i :: LiveTemporary(i) !in a) && RecordTemporary("t") !in a && ActiveTemporary !in a && Lock !in a
            && Holds(a, Active, JournalText(Sample(phase)))
  {
    hide Sample;
  }

  lemma SampleImageIsSampled(phase: Phase)
    ensures Sampled(SampleImage(phase), phase) && Live(0) in SampleImage(phase) && Lock !in SampleImage(phase)
  {
    hide Sample, SampleImage;
    SampleLivePaths(phase);
    SampleBackups(phase);
    SampleOthers(phase);
    assert Holds(SampleImage(phase), Live(0), Blob("new"));
  }

  lemma SampledIsReady(a: Image, phase: Phase)
    requires Sampled(a, phase) && phase in {Installing, FilesInstalled}
    requires Lock in a ==> Holds(a, Lock, LockText("t"))
    ensures var j := Sample(phase);
            && Ready(a, j) && JournalAt(a, Active) == Some(j)
            && (forall i :: 0 <= i < FILE_COUNT ==> (Missing(a, j, i) <==> i == 0 && Live(0) !in a))
            && (Live(0) in a ==> AllAfter(a, j))
  {
    var j := Sample(phase);
    forall i | 0 <= i < FILE_COUNT
      ensures Known(a, j, i) && Discardable(a, j, i) && (Missing(a, j, i) <==> i == 0 && Live(0) !in a)
      ensures Live(0) in a ==> IsAfter(a, j, i)
    {
    }
  }

  /** After a completed install nothing is missing and the lock is gone: a rollback of it cannot
      be stopped safely. */
  lemma RollbackAfterInstallIsUnsafe()
    ensures var a, j := SampleImage(FilesInstalled), Sample(FilesInstalled);
            && Ready(a, j) && AllAfter(a, j) && Whole(a, j) && Lock !in a
            && exists b :: b in FirstImages(a, j) && Load(b).None? && !Recoverable(b, j)
  {
    hide SampleImage, Sampled, Ready, FirstImages, Recoverable;
    SampleImageIsSampled(FilesInstalled);
    SampledIsReady(SampleImage(FilesInstalled), FilesInstalled);
    UnnamedRollbackCanLoseTheJournal(SampleImage(FilesInstalled), Sample(FilesInstalled));
  }

  /** The same transaction, stopped during the install while its first path was missing. */
  function GapImage(): Image {
    SampleImage(Installing)[Lock := LockText("t")] - {Live(0)}
  }

  /** A rollback of it cannot be stopped safely either, lock or no lock. */
  lemma RollbackOfAnEarlyGapIsUnsafe()
    ensures var a, j := GapImage(), Sample(Installing);
            && Settled(a, j) && Missing(a, j, 0)
            && exists b :: b in FirstImages(a, j) && Load(b) == Some(Turned(j)) && !Recoverable(b, j)
  {
    hide SampleImage, FirstImages, Recoverable, Ready;
    SampleImageIsSampled(Installing);
    var a, j := GapImage(), Sample(Installing);
    assert Sampled(a, Installing);
    SampledIsReady(a, Installing);
    assert Missing(a, j, 0) && !OnlyMissing(a, j, FILE_COUNT - 1);
    TurnedJournalCanHideTheGap(a, j);
  }

  /** The same transaction, prepared on a card without an active record and stopped under its lock. */
  function StoppedPrepareImage(): Image {
    (map p | p in SamplePaths() - {Active} :: if p.Live? then Blob(if p.file == 1 then "" else "old")
                                              else SampleContent(Prepared, p))[Lock := LockText("t")]
  }

  lemma StoppedPrepareLives()
    ensures var a := StoppedPrepareImage();
            && (forall i :: 0 <= i < FILE_COUNT ==> Holds(a, Live(i), Blob(if i == 1 then "" else "old")))
            && (forall i :: LiveTemporary(i) !in a)
  {
    hide Sample;
    forall i: nat | i < FILE_COUNT ensures Live(i) in SamplePaths() {
    }
  }

  lemma StoppedPrepareBackups()
    ensures var a := StoppedPrepareImage();
            forall i :: 0 <= i < FILE_COUNT ==> Holds(a, Before("t", i), Blob(if i == 1 then "" else "old"))
  {
    hide Sample;
    forall i: nat | i < FILE_COUNT ensures Before("t", i) in SamplePaths() {
    }
  }

  lemma StoppedPrepareRecords()
    ensures var a := StoppedPrepareImage();
            && RecordTemporary("t") !in a && ActiveTemporary !in a && Active !in a
            && Holds(a, Lock, LockText("t")) && Holds(a, Record("t"), JournalText(Sample(Prepared)))
  {
    hide Sample;
  }

  /** Nothing is missing and the lock is held, but the active record does not name the transaction:
      the rollback with which a start-up answers it cannot be stopped safely. */
  lemma RollbackOfAStoppedPrepareIsUnsafe()
    ensures var a, j := StoppedPrepareImage(), Sample(Prepared);
            && Ready(a, j) && Load(a) == Some(j) && Whole(a, j) && AllBefore(a, j) && Holds(a, Lock, LockText("t"))
            && exists b :: b in FirstImages(a, j) && Load(b).None? && !Recoverable(b, j)
  {
    hide StoppedPrepareImage, FirstImages, Recoverable;
    StoppedPrepareLives();
    StoppedPrepareBackups();
    StoppedPrepareRecords();
    var a, j := StoppedPrepareImage(), Sample(Prepared);
    forall i | 0 <= i < FILE_COUNT
      ensures Known(a, j, i) && Discardable(a, j, i) && !Missing(a, j, i) && IsBefore(a, j, i)
    {
    }
    UnnamedRollbackCanLoseTheJournal(a, j);
  }
}
