/** The SD card as the recovery code sees it: single-file steps that are ordered and
    durable one by one, on a file system whose rename cannot replace a file. */
module CrashDisk {
  import opened Wrappers

  /** What has happened to a session so far.
      - Clean: every legal step took effect.
      - Faulted: some legal step failed without effect, or left a partial write behind.
      - Dead: power was lost. Nothing is written any more, so the image of a session
        that ends Dead is the image found at the next start. */
  datatype Health = Clean | Faulted | Dead

  /** One legal step that turns `before` into `after`: it succeeds, it fails without
      effect, or power is lost on one side of it. */
  ghost predicate Stepped<P(!new), C(!new)>(
    h: Health, before: map<P, C>, h': Health, now: map<P, C>, ok: bool, after: map<P, C>)
  {
    if ok then h != Dead && h' == h && now == after
    else if h' == Dead then now == before || (h != Dead && now == after)
    else h != Dead && h' == Faulted && now == before
  }

  /** As `Stepped`, for writing `c` to `p` when a failure or a power loss may leave one of
      the `partial` contents behind. */
  ghost predicate Wrote<P(!new), C(!new)>(
    h: Health, before: map<P, C>, h': Health, now: map<P, C>, ok: bool, p: P, c: C, partial: seq<C>)
  {
    || Stepped(h, before, h', now, ok, before[p := c])
    || (!ok && h != Dead && h' != Clean && exists k :: 0 <= k < |partial| && now == before[p := partial[k]])
  }

  class Disk<P(==,!new), C(==,!new)> {
    var files: map<P, C>
    var health: Health

    constructor (files: map<P, C>)
      ensures this.files == files && health == Clean
    {
      this.files, health := files, Clean;
    }

    predicate Exists(p: P)
      reads this
    {
      p in files
    }

    /** Chooses the fate of one legal step. */
    method Perform(after: map<P, C>) returns (ok: bool)
      modifies this
      ensures Stepped(old(health), old(files), health, files, ok, after)
    {
      ok := false;
      if health == Dead {
        return;
      }
      if * {
        files, ok := after, true;
      } else if * {
        health := Faulted;
      } else {
        health := Dead;
        if * {
          files := after;
        }
      }
    }

    method Remove(p: P) returns (ok: bool)
      modifies this
      ensures p in old(files) ==> Stepped(old(health), old(files), health, files, ok, old(files) - {p})
      ensures p !in old(files) ==> !ok && files == old(files) && health == old(health)
    {
      ok := false;
      if p in files {
        ok := Perform(files - {p});
      }
    }

    method Rename(from: P, to: P) returns (ok: bool)
      modifies this
      ensures from in old(files) && to !in old(files) ==>
                Stepped(old(health), old(files), health, files, ok, (old(files) - {from})[to := old(files)[from]])
      ensures from !in old(files) || to in old(files) ==> !ok && files == old(files) && health == old(health)
    {
      ok := false;
      if from in files && to !in files {
        ok := Perform((files - {from})[to := files[from]]);
      }
    }

    /** Creates or truncates `p` and writes `c`. A failed or interrupted write may leave
        any of the `partial` contents behind. */
    method Write(p: P, c: C, partial: seq<C>) returns (ok: bool)
      modifies this
      ensures Wrote(old(health), old(files), health, files, ok, p, c, partial)
    {
      var k: int := *;
      if health != Dead && 0 <= k < |partial| {
        files := files[p := partial[k]];
        ok := false;
        if * {
          health := Faulted;
        } else {
          health := Dead;
        }
      } else {
        ok := Perform(files[p := c]);
      }
    }

    /** Reads `p`; a read can fail like any other step, without effect on the image. */
    method Read(p: P) returns (c: Option<C>)
      modifies this
      ensures files == old(files)
      ensures p in files ==> Stepped(old(health), old(files), health, files, c.Some?, old(files))
      ensures p !in files ==> c.None? && health == old(health)
      ensures c.Some? ==> p in files && c.value == files[p]
    {
      c := None;
      if p in files {
        var ok := Perform(files);
        if ok {
          c := Some(files[p]);
        }
      }
    }

    /** Asks the device to flush; it has no effect on the image. */
    method Commit() returns (ok: bool)
      modifies this
      ensures files == old(files)
      ensures Stepped(old(health), old(files), health, files, ok, old(files))
    {
      ok := Perform(files);
    }
  }
}
