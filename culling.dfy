/**
 * cull_old_csv_files: walks the snapshots from oldest to newest, deleting
 * those older than a day and, while the list it walks is longer than
 * `max_files`, the ones inside the day as well.
 *
 * The walk is Python's list iterator: an index into a list that the loop
 * body shrinks. An expired file is deleted but stays in the list, so it
 * still counts toward the list's length; an excess file is deleted and
 * removed from the list, which moves the next file under the index that
 * has already passed, so that file is never looked at.
 */
module Culling {
  import opened Snapshots

  const MaxAgeSeconds: int := 24 * 60 * 60

  /** `now - mtime > timedelta(hours=24)` */
  predicate IsExpired(e: Entry, now: int) {
    now - e.mtime > MaxAgeSeconds
  }

  predicate HasName(s: seq<Entry>, name: string) {
    exists x :: x in s && x.name == name
  }

  /** `s[k]` is the first entry named `name`, and `r` is `s` without it. */
  predicate RemovedFirstAt(s: seq<Entry>, name: string, k: int, r: seq<Entry>) {
    0 <= k < |s| && s[k].name == name &&
    (forall j :: 0 <= j < k ==> s[j].name != name) &&
    r == s[..k] + s[k + 1..]
  }

  /**
   * `list.remove(name)`: drops the first entry with that name, if any; the
   * entries after it move down one place.
   */
  function RemoveFirst(s: seq<Entry>, name: string): (r: seq<Entry>)
    ensures |r| == if HasName(s, name) then |s| - 1 else |s|
    ensures forall x :: x in r ==> x in s
    ensures !HasName(s, name) ==> r == s
    ensures HasName(s, name) ==> exists k :: RemovedFirstAt(s, name, k, r)
  {
    if s == [] then []
    else if s[0].name == name then
      assert RemovedFirstAt(s, name, 0, s[1..]);
      s[1..]
    else
      var t := s[1..];
      var rt := RemoveFirst(t, name);
      var r := [s[0]] + rt;
      assert s == [s[0]] + t;
      assert HasName(s, name) <==> HasName(t, name);
      if HasName(t, name) then
        ghost var k :| RemovedFirstAt(t, name, k, rt);
        RemovedFirstShift(s, name, k, rt);
        r
      else
        r
  }

  lemma RemovedFirstShift(s: seq<Entry>, name: string, k: int, rt: seq<Entry>)
    requires s != [] && s[0].name != name && RemovedFirstAt(s[1..], name, k, rt)
    ensures RemovedFirstAt(s, name, k + 1, [s[0]] + rt)
  {
    var t := s[1..];
    forall j | 0 <= j < k + 1 ensures s[j].name != name {
      if j > 0 { assert s[j] == t[j - 1]; }
    }
    assert s[..k + 1] == [s[0]] + t[..k];
    assert s[k + 2..] == t[k + 1..];
  }

  /**
   * The deletions the loop makes from the moment its iterator stands at
   * index `i` of the tracked list `files`, in the order it makes them.
   */
  function CullWalk(files: seq<Entry>, i: nat, maxFiles: int, now: int): seq<Entry>
    decreases |files| + 1 - i
  {
    if i >= |files| then []
    else
      var f := files[i];
      if IsExpired(f, now) then [f] + CullWalk(files, i + 1, maxFiles, now)
      else if |files| > maxFiles then
        assert f in files;
        [f] + CullWalk(RemoveFirst(files, f.name), i + 1, maxFiles, now)
      else CullWalk(files, i + 1, maxFiles, now)
  }

  /** Every file the cull deletes, in order, given the listing and the clock. */
  function CullPlan(dir: seq<Entry>, maxFiles: int, now: int): seq<Entry> {
    CullWalk(SortByMtime(Matching(dir)), 0, maxFiles, now)
  }

  /** How many entries of `s` are within the day. */
  function FreshCount(s: seq<Entry>, now: int): nat {
    if s == [] then 0
    else (if IsExpired(s[0], now) then 0 else 1) + FreshCount(s[1..], now)
  }

  /** How far `n` tracked files exceed `maxFiles`. */
  function Excess(n: int, maxFiles: int): nat {
    if n > maxFiles then n - maxFiles else 0
  }

  /** The walk deletes only files it tracks. */
  lemma {:induction false} WalkDeletesTracked(files: seq<Entry>, i: nat, maxFiles: int, now: int)
    ensures forall e :: e in CullWalk(files, i, maxFiles, now) ==> e in files
    decreases |files| + 1 - i
  {
    if i < |files| {
      var f := files[i];
      if IsExpired(f, now) {
        WalkDeletesTracked(files, i + 1, maxFiles, now);
      } else if |files| > maxFiles {
        WalkDeletesTracked(RemoveFirst(files, f.name), i + 1, maxFiles, now);
      } else {
        WalkDeletesTracked(files, i + 1, maxFiles, now);
      }
    }
  }

  /**
   * A file within the day is deleted only while the tracked list is longer
   * than `maxFiles`, and each such deletion shortens it by one: so these
   * deletions never take the tracked list below `maxFiles`.
   */
  lemma {:induction false} WalkFreshBound(files: seq<Entry>, i: nat, maxFiles: int, now: int)
    ensures FreshCount(CullWalk(files, i, maxFiles, now), now) <= Excess(|files|, maxFiles)
    decreases |files| + 1 - i
  {
    if i < |files| {
      var f := files[i];
      if IsExpired(f, now) {
        WalkFreshBound(files, i + 1, maxFiles, now);
      } else if |files| > maxFiles {
        assert f in files;
        WalkFreshBound(RemoveFirst(files, f.name), i + 1, maxFiles, now);
      } else {
        WalkFreshBound(files, i + 1, maxFiles, now);
      }
    }
  }

  /**
   * On a list sorted from oldest to newest, no expired file is skipped: a
   * skip only follows the removal of a file within the day, and every file
   * after that one is at least as new.
   */
  lemma {:induction false} WalkCoversExpired(files: seq<Entry>, i: nat, maxFiles: int, now: int)
    requires SortedByMtime(files)
    ensures forall k :: i <= k < |files| && IsExpired(files[k], now) ==>
                        files[k] in CullWalk(files, i, maxFiles, now)
    decreases |files| + 1 - i
  {
    if i < |files| && IsExpired(files[i], now) {
      WalkCoversExpired(files, i + 1, maxFiles, now);
    }
  }

  /**
   * What the cull promises: it deletes snapshots only, it deletes every
   * expired snapshot, and the files within the day that it deletes are no
   * more than the snapshots in excess of `maxFiles`.
   */
  lemma CullPlanProperties(dir: seq<Entry>, maxFiles: int, now: int)
    ensures forall e :: e in CullPlan(dir, maxFiles, now) ==> e in dir && IsSnapshotName(e.name)
    ensures forall e :: e in dir && IsSnapshotName(e.name) && IsExpired(e, now) ==>
                        e in CullPlan(dir, maxFiles, now)
    ensures FreshCount(CullPlan(dir, maxFiles, now), now) <= Excess(|Matching(dir)|, maxFiles)
  {
    var files := SortByMtime(Matching(dir));
    WalkDeletesTracked(files, 0, maxFiles, now);
    WalkFreshBound(files, 0, maxFiles, now);
    WalkCoversExpired(files, 0, maxFiles, now);
    forall e | e in dir && IsSnapshotName(e.name) && IsExpired(e, now)
      ensures e in CullPlan(dir, maxFiles, now)
    {
      assert e in files;
      var k :| 0 <= k < |files| && files[k] == e;
    }
  }

  /** With nothing expired and no more than `maxFiles` snapshots, nothing is deleted. */
  lemma CullKeepsSmallFreshDirectory(dir: seq<Entry>, maxFiles: int, now: int)
    requires forall e :: e in dir && IsSnapshotName(e.name) ==> !IsExpired(e, now)
    requires |Matching(dir)| <= maxFiles
    ensures CullPlan(dir, maxFiles, now) == []
  {
    CullPlanProperties(dir, maxFiles, now);
  }

  /** cull_old_csv_files, with the deletions it makes as its result. */
  method CullOldSnapshots(dir: seq<Entry>, maxFiles: int, now: int) returns (deleted: seq<Entry>)
    ensures deleted == CullPlan(dir, maxFiles, now)
    ensures forall e :: e in deleted ==> e in dir && IsSnapshotName(e.name)
    ensures forall e :: e in dir && IsSnapshotName(e.name) && IsExpired(e, now) ==> e in deleted
    ensures FreshCount(deleted, now) <= Excess(|Matching(dir)|, maxFiles)
  {
    var csvFiles := SortByMtime(Matching(dir));
    deleted := [];
    var i := 0;
    while i < |csvFiles|
      invariant deleted + CullWalk(csvFiles, i, maxFiles, now) == CullPlan(dir, maxFiles, now)
      decreases |csvFiles| + 1 - i
    {
      ghost var walk := CullWalk(csvFiles, i, maxFiles, now);
      var file := csvFiles[i];
      i := i + 1;
      if IsExpired(file, now) {
        assert walk == [file] + CullWalk(csvFiles, i, maxFiles, now);
        deleted := deleted + [file];
      } else if |csvFiles| > maxFiles {
        assert walk == [file] + CullWalk(RemoveFirst(csvFiles, file.name), i, maxFiles, now);
        deleted := deleted + [file];
        csvFiles := RemoveFirst(csvFiles, file.name);
      }
    }
    CullPlanProperties(dir, maxFiles, now);
  }
}
