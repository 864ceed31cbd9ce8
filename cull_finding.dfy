/**
 * What cull_old_csv_files does not do: leave at most `max_files` snapshots.
 * Two inputs show it, and `IntendedCull` is the rotation the code was
 * evidently written for: delete every expired snapshot, then the oldest
 * snapshots within the day until at most `max_files` remain.
 */
module CullFinding {
  import opened Snapshots
  import opened Culling

  /** The entries of `s` that are not in `deleted`, in order. */
  function Without(s: seq<Entry>, deleted: seq<Entry>): (r: seq<Entry>)
    ensures forall e :: e in r <==> e in s && e !in deleted
  {
    if s == [] then []
    else (if s[0] in deleted then [] else [s[0]]) + Without(s[1..], deleted)
  }

  /** The snapshots still on disk once `deleted` are gone, in listing order. */
  function Surviving(dir: seq<Entry>, deleted: seq<Entry>): seq<Entry> {
    Without(Matching(dir), deleted)
  }

  /**
   * Four fresh snapshots, `max_files` 1: the first removal makes the loop
   * skip the second file and the second removal ends the loop, so two
   * snapshots survive.
   */
  lemma CullLeavesExcess()
    ensures var a, b, c, d := Entry("news_data_1.csv", 100), Entry("news_data_2.csv", 200),
                              Entry("news_data_3.csv", 300), Entry("news_data_4.csv", 400);
            CullPlan([a, b, c, d], 1, 1000) == [a, c] &&
            Surviving([a, b, c, d], [a, c]) == [b, d]
  {
    var a, b, c, d := Entry("news_data_1.csv", 100), Entry("news_data_2.csv", 200),
                      Entry("news_data_3.csv", 300), Entry("news_data_4.csv", 400);
    ExcessListing();
    WalkLeavesExcess();
    SurvivorsOfExcess();
  }

  lemma WalkLeavesExcess()
    ensures var a, b, c, d := Entry("news_data_1.csv", 100), Entry("news_data_2.csv", 200),
                              Entry("news_data_3.csv", 300), Entry("news_data_4.csv", 400);
            CullWalk([a, b, c, d], 0, 1, 1000) == [a, c]
  {
    var a, b, c, d := Entry("news_data_1.csv", 100), Entry("news_data_2.csv", 200),
                      Entry("news_data_3.csv", 300), Entry("news_data_4.csv", 400);
    RemovalsOfExcess();
    assert CullWalk([b, d], 2, 1, 1000) == [];
    assert CullWalk([b, c, d], 1, 1, 1000) == [c];
  }

  /** The two removals of the first example's walk. */
  lemma RemovalsOfExcess()
    ensures var a, b, c, d := Entry("news_data_1.csv", 100), Entry("news_data_2.csv", 200),
                              Entry("news_data_3.csv", 300), Entry("news_data_4.csv", 400);
            RemoveFirst([a, b, c, d], a.name) == [b, c, d] &&
            RemoveFirst([b, c, d], c.name) == [b, d]
  {
    var a, b, c, d := Entry("news_data_1.csv", 100), Entry("news_data_2.csv", 200),
                      Entry("news_data_3.csv", 300), Entry("news_data_4.csv", 400);
    assert b.name != c.name by { assert b.name[10] != c.name[10]; }
    assert RemoveFirst([c, d], c.name) == [d];
    assert RemoveFirst([b, c, d], c.name) == [b] + RemoveFirst([c, d], c.name);
  }

  lemma SurvivorsOfExcess()
    ensures var a, b, c, d := Entry("news_data_1.csv", 100), Entry("news_data_2.csv", 200),
                              Entry("news_data_3.csv", 300), Entry("news_data_4.csv", 400);
            Surviving([a, b, c, d], [a, c]) == [b, d]
  {
    var a, b, c, d := Entry("news_data_1.csv", 100), Entry("news_data_2.csv", 200),
                      Entry("news_data_3.csv", 300), Entry("news_data_4.csv", 400);
    ExcessListing();
    WithoutExcess();
  }

  lemma WithoutExcess()
    ensures var a, b, c, d := Entry("news_data_1.csv", 100), Entry("news_data_2.csv", 200),
                              Entry("news_data_3.csv", 300), Entry("news_data_4.csv", 400);
            Without([a, b, c, d], [a, c]) == [b, d]
  {
    var a, b, c, d := Entry("news_data_1.csv", 100), Entry("news_data_2.csv", 200),
                      Entry("news_data_3.csv", 300), Entry("news_data_4.csv", 400);
    assert a != b && a != d && c != b && c != d;
    assert Without([d], [a, c]) == [d];
    assert Without([c, d], [a, c]) == [d];
    assert Without([b, c, d], [a, c]) == [b, d];
  }

  /**
   * One expired and two fresh snapshots, `max_files` 2: the expired file
   * stays in the tracked list, so the list still looks one too long and a
   * fresh snapshot is deleted as well, leaving one where two were allowed.
   */
  lemma CullOverDeletes()
    ensures var a, b, c := Entry("news_data_1.csv", 0), Entry("news_data_2.csv", 200000),
                           Entry("news_data_3.csv", 200001);
            CullPlan([a, b, c], 2, 200002) == [a, b] &&
            Surviving([a, b, c], [a, b]) == [c]
  {
    var a, b, c := Entry("news_data_1.csv", 0), Entry("news_data_2.csv", 200000),
                   Entry("news_data_3.csv", 200001);
    OverDeletionListing();
    WalkOverDeletes();
    SurvivorsOfOverDeletion();
  }

  lemma SurvivorsOfOverDeletion()
    ensures var a, b, c := Entry("news_data_1.csv", 0), Entry("news_data_2.csv", 200000),
                           Entry("news_data_3.csv", 200001);
            Surviving([a, b, c], [a, b]) == [c]
  {
    var a, b, c := Entry("news_data_1.csv", 0), Entry("news_data_2.csv", 200000),
                   Entry("news_data_3.csv", 200001);
    OverDeletionListing();
    WithoutOverDeletion();
  }

  lemma WithoutOverDeletion()
    ensures var a, b, c := Entry("news_data_1.csv", 0), Entry("news_data_2.csv", 200000),
                           Entry("news_data_3.csv", 200001);
            Without([a, b, c], [a, b]) == [c]
  {
    var a, b, c := Entry("news_data_1.csv", 0), Entry("news_data_2.csv", 200000),
                   Entry("news_data_3.csv", 200001);
    assert a != c && b != c;
    assert Without([c], [a, b]) == [c];
    assert Without([b, c], [a, b]) == [c];
  }

  lemma WalkOverDeletes()
    ensures var a, b, c := Entry("news_data_1.csv", 0), Entry("news_data_2.csv", 200000),
                           Entry("news_data_3.csv", 200001);
            CullWalk([a, b, c], 0, 2, 200002) == [a, b]
  {
    var a, b, c := Entry("news_data_1.csv", 0), Entry("news_data_2.csv", 200000),
                   Entry("news_data_3.csv", 200001);
    RemovalOfOverDeletion();
    assert CullWalk([a, c], 2, 2, 200002) == [];
    assert CullWalk([a, b, c], 1, 2, 200002) == [b];
  }

  /** The one removal of the second example's walk. */
  lemma RemovalOfOverDeletion()
    ensures var a, b, c := Entry("news_data_1.csv", 0), Entry("news_data_2.csv", 200000),
                           Entry("news_data_3.csv", 200001);
            RemoveFirst([a, b, c], b.name) == [a, c]
  {
    var a, b, c := Entry("news_data_1.csv", 0), Entry("news_data_2.csv", 200000),
                   Entry("news_data_3.csv", 200001);
    assert a.name != b.name by { assert a.name[10] != b.name[10]; }
    assert RemoveFirst([b, c], b.name) == [c];
    assert RemoveFirst([a, b, c], b.name) == [a] + RemoveFirst([b, c], b.name);
  }

  /** The listing of the first example: all snapshots, already in age order. */
  lemma ExcessListing()
    ensures var a, b, c, d := Entry("news_data_1.csv", 100), Entry("news_data_2.csv", 200),
                              Entry("news_data_3.csv", 300), Entry("news_data_4.csv", 400);
            Matching([a, b, c, d]) == [a, b, c, d] &&
            SortByMtime([a, b, c, d]) == [a, b, c, d]
  {
    var a, b, c, d := Entry("news_data_1.csv", 100), Entry("news_data_2.csv", 200),
                      Entry("news_data_3.csv", 300), Entry("news_data_4.csv", 400);
    ExcessMatching();
    SortedIsFixed([a, b, c, d]);
  }

  lemma ExcessMatching()
    ensures var a, b, c, d := Entry("news_data_1.csv", 100), Entry("news_data_2.csv", 200),
                              Entry("news_data_3.csv", 300), Entry("news_data_4.csv", 400);
            Matching([a, b, c, d]) == [a, b, c, d]
  {
    var a, b, c, d := Entry("news_data_1.csv", 100), Entry("news_data_2.csv", 200),
                      Entry("news_data_3.csv", 300), Entry("news_data_4.csv", 400);
    AllSnapshots([a, b, c, d]);
  }

  /** The listing of the second example: all snapshots, already in age order. */
  lemma OverDeletionListing()
    ensures var a, b, c := Entry("news_data_1.csv", 0), Entry("news_data_2.csv", 200000),
                           Entry("news_data_3.csv", 200001);
            Matching([a, b, c]) == [a, b, c] && SortByMtime([a, b, c]) == [a, b, c]
  {
    var a, b, c := Entry("news_data_1.csv", 0), Entry("news_data_2.csv", 200000),
                   Entry("news_data_3.csv", 200001);
    AllSnapshots([a, b, c]);
    SortedIsFixed([a, b, c]);
  }

  /** A listing of snapshot names is its own list of matches. */
  lemma {:induction false} AllSnapshots(dir: seq<Entry>)
    requires forall e :: e in dir ==> |e.name| == 15 && e.name[..10] == "news_data_" && e.name[11..] == ".csv"
    ensures Matching(dir) == dir
  {
    if dir != [] {
      assert IsSnapshotName(dir[0].name);
      AllSnapshots(dir[1..]);
    }
  }

  /** A listing already sorted from oldest to newest is left as it is. */
  lemma {:induction false} SortedIsFixed(s: seq<Entry>)
    requires SortedByMtime(s)
    ensures SortByMtime(s) == s
  {
    if s != [] {
      SortedIsFixed(s[1..]);
    }
  }

  /** The expired entries of `s`, in order. */
  function ExpiredOf(s: seq<Entry>, now: int): (r: seq<Entry>)
    ensures forall e :: e in r <==> e in s && IsExpired(e, now)
  {
    if s == [] then []
    else (if IsExpired(s[0], now) then [s[0]] else []) + ExpiredOf(s[1..], now)
  }

  /** The entries of `s` within the day, in order. */
  function FreshOf(s: seq<Entry>, now: int): (r: seq<Entry>)
    ensures forall e :: e in r <==> e in s && !IsExpired(e, now)
    ensures |r| == FreshCount(s, now)
  {
    if s == [] then []
    else (if IsExpired(s[0], now) then [] else [s[0]]) + FreshOf(s[1..], now)
  }

  lemma {:induction false} SplitByAge(s: seq<Entry>, now: int)
    ensures multiset(ExpiredOf(s, now)) + multiset(FreshOf(s, now)) == multiset(s)
  {
    if s != [] {
      SplitByAge(s[1..], now);
      assert s == [s[0]] + s[1..];
    }
  }

  lemma {:induction false} FreshOfKeepsSorted(s: seq<Entry>, now: int)
    requires SortedByMtime(s)
    ensures SortedByMtime(FreshOf(s, now))
  {
    if s != [] {
      FreshOfKeepsSorted(s[1..], now);
      var t := FreshOf(s[1..], now);
      forall j | 0 <= j < |t| ensures s[0].mtime <= t[j].mtime {
        assert t[j] in t;
      }
    }
  }

  lemma {:induction false} FreshCountInsert(e: Entry, s: seq<Entry>, now: int)
    ensures FreshCount(Insert(e, s), now) == FreshCount(s, now) + (if IsExpired(e, now) then 0 else 1)
  {
    if s != [] && s[0].mtime < e.mtime {
      FreshCountInsert(e, s[1..], now);
    }
  }

  /** Sorting does not change how many snapshots are within the day. */
  lemma {:induction false} FreshCountSorted(s: seq<Entry>, now: int)
    ensures FreshCount(SortByMtime(s), now) == FreshCount(s, now)
  {
    if s != [] {
      FreshCountSorted(s[1..], now);
      FreshCountInsert(s[0], SortByMtime(s[1..]), now);
    }
  }

  /** The snapshots the corrected cull deletes and the ones it keeps. */
  datatype CullSplit = CullSplit(deleted: seq<Entry>, kept: seq<Entry>)

  /**
   * The corrected cull: every expired snapshot goes, then the oldest of the
   * rest until at most `maxFiles` remain; what is kept is exactly the
   * `maxFiles` newest snapshots within the day, or all of them if fewer.
   */
  function IntendedCull(dir: seq<Entry>, maxFiles: int, now: int): (r: CullSplit)
    ensures multiset(r.deleted) + multiset(r.kept) == multiset(Matching(dir))
    ensures forall e :: e in dir && IsSnapshotName(e.name) && IsExpired(e, now) ==> e in r.deleted
    ensures forall e :: e in r.kept ==> !IsExpired(e, now)
    ensures |r.kept| == Min(FreshCount(Matching(dir), now), if maxFiles < 0 then 0 else maxFiles)
    ensures forall d, k :: d in r.deleted && k in r.kept ==> d.mtime <= k.mtime
  {
    var files := SortByMtime(Matching(dir));
    var keep := if maxFiles < 0 then 0 else maxFiles;
    var recent := FreshOf(files, now);
    var cut := Excess(|recent|, keep);
    SplitOldestFirst(files, now, keep);
    FreshCountSorted(Matching(dir), now);
    CullSplit(ExpiredOf(files, now) + recent[..cut], recent[cut..])
  }

  /** Splitting a sorted list: expired and oldest recent files on one side, the newest `keep` on the other. */
  lemma SplitOldestFirst(files: seq<Entry>, now: int, keep: nat)
    requires SortedByMtime(files)
    ensures var recent := FreshOf(files, now);
            var cut := Excess(|recent|, keep);
            && multiset(ExpiredOf(files, now) + recent[..cut]) + multiset(recent[cut..]) == multiset(files)
            && (forall e :: e in recent[cut..] ==> !IsExpired(e, now))
            && |recent[cut..]| == Min(|recent|, keep)
            && (forall d, k :: d in ExpiredOf(files, now) + recent[..cut] && k in recent[cut..] ==> d.mtime <= k.mtime)
  {
    var recent := FreshOf(files, now);
    var cut := Excess(|recent|, keep);
    assert recent == recent[..cut] + recent[cut..];
    SplitByAge(files, now);
    assert multiset(ExpiredOf(files, now) + recent[..cut]) + multiset(recent[cut..]) == multiset(files);
    FreshOfKeepsSorted(files, now);
    OlderBeforeCut(recent, cut);
    forall d, k | d in ExpiredOf(files, now) && k in recent[cut..]
      ensures d.mtime <= k.mtime
    {
      assert k in recent;
    }
  }

  lemma OlderBeforeCut(s: seq<Entry>, cut: nat)
    requires SortedByMtime(s) && cut <= |s|
    ensures forall d, k :: d in s[..cut] && k in s[cut..] ==> d.mtime <= k.mtime
  {
    forall d, k | d in s[..cut] && k in s[cut..] ensures d.mtime <= k.mtime {
      var i :| 0 <= i < cut && s[i] == d;
      var j :| cut <= j < |s| && s[j] == k;
    }
  }

  function Min(a: int, b: int): int {
    if a < b then a else b
  }
}
