/**
 * The snapshot directory. A snapshot is a file whose name starts with
 * `news_data_` and ends with `.csv`; the directory is modelled as the
 * listing the operating system returns, in its order, each entry with its
 * modification time in whole seconds.
 */
module Snapshots {
  import opened Optional

  /** One directory entry: a file name and its modification time in seconds. */
  datatype Entry = Entry(name: string, mtime: int)

  const Prefix: string := "news_data_"
  const Suffix: string := ".csv"

  /** `name.startswith("news_data_") and name.endswith(".csv")` */
  predicate IsSnapshotName(name: string) {
    |Prefix| <= |name| && name[..|Prefix|] == Prefix &&
    |Suffix| <= |name| && name[|name| - |Suffix|..] == Suffix
  }

  /** The file name a fetch writes, given the `%Y%m%d_%H%M%S` stamp of its clock. */
  function SnapshotName(stamp: string): (name: string)
    ensures IsSnapshotName(name)
    ensures |name| == |Prefix| + |stamp| + |Suffix|
  {
    var name := Prefix + stamp + Suffix;
    assert name[..|Prefix|] == Prefix;
    assert name[|name| - |Suffix|..] == Suffix;
    name
  }

  /** The snapshot entries of a listing, in listing order (the list comprehension). */
  function Matching(dir: seq<Entry>): (m: seq<Entry>)
    ensures |m| <= |dir|
    ensures forall e :: e in m <==> e in dir && IsSnapshotName(e.name)
  {
    if dir == [] then []
    else (if IsSnapshotName(dir[0].name) then [dir[0]] else []) + Matching(dir[1..])
  }

  /** The comprehension keeps the listing's order. */
  lemma {:induction false} MatchingAppend(a: seq<Entry>, b: seq<Entry>)
    ensures Matching(a + b) == Matching(a) + Matching(b)
    decreases |a|
  {
    if a == [] {
      assert a + b == b;
    } else {
      assert (a + b)[0] == a[0];
      assert (a + b)[1..] == a[1..] + b;
      MatchingAppend(a[1..], b);
    }
  }

  /**
   * The first entry of `s` whose modification time is maximal: the head of
   * `s` sorted by descending modification time with a stable sort.
   */
  function FirstNewest(s: seq<Entry>): (r: Option<Entry>)
    ensures r.None? <==> s == []
    ensures r.Some? ==> r.value in s
    ensures r.Some? ==> forall e :: e in s ==> e.mtime <= r.value.mtime
    ensures r.Some? ==> exists k :: 0 <= k < |s| && s[k] == r.value &&
                                    forall j :: 0 <= j < k ==> s[j].mtime < r.value.mtime
  {
    if s == [] then None
    else
      var rest := FirstNewest(s[1..]);
      if rest.Some? && s[0].mtime < rest.value.mtime then
        ghost var k :| 0 <= k < |s[1..]| && s[1..][k] == rest.value &&
                       forall j :: 0 <= j < k ==> s[1..][j].mtime < rest.value.mtime;
        assert s[k + 1] == rest.value;
        rest
      else
        Some(s[0])
  }

  /** get_newest_csv_file: the newest snapshot of the listing, or None. */
  function Newest(dir: seq<Entry>): (r: Option<Entry>)
    ensures r.None? <==> forall e :: e in dir ==> !IsSnapshotName(e.name)
    ensures r.Some? ==> r.value in dir && IsSnapshotName(r.value.name)
    ensures r.Some? ==> forall e :: e in dir && IsSnapshotName(e.name) ==> e.mtime <= r.value.mtime
    ensures r.Some? ==> ListedFirstAmongNewest(dir, r.value)
  {
    var m := Matching(dir);
    assert m == [] <==> forall e :: e in dir ==> !IsSnapshotName(e.name) by {
      if m != [] { assert m[0] in m; }
    }
    NewestListedFirst(dir);
    FirstNewest(m)
  }

  /** `e` is listed at some index, and no snapshot listed before it is as new. */
  predicate ListedFirstAmongNewest(dir: seq<Entry>, e: Entry) {
    exists k :: 0 <= k < |dir| && dir[k] == e &&
                forall j :: 0 <= j < k && IsSnapshotName(dir[j].name) ==> dir[j].mtime < e.mtime
  }

  lemma ListedFirstShift(dir: seq<Entry>, e: Entry)
    requires dir != [] && ListedFirstAmongNewest(dir[1..], e)
    requires IsSnapshotName(dir[0].name) ==> dir[0].mtime < e.mtime
    ensures ListedFirstAmongNewest(dir, e)
  {
    var k :| 0 <= k < |dir[1..]| && dir[1..][k] == e &&
             forall j :: 0 <= j < k && IsSnapshotName(dir[1..][j].name) ==> dir[1..][j].mtime < e.mtime;
    forall j | 0 <= j < k + 1 && IsSnapshotName(dir[j].name) ensures dir[j].mtime < e.mtime {
      if j > 0 { assert dir[j] == dir[1..][j - 1]; }
    }
    assert dir[k + 1] == e;
  }

  /**
   * Of the snapshots with the latest modification time, the one chosen is
   * the one listed first: no snapshot listed before it is as new.
   */
  lemma {:induction false} NewestListedFirst(dir: seq<Entry>)
    ensures FirstNewest(Matching(dir)).Some? ==>
              ListedFirstAmongNewest(dir, FirstNewest(Matching(dir)).value)
  {
    if dir != [] {
      var rest := Matching(dir[1..]);
      NewestListedFirst(dir[1..]);
      var r' := FirstNewest(rest);
      if IsSnapshotName(dir[0].name) {
        var m := [dir[0]] + rest;
        assert Matching(dir) == m;
        assert m[1..] == rest;
        if r'.Some? && dir[0].mtime < r'.value.mtime {
          assert FirstNewest(m) == r';
          ListedFirstShift(dir, r'.value);
        } else {
          assert FirstNewest(m) == Some(dir[0]);
          assert dir[0] == dir[0];
        }
      } else {
        assert Matching(dir) == rest;
        if r'.Some? {
          ListedFirstShift(dir, r'.value);
        }
      }
    }
  }

  predicate SortedByMtime(s: seq<Entry>) {
    forall i, j :: 0 <= i < j < |s| ==> s[i].mtime <= s[j].mtime
  }

  /** Inserts `e` before the first element that is not older than it. */
  function Insert(e: Entry, s: seq<Entry>): (r: seq<Entry>)
    ensures |r| == |s| + 1
    ensures forall x :: x in r <==> x == e || x in s
    ensures multiset(r) == multiset(s) + multiset{e}
  {
    if s == [] || e.mtime <= s[0].mtime then [e] + s
    else
      var r := [s[0]] + Insert(e, s[1..]);
      assert s == [s[0]] + s[1..];
      r
  }

  lemma {:induction false} InsertKeepsSorted(e: Entry, s: seq<Entry>)
    requires SortedByMtime(s)
    ensures SortedByMtime(Insert(e, s))
  {
    if s != [] && s[0].mtime < e.mtime {
      InsertKeepsSorted(e, s[1..]);
      var t := Insert(e, s[1..]);
      forall j | 0 <= j < |t| ensures s[0].mtime <= t[j].mtime {
        assert t[j] in t;
      }
    }
  }

  /** The entries of `s` with modification time `t`, in their order in `s`. */
  function OfAge(s: seq<Entry>, t: int): seq<Entry> {
    if s == [] then []
    else (if s[0].mtime == t then [s[0]] else []) + OfAge(s[1..], t)
  }

  lemma {:induction false} InsertOfAge(e: Entry, s: seq<Entry>, t: int)
    ensures OfAge(Insert(e, s), t) == (if e.mtime == t then [e] else []) + OfAge(s, t)
  {
    if s == [] || e.mtime <= s[0].mtime {
      assert Insert(e, s) == [e] + s;
      assert ([e] + s)[1..] == s;
    } else {
      var tail := Insert(e, s[1..]);
      var r := [s[0]] + tail;
      assert Insert(e, s) == r;
      assert r[0] == s[0] && r[1..] == tail;
      InsertOfAge(e, s[1..], t);
      var h := if s[0].mtime == t then [s[0]] else [];
      var he := if e.mtime == t then [e] else [];
      assert OfAge(r, t) == h + OfAge(tail, t);
      assert OfAge(s, t) == h + OfAge(s[1..], t);
      assert h == [] || he == [];
    }
  }

  /**
   * `sorted(files, key=mtime)`: Python's sort is stable, and so is this
   * insertion sort, since an element is inserted before the elements of the
   * same age that followed it (see `SortIsStable`).
   */
  function SortByMtime(s: seq<Entry>): (r: seq<Entry>)
    ensures |r| == |s|
    ensures forall x :: x in r <==> x in s
    ensures multiset(r) == multiset(s)
    ensures SortedByMtime(r)
  {
    if s == [] then []
    else
      assert s == [s[0]] + s[1..];
      InsertKeepsSorted(s[0], SortByMtime(s[1..]));
      Insert(s[0], SortByMtime(s[1..]))
  }

  /** Entries of the same age keep their listing order. */
  lemma {:induction false} SortIsStable(s: seq<Entry>, t: int)
    ensures OfAge(SortByMtime(s), t) == OfAge(s, t)
  {
    if s != [] {
      SortIsStable(s[1..], t);
      InsertOfAge(s[0], SortByMtime(s[1..]), t);
    }
  }
}
