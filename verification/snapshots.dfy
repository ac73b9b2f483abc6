/** The yearly snapshot store (`saveSnapshot`'s list update) and the history
    series the trend view draws (`snapData`). */
module Snapshots {
  import opened JsNumber
  import opened Filtering
  import opened ZakatEngine

  /** A saved year: the figures as they were when the year was saved. */
  datatype Snapshot = Snapshot(year: int, totalAssets: real, totalLiabilities: real, netWorth: real, totalZakat: real)

  /** The year the history view labels the live figures with. */
  const LiveYear: int := 2026

  /** The snapshot `saveSnapshot` builds for `year` from the current figures. */
  function SnapshotOf(year: int, f: Figures): (s: Snapshot)
    ensures s.year == year && s.totalAssets == f.totalAssets && s.totalLiabilities == f.totalLiabilities
    ensures s.netWorth == f.netWorth && s.totalZakat == f.totalZakat
  {
    Snapshot(year, f.totalAssets, f.totalLiabilities, f.netWorth, f.totalZakat)
  }

  /** `findIndex`: the first position holding `year`, or -1. */
  function FindYear(snaps: seq<Snapshot>, year: int): (r: int)
    ensures -1 <= r < |snaps|
    ensures r >= 0 ==> snaps[r].year == year && forall j :: 0 <= j < r ==> snaps[j].year != year
    ensures r == -1 <==> forall j :: 0 <= j < |snaps| ==> snaps[j].year != year
  {
    if snaps == [] then -1
    else if snaps[0].year == year then 0
    else
      var r := FindYear(snaps[1..], year);
      if r == -1 then -1 else r + 1
  }

  /** Ascending by year. */
  predicate SortedByYear(s: seq<Snapshot>) {
    forall i, j :: 0 <= i < j < |s| ==> s[i].year <= s[j].year
  }

  /** At most one snapshot per year. */
  predicate UniqueYears(s: seq<Snapshot>) {
    forall i, j :: 0 <= i < j < |s| ==> s[i].year != s[j].year
  }

  /** Puts `x` into a list sorted by year, after every entry of the same or an
      earlier year, so that entries of equal year keep their order. */
  function InsertByYear(s: seq<Snapshot>, x: Snapshot): (r: seq<Snapshot>)
    ensures |r| == |s| + 1
    ensures multiset(r) == multiset(s) + multiset{x}
  {
    if s == [] then [x]
    else if x.year < s[0].year then [x] + s
    else
      assert s == [s[0]] + s[1..];
      [s[0]] + InsertByYear(s[1..], x)
  }

  /** `sort((a, b) => a.year - b.year)`: a stable sort by year (insertion sort). */
  function SortByYear(s: seq<Snapshot>): (r: seq<Snapshot>)
    ensures |r| == |s|
    ensures multiset(r) == multiset(s)
  {
    if s == [] then []
    else
      assert s == s[..|s| - 1] + [s[|s| - 1]];
      InsertByYear(SortByYear(s[..|s| - 1]), s[|s| - 1])
  }

  lemma {:induction false} InsertKeepsSorted(s: seq<Snapshot>, x: Snapshot)
    requires SortedByYear(s)
    ensures SortedByYear(InsertByYear(s, x))
  {
    if s != [] && x.year >= s[0].year {
      InsertKeepsSorted(s[1..], x);
      var t := InsertByYear(s[1..], x);
      forall k | 0 <= k < |t| ensures s[0].year <= t[k].year {
        assert t[k] in multiset(t);
        assert t[k] in multiset(s[1..]) + multiset{x};
        if t[k] != x {
          assert t[k] in s[1..];
        }
      }
    }
  }

  /** The sort yields a list sorted by year, holding the same snapshots. */
  lemma {:induction false} SortIsSorted(s: seq<Snapshot>)
    ensures SortedByYear(SortByYear(s))
  {
    if s != [] {
      SortIsSorted(s[..|s| - 1]);
      InsertKeepsSorted(SortByYear(s[..|s| - 1]), s[|s| - 1]);
    }
  }

  /** Inserting an entry of at least every year present appends it. */
  lemma {:induction false} InsertLatest(s: seq<Snapshot>, x: Snapshot)
    requires forall k :: 0 <= k < |s| ==> s[k].year <= x.year
    ensures InsertByYear(s, x) == s + [x]
  {
    if s != [] {
      InsertLatest(s[1..], x);
      assert s == [s[0]] + s[1..];
    }
  }

  /** A list already sorted by year is left as it is. */
  lemma {:induction false} SortOfSorted(s: seq<Snapshot>)
    requires SortedByYear(s)
    ensures SortByYear(s) == s
  {
    if s != [] {
      var init := s[..|s| - 1];
      SortOfSorted(init);
      InsertLatest(init, s[|s| - 1]);
      assert init + [s[|s| - 1]] == s;
    }
  }

  /** The test "belongs to year `y`". */
  function InYear(y: int): Snapshot -> bool {
    (x: Snapshot) => x.year == y
  }

  /** Inserting into a sorted list puts `x` after every entry of its own year:
      the entries of any one year are those of `s`, then `x` if it is of that year. */
  lemma {:induction false} InsertKeepsYearOrder(s: seq<Snapshot>, x: Snapshot, y: int)
    requires SortedByYear(s)
    ensures Filter(InsertByYear(s, x), InYear(y)) == Filter(s, InYear(y)) + (if x.year == y then [x] else [])
  {
    if s == [] {
    } else if x.year < s[0].year {
      assert ([x] + s)[1..] == s;
      if x.year == y {
        FilterKeepsNone(s, InYear(y));
      }
    } else {
      InsertKeepsYearOrder(s[1..], x, y);
      assert ([s[0]] + InsertByYear(s[1..], x))[1..] == InsertByYear(s[1..], x);
    }
  }

  /** One step of the sort: the last entry is inserted into the sorted rest. */
  lemma SortStep(s: seq<Snapshot>)
    requires s != []
    ensures s == s[..|s| - 1] + [s[|s| - 1]]
    ensures SortByYear(s) == InsertByYear(SortByYear(s[..|s| - 1]), s[|s| - 1])
  {
  }

  /** The sort is stable: the entries of any one year keep their relative order. */
  lemma {:induction false} SortKeepsYearOrder(s: seq<Snapshot>, y: int)
    ensures Filter(SortByYear(s), InYear(y)) == Filter(s, InYear(y))
  {
    if s != [] {
      var init, last := s[..|s| - 1], s[|s| - 1];
      SortStep(s);
      SortKeepsYearOrder(init, y);
      SortIsSorted(init);
      InsertKeepsYearOrder(SortByYear(init), last, y);
      FilterAppend(init, [last], InYear(y));
      FilterSingle(last, InYear(y));
    }
  }

  /** With no repeated year, no snapshot occurs twice. */
  lemma {:induction false} UniqueYearsNoRepeats(s: seq<Snapshot>, x: Snapshot)
    requires UniqueYears(s)
    ensures multiset(s)[x] <= 1
  {
    if s != [] {
      var init := s[..|s| - 1];
      assert s == init + [s[|s| - 1]];
      UniqueYearsNoRepeats(init, x);
    }
  }

  lemma RepeatCounted(s: seq<Snapshot>, i: nat, j: nat)
    requires i < j < |s| && s[i] == s[j]
    ensures multiset(s)[s[i]] >= 2
  {
    assert s == s[..j] + [s[j]] + s[j + 1..];
    assert s[..j][i] == s[i];
    assert s[i] in multiset(s[..j]);
  }

  /** Rearranging a list keeps its years distinct. */
  lemma PermutationKeepsUniqueYears(a: seq<Snapshot>, b: seq<Snapshot>)
    requires multiset(a) == multiset(b) && UniqueYears(a)
    ensures UniqueYears(b)
  {
    forall i, j | 0 <= i < j < |b| ensures b[i].year != b[j].year {
      if b[i] == b[j] {
        RepeatCounted(b, i, j);
        UniqueYearsNoRepeats(a, b[i]);
      } else {
        assert b[i] in multiset(a) && b[j] in multiset(a);
      }
    }
  }

  /** The list update of `saveSnapshot`: the snapshot of an already saved year
      replaces that entry where it stands; a new year is appended and the
      list re-sorted by year. */
  function Upsert(prev: seq<Snapshot>, snap: Snapshot): (r: seq<Snapshot>)
    ensures FindYear(prev, snap.year) >= 0 ==> r == prev[FindYear(prev, snap.year) := snap]
    ensures FindYear(prev, snap.year) < 0 ==> r == SortByYear(prev + [snap])
  {
    var idx := FindYear(prev, snap.year);
    if idx >= 0 then prev[idx := snap] else SortByYear(prev + [snap])
  }

  /** Saving a year already present replaces its entry in place: same length,
      the new snapshot at that position, every other entry untouched. */
  lemma UpsertExistingYear(prev: seq<Snapshot>, snap: Snapshot, idx: nat)
    requires idx < |prev| && prev[idx].year == snap.year
    requires UniqueYears(prev)
    ensures var r := Upsert(prev, snap);
      |r| == |prev| && r[idx] == snap && forall k :: 0 <= k < |prev| && k != idx ==> r[k] == prev[k]
  {
    var f := FindYear(prev, snap.year);
    assert f >= 0;
  }

  /** Saving a new year adds exactly that snapshot and leaves the list sorted by year. */
  lemma UpsertNewYear(prev: seq<Snapshot>, snap: Snapshot)
    requires forall k :: 0 <= k < |prev| ==> prev[k].year != snap.year
    ensures var r := Upsert(prev, snap);
      && |r| == |prev| + 1
      && multiset(r) == multiset(prev) + multiset{snap}
      && SortedByYear(r)
  {
    SortIsSorted(prev + [snap]);
  }

  /** When the list is sorted and the year is later than every saved one, the
      snapshot simply goes at the end. */
  lemma UpsertLatestYear(prev: seq<Snapshot>, snap: Snapshot)
    requires SortedByYear(prev)
    requires forall k :: 0 <= k < |prev| ==> prev[k].year < snap.year
    ensures Upsert(prev, snap) == prev + [snap]
  {
    assert SortedByYear(prev + [snap]);
    SortOfSorted(prev + [snap]);
  }

  /** Saving never creates a second snapshot for a year, and never breaks the order by year. */
  lemma UpsertKeepsInvariant(prev: seq<Snapshot>, snap: Snapshot)
    requires UniqueYears(prev)
    ensures UniqueYears(Upsert(prev, snap))
    ensures SortedByYear(prev) ==> SortedByYear(Upsert(prev, snap))
  {
    var idx := FindYear(prev, snap.year);
    if idx < 0 {
      var all := prev + [snap];
      assert UniqueYears(all) by {
        forall i, j | 0 <= i < j < |all| ensures all[i].year != all[j].year {
          if j == |prev| {
            assert all[i] == prev[i];
          } else {
            assert all[i] == prev[i] && all[j] == prev[j];
          }
        }
      }
      PermutationKeepsUniqueYears(all, Upsert(prev, snap));
      SortIsSorted(all);
    } else {
      var r := Upsert(prev, snap);
      assert forall k :: 0 <= k < |r| ==> r[k].year == prev[k].year;
    }
  }

  /** One step of the insertion, past the first entry of the list. */
  lemma InsertPast(s: seq<Snapshot>, x: Snapshot)
    requires s != [] && x.year >= s[0].year
    ensures InsertByYear(s, x) == [s[0]] + InsertByYear(s[1..], x)
  {
  }

  /** Putting the same head in front of two lists that differ at one place
      moves that place one step on. */
  lemma PrependKeepsPlace<T>(h: T, t: seq<T>, ta: seq<T>, tb: seq<T>, q: nat, a: T, b: T)
    requires q <= |t| && q < |ta| && ta[q] == a && ta[..q] == t[..q] && tb == ta[q := b]
    ensures ([h] + ta)[q + 1] == a
    ensures ([h] + ta)[..q + 1] == ([h] + t)[..q + 1]
    ensures [h] + tb == ([h] + ta)[q + 1 := b]
  {
    assert ([h] + ta)[..q + 1] == [h] + ta[..q];
    assert ([h] + t)[..q + 1] == [h] + t[..q];
  }

  /** The inductive step of `InsertSamePlace`. */
  lemma SamePlaceStep(s: seq<Snapshot>, a: Snapshot, b: Snapshot, q: nat)
    requires s != [] && a.year == b.year && a.year >= s[0].year
    requires q <= |s| - 1 && InsertByYear(s[1..], a)[q] == a
    requires InsertByYear(s[1..], a)[..q] == s[1..][..q]
    requires InsertByYear(s[1..], b) == InsertByYear(s[1..], a)[q := b]
    ensures InsertByYear(s, a)[q + 1] == a
    ensures InsertByYear(s, a)[..q + 1] == s[..q + 1]
    ensures InsertByYear(s, b) == InsertByYear(s, a)[q + 1 := b]
  {
    InsertPast(s, a);
    InsertPast(s, b);
    PrependKeepsPlace(s[0], s[1..], InsertByYear(s[1..], a), InsertByYear(s[1..], b), q, a, b);
    assert [s[0]] + s[1..] == s;
  }

  /** Two entries of the same year go to the same place of a list: the
      insertions differ only at that position, and before it lies `s` as it was. */
  lemma {:induction false} InsertSamePlace(s: seq<Snapshot>, a: Snapshot, b: Snapshot) returns (p: nat)
    requires a.year == b.year
    ensures p <= |s| && InsertByYear(s, a)[p] == a
    ensures InsertByYear(s, a)[..p] == s[..p]
    ensures InsertByYear(s, b) == InsertByYear(s, a)[p := b]
  {
    if s == [] {
      p := 0;
    } else if a.year < s[0].year {
      p := 0;
      assert ([a] + s)[0 := b] == [b] + s;
    } else {
      var q := InsertSamePlace(s[1..], a, b);
      p := q + 1;
      SamePlaceStep(s, a, b, q);
    }
  }

  /** A save of a year already stored, followed by another save of it. */
  lemma LaterSaveWinsStored(prev: seq<Snapshot>, r1: Snapshot, r2: Snapshot)
    requires r1.year == r2.year && FindYear(prev, r1.year) >= 0
    ensures Upsert(Upsert(prev, r1), r2) == Upsert(prev, r2)
  {
    var i := FindYear(prev, r1.year);
    var once := prev[i := r1];
    assert forall k :: 0 <= k < |once| ==> once[k].year == prev[k].year;
    assert FindYear(once, r1.year) == i;
  }

  /** Appending and sorting inserts the new entry into the sorted list. */
  lemma SortAppended(prev: seq<Snapshot>, x: Snapshot)
    ensures SortByYear(prev + [x]) == InsertByYear(SortByYear(prev), x)
  {
    SortStep(prev + [x]);
    assert (prev + [x])[..|prev|] == prev;
  }

  /** A year absent from a list is absent from its sorted copy. */
  lemma SortKeepsYearAbsent(prev: seq<Snapshot>, y: int)
    requires FindYear(prev, y) < 0
    ensures forall k :: 0 <= k < |SortByYear(prev)| ==> SortByYear(prev)[k].year != y
  {
    var t := SortByYear(prev);
    forall k | 0 <= k < |t| ensures t[k].year != y {
      assert t[k] in multiset(prev);
    }
  }

  /** The first entry of year `y` follows a prefix of a list without that year. */
  lemma FindAfterPrefix(once: seq<Snapshot>, t: seq<Snapshot>, p: nat, y: int)
    requires p <= |t| && p < |once| && once[p].year == y && once[..p] == t[..p]
    requires forall k :: 0 <= k < |t| ==> t[k].year != y
    ensures FindYear(once, y) == p
  {
    forall k | 0 <= k < p ensures once[k].year != y {
      assert once[k] == once[..p][k];
    }
  }

  /** A save of a new year, followed by another save of it. */
  lemma LaterSaveWinsNew(prev: seq<Snapshot>, r1: Snapshot, r2: Snapshot)
    requires r1.year == r2.year && FindYear(prev, r1.year) < 0
    ensures Upsert(Upsert(prev, r1), r2) == Upsert(prev, r2)
  {
    SortAppended(prev, r1);
    SortAppended(prev, r2);
    var t := SortByYear(prev);
    var p := InsertSamePlace(t, r1, r2);
    SortKeepsYearAbsent(prev, r1.year);
    FindAfterPrefix(InsertByYear(t, r1), t, p, r1.year);
  }

  /** Of two saves of the same year, on any list, the later one wins: the
      list is what saving only the later snapshot would give. */
  lemma LaterSaveWins(prev: seq<Snapshot>, r1: Snapshot, r2: Snapshot)
    requires r1.year == r2.year
    ensures Upsert(Upsert(prev, r1), r2) == Upsert(prev, r2)
  {
    if FindYear(prev, r1.year) >= 0 {
      LaterSaveWinsStored(prev, r1, r2);
    } else {
      LaterSaveWinsNew(prev, r1, r2);
    }
  }

  /** Saving never breaks the order by year, whether or not years repeat. */
  lemma UpsertKeepsSorted(prev: seq<Snapshot>, snap: Snapshot)
    requires SortedByYear(prev)
    ensures SortedByYear(Upsert(prev, snap))
  {
    var idx := FindYear(prev, snap.year);
    if idx < 0 {
      SortIsSorted(prev + [snap]);
    } else {
      var r := Upsert(prev, snap);
      assert forall k :: 0 <= k < |r| ==> r[k].year == prev[k].year;
    }
  }

  /** The two invariants of the stored list, each kept whenever it holds before a save. */
  lemma UpsertKeepsOrder(prev: seq<Snapshot>, snap: Snapshot)
    ensures UniqueYears(prev) ==> UniqueYears(Upsert(prev, snap))
    ensures SortedByYear(prev) ==> SortedByYear(Upsert(prev, snap))
  {
    if UniqueYears(prev) {
      UpsertKeepsInvariant(prev, snap);
    }
    if SortedByYear(prev) {
      UpsertKeepsSorted(prev, snap);
    }
  }

  /** Saving the same year twice keeps one entry, the second. */
  lemma SaveSameYearTwice(r1: Snapshot, r2: Snapshot)
    requires r1.year == 2027 && r2.year == 2027
    ensures Upsert(Upsert([], r1), r2) == [r2]
  {
    assert Upsert([], r1) == [r1] by {
      assert [] + [r1] == [r1];
      assert SortByYear([r1]) == InsertByYear(SortByYear([]), r1);
    }
    assert FindYear([r1], 2027) == 0;
  }

  /** A point of the history series; the live point has no liabilities figure. */
  datatype Point = Point(year: int, totalAssets: real, totalLiabilities: Option<real>, netWorth: real, totalZakat: real)

  function StoredPoint(s: Snapshot): Point {
    Point(s.year, s.totalAssets, Some(s.totalLiabilities), s.netWorth, s.totalZakat)
  }

  function StoredPoints(ss: seq<Snapshot>): (ps: seq<Point>)
    ensures |ps| == |ss| && forall i :: 0 <= i < |ss| ==> ps[i] == StoredPoint(ss[i])
  {
    seq(|ss|, i requires 0 <= i < |ss| => StoredPoint(ss[i]))
  }

  predicate NotLiveYear(s: Snapshot) {
    s.year != LiveYear
  }

  /** `snapData`: the live figures, labelled 2026, followed by the stored
      snapshots of every other year in their stored order. */
  function HistorySeries(snaps: seq<Snapshot>, live: Figures): (r: seq<Point>)
    ensures r != [] && r[0] == Point(LiveYear, live.totalAssets, None, live.netWorth, live.totalZakat)
    ensures r[1..] == StoredPoints(Filter(snaps, NotLiveYear))
  {
    [Point(LiveYear, live.totalAssets, None, live.netWorth, live.totalZakat)] + StoredPoints(Filter(snaps, NotLiveYear))
  }

  /** The live point comes first; every stored snapshot not of 2026 follows
      and none of 2026 does; the stored ones keep their relative order. */
  lemma HistorySeriesContents(snaps: seq<Snapshot>, live: Figures)
    ensures var r := HistorySeries(snaps, live);
      && r[0].totalLiabilities.None? && r[0].year == LiveYear
      && (forall i :: 1 <= i < |r| ==> r[i].year != LiveYear && r[i].totalLiabilities.Some?)
      && (forall s :: s in snaps && s.year != LiveYear ==> StoredPoint(s) in r[1..])
      && Subsequence(Filter(snaps, NotLiveYear), snaps)
  {
    var kept := Filter(snaps, NotLiveYear);
    var r := HistorySeries(snaps, live);
    forall i | 1 <= i < |r| ensures r[i].year != LiveYear && r[i].totalLiabilities.Some? {
      assert r[i] == r[1..][i - 1] == StoredPoint(kept[i - 1]);
      FilterMembers(snaps, NotLiveYear, kept[i - 1]);
    }
    forall s | s in snaps && s.year != LiveYear ensures StoredPoint(s) in r[1..] {
      FilterMembers(snaps, NotLiveYear, s);
      var k :| 0 <= k < |kept| && kept[k] == s;
      assert r[1..][k] == StoredPoint(s);
    }
    FilterIsSubsequence(snaps, NotLiveYear);
  }

  /** With no stored 2026 entry, the series is the live point followed by every stored snapshot. */
  lemma HistoryWithoutLiveYear(snaps: seq<Snapshot>, live: Figures)
    requires forall i :: 0 <= i < |snaps| ==> snaps[i].year != LiveYear
    ensures HistorySeries(snaps, live)[1..] == StoredPoints(snaps)
  {
    FilterKeepsAll(snaps, NotLiveYear);
  }
}
