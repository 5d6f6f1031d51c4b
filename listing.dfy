/**
  The listing pipeline of `WidgetController.getAll`
  (controller/WidgetController.java): page-size and offset defaults, the
  optional area filter, the stable sort by z, then skip and limit.
 */
module Listing {
  import opened Domain
  import opened Filtering
  import opened Repository
  import opened ZOrder

  function Min(a: int, b: int): int {
    if a <= b then a else b
  }

  function Max(a: int, b: int): int {
    if a >= b then a else b
  }

  /**
    The page size `getAll` settles on: the configured default when none is
    given, then clamped into [0, pageMaxSize].
   */
  function EffectivePageSize(requested: Option<int>, config: Config): (size: nat)
    requires ValidConfig(config)
    ensures size <= config.pageMaxSize
    ensures requested.None? ==> size == Min(config.pageDefaultSize, config.pageMaxSize)
    ensures requested.Some? && 0 <= requested.value <= config.pageMaxSize ==> size == requested.value
    ensures requested.Some? && requested.value < 0 ==> size == 0
    ensures requested.Some? && requested.value > config.pageMaxSize ==> size == config.pageMaxSize
  {
    var given := if requested.None? then config.pageDefaultSize else requested.value;
    Min(Max(given, 0), config.pageMaxSize)
  }

  /** The number of widgets `skip` drops: a missing or negative offset skips none. */
  function EffectiveOffset(offset: Option<int>): (skip: nat)
    ensures offset.None? ==> skip == 0
    ensures offset.Some? && offset.value >= 0 ==> skip == offset.value
    ensures offset.Some? && offset.value < 0 ==> skip == 0
  {
    if offset.None? then 0 else Max(offset.value, 0)
  }

  /** Ascending by z. */
  predicate SortedByZ(s: seq<Widget>) {
    forall i, j | 0 <= i < j < |s| :: s[i].z <= s[j].z
  }

  /** Inserts `w` before the first element whose z is not below its own. */
  function InsertByZ(w: Widget, s: seq<Widget>): (r: seq<Widget>)
    requires SortedByZ(s)
    ensures SortedByZ(r)
    ensures multiset(r) == multiset(s) + multiset{w}
  {
    if s == [] || w.z <= s[0].z then
      ConsSorted(w, s);
      [w] + s
    else
      var rest := InsertByZ(w, s[1..]);
      assert s == [s[0]] + s[1..];
      HeadBelowInserted(w, s, rest);
      ConsSorted(s[0], rest);
      [s[0]] + rest
  }

  /** A widget no higher than any element of a sorted sequence may go in front of it. */
  lemma ConsSorted(v: Widget, s: seq<Widget>)
    requires SortedByZ(s)
    requires forall u | u in s :: v.z <= u.z
    ensures SortedByZ([v] + s)
  {
    var r := [v] + s;
    forall i, j | 0 <= i < j < |r| ensures r[i].z <= r[j].z {
      assert r[j] == s[j - 1];
      if i > 0 {
        assert r[i] == s[i - 1];
      }
    }
  }

  /** The head of a sorted sequence lies below everything of the tail with `w` inserted. */
  lemma HeadBelowInserted(w: Widget, s: seq<Widget>, rest: seq<Widget>)
    requires SortedByZ(s) && s != [] && s[0].z < w.z
    requires multiset(rest) == multiset(s[1..]) + multiset{w}
    ensures forall u | u in rest :: s[0].z <= u.z
  {
    forall u | u in rest ensures s[0].z <= u.z {
      assert u in multiset(rest);
      if u != w {
        assert u in multiset(s[1..]);
        var k :| 0 <= k < |s[1..]| && s[1..][k] == u;
        assert s[k + 1] == u;
      }
    }
  }

  /**
    `sorted(Comparator.comparingInt(Widget::getZ))`: an insertion sort that,
    like the stream's sort, never moves a widget past an equal one.
   */
  function SortByZ(s: seq<Widget>): (r: seq<Widget>)
    ensures SortedByZ(r)
    ensures multiset(r) == multiset(s)
  {
    if s == [] then []
    else
      assert s == [s[0]] + s[1..];
      InsertByZ(s[0], SortByZ(s[1..]))
  }

  /** `skip(offset).limit(size)`. */
  function Page(s: seq<Widget>, offset: nat, size: nat): (r: seq<Widget>)
    ensures |r| == Min(size, if offset <= |s| then |s| - offset else 0)
    ensures forall i | 0 <= i < |r| :: r[i] == s[offset + i]
  {
    if offset >= |s| then []
    else
      var rest := s[offset..];
      if size < |rest| then rest[..size] else rest
  }

  /** What the optional area filter keeps of a snapshot. */
  function Kept(ws: seq<Widget>, area: Option<Area>): seq<Widget> {
    if area.Some? then FilterWidgetsInsideArea(ws, area.value) else ws
  }

  /** The body of a `getAll` response for a `findAll` snapshot `ws`. */
  function Listed(ws: seq<Widget>, area: Option<Area>, offset: nat, size: nat): (r: seq<Widget>)
    ensures |r| == Min(size, if offset <= |Kept(ws, area)| then |Kept(ws, area)| - offset else 0)
    ensures SortedByZ(r)
    ensures forall w | w in r :: w in ws && (area.Some? ==> Inside(w, area.value))
  {
    var kept := Kept(ws, area);
    var sorted := SortByZ(kept);
    assert |sorted| == |multiset(sorted)| == |kept|;
    var r := Page(sorted, offset, size);
    assert forall w | w in r :: w in multiset(sorted);
    r
  }

  /** A page that starts at 0 and is large enough holds every kept widget, each once. */
  lemma ListedComplete(ws: seq<Widget>, area: Option<Area>, size: nat)
    requires |ws| <= size
    ensures multiset(Listed(ws, area, 0, size)) == multiset(Kept(ws, area))
  {
    var kept := Kept(ws, area);
    var sorted := SortByZ(kept);
    assert |sorted| == |multiset(sorted)| == |kept|;
    assert Page(sorted, 0, size) == sorted;
  }

  /** No two widgets of `s` share a z unless they are the same widget. */
  predicate ZUnique(s: seq<Widget>) {
    forall v, w | v in s && w in s && v.z == w.z :: v == w
  }

  /** Two sorted arrangements of the same widgets are one when no two widgets share a z. */
  lemma {:induction false} SortedPermutationsEqual(a: seq<Widget>, b: seq<Widget>)
    requires SortedByZ(a) && SortedByZ(b) && multiset(a) == multiset(b)
    requires ZUnique(a)
    ensures a == b
  {
    if a == [] {
      assert |b| == |multiset(b)| == 0;
    } else {
      SameHead(a, b);
      TailsArePermutations(a, b);
      TailKeepsSortedAndUnique(a);
      TailKeepsSortedAndUnique(b);
      SortedPermutationsEqual(a[1..], b[1..]);
      HeadAndTailDetermine(a, b);
    }
  }

  /** Two non-empty sequences with the same head and the same tail are equal. */
  lemma HeadAndTailDetermine(a: seq<Widget>, b: seq<Widget>)
    requires a != [] && b != [] && a[0] == b[0] && a[1..] == b[1..]
    ensures a == b
  {
    assert a == [a[0]] + a[1..];
    assert b == [b[0]] + b[1..];
  }

  /** The tail of a sorted sequence is sorted, and unique z-indices stay unique in it. */
  lemma TailKeepsSortedAndUnique(a: seq<Widget>)
    requires a != [] && SortedByZ(a)
    ensures SortedByZ(a[1..])
    ensures ZUnique(a) ==> ZUnique(a[1..])
  {
    assert forall v | v in a[1..] :: v in a;
  }

  /** Both sorted arrangements start with the widget of lowest z. */
  lemma SameHead(a: seq<Widget>, b: seq<Widget>)
    requires SortedByZ(a) && SortedByZ(b) && multiset(a) == multiset(b) && a != []
    requires ZUnique(a)
    ensures b != [] && a[0] == b[0]
  {
    assert a[0] in multiset(b);
    var j :| 0 <= j < |b| && b[j] == a[0];
    assert b[0] in multiset(a);
    var i :| 0 <= i < |a| && a[i] == b[0];
    assert b[0].z <= b[j].z && a[0].z <= a[i].z;
  }

  /** Dropping one shared head leaves two arrangements of the same widgets. */
  lemma TailsArePermutations(a: seq<Widget>, b: seq<Widget>)
    requires a != [] && b != [] && a[0] == b[0] && multiset(a) == multiset(b)
    ensures multiset(a[1..]) == multiset(b[1..])
  {
    assert a == [a[0]] + a[1..];
    assert b == [b[0]] + b[1..];
    forall w ensures multiset(a[1..])[w] == multiset(b[1..])[w] {
      assert multiset(a)[w] == multiset{a[0]}[w] + multiset(a[1..])[w];
      assert multiset(b)[w] == multiset{b[0]}[w] + multiset(b[1..])[w];
    }
  }

  /** A sequence without repeated elements holds each of them exactly once. */
  lemma {:induction false} DistinctCounts(a: seq<Widget>)
    requires forall i, j | 0 <= i < j < |a| :: a[i] != a[j]
    ensures forall w :: multiset(a)[w] == if w in a then 1 else 0
  {
    if a != [] {
      DistinctCounts(a[1..]);
      assert a == [a[0]] + a[1..];
      assert a[0] !in a[1..];
    }
  }

  /** Any two `findAll` snapshots of one store list the same widgets. */
  lemma SnapshotsArePermutations(a: seq<Widget>, b: seq<Widget>, store: map<Id, Widget>)
    requires Enumerates(a, store) && Enumerates(b, store)
    ensures multiset(a) == multiset(b)
  {
    DistinctCounts(a);
    DistinctCounts(b);
    forall w ensures w in a <==> w in b {
      if w in a {
        var i :| 0 <= i < |a| && a[i] == w;
      }
      if w in b {
        var i :| 0 <= i < |b| && b[i] == w;
      }
    }
  }

  /** What survives the optional filter, for any two snapshots of one store, is the same widgets. */
  lemma KeptArePermutations(a: seq<Widget>, b: seq<Widget>, store: map<Id, Widget>, area: Option<Area>)
    requires Enumerates(a, store) && Enumerates(b, store)
    ensures multiset(if area.Some? then FilterWidgetsInsideArea(a, area.value) else a)
         == multiset(if area.Some? then FilterWidgetsInsideArea(b, area.value) else b)
  {
    SnapshotsArePermutations(a, b, store);
    if area.Some? {
      FilterRespectsPermutation(a, b, area.value);
    }
  }

  /** No two widgets of a snapshot of a store with distinct z-indices share a z. */
  lemma SnapshotZDistinct(ws: seq<Widget>, store: map<Id, Widget>)
    requires Enumerates(ws, store) && ZDistinct(store)
    ensures ZUnique(ws)
  {
    forall v, w | v in ws && w in ws && v.z == w.z ensures v == w {
      var i :| 0 <= i < |ws| && ws[i] == v;
      var j :| 0 <= j < |ws| && ws[j] == w;
    }
  }

  /** Sorting widgets drawn from a snapshot keeps the snapshot's distinct z-indices distinct. */
  lemma SortedKeepsZDistinct(kept: seq<Widget>, ws: seq<Widget>)
    requires forall v | v in kept :: v in ws
    requires ZUnique(ws)
    ensures ZUnique(SortByZ(kept))
  {
    var sorted := SortByZ(kept);
    forall v | v in sorted ensures v in ws {
      assert v in multiset(kept);
    }
  }

  /**
    The order in which `findAll` happens to list the store does not show in
    the response: with pairwise distinct z-indices every snapshot gives the
    same page.
   */
  lemma ListedIndependentOfSnapshot(a: seq<Widget>, b: seq<Widget>, store: map<Id, Widget>,
                                    area: Option<Area>, offset: nat, size: nat)
    requires Enumerates(a, store) && Enumerates(b, store) && ZDistinct(store)
    ensures Listed(a, area, offset, size) == Listed(b, area, offset, size)
  {
    KeptArePermutations(a, b, store, area);
    SnapshotZDistinct(a, store);
    var ka := if area.Some? then FilterWidgetsInsideArea(a, area.value) else a;
    var kb := if area.Some? then FilterWidgetsInsideArea(b, area.value) else b;
    SortedKeepsZDistinct(ka, a);
    SortedPermutationsEqual(SortByZ(ka), SortByZ(kb));
  }

  /** No widget occurs twice. */
  predicate NoRepeats(s: seq<Widget>) {
    forall i, j | 0 <= i < j < |s| :: s[i] != s[j]
  }

  /** Strictly ascending by z. */
  predicate StrictlyByZ(s: seq<Widget>) {
    forall i, j | 0 <= i < j < |s| :: s[i].z < s[j].z
  }

  /** The widgets of `s` that lie strictly below height `z`. */
  function Below(s: seq<Widget>, z: int): set<Widget> {
    set v | v in s && v.z < z
  }

  /** A widget found at two positions is counted at least twice. */
  lemma TwiceCounted(s: seq<Widget>, i: nat, j: nat)
    requires i < j < |s| && s[i] == s[j]
    ensures multiset(s)[s[i]] >= 2
  {
    assert s == s[..j] + s[j..];
    assert s[i] in s[..j];
    assert s[j] in s[j..];
  }

  /** Sorting widgets that occur once each and do not share a z gives a strictly ascending order. */
  lemma SortedIsStrict(kept: seq<Widget>)
    requires NoRepeats(kept) && ZUnique(kept)
    ensures StrictlyByZ(SortByZ(kept))
  {
    var sorted := SortByZ(kept);
    DistinctCounts(kept);
    forall i, j | 0 <= i < j < |sorted| ensures sorted[i].z < sorted[j].z {
      if sorted[i].z == sorted[j].z {
        assert sorted[i] in multiset(kept) && sorted[j] in multiset(kept);
        TwiceCounted(sorted, i, j);
        assert false;
      }
    }
  }

  /** In a strictly ascending sequence, the widgets below its k-th one are exactly the k before it. */
  lemma RankInStrict(t: seq<Widget>, k: nat)
    requires StrictlyByZ(t) && k < |t|
    ensures |Below(t, t[k].z)| == k
  {
    assert Below(t, t[k].z) == set v | v in t[..k] by {
      forall v | v in t && v.z < t[k].z ensures v in t[..k] {
        var i :| 0 <= i < |t| && t[i] == v;
      }
    }
    StrictSetSize(t[..k]);
  }

  /** A strictly ascending sequence has as many distinct widgets as positions. */
  lemma {:induction false} StrictSetSize(u: seq<Widget>)
    requires StrictlyByZ(u)
    ensures |set v | v in u| == |u|
  {
    if u != [] {
      StrictSetSize(u[1..]);
      assert (set v | v in u) == {u[0]} + set v | v in u[1..];
      assert u[0] !in u[1..];
    }
  }

  /** Sorting neither adds nor drops a widget. */
  lemma SortKeepsMembers(kept: seq<Widget>, v: Widget)
    ensures v in SortByZ(kept) <==> v in kept
  {
    assert v in SortByZ(kept) <==> v in multiset(SortByZ(kept));
  }

  /** The k-th widget of a strictly ascending sequence is on the page exactly when k lies in the window. */
  lemma PageOfStrict(t: seq<Widget>, offset: nat, size: nat, k: nat)
    requires StrictlyByZ(t) && k < |t|
    ensures t[k] in Page(t, offset, size) <==> offset <= k < offset + size
  {
    var r := Page(t, offset, size);
    if t[k] in r {
      var i :| 0 <= i < |r| && r[i] == t[k];
      assert t[offset + i] == t[k];
    }
    if offset <= k < offset + size {
      assert r[k - offset] == t[k];
    }
  }

  /**
    Which widgets a page shows, told without the sort: a widget is on the
    page exactly when it survives the filter and the number of kept widgets
    below it lies in [offset, offset + size).
   */
  lemma ListedWindow(ws: seq<Widget>, area: Option<Area>, offset: nat, size: nat, w: Widget)
    requires NoRepeats(Kept(ws, area)) && ZUnique(Kept(ws, area))
    ensures w in Listed(ws, area, offset, size) <==>
              w in Kept(ws, area) && offset <= |Below(Kept(ws, area), w.z)| < offset + size
  {
    var kept := Kept(ws, area);
    var sorted := SortByZ(kept);
    SortedIsStrict(kept);
    SortKeepsMembers(kept, w);
    var r := Listed(ws, area, offset, size);
    assert r == Page(sorted, offset, size);
    if w in kept {
      var k :| 0 <= k < |sorted| && sorted[k] == w;
      RankInStrict(sorted, k);
      assert Below(kept, w.z) == Below(sorted, w.z) by {
        forall v ensures v in kept <==> v in sorted {
          SortKeepsMembers(kept, v);
        }
      }
      PageOfStrict(sorted, offset, size, k);
    }
  }

  /** A snapshot of a store with distinct z-indices keeps no repeats and no shared z through the filter. */
  lemma SnapshotKeptIsDistinct(ws: seq<Widget>, store: map<Id, Widget>, area: Option<Area>)
    requires Enumerates(ws, store) && ZDistinct(store)
    ensures NoRepeats(Kept(ws, area)) && ZUnique(Kept(ws, area))
  {
    var kept := Kept(ws, area);
    SnapshotZDistinct(ws, store);
    DistinctCounts(ws);
    if area.Some? {
      FilterCounts(ws, area.value);
    }
    forall i, j | 0 <= i < j < |kept| ensures kept[i] != kept[j] {
      if kept[i] == kept[j] {
        TwiceCounted(kept, i, j);
        assert false;
      }
    }
  }

  /** The window of `ListedWindow` holds for every `findAll` snapshot of a store with distinct z-indices. */
  lemma SnapshotListedWindow(ws: seq<Widget>, store: map<Id, Widget>, area: Option<Area>,
                             offset: nat, size: nat, w: Widget)
    requires Enumerates(ws, store) && ZDistinct(store)
    ensures w in Listed(ws, area, offset, size) <==>
              w in Kept(ws, area) && offset <= |Below(Kept(ws, area), w.z)| < offset + size
  {
    SnapshotKeptIsDistinct(ws, store, area);
    ListedWindow(ws, area, offset, size, w);
  }
}
