/**
  The reference containment filter (service/impl/BasicWidgetFilteringService.java).
 */
module Filtering {
  import opened Domain

  /** The point lies in the closed rectangle of the area, edges included. */
  predicate PointIn(px: int, py: int, area: Area) {
    area.x <= px <= area.x + area.width && area.y <= py <= area.y + area.height
  }

  /**
    A widget lies inside an area when all four inclusive bounds hold; for a
    widget of non-negative size that is exactly when both its lower-left and
    its upper-right corner lie in the area.
   */
  function Inside(w: Widget, area: Area): (inside: bool)
    ensures w.width >= 0 && w.height >= 0 ==>
              (inside <==> PointIn(w.x, w.y, area) && PointIn(w.x + w.width, w.y + w.height, area))
  {
    && w.x >= area.x
    && w.y >= area.y
    && w.x + w.width <= area.x + area.width
    && w.y + w.height <= area.y + area.height
  }

  /** `a` is `b` with some elements dropped and the rest kept in order. */
  predicate IsSubsequence(a: seq<Widget>, b: seq<Widget>)
    decreases |b|
  {
    if a == [] then true
    else if b == [] then false
    else if a[0] == b[0] then IsSubsequence(a[1..], b[1..])
    else IsSubsequence(a, b[1..])
  }

  /** `filterWidgetsInsideArea`: a stream filter that keeps the input order. */
  function FilterWidgetsInsideArea(widgets: seq<Widget>, area: Area): (r: seq<Widget>)
    ensures |r| <= |widgets|
    ensures forall w :: w in r <==> w in widgets && Inside(w, area)
    ensures IsSubsequence(r, widgets)
  {
    if widgets == [] then []
    else
      var rest := FilterWidgetsInsideArea(widgets[1..], area);
      assert forall w :: w in widgets <==> w == widgets[0] || w in widgets[1..];
      if Inside(widgets[0], area) then [widgets[0]] + rest
      else
        SubsequenceOfTail(rest, widgets);
        rest
  }

  /** Dropping the head of the longer sequence keeps the subsequence relation. */
  lemma {:induction false} SubsequenceOfTail(a: seq<Widget>, b: seq<Widget>)
    requires b != [] && IsSubsequence(a, b[1..])
    ensures IsSubsequence(a, b)
    decreases |b|, 0
  {
    if a != [] && a[0] == b[0] {
      SubsequenceDropHead(a, b[1..]);
    }
  }

  /** A subsequence stays one when its own head is dropped. */
  lemma {:induction false} SubsequenceDropHead(a: seq<Widget>, b: seq<Widget>)
    requires a != [] && IsSubsequence(a, b)
    ensures IsSubsequence(a[1..], b)
    decreases |b|, 1
  {
    if a[1..] != [] {
      if a[0] == b[0] {
        SubsequenceOfTail(a[1..], b);
      } else {
        SubsequenceDropHead(a, b[1..]);
        SubsequenceOfTail(a[1..], b);
      }
    }
  }

  /** Filtering an already filtered collection with the same area changes nothing. */
  lemma {:induction false} FilterIdempotent(widgets: seq<Widget>, area: Area)
    ensures FilterWidgetsInsideArea(FilterWidgetsInsideArea(widgets, area), area)
         == FilterWidgetsInsideArea(widgets, area)
  {
    var r := FilterWidgetsInsideArea(widgets, area);
    FilterKeepsAllInside(r, area);
  }

  /** A collection whose widgets all lie inside the area passes the filter unchanged. */
  lemma {:induction false} FilterKeepsAllInside(widgets: seq<Widget>, area: Area)
    requires forall i :: 0 <= i < |widgets| ==> Inside(widgets[i], area)
    ensures FilterWidgetsInsideArea(widgets, area) == widgets
  {
    if widgets != [] {
      FilterKeepsAllInside(widgets[1..], area);
    }
  }

  /** An empty collection gives an empty result. */
  lemma FilterOfEmpty(area: Area)
    ensures FilterWidgetsInsideArea([], area) == []
  {
  }

  /** Two collections with the same widgets, in any order, filter to the same widgets. */
  lemma FilterIndependentOfOrder(a: seq<Widget>, b: seq<Widget>, area: Area)
    requires forall w :: w in a <==> w in b
    ensures forall w :: w in FilterWidgetsInsideArea(a, area) <==> w in FilterWidgetsInsideArea(b, area)
  {
  }

  /**
    The bounds are inclusive: the area (0, 0, 100, 150) keeps the widgets
    (0, 0, 100, 100) and (0, 50, 100, 100), which touch its edges, and drops
    (100, 50, 100, 100), which sticks out to the right.
   */
  lemma InclusiveBoundsScenario(a: Widget, b: Widget, c: Widget)
    requires a.x == 0 && a.y == 0 && a.width == 100 && a.height == 100
    requires b.x == 0 && b.y == 50 && b.width == 100 && b.height == 100
    requires c.x == 100 && c.y == 50 && c.width == 100 && c.height == 100
    ensures FilterWidgetsInsideArea([a, b, c], Area(0, 0, 100, 150)) == [a, b]
  {
    var area := Area(0, 0, 100, 150);
    assert Inside(a, area) && Inside(b, area) && !Inside(c, area);
    assert [a, b, c][1..] == [b, c];
    assert [b, c][1..] == [c];
    assert [c][1..] == [];
    assert FilterWidgetsInsideArea([c], area) == [];
    assert FilterWidgetsInsideArea([b, c], area) == [b];
  }

  /** The filter keeps every copy of a widget inside the area and no copy of the others. */
  lemma {:induction false} FilterCounts(ws: seq<Widget>, area: Area)
    ensures forall w :: multiset(FilterWidgetsInsideArea(ws, area))[w] == if Inside(w, area) then multiset(ws)[w] else 0
  {
    if ws != [] {
      FilterCounts(ws[1..], area);
      assert ws == [ws[0]] + ws[1..];
    }
  }

  /** Filtering two arrangements of the same widgets gives two arrangements of the same widgets. */
  lemma FilterRespectsPermutation(a: seq<Widget>, b: seq<Widget>, area: Area)
    requires multiset(a) == multiset(b)
    ensures multiset(FilterWidgetsInsideArea(a, area)) == multiset(FilterWidgetsInsideArea(b, area))
  {
    FilterCounts(a, area);
    FilterCounts(b, area);
    var fa, fb := FilterWidgetsInsideArea(a, area), FilterWidgetsInsideArea(b, area);
    forall w ensures multiset(fa)[w] == multiset(fb)[w] {
    }
  }
}
