/**
  The z-index policy of service/WidgetService.java (`getHighestZIndex`,
  `updateWidgetZIndex`, and `save` that follows it), stated on the store's
  map of records. The service's methods are proved against these functions.
 */
module ZOrder {
  import opened Domain
  import opened Repository

  /** No two stored widgets share a z-index. */
  predicate ZDistinct(store: map<Id, Widget>) {
    forall a, b | a in store && b in store && a != b :: store[a].z != store[b].z
  }

  /** `getHighestZIndex` on a `findAll` snapshot: the largest z, or `initial` for no widgets. */
  function MaxZ(ws: seq<Widget>, initial: int): (m: int)
    ensures ws == [] ==> m == initial
    ensures ws != [] ==> exists i | 0 <= i < |ws| :: ws[i].z == m
    ensures forall i | 0 <= i < |ws| :: ws[i].z <= m
  {
    if ws == [] then initial
    else if |ws| == 1 then ws[0].z
    else
      var m := MaxZ(ws[1..], initial);
      if ws[0].z >= m then ws[0].z else m
  }

  /** `h` is the highest z in the store, or `initial` when the store is empty. */
  ghost predicate IsHighestZ(store: map<Id, Widget>, initial: int, h: int) {
    && (store == map[] ==> h == initial)
    && (store != map[] ==> exists k | k in store :: store[k].z == h)
    && (forall k | k in store :: store[k].z <= h)
  }

  /** The highest z of the store itself, whatever order a snapshot lists it in. */
  ghost function HighestZ(store: map<Id, Widget>, initial: int): (h: int)
    ensures IsHighestZ(store, initial, h)
    decreases |store|
  {
    if store == map[] then initial
    else
      var k :| k in store;
      var rest := store - {k};
      assert |rest| < |store| by {
        assert rest.Keys == store.Keys - {k};
      }
      if rest == map[] then
        assert store.Keys == {k};
        store[k].z
      else
        var m := HighestZ(rest, initial);
        assert forall k' | k' in store :: k' == k || k' in rest;
        if store[k].z >= m then store[k].z else m
  }

  /** The stream max of any snapshot of the store is the store's highest z. */
  lemma SnapshotMaxIsHighest(ws: seq<Widget>, store: map<Id, Widget>, initial: int)
    requires Enumerates(ws, store)
    ensures MaxZ(ws, initial) == HighestZ(store, initial)
  {
    var m, h := MaxZ(ws, initial), HighestZ(store, initial);
    if store == map[] {
      assert ws == [];
    } else {
      var k :| k in store && store[k].z == h;
      assert store[k] in ws;
      var i :| 0 <= i < |ws| && ws[i].z == m;
      assert store[ws[i].id.value] == ws[i];
    }
  }

  /** The z `updateWidgetZIndex(w, newZ)` gives the widget. */
  ghost function MaintainedZ(store: map<Id, Widget>, w: Widget, newZ: Option<int>, initial: int): (z: int)
    ensures newZ.Some? ==> z == newZ.value
    ensures newZ.None? ==> forall k | k in store :: store[k].z <= z
    ensures newZ.None? && w.isNew ==> forall k | k in store :: store[k].z < z
    ensures newZ.None? && !w.isNew ==> z >= w.z
  {
    match newZ
    case Some(r) => r
    case None =>
      var highest := HighestZ(store, initial);
      if w.isNew then highest + 1
      else if highest > w.z then highest + 1
      else w.z
  }

  /** One record moved up by one. */
  function Bump(w: Widget): Widget {
    w.(z := w.z + 1)
  }

  /** Whether the cascade for `id` at `r` moves the record under `k`. */
  predicate Moves(store: map<Id, Widget>, id: Id, r: int, k: Id)
    requires k in store
  {
    k != id && store[k].z >= r
  }

  /** The cascade: every other record at or above `r` moves up by one, the rest stay. */
  function Cascade(store: map<Id, Widget>, id: Id, r: int): (moved: map<Id, Widget>)
    ensures moved.Keys == store.Keys
    ensures forall k | k in store :: moved[k].z == store[k].z || moved[k].z == store[k].z + 1
    ensures forall k | k in store :: moved[k] == store[k].(z := moved[k].z)
    ensures forall k | k in store && (k == id || store[k].z < r) :: moved[k] == store[k]
    ensures forall k | k in store && k != id && store[k].z >= r :: moved[k].z > r
  {
    map k | k in store :: if Moves(store, id, r, k) then Bump(store[k]) else store[k]
  }

  /** The store after `updateWidgetZIndex(w, newZ)` and then saving `w`. */
  ghost function MaintainThenSave(store: map<Id, Widget>, w: Widget, newZ: Option<int>, initial: int): (after: map<Id, Widget>)
    requires w.id.Some?
    ensures after.Keys == store.Keys + {w.id.value}
    ensures after[w.id.value] == Stored(w).(z := MaintainedZ(store, w, newZ, initial))
    ensures newZ.None? ==> forall k | k in store && k != w.id.value :: after[k] == store[k]
    ensures newZ.Some? ==> forall k | k in store && k != w.id.value && store[k].z < newZ.value :: after[k] == store[k]
  {
    var moved := if newZ.Some? then Cascade(store, w.id.value, newZ.value) else store;
    Put(moved, w.(z := MaintainedZ(store, w, newZ, initial)))
  }

  /**
    What callers of `updateWidgetZIndex` guarantee: a new widget carries an id
    the store does not hold; an existing one was just read from the store, so
    its z is its stored z.
   */
  ghost predicate CallerContract(store: map<Id, Widget>, w: Widget) {
    && w.id.Some?
    && (w.isNew ==> w.id.value !in store)
    && (!w.isNew ==> w.id.value in store && store[w.id.value].z == w.z)
  }

  /**
    With no requested z a new widget goes right above every stored widget:
    to the highest z plus one, and to `initial + 1` on an empty store.
   */
  lemma NewWidgetGoesOnTop(store: map<Id, Widget>, w: Widget, initial: int)
    requires w.isNew
    ensures store == map[] ==> MaintainedZ(store, w, None, initial) == initial + 1
    ensures store != map[] ==> exists k | k in store :: MaintainedZ(store, w, None, initial) == store[k].z + 1
    ensures forall k | k in store :: store[k].z < MaintainedZ(store, w, None, initial)
  {
    var h := HighestZ(store, initial);
  }

  /**
    With no requested z an existing widget keeps its z exactly when no stored
    widget lies above it; otherwise it goes right above the highest one.
   */
  lemma ExistingWidgetLiftedOnlyWhenCovered(store: map<Id, Widget>, w: Widget, initial: int)
    requires !w.isNew && CallerContract(store, w)
    ensures MaintainedZ(store, w, None, initial) == w.z
        <==> forall k | k in store :: store[k].z <= w.z
    ensures MaintainedZ(store, w, None, initial) != w.z ==>
              (forall k | k in store :: store[k].z < MaintainedZ(store, w, None, initial))
              && exists k | k in store :: MaintainedZ(store, w, None, initial) == store[k].z + 1
  {
    var h := HighestZ(store, initial);
    assert store[w.id.value].z <= h;
  }

  /**
    With a requested z the widget gets exactly that z; every other stored
    record at or above it moves up by one, every record below it and the
    widget's own stored record stay as they were, and nothing else changes.
   */
  lemma ExplicitZCascades(store: map<Id, Widget>, w: Widget, r: int, initial: int)
    requires w.id.Some?
    ensures MaintainedZ(store, w, Some(r), initial) == r
    ensures MaintainThenSave(store, w, Some(r), initial)[w.id.value] == Stored(w.(z := r))
    ensures MaintainThenSave(store, w, Some(r), initial).Keys == store.Keys + {w.id.value}
    ensures forall k | k in store && k != w.id.value ::
              MaintainThenSave(store, w, Some(r), initial)[k]
                == if store[k].z >= r then store[k].(z := store[k].z + 1) else store[k]
    ensures w.id.value in store ==> Cascade(store, w.id.value, r)[w.id.value] == store[w.id.value]
  {
  }

  /** When nothing else lies at or above the requested z, the cascade changes nothing. */
  lemma CascadeIdleWhenNothingAbove(store: map<Id, Widget>, id: Id, r: int)
    requires forall k | k in store && k != id :: store[k].z < r
    ensures Cascade(store, id, r) == store
  {
    var c := Cascade(store, id, r);
    assert c.Keys == store.Keys;
    forall k | k in store ensures c[k] == store[k] {
      assert !Moves(store, id, r, k);
    }
  }

  /** The cascade keeps every record under its own id and not new. */
  lemma CascadeKeepsWellFormed(store: map<Id, Widget>, id: Id, r: int)
    requires WellFormed(store)
    ensures WellFormed(Cascade(store, id, r))
    ensures Cascade(store, id, r).Keys == store.Keys
  {
  }

  /**
    The z-uniqueness invariant: if stored z-indices are pairwise distinct
    before `updateWidgetZIndex` and the save of the widget, they are pairwise
    distinct afterwards, and every record still sits under its own id.
   */
  lemma {:induction false} MaintainThenSaveKeepsZDistinct(store: map<Id, Widget>, w: Widget, newZ: Option<int>, initial: int)
    requires WellFormed(store) && ZDistinct(store)
    requires CallerContract(store, w)
    ensures WellFormed(MaintainThenSave(store, w, newZ, initial))
    ensures ZDistinct(MaintainThenSave(store, w, newZ, initial))
  {
    match newZ
    case None => AutomaticKeepsZDistinct(store, w, initial);
    case Some(r) => ExplicitKeepsZDistinct(store, w, r, initial);
  }

  /** The automatic path: the widget keeps a z nobody else has, or goes above everybody. */
  lemma AutomaticKeepsZDistinct(store: map<Id, Widget>, w: Widget, initial: int)
    requires WellFormed(store) && ZDistinct(store)
    requires CallerContract(store, w)
    ensures WellFormed(MaintainThenSave(store, w, None, initial))
    ensures ZDistinct(MaintainThenSave(store, w, None, initial))
  {
    var id := w.id.value;
    var z := MaintainedZ(store, w, None, initial);
    var after := MaintainThenSave(store, w, None, initial);
    var h := HighestZ(store, initial);
    assert after == Put(store, w.(z := z));
    if z != w.z || w.isNew {
      assert z == h + 1;
      forall a, b | a in after && b in after && a != b ensures after[a].z != after[b].z {
        if a != id && b != id {
          assert after[a] == store[a] && after[b] == store[b];
        } else if a == id {
          assert after[b] == store[b] && store[b].z <= h;
        } else {
          assert after[a] == store[a] && store[a].z <= h;
        }
      }
    } else {
      assert after.Keys == store.Keys;
      forall a, b | a in after && b in after && a != b ensures after[a].z != after[b].z {
        assert after[a].z == store[a].z && after[b].z == store[b].z;
      }
    }
  }

  /** The explicit path: the widget takes `r` and everybody else at or above `r` makes room. */
  lemma ExplicitKeepsZDistinct(store: map<Id, Widget>, w: Widget, r: int, initial: int)
    requires WellFormed(store) && ZDistinct(store)
    requires CallerContract(store, w)
    ensures WellFormed(MaintainThenSave(store, w, Some(r), initial))
    ensures ZDistinct(MaintainThenSave(store, w, Some(r), initial))
  {
    var id := w.id.value;
    var after := MaintainThenSave(store, w, Some(r), initial);
    var moved := Cascade(store, id, r);
    assert after == Put(moved, w.(z := r));
    forall a, b | a in after && b in after && a != b ensures after[a].z != after[b].z {
      if a != id && b != id {
        assert after[a] == moved[a] && after[b] == moved[b];
      } else if a == id {
        assert after[b] == moved[b];
      } else {
        assert after[a] == moved[a];
      }
    }
    CascadeKeepsWellFormed(store, id, r);
  }

  /** The record the no-argument factory builds: a fresh id and `isNew` set. */
  function NewWidget(id: Id): (w: Widget)
    ensures w.id == Some(id) && w.isNew
  {
    BlankWidget.(id := Some(id), isNew := true)
  }

  /** The store holds exactly the widgets of `ids`, the i-th at `initial + i + 1`. */
  ghost predicate StackedBy(ids: seq<Id>, store: map<Id, Widget>, initial: int) {
    && (forall k :: k in store <==> k in ids)
    && (forall i | 0 <= i < |ids| :: ids[i] in store && store[ids[i]].z == initial + i + 1)
  }

  /** A store stacked from `initial + 1` upwards tops out at `initial + |ids|`. */
  lemma HighestOfStacked(ids: seq<Id>, store: map<Id, Widget>, initial: int)
    requires StackedBy(ids, store, initial)
    ensures HighestZ(store, initial) == initial + |ids|
  {
    var h := HighestZ(store, initial);
    if ids == [] {
      assert store == map[];
    } else {
      assert store[ids[|ids| - 1]].z == initial + |ids|;
      forall k | k in store ensures store[k].z <= initial + |ids| {
        var i :| 0 <= i < |ids| && ids[i] == k;
      }
    }
  }

  /** Putting a new id on top of a stacked store extends the stack by that id. */
  lemma StackedExtend(prefix: seq<Id>, x: Id, store: map<Id, Widget>, top: Widget, initial: int)
    requires StackedBy(prefix, store, initial)
    requires x !in prefix && top.z == initial + |prefix| + 1
    ensures StackedBy(prefix + [x], store[x := top], initial)
  {
    var ids := prefix + [x];
    var after := store[x := top];
    forall k ensures k in after <==> k in ids {
      assert k in ids <==> k in prefix || k == x;
    }
    forall i | 0 <= i < |ids| ensures ids[i] in after && after[ids[i]].z == initial + i + 1 {
      if i < |prefix| {
        assert ids[i] == prefix[i];
      }
    }
  }

  /**
    Creating widgets one after another without a requested z stacks them in
    creation order: if the store holds the widgets of `ids` at `initial + 1`,
    `initial + 2`, ..., a new widget `w` with a fresh id, whatever position,
    size and timestamp it carries, lands at `initial + |ids| + 1` and nothing
    else moves. From the empty store, which is stacked by no ids, N creations
    give 1, 2, ..., N when `initial` is 0.
   */
  lemma CreationStacksOnTop(ids: seq<Id>, store: map<Id, Widget>, w: Widget, initial: int)
    requires StackedBy(ids, store, initial)
    requires w.isNew && w.id.Some? && w.id.value !in ids
    ensures StackedBy(ids + [w.id.value], MaintainThenSave(store, w, None, initial), initial)
  {
    HighestOfStacked(ids, store, initial);
    var top := w.(z := initial + |ids| + 1);
    assert MaintainThenSave(store, w, None, initial) == Put(store, top);
    StackedExtend(ids, w.id.value, store, Stored(top), initial);
  }

  /** The empty store is the stack of no widgets. */
  lemma EmptyStoreIsStacked(initial: int)
    ensures StackedBy([], map[], initial)
  {
  }

  /**
    Three widgets at 1, 2, 3 and the bottom one requested at 2: it takes 2,
    and the two it meets move to 3 and 4; its own old record is not bumped.
   */
  lemma RequestedZPushesUp(store: map<Id, Widget>, a: Id, b: Id, c: Id, w: Widget, initial: int)
    requires a != b && b != c && a != c
    requires store.Keys == {a, b, c}
    requires store[a].z == 1 && store[b].z == 2 && store[c].z == 3
    requires w.id == Some(a)
    ensures MaintainThenSave(store, w, Some(2), initial)[a].z == 2
    ensures MaintainThenSave(store, w, Some(2), initial)[b].z == 3
    ensures MaintainThenSave(store, w, Some(2), initial)[c].z == 4
    ensures MaintainThenSave(store, w, Some(2), initial).Keys == {a, b, c}
  {
    ExplicitZCascades(store, w, 2, initial);
  }
}
