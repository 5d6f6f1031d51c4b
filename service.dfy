/**
  The widget service (service/WidgetService.java) with its locking left out:
  every operation runs as one atomic step on the heap repository.
 */
module Service {
  import opened Domain
  import opened Filtering
  import opened Repository
  import opened ZOrder

  /** What the service throws: `requireNonNull` on a missing field, or an unknown id. */
  datatype ServiceError = NullArgument | WidgetNotFound(id: Id)

  /** The widget with every supplied field overwritten and the others kept. */
  function Overwrite(w: Widget, x: Option<int>, y: Option<int>, width: Option<int>, height: Option<int>): (r: Widget)
    ensures r.id == w.id && r.z == w.z && r.isNew == w.isNew && r.lastModified == w.lastModified
    ensures r.x == (if x.Some? then x.value else w.x) && r.y == (if y.Some? then y.value else w.y)
    ensures r.width == (if width.Some? then width.value else w.width)
    ensures r.height == (if height.Some? then height.value else w.height)
  {
    Widget(w.id,
      if x.Some? then x.value else w.x,
      if y.Some? then y.value else w.y,
      w.z,
      if width.Some? then width.value else w.width,
      if height.Some? then height.value else w.height,
      w.lastModified,
      w.isNew)
  }

  /** The field-by-field overwrite of `updateOrCreate` and `update`, one `if` per field. */
  method OverwriteFields(w: Widget, x: Option<int>, y: Option<int>, width: Option<int>, height: Option<int>)
    returns (r: Widget)
    ensures r == Overwrite(w, x, y, width, height)
  {
    r := w;
    if x.Some? {
      r := r.(x := x.value);
    }
    if y.Some? {
      r := r.(y := y.value);
    }
    if width.Some? {
      r := r.(width := width.value);
    }
    if height.Some? {
      r := r.(height := height.value);
    }
  }

  /** With nothing supplied the widget is left exactly as it was. */
  lemma OverwriteNothing(w: Widget)
    ensures Overwrite(w, None, None, None, None) == w
  {
  }

  /** Supplying the same fields twice is the same as supplying them once. */
  lemma OverwriteIdempotent(w: Widget, x: Option<int>, y: Option<int>, width: Option<int>, height: Option<int>)
    ensures Overwrite(Overwrite(w, x, y, width, height), x, y, width, height) == Overwrite(w, x, y, width, height)
  {
  }

  /** The widget `createNew(x, y, width, height, z)` builds before saving it. */
  function Built(freshId: Id, x: int, y: int, width: int, height: int): (w: Widget)
    ensures w.id == Some(freshId) && w.isNew
    ensures w.x == x && w.y == y && w.width == width && w.height == height
  {
    NewWidget(freshId).(x := x, y := y, width := width, height := height)
  }

  /**
    The sentinel area is no usable area: its right edge Int32Min + Int32Max
    is -1, so it would drop every widget that reaches x + width >= 0. This
    is why `getWidgetsInsideArea` tests for it before filtering.
   */
  lemma EmptyAreaWouldDropWidgets(w: Widget)
    requires w.x + w.width >= 0
    ensures !Inside(w, EmptyArea)
  {
  }

  /** The cascade carried out on the records whose ids are in `done` only. */
  ghost function CascadeWithin(store: map<Id, Widget>, id: Id, r: int, done: set<Id>): map<Id, Widget> {
    map k | k in store :: if k in done && Moves(store, id, r, k) then Bump(store[k]) else store[k]
  }

  /** One step of the cascade loop: the record under `key` is saved bumped, or left alone. */
  lemma CascadeStep(store: map<Id, Widget>, id: Id, r: int, done: set<Id>, key: Id,
                    current: map<Id, Widget>, next: map<Id, Widget>)
    requires WellFormed(store) && key in store && key !in done
    requires current == CascadeWithin(store, id, r, done)
    requires Moves(store, id, r, key) ==> next == Put(current, Bump(store[key]))
    requires !Moves(store, id, r, key) ==> next == current
    ensures next == CascadeWithin(store, id, r, done + {key})
  {
    if Moves(store, id, r, key) {
      assert Stored(Bump(store[key])) == Bump(store[key]);
    }
  }

  /** The ids among `done` whose records the cascade moves. */
  ghost function MovedWithin(store: map<Id, Widget>, id: Id, r: int, done: set<Id>): set<Id> {
    set k | k in done && k in store && Moves(store, id, r, k)
  }

  /** One step of the cascade loop adds `key` to the ids written exactly when it moves. */
  lemma MovedStep(store: map<Id, Widget>, id: Id, r: int, done: set<Id>, key: Id)
    requires key in store
    ensures MovedWithin(store, id, r, done + {key})
         == MovedWithin(store, id, r, done) + (if Moves(store, id, r, key) then {key} else {})
  {
  }

  /** Once every record has been visited, the ids written are the ids the cascade moves. */
  lemma MovedComplete(store: map<Id, Widget>, id: Id, r: int)
    ensures forall k :: k in MovedWithin(store, id, r, store.Keys) <==> k in store && Moves(store, id, r, k)
  {
  }

  /** `snapshot[i]` is the record stored under `keys[i]`, and `keys` lists every stored id once. */
  ghost predicate KeyedBy(snapshot: seq<Widget>, keys: seq<Id>, store: map<Id, Widget>) {
    && |keys| == |snapshot|
    && (forall j | 0 <= j < |keys| :: keys[j] in store && store[keys[j]] == snapshot[j] && snapshot[j].id == Some(keys[j]))
    && (forall j, l | 0 <= j < l < |keys| :: keys[j] != keys[l])
    && (forall k | k in store :: k in keys)
  }

  /** The ids of a `findAll` snapshot, in the snapshot's order. */
  lemma {:induction false} SnapshotKeys(snapshot: seq<Widget>, store: map<Id, Widget>) returns (keys: seq<Id>)
    requires Enumerates(snapshot, store) && WellFormed(store)
    ensures KeyedBy(snapshot, keys, store)
  {
    keys := seq(|snapshot|, j requires 0 <= j < |snapshot| => snapshot[j].id.value);
    forall k | k in store ensures k in keys {
      assert store[k] in snapshot;
      var j :| 0 <= j < |snapshot| && snapshot[j] == store[k];
      assert store[k].id == Some(k);
      assert keys[j] == k;
    }
    assert forall j, l | 0 <= j < l < |keys| :: keys[j] != keys[l] by {
      forall j, l | 0 <= j < l < |keys| ensures keys[j] != keys[l] {
        assert snapshot[j].id != snapshot[l].id;
      }
    }
  }

  /** Once every record has been visited the partial cascade is the whole one. */
  lemma CascadeComplete(store: map<Id, Widget>, id: Id, r: int)
    ensures CascadeWithin(store, id, r, store.Keys) == Cascade(store, id, r)
  {
  }

  class WidgetService {
    const repo: WidgetHeapRepository
    /** `initialZIndex` of the configuration. */
    const initialZIndex: int

    ghost predicate Valid()
      reads this, repo
    {
      repo.Valid()
    }

    constructor (repo: WidgetHeapRepository, config: Config)
      ensures this.repo == repo && initialZIndex == config.initialZIndex
    {
      this.repo := repo;
      this.initialZIndex := config.initialZIndex;
    }

    /** `getHighestZIndex`: the stream max of a `findAll` snapshot. */
    method GetHighestZIndex() returns (h: int)
      requires Valid()
      ensures IsHighestZ(repo.widgets, initialZIndex, h)
      ensures h == HighestZ(repo.widgets, initialZIndex)
    {
      var snapshot := repo.FindAll();
      h := MaxZ(snapshot, initialZIndex);
      SnapshotMaxIsHighest(snapshot, repo.widgets, initialZIndex);
    }

    /**
      `updateWidgetZIndex`: returns the widget with its new z and, with a
      requested z, saves every other record at or above it moved up by one.
      `writes` lists the ids the cascade saved.
     */
    method UpdateWidgetZIndex(w: Widget, newZ: Option<int>) returns (updated: Widget, ghost writes: set<Id>)
      requires Valid() && w.id.Some?
      modifies repo
      ensures Valid()
      ensures updated == w.(z := MaintainedZ(old(repo.widgets), w, newZ, initialZIndex))
      ensures repo.widgets == if newZ.Some? then Cascade(old(repo.widgets), w.id.value, newZ.value) else old(repo.widgets)
      ensures forall k :: k in writes <==>
                newZ.Some? && k in old(repo.widgets) && Moves(old(repo.widgets), w.id.value, newZ.value, k)
    {
      writes := {};
      if newZ.None? {
        var highest := GetHighestZIndex();
        if w.isNew {
          updated := w.(z := highest + 1);
          return;
        }
        if highest > w.z {
          updated := w.(z := highest + 1);
        } else {
          updated := w;
        }
        return;
      }
      updated := w.(z := newZ.value);
      writes := MoveUpFrom(w.id.value, newZ.value);
    }

    /**
      The explicit branch of `updateWidgetZIndex`: every record but `id`'s
      with z at or above `r`, taken from a `findAll` snapshot, is saved with
      z + 1.
     */
    method MoveUpFrom(id: Id, r: int) returns (ghost writes: set<Id>)
      requires Valid()
      modifies repo
      ensures Valid()
      ensures repo.widgets == Cascade(old(repo.widgets), id, r)
      ensures forall k :: k in writes <==> k in old(repo.widgets) && Moves(old(repo.widgets), id, r, k)
    {
      var snapshot := repo.FindAll();
      ghost var keys := SnapshotKeys(snapshot, repo.widgets);
      writes := MoveUpAlong(snapshot, keys, id, r);
    }

    /** The loop of `MoveUpFrom` over a snapshot whose i-th record is stored under `keys[i]`. */
    method MoveUpAlong(snapshot: seq<Widget>, ghost keys: seq<Id>, id: Id, r: int) returns (ghost writes: set<Id>)
      requires Valid() && KeyedBy(snapshot, keys, repo.widgets)
      modifies repo
      ensures Valid()
      ensures repo.widgets == Cascade(old(repo.widgets), id, r)
      ensures forall k :: k in writes <==> k in old(repo.widgets) && Moves(old(repo.widgets), id, r, k)
    {
      writes := {};
      ghost var before := repo.widgets;
      ghost var done: set<Id> := {};
      var i := 0;
      while i < |snapshot|
        invariant 0 <= i <= |snapshot|
        invariant repo.Valid()
        invariant done <= before.Keys
        invariant forall j | 0 <= j < |keys| :: keys[j] in done <==> j < i
        invariant repo.widgets == CascadeWithin(before, id, r, done)
        invariant writes == MovedWithin(before, id, r, done)
      {
        var existing := snapshot[i];
        var key := existing.id.value;
        ghost var current := repo.widgets;
        MovedStep(before, id, r, done, key);
        if existing.z >= r && key != id {
          repo.Save(existing.(z := existing.z + 1));
          writes := writes + {key};
        }
        CascadeStep(before, id, r, done, key, current, repo.widgets);
        done := done + {key};
        i := i + 1;
      }
      assert done == before.Keys;
      CascadeComplete(before, id, r);
      MovedComplete(before, id, r);
    }

    /**
      `save`: stamps the modification time, maintains the z-order and files
      the widget under its id. Pairwise distinct z-indices stay distinct.
     */
    method Save(w: Widget, z: Option<int>, now: Timestamp) returns (saved: Widget)
      requires Valid() && w.id.Some?
      modifies repo
      ensures Valid()
      ensures saved == w.(lastModified := Some(now), z := MaintainedZ(old(repo.widgets), w, z, initialZIndex))
      ensures repo.widgets == MaintainThenSave(old(repo.widgets), w.(lastModified := Some(now)), z, initialZIndex)
      ensures ZDistinct(old(repo.widgets)) && CallerContract(old(repo.widgets), w) ==> ZDistinct(repo.widgets)
    {
      var stamped := w.(lastModified := Some(now));
      ghost var before := repo.widgets;
      ghost var writes;
      saved, writes := UpdateWidgetZIndex(stamped, z);
      repo.Save(saved);
      if ZDistinct(before) && CallerContract(before, w) {
        MaintainThenSaveKeepsZDistinct(before, stamped, z, initialZIndex);
      }
    }

    /** `findById`: the stored record, or `WidgetNotFound` for an unknown id. */
    method FindById(id: Id) returns (r: Result<Widget, ServiceError>)
      requires Valid()
      ensures r.Success? <==> id in repo.widgets
      ensures r.Success? ==> r.value == repo.widgets[id]
      ensures r.Failure? ==> r.error == WidgetNotFound(id)
    {
      var found := repo.FindById(id);
      if found.None? {
        return Failure(WidgetNotFound(id));
      }
      r := Success(found.value);
    }

    /**
      `getWidgetsInsideArea`: a snapshot of every widget for the sentinel
      area, and the snapshot filtered by the area otherwise.
     */
    method GetWidgetsInsideArea(area: Area) returns (r: seq<Widget>)
      requires Valid()
      ensures area == EmptyArea ==> Enumerates(r, repo.widgets)
      ensures area != EmptyArea ==>
                exists snapshot :: Enumerates(snapshot, repo.widgets) && r == FilterWidgetsInsideArea(snapshot, area)
      ensures forall w :: w in r <==> w in repo.widgets.Values && (area == EmptyArea || Inside(w, area))
    {
      var widgets := repo.FindAll();
      assert forall w :: w in widgets <==> w in repo.widgets.Values;
      if area == EmptyArea {
        return widgets;
      }
      r := FilterWidgetsInsideArea(widgets, area);
    }

    /** `deleteById`: removes the id; deleting an unknown id does nothing. */
    method DeleteById(id: Id)
      requires Valid()
      modifies repo
      ensures Valid()
      ensures repo.widgets == Remove(old(repo.widgets), id)
    {
      repo.DeleteById(id);
    }

    /**
      `createNew(x, y, width, height, z)`: a new widget under a fresh id
      (the random UUID, passed in), saved through `save`.
     */
    method CreateNew(x: int, y: int, width: int, height: int, z: Option<int>, freshId: Id, now: Timestamp)
      returns (created: Widget)
      requires Valid() && freshId !in repo.widgets
      modifies repo
      ensures Valid()
      ensures created.id == Some(freshId) && created.isNew && created.lastModified == Some(now)
      ensures created.x == x && created.y == y && created.width == width && created.height == height
      ensures created.z == MaintainedZ(old(repo.widgets), Built(freshId, x, y, width, height), z, initialZIndex)
      ensures repo.widgets ==
                MaintainThenSave(old(repo.widgets), Built(freshId, x, y, width, height).(lastModified := Some(now)), z, initialZIndex)
      ensures ZDistinct(old(repo.widgets)) ==> ZDistinct(repo.widgets)
    {
      var widget := NewWidget(freshId);
      widget := widget.(x := x);
      widget := widget.(y := y);
      widget := widget.(width := width);
      widget := widget.(height := height);
      created := Save(widget, z, now);
    }

    /**
      `updateOrCreate`: overwrites the supplied fields of the stored widget
      and saves it under its own id; for an unknown id every one of x, y,
      width and height is required and a new widget is created.
     */
    method UpdateOrCreate(id: Id, x: Option<int>, y: Option<int>, width: Option<int>, height: Option<int>,
                          z: Option<int>, freshId: Id, now: Timestamp)
      returns (r: Result<Widget, ServiceError>)
      requires Valid() && freshId !in repo.widgets
      modifies repo
      ensures Valid()
      ensures id in old(repo.widgets) ==>
                && r.Success?
                && r.value == Overwrite(old(repo.widgets)[id], x, y, width, height).(
                     lastModified := Some(now),
                     z := MaintainedZ(old(repo.widgets), Overwrite(old(repo.widgets)[id], x, y, width, height), z, initialZIndex))
                && repo.widgets == MaintainThenSave(old(repo.widgets),
                     Overwrite(old(repo.widgets)[id], x, y, width, height).(lastModified := Some(now)), z, initialZIndex)
      ensures id !in old(repo.widgets) && (x.None? || y.None? || width.None? || height.None?) ==>
                r == Failure(NullArgument) && repo.widgets == old(repo.widgets)
      ensures id !in old(repo.widgets) && x.Some? && y.Some? && width.Some? && height.Some? ==>
                && r.Success?
                && r.value == Built(freshId, x.value, y.value, width.value, height.value).(
                     lastModified := Some(now),
                     z := MaintainedZ(old(repo.widgets), Built(freshId, x.value, y.value, width.value, height.value), z, initialZIndex))
                && repo.widgets == MaintainThenSave(old(repo.widgets),
                     Built(freshId, x.value, y.value, width.value, height.value).(lastModified := Some(now)), z, initialZIndex)
      ensures ZDistinct(old(repo.widgets)) ==> ZDistinct(repo.widgets)
    {
      var found := repo.FindById(id);
      if found.None? {
        if x.None? || y.None? || width.None? || height.None? {
          return Failure(NullArgument);
        }
        var created := CreateNew(x.value, y.value, width.value, height.value, z, freshId, now);
        return Success(created);
      }
      var widget := OverwriteFields(found.value, x, y, width, height);
      var saved := Save(widget, z, now);
      r := Success(saved);
    }
  }
}
