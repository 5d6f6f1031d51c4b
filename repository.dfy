/**
  The in-memory widget store (repository/impl/WidgetHeapRepository.java):
  a map from id to a private copy of the widget.
 */
module Repository {
  import opened Domain

  /** Every record is filed under its own id, and no stored record is marked new. */
  predicate WellFormed(store: map<Id, Widget>) {
    forall k | k in store :: store[k].id == Some(k) && !store[k].isNew
  }

  /** The copy `save` files away: the widget with `isNew` cleared. */
  function Stored(w: Widget): (c: Widget)
    ensures !c.isNew
    ensures c.(isNew := w.isNew) == w
  {
    Clone(w).(isNew := false)
  }

  /** The store after `save(w)`. */
  function Put(store: map<Id, Widget>, w: Widget): (s: map<Id, Widget>)
    requires w.id.Some?
    ensures s.Keys == store.Keys + {w.id.value}
    ensures s[w.id.value] == Stored(w)
    ensures forall k | k in store && k != w.id.value :: s[k] == store[k]
  {
    store[w.id.value := Stored(w)]
  }

  /** The store after `deleteById(id)`; a missing id leaves it as it was. */
  function Remove(store: map<Id, Widget>, id: Id): (s: map<Id, Widget>)
    ensures s.Keys == store.Keys - {id}
    ensures forall k | k in s :: s[k] == store[k]
    ensures id !in store ==> s == store
  {
    store - {id}
  }

  /** The answer of `findById(id)`. */
  function Get(store: map<Id, Widget>, id: Id): (r: Option<Widget>)
    ensures r.Some? <==> id in store
    ensures r.Some? ==> r.value == store[id]
    ensures WellFormed(store) && r.Some? ==> r.value.id == Some(id) && !r.value.isNew
  {
    if id in store then Some(store[id]) else None
  }

  /** `ws` lists every record of the store exactly once, in some order. */
  predicate Enumerates(ws: seq<Widget>, store: map<Id, Widget>) {
    && |ws| == |store|
    && (forall i | 0 <= i < |ws| :: ws[i].id.Some? && ws[i].id.value in store && store[ws[i].id.value] == ws[i])
    && (forall i, j | 0 <= i < j < |ws| :: ws[i].id != ws[j].id)
    && (forall k | k in store :: store[k] in ws)
  }

  /**
    After `save(w)`, `findById` of its id gives a record equal to `w` in every
    field but `isNew`, which is false; every other id reads as before.
   */
  lemma FindAfterSave(store: map<Id, Widget>, w: Widget, other: Id)
    requires w.id.Some?
    ensures Get(Put(store, w), w.id.value) == Some(w.(isNew := false))
    ensures other != w.id.value ==> Get(Put(store, w), other) == Get(store, other)
  {
  }

  /** Saving under an existing id replaces its record: the store does not grow. */
  lemma SaveReplaces(store: map<Id, Widget>, w: Widget)
    requires w.id.Some?
    ensures w.id.value in store ==> |Put(store, w)| == |store|
    ensures w.id.value !in store ==> |Put(store, w)| == |store| + 1
  {
  }

  /** After `deleteById(id)` the id reads as missing and every other id as before. */
  lemma FindAfterDelete(store: map<Id, Widget>, id: Id, other: Id)
    ensures Get(Remove(store, id), id) == None
    ensures other != id ==> Get(Remove(store, id), other) == Get(store, other)
  {
  }

  /** Deleting twice is deleting once. */
  lemma DeleteIdempotent(store: map<Id, Widget>, id: Id)
    ensures Remove(Remove(store, id), id) == Remove(store, id)
  {
  }

  /** Both mutations keep every record under its own id and not new. */
  lemma MutationsKeepWellFormed(store: map<Id, Widget>, w: Widget, id: Id)
    requires WellFormed(store) && w.id.Some?
    ensures WellFormed(Put(store, w))
    ensures WellFormed(Remove(store, id))
  {
  }

  class WidgetHeapRepository {
    /** `widgets`: the concurrent map of the source, keyed by widget id. */
    var widgets: map<Id, Widget>

    ghost predicate Valid()
      reads this
    {
      WellFormed(widgets)
    }

    constructor ()
      ensures Valid() && widgets == map[]
    {
      widgets := map[];
    }

    /** `findById`: the stored record, or empty for an id never saved or deleted. */
    method FindById(id: Id) returns (r: Option<Widget>)
      requires Valid()
      ensures r.Some? <==> id in widgets
      ensures r.Some? ==> r.value == widgets[id] && r.value.id == Some(id) && !r.value.isNew
    {
      if id in widgets {
        r := Some(widgets[id]);
      } else {
        r := None;
      }
    }

    /** `save`: files a copy of the widget, with `isNew` cleared, under its id. */
    method Save(w: Widget)
      requires Valid() && w.id.Some?
      modifies this
      ensures Valid()
      ensures widgets == Put(old(widgets), w)
    {
      var cloned := Clone(w);
      cloned := cloned.(isNew := false);
      widgets := widgets[w.id.value := cloned];
    }

    /** `deleteById`: removes the id; a missing id is a silent no-op. */
    method DeleteById(id: Id)
      requires Valid()
      modifies this
      ensures Valid()
      ensures widgets == Remove(old(widgets), id)
    {
      widgets := widgets - {id};
    }

    /** `findAll`: every stored record once, in the map's (unspecified) order. */
    method FindAll() returns (ws: seq<Widget>)
      requires Valid()
      ensures Enumerates(ws, widgets)
    {
      ws := [];
      var rest := widgets.Keys;
      while rest != {}
        invariant rest <= widgets.Keys
        invariant |ws| + |rest| == |widgets.Keys|
        invariant forall i | 0 <= i < |ws| ::
          ws[i].id.Some? && ws[i].id.value in widgets.Keys - rest && widgets[ws[i].id.value] == ws[i]
        invariant forall i, j | 0 <= i < j < |ws| :: ws[i].id != ws[j].id
        invariant forall k | k in widgets.Keys - rest :: widgets[k] in ws
        decreases rest
      {
        var k :| k in rest;
        ws := ws + [widgets[k]];
        rest := rest - {k};
      }
    }
  }
}
