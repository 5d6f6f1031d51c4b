# Widget z-order store, modelled in Dafny

This project models the core of the widgets server, a Java service that
stores axis-aligned rectangles ("widgets"). Each widget has an id, a position
(x, y), a size (width, height) and a stacking index z. The model covers five
parts of the server:

- **Widget record** (`domain.dfy`, module `Domain`). `Widget` is a datatype
  whose `id` may be null. `equals` and `hashCode` look at the id only, and
  `clone` is a field-for-field copy. `Area` and the server configuration live
  here too.
- **Containment filter** (`filtering.dfy`, module `Filtering`). This is the
  reference stream filter `filterWidgetsInsideArea`. A widget passes when all
  four inclusive bounds hold.
- **Heap repository** (`repository.dfy`, module `Repository`). The class
  `WidgetHeapRepository` has one mutable field, a `map<Id, Widget>`. `save`
  stores a copy with `isNew` cleared. `deleteById` removes the id, and
  deleting a missing id does nothing. `findAll` lists every record once, in
  an order the model leaves open.
- **Z-order maintainer** (`zorder.dfy`, module `ZOrder`, plus `service.dfy`,
  module `Service`).
  - `ZOrder` states the policy of `updateWidgetZIndex` as functions on the
    store.
    - With no requested z, a new widget goes to the highest z plus one. An
      existing widget is lifted there only when something lies above it.
    - With a requested z, one pass moves every *other* record at or above
      that z up by one.
    - The main lemma: pairwise distinct z-indices stay distinct after
      maintain-then-save.
  - The class `WidgetService` runs the same steps against the repository.
    The cascade is a loop over a `findAll` snapshot. Each method is proved
    equal to the `ZOrder` functions.
- **Controller request logic** (`listing.dfy`, module `Listing`, and
  `controller.dfy`, module `Controller`).
  - Page-size defaulting and clamping, and the offset.
  - Filter parameters must be given all together or not at all.
  - Required fields on create.
  - Partial update, and upsert of an unknown id.
  - Delete.
  - The `getAll` pipeline: filter, sort by z, skip, limit. It is shown not to
    depend on the order in which `findAll` lists the store, as long as
    z-indices are distinct.

Each operation runs as one atomic step, because the read/write locks are left
out. `LocalDateTime.now()` is a `now` parameter. `UUID.randomUUID()` is a
`freshId` parameter that must not be an id already in the store.

Widgets are values in the model. In the Java code, `findById` and `findAll`
hand out the stored objects themselves. `updateOrCreate`, `update` and the
cascade mutate those objects in place and then save a copy. In every
operation modelled here the final store is the same as in the value model:
- the cascade skips the widget's own id;
- the field overwrites touch only the record about to be saved;
- `getHighestZIndex` reads z before it is changed.

Where the code and its surrounding texts disagree, the model follows the
code:
- A first widget on an empty store gets `initialZIndex + 1`
  (`WidgetService.java:80` and `:96`), not `initialZIndex`.
- `WidgetHeapRepositoryTest.java:48` expects a loaded widget to still be
  `isNew`, but `WidgetHeapRepository.java:36` clears the flag.
- The controller calls a no-argument `widgetService.createNew()` that the
  service does not have. It is modelled as the factory part of the service's
  `createNew` (`WidgetService.java:286-288`): a fresh id and `isNew` set.
  Because of this, `update` of an unknown id stores the new widget under a
  fresh id, not under the id in the path.

## Model

| member | source | states |
|---|---|---|
| Domain.Wrap32 | server/src/main/java/test/widget/server/domain/Widget.java:84-86 | Java `int` arithmetic. The result is a 32-bit value congruent to the input modulo 2^32, and equal to the input when the input already fits. |
| Domain.StringHash | server/src/main/java/test/widget/server/domain/Widget.java:84-86 | `String.hashCode` of the id always yields a 32-bit value. |
| Domain.HashCode | server/src/main/java/test/widget/server/domain/Widget.java:84-86 | `Objects.hash(getId())` always yields a 32-bit value. |
| Domain.Clone | server/src/main/java/test/widget/server/domain/Widget.java:71-73 | `clone` copies every field: id, x, y, z, width, height, lastModified and isNew. |
| Domain.CloneIsCopy | server/src/main/java/test/widget/server/domain/Widget.java:71-73 | For every widget, including one with a null id, a clone is the same value and hashes like the original. |
| Domain.CloneEqualsOriginal | server/src/main/java/test/widget/server/domain/Widget.java:71-73 | A clone of a widget with an id is equal to its original under `equals`. |
| Domain.Equals | server/src/main/java/test/widget/server/domain/Widget.java:76-81 | `equals` throws exactly when the argument is a distinct widget and the receiver's id is null. It answers true only for the same reference or a widget with the same id. |
| Domain.EqualsIsIdEquality | server/src/main/java/test/widget/server/domain/Widget.java:76-81 | For a receiver with an id, `equals` on another widget returns true exactly when the ids are equal, and false exactly when they differ. |
| Domain.EqualsIgnoresNonIdFields | server/src/main/java/test/widget/server/domain/Widget.java:76-81 | Two arguments with the same id get the same answer, whatever their other fields hold. |
| Domain.EqualsReflexiveAndTyped | server/src/main/java/test/widget/server/domain/Widget.java:77-78 | `equals` returns true for the same reference and false for an object that is not a widget, even when the id is null. |
| Domain.EqualsSymmetric | server/src/main/java/test/widget/server/domain/Widget.java:79-80 | Between two widgets that both have ids, `equals` is symmetric. |
| Domain.EqualsOnNullIdFails | server/src/main/java/test/widget/server/domain/Widget.java:80 | A receiver with a null id throws on any distinct widget argument (`requireNonNull`). |
| Domain.EqualWidgetsHashEqually | server/src/main/java/test/widget/server/domain/Widget.java:84-86 | Widgets that `equals` calls equal have the same hash code. |
| Filtering.Inside | server/src/main/java/test/widget/server/service/impl/BasicWidgetFilteringService.java:22-25 | For a widget of non-negative size, the four inclusive bounds hold exactly when both its lower-left and its upper-right corner lie in the closed area. |
| Filtering.FilterWidgetsInsideArea | server/src/main/java/test/widget/server/service/impl/BasicWidgetFilteringService.java:19-27 | A widget is in the result exactly when it is in the input and meets the four inclusive bounds. The result keeps the input order, adds nothing, and is no longer than the input. |
| Filtering.FilterKeepsAllInside | server/src/main/java/test/widget/server/service/impl/BasicWidgetFilteringService.java:22-25 | A collection whose widgets all lie inside the area comes back unchanged. |
| Filtering.FilterIdempotent | server/src/main/java/test/widget/server/service/impl/BasicWidgetFilteringService.java:20-26 | Filtering the result again with the same area returns it unchanged. |
| Filtering.FilterOfEmpty | server/src/test/java/test/widget/server/service/WidgetFilteringComparisonTest.java:118-119 | An empty collection gives an empty result. |
| Filtering.FilterIndependentOfOrder | server/src/main/java/test/widget/server/service/impl/BasicWidgetFilteringService.java:20-26 | Two collections holding the same widgets, in any order, filter to the same widgets. |
| Filtering.FilterCounts | server/src/main/java/test/widget/server/service/impl/BasicWidgetFilteringService.java:20-26 | The filter keeps every copy of a widget inside the area and no copy of a widget outside it. |
| Filtering.FilterRespectsPermutation | server/src/main/java/test/widget/server/service/impl/BasicWidgetFilteringService.java:20-26 | Filtering two permutations of the same widgets gives two permutations of the same widgets. |
| Filtering.InclusiveBoundsScenario | server/src/test/java/test/widget/server/service/WidgetFilteringComparisonTest.java:44-83 | Area (0,0,100,150) keeps (0,0,100,100) and (0,50,100,100), which touch its edges. It drops (100,50,100,100). The result is exactly the first two, in order. |
| Repository.Stored | server/src/main/java/test/widget/server/repository/impl/WidgetHeapRepository.java:35-36 | The stored copy has `isNew` false and agrees with the saved widget in every other field. |
| Repository.Put | server/src/main/java/test/widget/server/repository/impl/WidgetHeapRepository.java:34-38 | `save` adds the widget's id to the keys, files the copy under it, and leaves every other id's record as it was. |
| Repository.Get | server/src/main/java/test/widget/server/repository/impl/WidgetHeapRepository.java:28-30 | `findById` finds a record exactly when the id is stored, and then returns that record. In a well-formed store the record carries that id and is not new. |
| Repository.Remove | server/src/main/java/test/widget/server/repository/impl/WidgetHeapRepository.java:41-43 | `deleteById` removes exactly that id and keeps every other record. A missing id leaves the store unchanged. |
| Repository.FindAfterSave | server/src/main/java/test/widget/server/repository/impl/WidgetHeapRepository.java:28-38 | After `save(w)`, `findById(w.id)` returns `w` with `isNew` false. Every other id reads as before. |
| Repository.SaveReplaces | server/src/main/java/test/widget/server/repository/impl/WidgetHeapRepository.java:37 | Saving under an existing id replaces its record, so the store does not grow. A new id adds exactly one entry. |
| Repository.FindAfterDelete | server/src/main/java/test/widget/server/repository/impl/WidgetHeapRepository.java:28-43 | After `deleteById(id)`, `findById(id)` is empty. Every other id reads as before. |
| Repository.DeleteIdempotent | server/src/main/java/test/widget/server/repository/impl/WidgetHeapRepository.java:41-43 | Deleting twice leaves the same store as deleting once. |
| Repository.MutationsKeepWellFormed | server/src/main/java/test/widget/server/repository/impl/WidgetHeapRepository.java:34-43 | Both `save` and `deleteById` keep every record under its own id and not new. |
| Repository.WidgetHeapRepository.constructor | server/src/main/java/test/widget/server/repository/impl/WidgetHeapRepository.java:25 | The repository starts with an empty map. |
| Repository.WidgetHeapRepository.FindById | server/src/main/java/test/widget/server/repository/impl/WidgetHeapRepository.java:28-30 | The answer is present exactly when the id is stored. It is then that record, carrying that id and not new. |
| Repository.WidgetHeapRepository.Save | server/src/main/java/test/widget/server/repository/impl/WidgetHeapRepository.java:34-38 | The new map is `Put` of the old one. The repository invariant is kept. |
| Repository.WidgetHeapRepository.DeleteById | server/src/main/java/test/widget/server/repository/impl/WidgetHeapRepository.java:41-43 | The new map is `Remove` of the old one. The repository invariant is kept. |
| Repository.WidgetHeapRepository.FindAll | server/src/main/java/test/widget/server/repository/impl/WidgetHeapRepository.java:46-48 | The list has one entry per stored id, each being that id's record, with no id twice and no record missing. |
| ZOrder.MaxZ | server/src/main/java/test/widget/server/service/WidgetService.java:75-81 | The stream max: `initial` for an empty snapshot. Otherwise it is some widget's z, and no widget's z is above it. |
| ZOrder.HighestZ | server/src/main/java/test/widget/server/service/WidgetService.java:75-81 | The highest z of the store: `initial` when the store is empty. Otherwise it is some record's z, and no record's z is above it. |
| ZOrder.SnapshotMaxIsHighest | server/src/main/java/test/widget/server/service/WidgetService.java:75-81 | The max of any `findAll` snapshot equals the store's highest z, whatever order the snapshot lists the records in. |
| ZOrder.MaintainedZ | server/src/main/java/test/widget/server/service/WidgetService.java:92-107 | A requested z is taken as given. Without one, the widget ends at or above every stored z. A new widget ends strictly above every stored z, and an existing widget never goes down. |
| ZOrder.Cascade | server/src/main/java/test/widget/server/service/WidgetService.java:109-115 | The cascade keeps the key set and changes only z-indices, each by at most one. The widget's own record and every record below the requested z stay. Every other record at or above it ends strictly above it. |
| ZOrder.MaintainThenSave | server/src/main/java/test/widget/server/service/WidgetService.java:154-158 | After maintain-then-save, the widget's id is stored with the maintained z and `isNew` cleared, and the key set gains only that id. Without a requested z no other record changes. With one, no record below it changes. |
| ZOrder.NewWidgetGoesOnTop | server/src/main/java/test/widget/server/service/WidgetService.java:92-97 | With no requested z, a new widget gets `initial + 1` on an empty store. Otherwise it gets some stored z plus one, above every stored z. |
| ZOrder.ExistingWidgetLiftedOnlyWhenCovered | server/src/main/java/test/widget/server/service/WidgetService.java:99-104 | With no requested z, an existing widget keeps its z exactly when nothing lies above it. Otherwise it goes to the highest z plus one. |
| ZOrder.ExplicitZCascades | server/src/main/java/test/widget/server/service/WidgetService.java:107-115 | With a requested z the widget gets exactly that z. Every other record at or above it moves up by exactly one. Records below it, and the widget's own stored record, stay as they were. No key is added except the widget's. |
| ZOrder.CascadeIdleWhenNothingAbove | server/src/main/java/test/widget/server/service/WidgetService.java:109-115 | When no other record is at or above the requested z, the cascade changes nothing. |
| ZOrder.CascadeKeepsWellFormed | server/src/main/java/test/widget/server/service/WidgetService.java:107-115 | The cascade keeps the key set and keeps every record under its own id. |
| ZOrder.MaintainThenSaveKeepsZDistinct | server/src/main/java/test/widget/server/service/WidgetService.java:91-117 | If stored z-indices are pairwise distinct, they stay pairwise distinct after z maintenance and the save of the widget, on every path. |
| ZOrder.AutomaticKeepsZDistinct | server/src/main/java/test/widget/server/service/WidgetService.java:92-104 | With no requested z and a caller that meets the caller contract, pairwise distinct z-indices stay pairwise distinct after maintain-then-save. |
| ZOrder.ExplicitKeepsZDistinct | server/src/main/java/test/widget/server/service/WidgetService.java:107-115 | With a requested z and a caller that meets the caller contract, pairwise distinct z-indices stay pairwise distinct after maintain-then-save. |
| ZOrder.NewWidget | server/src/main/java/test/widget/server/service/WidgetService.java:286-288 | The factory's widget carries the fresh id and is marked new. |
| ZOrder.HighestOfStacked | server/src/main/java/test/widget/server/service/WidgetService.java:75-81 | A store holding widgets at `initial + 1` to `initial + n` has highest z `initial + n`. |
| ZOrder.CreationStacksOnTop | server/src/main/java/test/widget/server/service/WidgetService.java:92-97 | Widgets created one after another without a requested z stack up in creation order. Each new widget lands right above the last and nothing else moves, whatever position, size and timestamp it carries. |
| ZOrder.RequestedZPushesUp | server/src/test/java/test/widget/server/service/WidgetServiceTest.java:57-84 | Widgets at 1, 2, 3 with the first requested at 2 end at 2, 3, 4. |
| Service.Overwrite | server/src/main/java/test/widget/server/service/WidgetService.java:221-235 | Each supplied field of x, y, width and height replaces its field. Every absent one, and id, z, isNew and lastModified, stay. |
| Service.OverwriteFields | server/src/main/java/test/widget/server/service/WidgetService.java:221-235 | The one-`if`-per-field overwrite gives exactly `Overwrite` of the widget. |
| Service.OverwriteNothing | server/src/main/java/test/widget/server/service/WidgetService.java:221-235 | With no field supplied, the widget is unchanged. |
| Service.OverwriteIdempotent | server/src/main/java/test/widget/server/service/WidgetService.java:221-235 | Applying the same update twice is the same as applying it once. |
| Service.Built | server/src/main/java/test/widget/server/service/WidgetService.java:286-292 | The widget `createNew` builds has the fresh id, `isNew` set, and the given position and size. |
| Service.EmptyAreaWouldDropWidgets | server/src/main/java/test/widget/server/service/WidgetService.java:184-188 | The sentinel `EMPTY_AREA` used as a real area would drop every widget with x + width >= 0. That is why it is tested for before filtering. |
| Service.WidgetService.constructor | server/src/main/java/test/widget/server/service/WidgetService.java:61-67 | The service keeps the repository it is given and takes its initial z-index from the configuration. |
| Service.WidgetService.GetHighestZIndex | server/src/main/java/test/widget/server/service/WidgetService.java:75-81 | The result is the store's highest z, or `initialZIndex` for an empty store. |
| Service.WidgetService.UpdateWidgetZIndex | server/src/main/java/test/widget/server/service/WidgetService.java:91-117 | Returns the widget with the maintained z. With a requested z the store becomes the cascade; without one it is unchanged. The ids written are exactly the records the cascade moves, so nothing is written when nothing lies at or above the requested z. |
| Service.WidgetService.MoveUpFrom | server/src/main/java/test/widget/server/service/WidgetService.java:107-115 | After a `findAll` snapshot, the store becomes the cascade. The ids written are exactly the other records at or above the requested z. |
| Service.WidgetService.MoveUpAlong | server/src/main/java/test/widget/server/service/WidgetService.java:109-115 | The loop over the snapshot's records saves exactly the other records at or above the requested z, each with z + 1, and leaves the store equal to the cascade. |
| Service.WidgetService.Save | server/src/main/java/test/widget/server/service/WidgetService.java:154-160 | The widget gets `lastModified := now` and its maintained z. The store becomes maintain-then-save of it, and distinct z-indices stay distinct. |
| Service.WidgetService.FindById | server/src/main/java/test/widget/server/service/WidgetService.java:128-142 | Returns the stored record exactly when the id is stored. Otherwise it fails with `WidgetNotFound(id)`. |
| Service.WidgetService.GetWidgetsInsideArea | server/src/main/java/test/widget/server/service/WidgetService.java:170-189 | For `EMPTY_AREA` it returns a full snapshot. For any other area it returns the filter of a snapshot. A widget is in the result exactly when it is stored and (the area is the sentinel or the widget lies inside it). |
| Service.WidgetService.DeleteById | server/src/main/java/test/widget/server/service/WidgetService.java:252-265 | The store loses exactly that id. A missing id changes nothing. |
| Service.WidgetService.CreateNew | server/src/main/java/test/widget/server/service/WidgetService.java:279-300 | The created widget has the fresh id, `isNew` set, the given fields, `now` and the maintained z. The store becomes maintain-then-save of it, and distinct z-indices stay distinct. |
| Service.WidgetService.UpdateOrCreate | server/src/main/java/test/widget/server/service/WidgetService.java:200-243 | For a stored id: only the supplied fields are overwritten, the widget keeps its id, and it is saved through `save`. For an unknown id with all four fields: the widget `createNew` builds, with the fresh id, the four given fields, `now` and its maintained z, stored by maintain-then-save. For an unknown id with a field missing: `NullArgument` and the store is unchanged. Distinct z-indices stay distinct. |
| Listing.EffectivePageSize | server/src/main/java/test/widget/server/controller/WidgetController.java:101-105 | The page size lies in [0, pageMaxSize]. An absent one becomes the default, clamped. A negative one becomes 0, one above the maximum becomes the maximum, and one in range is kept. |
| Listing.EffectiveOffset | server/src/main/java/test/widget/server/controller/WidgetController.java:128 | An absent or negative offset skips nothing. A non-negative one skips that many. |
| Listing.InsertByZ | server/src/main/java/test/widget/server/controller/WidgetController.java:127 | Inserting into a z-sorted sequence keeps it sorted and adds exactly that widget. |
| Listing.SortByZ | server/src/main/java/test/widget/server/controller/WidgetController.java:127 | The result is sorted ascending by z and is a permutation of the input. |
| Listing.Page | server/src/main/java/test/widget/server/controller/WidgetController.java:128-129 | Skip then limit. The length is min(size, what remains after the offset), and element i is input element offset + i. |
| Listing.Listed | server/src/main/java/test/widget/server/controller/WidgetController.java:113-130 | The response is sorted by z. Its length is `size` or what remains of the kept widgets after skipping `offset`, whichever is smaller. Every widget in it is from the snapshot and, with an area, inside that area. |
| Listing.ListedComplete | server/src/main/java/test/widget/server/controller/WidgetController.java:125-130 | From offset 0, a large enough page holds every kept widget exactly once. |
| Listing.SortedPermutationsEqual | server/src/main/java/test/widget/server/controller/WidgetController.java:127 | Two z-sorted arrangements of the same widgets are equal when no two of the widgets share a z. |
| Listing.SnapshotsArePermutations | server/src/main/java/test/widget/server/repository/impl/WidgetHeapRepository.java:46-48 | Any two `findAll` snapshots of one store are permutations of each other. |
| Listing.KeptArePermutations | server/src/main/java/test/widget/server/controller/WidgetController.java:113-123 | For two snapshots of one store, what survives the optional filter is the same widgets. |
| Listing.SortedIsStrict | server/src/main/java/test/widget/server/controller/WidgetController.java:125-127 | Sorting widgets that occur once each and share no z gives a strictly ascending order. |
| Listing.RankInStrict | server/src/main/java/test/widget/server/controller/WidgetController.java:125-127 | In a strictly ascending order, exactly k widgets lie below the k-th one. |
| Listing.PageOfStrict | server/src/main/java/test/widget/server/controller/WidgetController.java:128-129 | In a strictly ascending sequence, the k-th widget is on the page exactly when offset <= k < offset + size. |
| Listing.ListedWindow | server/src/main/java/test/widget/server/controller/WidgetController.java:113-130 | The window is stated without reference to the sort. When the kept widgets occur once each and share no z, a widget is on the page exactly when it passes the filter and the number of kept widgets below it lies in [offset, offset + size). |
| Listing.SnapshotKeptIsDistinct | server/src/main/java/test/widget/server/controller/WidgetController.java:113-124 | For a snapshot of a store with distinct z-indices, the widgets that pass the filter occur once each and share no z. |
| Listing.SnapshotListedWindow | server/src/main/java/test/widget/server/controller/WidgetController.java:113-130 | For every `findAll` snapshot of a store with distinct z-indices, the page holds exactly the kept widgets whose count of kept widgets below lies in [offset, offset + size). |
| Listing.ListedIndependentOfSnapshot | server/src/main/java/test/widget/server/controller/WidgetController.java:113-130 | With pairwise distinct z-indices, every `findAll` snapshot gives the same response page. |
| Controller.FirstMissing | server/src/main/java/test/widget/server/controller/WidgetController.java:156-170 | Names the first missing field in the order x, y, width, height, and nothing when all four are given. |
| Controller.FilteringParamsAreValid | server/src/main/java/test/widget/server/controller/WidgetController.java:148-177 | false exactly when all four are absent, true exactly when all four are present. Otherwise it fails naming the first missing field. |
| Controller.ValidateWidgetParams | server/src/main/java/test/widget/server/controller/WidgetController.java:231-247 | Passes exactly when x, y, width and height are all given (z is optional). Otherwise it fails naming the first missing one. |
| Controller.PartialFilterIsValidatedLikeWidget | server/src/main/java/test/widget/server/controller/WidgetController.java:148-177 | Once any filter field is given, the filter check fails exactly when the widget-field check would, and with the same error. |
| Controller.AreaOf | server/src/main/java/test/widget/server/controller/WidgetController.java:115-121 | An area is built exactly when the filter parameters are valid and complete, and from those four values. |
| Controller.EmptyUpdateKeepsTopWidget | server/src/main/java/test/widget/server/controller/WidgetController.java:309-326 | Updating the top-most widget with an empty body changes only its `lastModified`. x, y, width, height and z stay. |
| Controller.WidgetController.constructor | server/src/main/java/test/widget/server/controller/WidgetController.java:73-83 | The controller keeps the repository, configuration and service it is given. The service must work on the same repository and initial z-index. |
| Controller.WidgetController.GetAll | server/src/main/java/test/widget/server/controller/WidgetController.java:95-138 | Invalid filter parameters give that error. Otherwise the response is the listing of some `findAll` snapshot with the effective area, offset and page size. |
| Controller.WidgetController.CreateNew | server/src/main/java/test/widget/server/controller/WidgetController.java:188-223 | A missing field fails before anything is stored. Otherwise the factory widget, with the given fields, `now` and its maintained z, is returned and stored by maintain-then-save. Distinct z-indices stay distinct. |
| Controller.WidgetController.GetById | server/src/main/java/test/widget/server/controller/WidgetController.java:259-277 | Returns the stored record exactly when the id is stored. Otherwise it fails with `NotFound(id)`. |
| Controller.WidgetController.Update | server/src/main/java/test/widget/server/controller/WidgetController.java:289-334 | A known id gets only its supplied fields overwritten and is reported OK. An unknown id is validated like a create, stored as a new widget, and reported CREATED. A validation failure stores nothing. Distinct z-indices stay distinct. |
| Controller.WidgetController.Delete | server/src/main/java/test/widget/server/controller/WidgetController.java:343-359 | The id is gone afterwards, and nothing else changes. Deleting a missing id is not an error. |

## Left out

- Locking is not modelled: the read/write locks, `tryLock` with a timeout, and going on unlocked after a timeout. Every operation is one atomic step.
- The `.parallel()` stream of the cascade is modelled as a sequential loop. Each element is saved independently under its own id, so the final store is the same.
- `RTreeWidgetFilteringService` is not part of this model. It wraps an external R-tree library over float rectangles.
- The JPA repository, the Spring wiring, HTTP responses, the exception-to-status mapping and logging are not modelled. Only the result and error variants and the update status (OK or CREATED) are kept.
- The clock and `UUID.randomUUID()` are not modelled. They become the `now` and `freshId` parameters, and a fresh id is required not to be stored already.
- Filtering.Inside: uses mathematical integers. The Java `x + width` can wrap around 32 bits, and the model does not reproduce that.
- ZOrder.MaintainedZ: `highest + 1` and the cascade's `z + 1` use mathematical integers. At `Integer.MAX_VALUE` the Java code wraps to `Integer.MIN_VALUE`, which the model does not reproduce. The z-distinctness lemma relies on this.
- Domain.StringHash: hashes Dafny characters rather than UTF-16 code units. The two agree for characters of the Basic Multilingual Plane.
- Listing.SortByZ: states that the result is sorted and a permutation of the input. It does not state that the sort is stable. Stability matters only when two widgets share a z.
- Service.WidgetService.UpdateOrCreate: the `NullPointerException` of `requireNonNull` is a single `NullArgument` error and does not record which argument was null.
- Repository.WidgetHeapRepository.Save: requires a widget with an id. The source's map would throw on a null key, and no caller passes one.
- Object identity is not modelled. Widgets are values, so in-place mutation of records handed out by `findById` and `findAll` is not modelled. It does not change any final store in the operations above.
- The paging parameters object that `getAll` rewrites in place is a local value in the model. The caller's object is not updated.
