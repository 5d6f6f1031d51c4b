/**
  The request logic of controller/WidgetController.java: parameter
  validation, the `getAll` listing, create, read, update-or-create and
  delete, each one atomic step on the heap repository.
 */
module Controller {
  import opened Domain
  import opened Filtering
  import opened Repository
  import opened ZOrder
  import opened Service
  import opened Listing

  /** `PaginationParams`: both fields may be absent from the query string. */
  datatype PaginationParams = PaginationParams(offset: Option<int>, pageSize: Option<int>)

  /** `FilteringParams`: the query area, all four fields optional. */
  datatype FilteringParams = FilteringParams(x: Option<int>, y: Option<int>, width: Option<int>, height: Option<int>)

  /** `WidgetParams`: the request body of create and update. */
  datatype WidgetParams = WidgetParams(x: Option<int>, y: Option<int>, z: Option<int>, width: Option<int>, height: Option<int>)

  /** The exceptions the controller raises: `MissingServletRequestParameterException`, `WidgetNotFoundException`. */
  datatype ControllerError = MissingParameter(name: string) | NotFound(id: Id)

  /** The success status of a response. */
  datatype Status = Ok | Created

  /** The first of x, y, width, height that is missing, in the order the controller checks them. */
  function FirstMissing(x: Option<int>, y: Option<int>, width: Option<int>, height: Option<int>): (name: Option<string>)
    ensures name.None? <==> x.Some? && y.Some? && width.Some? && height.Some?
    ensures name == Some("x") <==> x.None?
    ensures name == Some("y") <==> x.Some? && y.None?
    ensures name == Some("width") <==> x.Some? && y.Some? && width.None?
    ensures name == Some("height") <==> x.Some? && y.Some? && width.Some? && height.None?
  {
    if x.None? then Some("x")
    else if y.None? then Some("y")
    else if width.None? then Some("width")
    else if height.None? then Some("height")
    else None
  }

  /**
    `filteringParamsAreValid`: no filtering when all four are absent,
    filtering when all four are present, and an error naming the first
    missing one otherwise.
   */
  function FilteringParamsAreValid(fp: FilteringParams): (r: Result<bool, ControllerError>)
    ensures r == Success(false) <==> fp.x.None? && fp.y.None? && fp.width.None? && fp.height.None?
    ensures r == Success(true) <==> fp.x.Some? && fp.y.Some? && fp.width.Some? && fp.height.Some?
    ensures r.Failure? ==> r.error == MissingParameter(FirstMissing(fp.x, fp.y, fp.width, fp.height).value)
  {
    if fp.x.None? && fp.y.None? && fp.width.None? && fp.height.None? then Success(false)
    else if fp.x.None? then Failure(MissingParameter("x"))
    else if fp.y.None? then Failure(MissingParameter("y"))
    else if fp.width.None? then Failure(MissingParameter("width"))
    else if fp.height.None? then Failure(MissingParameter("height"))
    else Success(true)
  }

  /** `validateWidgetParams`: x, y, width and height are required; z is not. */
  function ValidateWidgetParams(wp: WidgetParams): (r: Option<ControllerError>)
    ensures r.None? <==> wp.x.Some? && wp.y.Some? && wp.width.Some? && wp.height.Some?
    ensures r.Some? ==> r.value == MissingParameter(FirstMissing(wp.x, wp.y, wp.width, wp.height).value)
  {
    if wp.x.None? then Some(MissingParameter("x"))
    else if wp.y.None? then Some(MissingParameter("y"))
    else if wp.width.None? then Some(MissingParameter("width"))
    else if wp.height.None? then Some(MissingParameter("height"))
    else None
  }

  /** Once any filter field is given, the area is checked exactly like the fields of a new widget. */
  lemma PartialFilterIsValidatedLikeWidget(fp: FilteringParams, z: Option<int>)
    requires fp.x.Some? || fp.y.Some? || fp.width.Some? || fp.height.Some?
    ensures var v := ValidateWidgetParams(WidgetParams(fp.x, fp.y, z, fp.width, fp.height));
            && (FilteringParamsAreValid(fp).Failure? <==> v.Some?)
            && (v.Some? ==> FilteringParamsAreValid(fp).error == v.value)
  {
  }

  /** The area a valid, complete set of filter fields describes. */
  function AreaOf(fp: FilteringParams): (area: Option<Area>)
    requires FilteringParamsAreValid(fp).Success?
    ensures area.Some? <==> FilteringParamsAreValid(fp).value
    ensures area.Some? ==> area.value == Area(fp.x.value, fp.y.value, fp.width.value, fp.height.value)
  {
    if fp.x.Some? then Some(Area(fp.x.value, fp.y.value, fp.width.value, fp.height.value)) else None
  }

  /**
    Updating a widget that is already on top with an empty body changes
    only its modification time: its position, size and z stay.
   */
  lemma EmptyUpdateKeepsTopWidget(store: map<Id, Widget>, id: Id, initial: int, now: Timestamp)
    requires WellFormed(store) && id in store && store[id].z == HighestZ(store, initial)
    ensures MaintainThenSave(store, Overwrite(store[id], None, None, None, None).(lastModified := Some(now)), None, initial)
         == store[id := store[id].(lastModified := Some(now))]
  {
    var w := Overwrite(store[id], None, None, None, None).(lastModified := Some(now));
    ExistingWidgetLiftedOnlyWhenCovered(store, w, initial);
  }

  class WidgetController {
    const repo: WidgetHeapRepository
    const service: WidgetService
    const config: Config

    ghost predicate Valid()
      reads this, repo, service
    {
      && service.repo == repo
      && service.initialZIndex == config.initialZIndex
      && repo.Valid()
      && ValidConfig(config)
    }

    constructor (repo: WidgetHeapRepository, config: Config, service: WidgetService)
      requires service.repo == repo && service.initialZIndex == config.initialZIndex
      ensures this.repo == repo && this.config == config && this.service == service
    {
      this.repo := repo;
      this.config := config;
      this.service := service;
    }

    /**
      `getAll`: settles the page size in place, takes a `findAll` snapshot,
      filters it when an area is given, sorts it by z and cuts out the page.
     */
    method GetAll(fp: FilteringParams, pp: PaginationParams) returns (r: Result<seq<Widget>, ControllerError>)
      requires Valid()
      ensures FilteringParamsAreValid(fp).Failure? ==> r == Failure(FilteringParamsAreValid(fp).error)
      ensures FilteringParamsAreValid(fp).Success? ==>
                && r.Success?
                && exists snapshot :: Enumerates(snapshot, repo.widgets) &&
                     r.value == Listed(snapshot, AreaOf(fp), EffectiveOffset(pp.offset), EffectivePageSize(pp.pageSize, config))
    {
      var pagination := pp;
      if pagination.pageSize.None? {
        pagination := pagination.(pageSize := Some(config.pageDefaultSize));
      }
      pagination := pagination.(pageSize := Some(Min(Max(pagination.pageSize.value, 0), config.pageMaxSize)));
      var widgets := repo.FindAll();
      ghost var snapshot := widgets;
      var valid := FilteringParamsAreValid(fp);
      if valid.Failure? {
        return Failure(valid.error);
      }
      if valid.value {
        var area := Area(fp.x.value, fp.y.value, fp.width.value, fp.height.value);
        widgets := FilterWidgetsInsideArea(widgets, area);
      }
      var sorted := SortByZ(widgets);
      var offset := if pagination.offset.None? then 0 else Max(pagination.offset.value, 0);
      r := Success(Page(sorted, offset, pagination.pageSize.value));
      assert r.value == Listed(snapshot, AreaOf(fp), EffectiveOffset(pp.offset), EffectivePageSize(pp.pageSize, config));
    }

    /**
      `createNew`: validates the body, builds a widget from the factory's
      fresh id and the body's fields, maintains the z-order and stores it.
     */
    method CreateNew(wp: WidgetParams, freshId: Id, now: Timestamp) returns (r: Result<Widget, ControllerError>)
      requires Valid() && freshId !in repo.widgets
      modifies repo
      ensures Valid()
      ensures ValidateWidgetParams(wp).Some? ==>
                r == Failure(ValidateWidgetParams(wp).value) && repo.widgets == old(repo.widgets)
      ensures ValidateWidgetParams(wp).None? ==>
                var built := Built(freshId, wp.x.value, wp.y.value, wp.width.value, wp.height.value).(lastModified := Some(now));
                && r == Success(built.(z := MaintainedZ(old(repo.widgets), built, wp.z, config.initialZIndex)))
                && repo.widgets == MaintainThenSave(old(repo.widgets), built, wp.z, config.initialZIndex)
      ensures ZDistinct(old(repo.widgets)) ==> ZDistinct(repo.widgets)
    {
      var invalid := ValidateWidgetParams(wp);
      if invalid.Some? {
        return Failure(invalid.value);
      }
      var widget := NewWidget(freshId);
      widget := widget.(x := wp.x.value);
      widget := widget.(y := wp.y.value);
      widget := widget.(width := wp.width.value);
      widget := widget.(height := wp.height.value);
      widget := widget.(lastModified := Some(now));
      ghost var before := repo.widgets;
      ghost var writes;
      widget, writes := service.UpdateWidgetZIndex(widget, wp.z);
      repo.Save(widget);
      r := Success(widget);
      ghost var built := Built(freshId, wp.x.value, wp.y.value, wp.width.value, wp.height.value).(lastModified := Some(now));
      if ZDistinct(before) {
        MaintainThenSaveKeepsZDistinct(before, built, wp.z, config.initialZIndex);
      }
    }

    /** `getById`: the stored widget, or `WidgetNotFoundException` for an unknown id. */
    method GetById(id: Id) returns (r: Result<Widget, ControllerError>)
      requires Valid()
      ensures r.Success? <==> id in repo.widgets
      ensures r.Success? ==> r.value == repo.widgets[id] && r.value.id == Some(id)
      ensures r.Failure? ==> r.error == NotFound(id)
    {
      var found := repo.FindById(id);
      if found.None? {
        return Failure(NotFound(id));
      }
      r := Success(found.value);
    }

    /**
      `update`: overwrites the supplied fields of the widget stored under
      `id` (status OK); for an unknown id it validates the body and stores a
      new widget from the factory (status CREATED).
     */
    method Update(wp: WidgetParams, id: Id, freshId: Id, now: Timestamp) returns (r: Result<(Widget, Status), ControllerError>)
      requires Valid() && freshId !in repo.widgets
      modifies repo
      ensures Valid()
      ensures id in old(repo.widgets) ==>
                var edited := Overwrite(old(repo.widgets)[id], wp.x, wp.y, wp.width, wp.height).(lastModified := Some(now));
                && r == Success((edited.(z := MaintainedZ(old(repo.widgets), edited, wp.z, config.initialZIndex)), Ok))
                && repo.widgets == MaintainThenSave(old(repo.widgets), edited, wp.z, config.initialZIndex)
      ensures id !in old(repo.widgets) && ValidateWidgetParams(wp).Some? ==>
                r == Failure(ValidateWidgetParams(wp).value) && repo.widgets == old(repo.widgets)
      ensures id !in old(repo.widgets) && ValidateWidgetParams(wp).None? ==>
                var built := Built(freshId, wp.x.value, wp.y.value, wp.width.value, wp.height.value).(lastModified := Some(now));
                && r == Success((built.(z := MaintainedZ(old(repo.widgets), built, wp.z, config.initialZIndex)), Created))
                && repo.widgets == MaintainThenSave(old(repo.widgets), built, wp.z, config.initialZIndex)
      ensures ZDistinct(old(repo.widgets)) ==> ZDistinct(repo.widgets)
    {
      var found := repo.FindById(id);
      var widget := if found.Some? then found.value else NewWidget(freshId);
      if widget.isNew {
        var invalid := ValidateWidgetParams(wp);
        if invalid.Some? {
          return Failure(invalid.value);
        }
      }
      widget := widget.(lastModified := Some(now));
      widget := OverwriteFields(widget, wp.x, wp.y, wp.width, wp.height);
      ghost var before := repo.widgets;
      ghost var edited := widget;
      ghost var writes;
      widget, writes := service.UpdateWidgetZIndex(widget, wp.z);
      repo.Save(widget);
      r := Success((widget, if widget.isNew then Created else Ok));
      if ZDistinct(before) {
        MaintainThenSaveKeepsZDistinct(before, edited, wp.z, config.initialZIndex);
      }
    }

    /** `delete`: removes the id; an unknown id is not an error. */
    method Delete(id: Id)
      requires Valid()
      modifies repo
      ensures Valid()
      ensures repo.widgets == Remove(old(repo.widgets), id)
      ensures id !in repo.widgets
    {
      repo.DeleteById(id);
    }
  }
}
