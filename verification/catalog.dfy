/** The plant catalog and what the page derives from it when it opens:
    the record for the route's id, its two text forms, or "Plant not found". */
module Catalog {
  import opened Wrappers
  import opened Sequences
  import Formatter

  /** One catalog entry. The catalog holds further fields the component never reads. */
  datatype PlantRecord = PlantRecord(id: string, name: string, description: string)

  /** The record the page shows, with the display and narration forms it computes on opening. */
  datatype LoadedPlant = LoadedPlant(record: PlantRecord, descriptionHtml: string, ttsText: string)

  /** The page fields set while opening: the plant (null until found), the
      loading flag and the error message. */
  datatype Page = Page(plant: Option<LoadedPlant>, isLoading: bool, error: Option<string>)

  const NotFound: string := "Plant not found"

  /** The page before it has opened. */
  const InitialPage: Page := Page(None, true, None)

  /** The catalog's `find(p => p.id === id)`. The route id is None when the
      route carries no `id` parameter; it then equals no record's id. */
  function Lookup(catalog: seq<PlantRecord>, routeId: Option<string>): (r: Option<PlantRecord>)
    ensures r.Some? <==> routeId.Some? && exists i :: 0 <= i < |catalog| && catalog[i].id == routeId.value
    ensures r.Some? ==> exists i :: 0 <= i < |catalog| && r.value == catalog[i] && r.value.id == routeId.value
                                   && forall j :: 0 <= j < i ==> catalog[j].id != routeId.value
  {
    match routeId
    case None => None
    case Some(id) => Find(catalog, (p: PlantRecord) => p.id == id)
  }

  /** Opening the page: look the plant up; on a hit attach its display and
      narration forms, otherwise record the not-found error. Loading ends either way. */
  function Open(catalog: seq<PlantRecord>, routeId: Option<string>): (page: Page)
    ensures !page.isLoading
    ensures page.plant.None? <==> page.error == Some(NotFound)
    ensures page.plant.None? <==> Lookup(catalog, routeId).None?
    ensures page.plant.Some? ==> page.error.None?
    ensures page.plant.Some? ==>
              && page.plant.value.record == Lookup(catalog, routeId).value
              && page.plant.value.descriptionHtml == Formatter.DisplayForm(page.plant.value.record.description)
              && page.plant.value.ttsText == Formatter.NarrationForm(page.plant.value.record.description)
  {
    match Lookup(catalog, routeId)
    case Some(p) =>
      var plant := LoadedPlant(p, Formatter.DisplayForm(p.description), Formatter.NarrationForm(p.description));
      InitialPage.(plant := Some(plant), isLoading := false)
    case None =>
      InitialPage.(error := Some(NotFound), isLoading := false)
  }

  /** An id the catalog lacks opens the not-found page, e.g. `PLANT999`
      against a catalog holding only `PLANT001`. */
  lemma UnknownIdNotFound(catalog: seq<PlantRecord>, id: string)
    requires forall i :: 0 <= i < |catalog| ==> catalog[i].id != id
    ensures Open(catalog, Some(id)) == Page(None, false, Some(NotFound))
  {
  }
}
