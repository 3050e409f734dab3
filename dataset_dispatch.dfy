/**
 * How `load_gee_as_image` decides whether a dataset identifier is loaded as
 * an Image, as an ImageCollection reduced to its median, or as a
 * FeatureCollection burnt into a raster. The catalog the page downloads is an
 * input here, and only the choice of branch is modelled, not the remote
 * objects the branch then builds.
 */
module DatasetDispatch {
  import opened Results

  /** One item of the catalog JSON; a key the item lacks is `None`. */
  datatype CatalogEntry = CatalogEntry(id: Option<string>, kind: Option<string>)

  /** The KeyError raised while reading an item's `id` or `type`. */
  datatype CatalogError = MissingKey(key: string)

  /**
   * `[item["type"] for item in catalog if item["id"] == dataset_id]`: every
   * item's `id` is read, and the `type` of each item that matches.
   */
  function MatchingTypes(catalog: seq<CatalogEntry>, datasetId: string): (r: Result<seq<string>, CatalogError>)
    ensures r.Ok? ==> |r.value| <= |catalog|
    ensures r.Err? ==> r.error.key in {"id", "type"}
  {
    if catalog == [] then Ok([])
    else
      var entry := catalog[0];
      if entry.id.None? then Err(MissingKey("id"))
      else if entry.id.value != datasetId then MatchingTypes(catalog[1..], datasetId)
      else if entry.kind.None? then Err(MissingKey("type"))
      else
        match MatchingTypes(catalog[1..], datasetId)
        case Err(e) => Err(e)
        case Ok(rest) => Ok([entry.kind.value] + rest)
  }

  /** `sep.join(parts)`. */
  function Join(sep: string, parts: seq<string>): (r: string)
    ensures parts == [] ==> r == ""
    ensures |parts| == 1 ==> r == parts[0]
    ensures |parts| >= 2 ==>
      && |parts[0]| + |sep| <= |r|
      && r[..|parts[0]|] == parts[0]
      && r[|parts[0]|..|parts[0]| + |sep|] == sep
  {
    if parts == [] then ""
    else if |parts| == 1 then parts[0]
    else parts[0] + sep + Join(sep, parts[1..])
  }

  /** Every item has an `id`, and every item with the requested `id` has a `type`. */
  ghost predicate WellFormed(catalog: seq<CatalogEntry>, datasetId: string)
  {
    forall i :: 0 <= i < |catalog| ==>
      catalog[i].id.Some? && (catalog[i].id.value == datasetId ==> catalog[i].kind.Some?)
  }

  ghost predicate NoMatch(catalog: seq<CatalogEntry>, datasetId: string)
  {
    forall i :: 0 <= i < |catalog| ==> catalog[i].id != Some(datasetId)
  }

  /** Exactly one item has the requested `id`, and its `type` is `kind`. */
  ghost predicate UniqueMatch(catalog: seq<CatalogEntry>, datasetId: string, kind: string)
  {
    exists i :: 0 <= i < |catalog| && catalog[i].id == Some(datasetId) && catalog[i].kind == Some(kind) &&
      forall j :: 0 <= j < |catalog| && j != i ==> catalog[j].id != Some(datasetId)
  }

  /** A Python value as it reaches the function: `None`, a string or a date. */
  datatype PyValue = PyNone | PyStr(s: string) | PyDate(iso: string)

  /** Python's `str(value)`: always a string, `"None"` for `None`. */
  function Str(v: PyValue): (r: PyValue)
    ensures r.PyStr?
    ensures v.PyNone? ==> r.s == "None"
    ensures v.PyStr? ==> r == v
  {
    match v
    case PyNone => PyStr("None")
    case PyStr(_) => v
    case PyDate(iso) => PyStr(iso)
  }

  /** The branch taken; `dateFiltered` is whether `filterDate` is applied in it. */
  datatype Loader =
    | LoadImage
    | LoadCollectionMedian(dateFiltered: bool)
    | LoadFeatureRaster(dateFiltered: bool)

  /** The `if`/`elif`/`else` on the joined type string. */
  function SelectLoader(dataStr: string, filtered: bool): (r: Loader)
    ensures r.LoadImage? <==> dataStr == "image"
    ensures r.LoadCollectionMedian? <==> dataStr == "image_collection"
    ensures !r.LoadImage? ==> r.dateFiltered == filtered
  {
    if dataStr == "image" then LoadImage
    else if dataStr == "image_collection" then LoadCollectionMedian(filtered)
    else LoadFeatureRaster(filtered)
  }

  /**
   * The branch `load_gee_as_image` takes for `datasetId`, or the KeyError it
   * raises. As written, the dates are tested for `None` after `str()` has
   * turned them into strings.
   */
  function ChooseLoader(catalog: seq<CatalogEntry>, datasetId: string, startDate: PyValue, endDate: PyValue)
    : (r: Result<Loader, CatalogError>)
    ensures r.Err? <==> MatchingTypes(catalog, datasetId).Err?
    ensures r.Ok? ==> r.value == SelectLoader(Join(" ", MatchingTypes(catalog, datasetId).value), false)
  {
    match MatchingTypes(catalog, datasetId)
    case Err(e) => Err(e)
    case Ok(types) =>
      var dataStr := Join(" ", types);
      var startStr := Str(startDate);
      var endStr := Str(endDate);
      Ok(SelectLoader(dataStr, startStr.PyNone? && endStr.PyNone?))
  }

  /**
   * The corrected dispatch: the same branch, with `filterDate` applied when
   * the user supplied both dates, as the comment on the collection branch and
   * the docstring describe.
   */
  function ChooseLoaderCorrected(catalog: seq<CatalogEntry>, datasetId: string, startDate: PyValue, endDate: PyValue)
    : (r: Result<Loader, CatalogError>)
    ensures r.Err? <==> MatchingTypes(catalog, datasetId).Err?
    ensures r.Ok? ==> r.value.LoadImage? || (r.value.dateFiltered <==> !startDate.PyNone? && !endDate.PyNone?)
  {
    match MatchingTypes(catalog, datasetId)
    case Err(e) => Err(e)
    case Ok(types) =>
      Ok(SelectLoader(Join(" ", types), !startDate.PyNone? && !endDate.PyNone?))
  }

  // ---------------------------------------------------------------------------
  // The joined type string
  // ---------------------------------------------------------------------------

  /**
   * A space-free, non-empty type name is the space-join of a list exactly when
   * the list holds that one name: no list of several types can equal it.
   */
  lemma JoinEqualsSingleType(parts: seq<string>, kind: string)
    requires kind != [] && ' ' !in kind
    ensures Join(" ", parts) == kind <==> parts == [kind]
  {
    if |parts| >= 2 {
      var joined := Join(" ", parts);
      assert joined == parts[0] + " " + Join(" ", parts[1..]);
      assert joined[|parts[0]|] == ' ';
    }
  }

  // ---------------------------------------------------------------------------
  // The list comprehension against the catalog
  // ---------------------------------------------------------------------------

  lemma WellFormedTail(catalog: seq<CatalogEntry>, datasetId: string)
    requires catalog != []
    ensures WellFormed(catalog, datasetId) <==>
      && catalog[0].id.Some?
      && (catalog[0].id.value == datasetId ==> catalog[0].kind.Some?)
      && WellFormed(catalog[1..], datasetId)
  {
    if catalog[0].id.Some? && (catalog[0].id.value == datasetId ==> catalog[0].kind.Some?) && WellFormed(catalog[1..], datasetId) {
      forall i | 0 <= i < |catalog|
        ensures catalog[i].id.Some? && (catalog[i].id.value == datasetId ==> catalog[i].kind.Some?)
      {
        if i > 0 {
          assert catalog[i] == catalog[1..][i - 1];
        }
      }
    }
  }

  lemma NoMatchTail(catalog: seq<CatalogEntry>, datasetId: string)
    requires catalog != []
    ensures NoMatch(catalog, datasetId) <==> catalog[0].id != Some(datasetId) && NoMatch(catalog[1..], datasetId)
  {
    if catalog[0].id != Some(datasetId) && NoMatch(catalog[1..], datasetId) {
      forall i | 0 <= i < |catalog|
        ensures catalog[i].id != Some(datasetId)
      {
        if i > 0 {
          assert catalog[i] == catalog[1..][i - 1];
        }
      }
    }
  }

  /** The comprehension raises exactly when some item lacks a key it reads. */
  lemma {:induction false} MatchingTypesFailsIff(catalog: seq<CatalogEntry>, datasetId: string)
    ensures MatchingTypes(catalog, datasetId).Err? <==> !WellFormed(catalog, datasetId)
  {
    if catalog != [] {
      WellFormedTail(catalog, datasetId);
      MatchingTypesFailsIff(catalog[1..], datasetId);
    }
  }

  /** The comprehension yields no type exactly when no item has the requested id. */
  lemma {:induction false} MatchingTypesEmptyIff(catalog: seq<CatalogEntry>, datasetId: string)
    ensures MatchingTypes(catalog, datasetId) == Ok([]) <==>
      WellFormed(catalog, datasetId) && NoMatch(catalog, datasetId)
  {
    if catalog != [] {
      WellFormedTail(catalog, datasetId);
      NoMatchTail(catalog, datasetId);
      MatchingTypesEmptyIff(catalog[1..], datasetId);
    }
  }

  lemma UniqueMatchTail(catalog: seq<CatalogEntry>, datasetId: string, kind: string)
    requires catalog != []
    ensures catalog[0].id != Some(datasetId) ==>
      (UniqueMatch(catalog, datasetId, kind) <==> UniqueMatch(catalog[1..], datasetId, kind))
    ensures catalog[0].id == Some(datasetId) ==>
      (UniqueMatch(catalog, datasetId, kind) <==>
        catalog[0].kind == Some(kind) && NoMatch(catalog[1..], datasetId))
  {
    var rest := catalog[1..];
    if catalog[0].id != Some(datasetId) {
      if UniqueMatch(catalog, datasetId, kind) {
        var i :| 0 <= i < |catalog| && catalog[i].id == Some(datasetId) && catalog[i].kind == Some(kind) &&
          forall j :: 0 <= j < |catalog| && j != i ==> catalog[j].id != Some(datasetId);
        assert rest[i - 1] == catalog[i];
        forall j | 0 <= j < |rest| && j != i - 1
          ensures rest[j].id != Some(datasetId)
        {
          assert rest[j] == catalog[j + 1];
        }
      }
      if UniqueMatch(rest, datasetId, kind) {
        var i :| 0 <= i < |rest| && rest[i].id == Some(datasetId) && rest[i].kind == Some(kind) &&
          forall j :: 0 <= j < |rest| && j != i ==> rest[j].id != Some(datasetId);
        assert catalog[i + 1] == rest[i];
        forall j | 0 <= j < |catalog| && j != i + 1
          ensures catalog[j].id != Some(datasetId)
        {
          if j > 0 {
            assert catalog[j] == rest[j - 1];
          }
        }
      }
    } else {
      if UniqueMatch(catalog, datasetId, kind) {
        var i :| 0 <= i < |catalog| && catalog[i].id == Some(datasetId) && catalog[i].kind == Some(kind) &&
          forall j :: 0 <= j < |catalog| && j != i ==> catalog[j].id != Some(datasetId);
        assert i == 0;
        forall j | 0 <= j < |rest|
          ensures rest[j].id != Some(datasetId)
        {
          assert rest[j] == catalog[j + 1];
        }
      }
      if catalog[0].kind == Some(kind) && NoMatch(rest, datasetId) {
        forall j | 0 <= j < |catalog| && j != 0
          ensures catalog[j].id != Some(datasetId)
        {
          assert catalog[j] == rest[j - 1];
        }
      }
    }
  }

  /** The comprehension yields exactly `[kind]` exactly when one item matches and has that type. */
  lemma {:induction false} MatchingTypesSingleIff(catalog: seq<CatalogEntry>, datasetId: string, kind: string)
    ensures MatchingTypes(catalog, datasetId) == Ok([kind]) <==>
      WellFormed(catalog, datasetId) && UniqueMatch(catalog, datasetId, kind)
  {
    if catalog != [] {
      var rest := catalog[1..];
      WellFormedTail(catalog, datasetId);
      UniqueMatchTail(catalog, datasetId, kind);
      MatchingTypesFailsIff(rest, datasetId);
      if catalog[0].id.Some? && catalog[0].id.value != datasetId {
        MatchingTypesSingleIff(rest, datasetId, kind);
      } else if catalog[0].id.Some? && catalog[0].kind.Some? {
        MatchingTypesEmptyIff(rest, datasetId);
        var tail := MatchingTypes(rest, datasetId);
        if tail.Ok? {
          assert MatchingTypes(catalog, datasetId) == Ok([catalog[0].kind.value] + tail.value);
          assert [catalog[0].kind.value] + tail.value == [kind] <==>
            catalog[0].kind.value == kind && tail.value == [] by {
            var joined := [catalog[0].kind.value] + tail.value;
            assert joined[0] == catalog[0].kind.value && |joined| == 1 + |tail.value|;
            if tail.value == [] {
              assert joined == [catalog[0].kind.value];
            }
          }
        }
      }
    }
  }

  // ---------------------------------------------------------------------------
  // The three branches
  // ---------------------------------------------------------------------------

  /** `load_gee_as_image` raises exactly when the catalog lacks a key it reads. */
  lemma ChooseLoaderFailsIff(catalog: seq<CatalogEntry>, datasetId: string, startDate: PyValue, endDate: PyValue)
    ensures ChooseLoader(catalog, datasetId, startDate, endDate).Err? <==> !WellFormed(catalog, datasetId)
  {
    MatchingTypesFailsIff(catalog, datasetId);
  }

  /** The Image branch is taken exactly when one item has the id and its type is "image". */
  lemma ImageBranchIff(catalog: seq<CatalogEntry>, datasetId: string, startDate: PyValue, endDate: PyValue)
    ensures ChooseLoader(catalog, datasetId, startDate, endDate) == Ok(LoadImage) <==>
      WellFormed(catalog, datasetId) && UniqueMatch(catalog, datasetId, "image")
  {
    MatchingTypesSingleIff(catalog, datasetId, "image");
    if MatchingTypes(catalog, datasetId).Ok? {
      JoinEqualsSingleType(MatchingTypes(catalog, datasetId).value, "image");
    }
  }

  /** The ImageCollection branch is taken exactly when one item has the id and its type is "image_collection". */
  lemma CollectionBranchIff(catalog: seq<CatalogEntry>, datasetId: string, startDate: PyValue, endDate: PyValue)
    ensures
      var r := ChooseLoader(catalog, datasetId, startDate, endDate);
      r.Ok? && r.value.LoadCollectionMedian? <==>
        WellFormed(catalog, datasetId) && UniqueMatch(catalog, datasetId, "image_collection")
  {
    MatchingTypesSingleIff(catalog, datasetId, "image_collection");
    if MatchingTypes(catalog, datasetId).Ok? {
      JoinEqualsSingleType(MatchingTypes(catalog, datasetId).value, "image_collection");
    }
  }

  /**
   * Every other well-formed case goes to the FeatureCollection branch: no
   * item with the id, several items with it, or one item of another type.
   */
  lemma FeatureBranchIff(catalog: seq<CatalogEntry>, datasetId: string, startDate: PyValue, endDate: PyValue)
    ensures
      var r := ChooseLoader(catalog, datasetId, startDate, endDate);
      r.Ok? && r.value.LoadFeatureRaster? <==>
        && WellFormed(catalog, datasetId)
        && !UniqueMatch(catalog, datasetId, "image")
        && !UniqueMatch(catalog, datasetId, "image_collection")
  {
    ChooseLoaderFailsIff(catalog, datasetId, startDate, endDate);
    ImageBranchIff(catalog, datasetId, startDate, endDate);
    CollectionBranchIff(catalog, datasetId, startDate, endDate);
  }

  /** An id that no item has, or that two items have, is loaded as a FeatureCollection. */
  lemma NoOrSeveralMatchesGoToFeatures(catalog: seq<CatalogEntry>, datasetId: string, startDate: PyValue, endDate: PyValue)
    requires WellFormed(catalog, datasetId)
    requires NoMatch(catalog, datasetId) ||
      exists i, j :: 0 <= i < j < |catalog| && catalog[i].id == Some(datasetId) && catalog[j].id == Some(datasetId)
    ensures
      var r := ChooseLoader(catalog, datasetId, startDate, endDate);
      r.Ok? && r.value.LoadFeatureRaster?
  {
    FeatureBranchIff(catalog, datasetId, startDate, endDate);
  }

  /**
   * Both dates have gone through `str()` before the `is None` test, so the
   * test never holds and `filterDate` is never applied, whatever dates the
   * user picked.
   */
  lemma DateFilterNeverApplied(catalog: seq<CatalogEntry>, datasetId: string, startDate: PyValue, endDate: PyValue)
    ensures
      var r := ChooseLoader(catalog, datasetId, startDate, endDate);
      r.Ok? ==> r.value.LoadImage? || !r.value.dateFiltered
  {
  }

  /** As written, a collection is not date-filtered even when both dates are given. */
  lemma DatesIgnoredExample()
    ensures
      var catalog := [CatalogEntry(Some("C"), Some("image_collection"))];
      ChooseLoader(catalog, "C", PyDate("2020-01-01"), PyDate("2020-12-31")) == Ok(LoadCollectionMedian(false))
  {
    var catalog := [CatalogEntry(Some("C"), Some("image_collection"))];
    assert catalog[1..] == [];
    assert ["image_collection"] + [] == ["image_collection"];
    assert MatchingTypes(catalog, "C") == Ok(["image_collection"]);
  }

  /** The corrected dispatch takes the same branch as the code as written. */
  lemma CorrectedSameBranch(catalog: seq<CatalogEntry>, datasetId: string, startDate: PyValue, endDate: PyValue)
    ensures
      var written := ChooseLoader(catalog, datasetId, startDate, endDate);
      var corrected := ChooseLoaderCorrected(catalog, datasetId, startDate, endDate);
      && written.Ok? == corrected.Ok?
      && (written.Ok? ==>
           && (written.value.LoadImage? <==> corrected.value.LoadImage?)
           && (written.value.LoadCollectionMedian? <==> corrected.value.LoadCollectionMedian?))
  {
  }

  /** In the corrected dispatch, a collection is date-filtered exactly when both dates are given. */
  lemma CorrectedFiltersGivenDates(catalog: seq<CatalogEntry>, datasetId: string, startDate: PyValue, endDate: PyValue)
    ensures
      var r := ChooseLoaderCorrected(catalog, datasetId, startDate, endDate);
      r.Ok? && !r.value.LoadImage? ==> (r.value.dateFiltered <==> !startDate.PyNone? && !endDate.PyNone?)
  {
  }
}
