/**
 * Resolving which CSV column holds the latitude, the longitude and the plot
 * identifier of an uploaded point file, and renaming those columns to the
 * names the extraction step reads (`LAT`, `LON`, `plot_ID`).
 */
module ColumnMatch {
  import opened Results

  /** The ValueError `find_column` raises, naming the candidate list it tried. */
  datatype ColumnError = NoMatchingColumn(candidates: seq<string>)

  /** Python's `str.lower` for one character, on the ASCII letters. */
  function LowerChar(c: char): (r: char)
    ensures !('A' <= r <= 'Z')
    ensures !('A' <= c <= 'Z') ==> r == c
    ensures 'A' <= c <= 'Z' ==> 'a' <= r <= 'z' && r as int - c as int == 'a' as int - 'A' as int
  {
    if 'A' <= c <= 'Z' then (c as int + 32) as char else c
  }

  /** Python's `str.lower`: each character lowercased in place. */
  function Lower(s: string): (r: string)
    ensures |r| == |s|
    ensures forall i :: 0 <= i < |s| ==> r[i] == LowerChar(s[i]) && !('A' <= r[i] <= 'Z')
  {
    seq(|s|, i requires 0 <= i < |s| => LowerChar(s[i]))
  }

  /** True when `name` equals some column once both are lowercased. */
  ghost predicate FoldedMatch(name: string, columns: seq<string>)
  {
    exists j :: 0 <= j < |columns| && Lower(columns[j]) == Lower(name)
  }

  // ---------------------------------------------------------------------------
  // The specification of find_column
  // ---------------------------------------------------------------------------

  /** The first candidate, in priority order, that is a column name exactly. */
  function FirstExact(names: seq<string>, columns: seq<string>): (r: Option<string>)
    ensures r.Some? ==> r.value in names && r.value in columns
  {
    if names == [] then None
    else if names[0] in columns then Some(names[0])
    else FirstExact(names[1..], columns)
  }

  /**
   * The dictionary `{c.lower(): c for c in columns}`: every column is stored
   * under its lowercase form, and a later column overwrites an earlier one.
   */
  function LowerColumns(columns: seq<string>): (m: map<string, string>)
    ensures forall key :: key in m ==> m[key] in columns && Lower(m[key]) == key
  {
    if columns == [] then map[]
    else
      var last := columns[|columns| - 1];
      LowerColumns(columns[..|columns| - 1])[Lower(last) := last]
  }

  /** The dictionary entry of the first candidate whose lowercase form is a key. */
  function FirstFolded(names: seq<string>, lowerColumns: map<string, string>): (r: Option<string>)
    ensures r.Some? ==>
      exists k :: 0 <= k < |names| && Lower(names[k]) in lowerColumns && lowerColumns[Lower(names[k])] == r.value
  {
    if names == [] then None
    else if Lower(names[0]) in lowerColumns then Some(lowerColumns[Lower(names[0])])
    else
      var r := FirstFolded(names[1..], lowerColumns);
      assert r.Some? ==> exists k :: 0 <= k < |names| && Lower(names[k]) in lowerColumns && lowerColumns[Lower(names[k])] == r.value by {
        if r.Some? {
          var k :| 0 <= k < |names[1..]| && Lower(names[1..][k]) in lowerColumns && lowerColumns[Lower(names[1..][k])] == r.value;
          assert names[k + 1] == names[1..][k];
        }
      }
      r
  }

  /** What `find_column(names, columns)` returns or raises. */
  function ResolveColumn(names: seq<string>, columns: seq<string>): (r: Result<string, ColumnError>)
    ensures r.Ok? ==> r.value in columns
    ensures r.Err? ==> r.error == NoMatchingColumn(names)
  {
    match FirstExact(names, columns)
    case Some(name) => Ok(name)
    case None =>
      match FirstFolded(names, LowerColumns(columns))
      case Some(column) => Ok(column)
      case None => Err(NoMatchingColumn(names))
  }

  // ---------------------------------------------------------------------------
  // find_column itself: two passes over the candidates and one over the columns
  // ---------------------------------------------------------------------------

  method FindColumn(possibleNames: seq<string>, columns: seq<string>) returns (r: Result<string, ColumnError>)
    ensures r == ResolveColumn(possibleNames, columns)
  {
    for i := 0 to |possibleNames|
      invariant forall k :: 0 <= k < i ==> possibleNames[k] !in columns
    {
      if possibleNames[i] in columns {
        FirstExactAt(possibleNames, columns, i);
        return Ok(possibleNames[i]);
      }
    }
    FirstExactNone(possibleNames, columns);
    // fallback: compare lowercase forms
    var lowerColumns: map<string, string> := map[];
    for j := 0 to |columns|
      invariant lowerColumns == LowerColumns(columns[..j])
    {
      assert columns[..j + 1][..j] == columns[..j];
      lowerColumns := lowerColumns[Lower(columns[j]) := columns[j]];
    }
    assert columns[..|columns|] == columns;
    for i := 0 to |possibleNames|
      invariant forall k :: 0 <= k < i ==> Lower(possibleNames[k]) !in lowerColumns
    {
      if Lower(possibleNames[i]) in lowerColumns {
        FirstFoldedAt(possibleNames, lowerColumns, i);
        return Ok(lowerColumns[Lower(possibleNames[i])]);
      }
    }
    FirstFoldedNone(possibleNames, lowerColumns);
    return Err(NoMatchingColumn(possibleNames));
  }

  // ---------------------------------------------------------------------------
  // Properties of the specification
  // ---------------------------------------------------------------------------

  lemma {:induction false} FirstExactAt(names: seq<string>, columns: seq<string>, i: nat)
    requires i < |names| && names[i] in columns
    requires forall k :: 0 <= k < i ==> names[k] !in columns
    ensures FirstExact(names, columns) == Some(names[i])
  {
    if i > 0 {
      FirstExactAt(names[1..], columns, i - 1);
    }
  }

  lemma {:induction false} FirstExactNone(names: seq<string>, columns: seq<string>)
    requires forall k :: 0 <= k < |names| ==> names[k] !in columns
    ensures FirstExact(names, columns) == None
  {
    if names != [] {
      FirstExactNone(names[1..], columns);
    }
  }

  lemma {:induction false} FirstFoldedAt(names: seq<string>, lowerColumns: map<string, string>, i: nat)
    requires i < |names| && Lower(names[i]) in lowerColumns
    requires forall k :: 0 <= k < i ==> Lower(names[k]) !in lowerColumns
    ensures FirstFolded(names, lowerColumns) == Some(lowerColumns[Lower(names[i])])
  {
    if i > 0 {
      FirstFoldedAt(names[1..], lowerColumns, i - 1);
    }
  }

  lemma {:induction false} FirstFoldedNone(names: seq<string>, lowerColumns: map<string, string>)
    requires forall k :: 0 <= k < |names| ==> Lower(names[k]) !in lowerColumns
    ensures FirstFolded(names, lowerColumns) == None
  {
    if names != [] {
      FirstFoldedNone(names[1..], lowerColumns);
    }
  }

  /** A lowercase form is a key of the dictionary exactly when some column has it. */
  lemma {:induction false} LowerColumnsKeys(columns: seq<string>, key: string)
    ensures key in LowerColumns(columns) <==> exists j :: 0 <= j < |columns| && Lower(columns[j]) == key
  {
    if columns != [] {
      var init := columns[..|columns| - 1];
      LowerColumnsKeys(init, key);
      if exists j :: 0 <= j < |init| && Lower(init[j]) == key {
        var j :| 0 <= j < |init| && Lower(init[j]) == key;
        assert columns[j] == init[j];
      }
      if exists j :: 0 <= j < |columns| && Lower(columns[j]) == key {
        var j :| 0 <= j < |columns| && Lower(columns[j]) == key;
        if j < |init| {
          assert init[j] == columns[j];
        }
      }
    }
  }

  /** The dictionary keeps, for each lowercase form, the LAST column that has it. */
  lemma {:induction false} LowerColumnsLatest(columns: seq<string>, j: nat)
    requires j < |columns|
    requires forall j' :: j < j' < |columns| ==> Lower(columns[j']) != Lower(columns[j])
    ensures Lower(columns[j]) in LowerColumns(columns)
    ensures LowerColumns(columns)[Lower(columns[j])] == columns[j]
  {
    if j < |columns| - 1 {
      var init := columns[..|columns| - 1];
      assert init[j] == columns[j];
      LowerColumnsLatest(init, j);
    }
  }

  /**
   * A candidate that is a column name exactly wins over every later
   * candidate, even over earlier candidates that match only up to case.
   */
  lemma ExactMatchPreferred(names: seq<string>, columns: seq<string>, i: nat)
    requires i < |names| && names[i] in columns
    requires forall k :: 0 <= k < i ==> names[k] !in columns
    ensures ResolveColumn(names, columns) == Ok(names[i])
  {
    FirstExactAt(names, columns, i);
  }

  /**
   * With no exact match, the result is the last column (in column order) whose
   * lowercase form equals that of the first candidate with any such column.
   */
  lemma FallbackPicksLastColumn(names: seq<string>, columns: seq<string>, i: nat, j: nat)
    requires forall k :: 0 <= k < |names| ==> names[k] !in columns
    requires i < |names| && forall k :: 0 <= k < i ==> !FoldedMatch(names[k], columns)
    requires j < |columns| && Lower(columns[j]) == Lower(names[i])
    requires forall j' :: j < j' < |columns| ==> Lower(columns[j']) != Lower(names[i])
    ensures ResolveColumn(names, columns) == Ok(columns[j])
  {
    FirstExactNone(names, columns);
    forall k | 0 <= k < i
      ensures Lower(names[k]) !in LowerColumns(columns)
    {
      LowerColumnsKeys(columns, Lower(names[k]));
    }
    LowerColumnsLatest(columns, j);
    FirstFoldedAt(names, LowerColumns(columns), i);
  }

  /**
   * A resolved column is one of the file's columns, and it equals one of the
   * candidates up to case.
   */
  lemma ResolvedIsColumn(names: seq<string>, columns: seq<string>)
    ensures ResolveColumn(names, columns).Ok? ==>
      var column := ResolveColumn(names, columns).value;
      column in columns && exists k :: 0 <= k < |names| && Lower(column) == Lower(names[k])
  {
    match FirstExact(names, columns)
    case Some(name) =>
      var k :| 0 <= k < |names| && names[k] == name;
    case None =>
  }

  /** find_column raises exactly when no candidate matches any column up to case. */
  lemma ResolveFailsIff(names: seq<string>, columns: seq<string>)
    ensures ResolveColumn(names, columns).Err? <==>
      forall k :: 0 <= k < |names| ==> !FoldedMatch(names[k], columns)
  {
    var lowerColumns := LowerColumns(columns);
    if forall k :: 0 <= k < |names| ==> !FoldedMatch(names[k], columns) {
      forall k | 0 <= k < |names|
        ensures names[k] !in columns && Lower(names[k]) !in lowerColumns
      {
        LowerColumnsKeys(columns, Lower(names[k]));
        ExactIsFolded(names[k], columns);
      }
      FirstExactNone(names, columns);
      FirstFoldedNone(names, lowerColumns);
    } else {
      var k :| 0 <= k < |names| && FoldedMatch(names[k], columns);
      LowerColumnsKeys(columns, Lower(names[k]));
      if FirstExact(names, columns).None? && FirstFolded(names, lowerColumns).None? {
        FirstFoldedNoneAll(names, lowerColumns, k);
      }
    }
  }

  lemma ExactIsFolded(name: string, columns: seq<string>)
    ensures name in columns ==> FoldedMatch(name, columns)
  {
    if name in columns {
      var j :| 0 <= j < |columns| && columns[j] == name;
    }
  }

  lemma {:induction false} FirstFoldedNoneAll(names: seq<string>, lowerColumns: map<string, string>, k: nat)
    requires k < |names|
    requires FirstFolded(names, lowerColumns) == None
    ensures Lower(names[k]) !in lowerColumns
  {
    if k > 0 {
      FirstFoldedNoneAll(names[1..], lowerColumns, k - 1);
    }
  }

  // ---------------------------------------------------------------------------
  // The three candidate lists and the rename that follows
  // ---------------------------------------------------------------------------

  const LatCandidates: seq<string> := ["lat", "latitude", "y", "LAT", "Latitude", "Lat", "Y"]
  const LonCandidates: seq<string> := ["lon", "long", "longitude", "x", "LON", "Longitude", "Long", "X"]
  const IdCandidates: seq<string> := ["id", "ID", "plot_ID", "plot_id", "plotID", "plotId"]

  /** The lowercase forms of the three lists: pairwise disjoint sets. */
  lemma CandidateListsFold()
    ensures forall k :: 0 <= k < |LatCandidates| ==> Lower(LatCandidates[k]) in {"lat", "latitude", "y"}
    ensures forall k :: 0 <= k < |LonCandidates| ==> Lower(LonCandidates[k]) in {"lon", "long", "longitude", "x"}
    ensures forall k :: 0 <= k < |IdCandidates| ==> Lower(IdCandidates[k]) in {"id", "plot_id", "plotid"}
  {
    assert Lower("LAT") == "lat" && Lower("Latitude") == "latitude" && Lower("Lat") == "lat" && Lower("Y") == "y";
    assert Lower("lat") == "lat" && Lower("latitude") == "latitude" && Lower("y") == "y";
    assert Lower("LON") == "lon" && Lower("Longitude") == "longitude" && Lower("Long") == "long" && Lower("X") == "x";
    assert Lower("lon") == "lon" && Lower("long") == "long" && Lower("longitude") == "longitude" && Lower("x") == "x";
    assert Lower("ID") == "id" && Lower("plot_ID") == "plot_id" && Lower("plotID") == "plotid" && Lower("plotId") == "plotid";
    assert Lower("id") == "id" && Lower("plot_id") == "plot_id";
  }

  /** The columns chosen for latitude, longitude and plot identifier. */
  datatype PointColumns = PointColumns(lat: string, lon: string, id: string)

  /** The three `find_column` calls, in order; the first one that raises ends the run. */
  function ResolvePointColumns(columns: seq<string>): (r: Result<PointColumns, ColumnError>)
    ensures r.Ok? ==> r.value.lat in columns && r.value.lon in columns && r.value.id in columns
    ensures r.Err? ==> r.error.candidates in {LatCandidates, LonCandidates, IdCandidates}
  {
    match ResolveColumn(LatCandidates, columns)
    case Err(e) => Err(e)
    case Ok(lat) =>
      match ResolveColumn(LonCandidates, columns)
      case Err(e) => Err(e)
      case Ok(lon) =>
        match ResolveColumn(IdCandidates, columns)
        case Err(e) => Err(e)
        case Ok(id) => Ok(PointColumns(lat, lon, id))
  }

  /** When all three lookups succeed, they name three different columns of the file. */
  lemma ResolvedPointColumnsDistinct(columns: seq<string>)
    ensures ResolvePointColumns(columns).Ok? ==>
      var pc := ResolvePointColumns(columns).value;
      pc.lat in columns && pc.lon in columns && pc.id in columns &&
      pc.lat != pc.lon && pc.lat != pc.id && pc.lon != pc.id
  {
    ResolvedIsColumn(LatCandidates, columns);
    ResolvedIsColumn(LonCandidates, columns);
    ResolvedIsColumn(IdCandidates, columns);
    CandidateListsFold();
  }

  /**
   * The dictionary `{lat_col: 'LAT', lon_col: 'LON', id_col: 'plot_ID'}`. As in
   * a Python dict display, a repeated key keeps the value written last.
   */
  function RenameMap(pc: PointColumns): (m: map<string, string>)
    ensures m.Keys == {pc.lat, pc.lon, pc.id}
    ensures m[pc.id] == "plot_ID"
    ensures pc.lon != pc.id ==> m[pc.lon] == "LON"
    ensures pc.lat != pc.lon && pc.lat != pc.id ==> m[pc.lat] == "LAT"
  {
    map[pc.lat := "LAT"][pc.lon := "LON"][pc.id := "plot_ID"]
  }

  /** `DataFrame.rename(columns=mapping)` on the column labels: unmapped labels stay. */
  function Rename(columns: seq<string>, mapping: map<string, string>): (r: seq<string>)
    ensures |r| == |columns|
    ensures forall i :: 0 <= i < |columns| && columns[i] in mapping ==> r[i] == mapping[columns[i]]
    ensures forall i :: 0 <= i < |columns| && columns[i] !in mapping ==> r[i] == columns[i]
  {
    seq(|columns|, i requires 0 <= i < |columns| =>
      if columns[i] in mapping then mapping[columns[i]] else columns[i])
  }

  /** The column labels after line 253's rename, or the error of the first failing lookup. */
  function RenamePointColumns(columns: seq<string>): (r: Result<seq<string>, ColumnError>)
    ensures r.Ok? == ResolvePointColumns(columns).Ok?
    ensures r.Ok? ==> |r.value| == |columns|
    ensures r.Err? ==> r.error == ResolvePointColumns(columns).error
  {
    match ResolvePointColumns(columns)
    case Err(e) => Err(e)
    case Ok(pc) => Ok(Rename(columns, RenameMap(pc)))
  }

  /**
   * The rename dictionary has three distinct keys, so after the rename the
   * latitude column is labelled `LAT`, the longitude column `LON` and the
   * identifier column `plot_ID`; every other label is kept.
   */
  lemma RenameYieldsPointColumns(columns: seq<string>)
    ensures ResolvePointColumns(columns).Ok? ==>
      var pc := ResolvePointColumns(columns).value;
      |RenameMap(pc).Keys| == 3
    ensures RenamePointColumns(columns).Ok? ==>
      var renamed := RenamePointColumns(columns).value;
      var pc := ResolvePointColumns(columns).value;
      && |renamed| == |columns|
      && "LAT" in renamed && "LON" in renamed && "plot_ID" in renamed
      && (forall i :: 0 <= i < |columns| ==>
           && (columns[i] == pc.lat ==> renamed[i] == "LAT")
           && (columns[i] == pc.lon ==> renamed[i] == "LON")
           && (columns[i] == pc.id ==> renamed[i] == "plot_ID"))
      && forall i :: 0 <= i < |columns| && columns[i] != pc.lat && columns[i] != pc.lon && columns[i] != pc.id ==>
           renamed[i] == columns[i]
  {
    if ResolvePointColumns(columns).Ok? {
      var pc := ResolvePointColumns(columns).value;
      ResolvedPointColumnsDistinct(columns);
      var m := RenameMap(pc);
      assert m.Keys == {pc.lat, pc.lon, pc.id};
      assert m[pc.lat] == "LAT" && m[pc.lon] == "LON" && m[pc.id] == "plot_ID";
      var renamed := Rename(columns, m);
      var a :| 0 <= a < |columns| && columns[a] == pc.lat;
      var b :| 0 <= b < |columns| && columns[b] == pc.lon;
      var c :| 0 <= c < |columns| && columns[c] == pc.id;
      assert renamed[a] == "LAT" && renamed[b] == "LON" && renamed[c] == "plot_ID";
    }
  }

  /** No candidate of `names` equals any column up to case. */
  ghost predicate NoCandidateMatches(names: seq<string>, columns: seq<string>)
  {
    forall k :: 0 <= k < |names| ==> !FoldedMatch(names[k], columns)
  }

  /**
   * The three lookups run in the order latitude, longitude, identifier: they
   * fail when one list has no match, and the error is that of the first such list.
   */
  lemma ResolvePointColumnsFails(columns: seq<string>)
    ensures ResolvePointColumns(columns).Err? <==>
      || NoCandidateMatches(LatCandidates, columns)
      || NoCandidateMatches(LonCandidates, columns)
      || NoCandidateMatches(IdCandidates, columns)
    ensures ResolvePointColumns(columns).Err? ==>
      ResolvePointColumns(columns).error.candidates ==
        if NoCandidateMatches(LatCandidates, columns) then LatCandidates
        else if NoCandidateMatches(LonCandidates, columns) then LonCandidates
        else IdCandidates
  {
    ResolveFailsIff(LatCandidates, columns);
    ResolveFailsIff(LonCandidates, columns);
    ResolveFailsIff(IdCandidates, columns);
  }

  /**
   * A longitude column labelled `log`, as the page's own table of accepted
   * names spells it, matches no longitude candidate, so the lookup raises.
   */
  lemma LogColumnNotAccepted()
    ensures ResolveColumn(LonCandidates, ["lat", "log", "id"]).Err?
  {
    var columns := ["lat", "log", "id"];
    CandidateListsFold();
    assert Lower("lat") == "lat" && Lower("log") == "log" && Lower("id") == "id";
    forall k | 0 <= k < |LonCandidates|
      ensures !FoldedMatch(LonCandidates[k], columns)
    {
      assert Lower(LonCandidates[k]) in {"lon", "long", "longitude", "x"};
    }
    ResolveFailsIff(LonCandidates, columns);
  }
}
