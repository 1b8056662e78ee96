/** The cleaning stage: `clean_libraries` turns the raw library features into
    the fixed target schema (column selection, renaming, contact coalescing,
    representative point and coordinates, name default, keep-first
    deduplication on name, street and house number). */
module Transform {
  import opened Frames
  import opened Masks
  import opened Dedup

  /** The allow-list of raw feature columns, in output order. */
  const KEEP_COLUMNS: seq<string> := [
    "name", "amenity", "operator:type", "operator",
    "addr:street", "addr:housenumber", "addr:postcode", "addr:city", "addr:country",
    "opening_hours", "wheelchair", "toilets:wheelchair", "level", "internet_access",
    "ref:isil", "email", "contact:email", "phone", "contact:phone",
    "website", "contact:website", "geometry"
  ]

  /** The renames applied after selection. */
  const RENAMES: map<string, string> := map[
    "operator:type" := "operator_type",
    "addr:street" := "street",
    "addr:housenumber" := "housenumber",
    "addr:postcode" := "postcode",
    "addr:city" := "city",
    "addr:country" := "country",
    "wheelchair" := "wheelchair_accessible",
    "toilets:wheelchair" := "toilets_wheelchair",
    "ref:isil" := "isil_code",
    "contact:email" := "contact_email",
    "contact:phone" := "contact_phone",
    "contact:website" := "contact_website"
  ]

  /** The columns the cleaning step creates, in the order it creates them. */
  const DERIVED_COLUMNS: seq<string> :=
    ["final_email", "final_phone", "website_url", "geom_point", "longitude", "latitude"]

  /** The placeholder for a missing name. */
  const UNKNOWN_NAME: Value := Text("unknown")

  function Rename(c: string): string
  {
    if c in RENAMES then RENAMES[c] else c
  }

  // Facts about the constant lists below are proved in small pieces: every
  // piece compares string literals pairwise, which the verifier does cheaply
  // for a short list and runs out of budget on for all of KEEP_COLUMNS or
  // RENAMES at once. KeepColumnsDistinct and RenameTargetsFresh assemble them.

  /** No two renames share a target. */
  lemma RenameTargetsDistinct()
    ensures forall a, b :: a in RENAMES && b in RENAMES && RENAMES[a] == RENAMES[b] ==> a == b
  {
  }

  /** No rename target is itself an allow-listed name or a derived name. */
  lemma RenameTargetsFresh()
    ensures forall a :: a in RENAMES ==> RENAMES[a] !in KEEP_COLUMNS && RENAMES[a] !in DERIVED_COLUMNS
  {
    RenameTargetsNotKept();
    RenameTargetsNotDerived();
  }

  lemma RenameTargetsNotKept()
    ensures forall a :: a in RENAMES ==> RENAMES[a] !in KEEP_COLUMNS
  {
  }

  lemma RenameTargetsNotDerived()
    ensures forall a :: a in RENAMES ==> RENAMES[a] !in DERIVED_COLUMNS
  {
  }

  /** The renames the later steps rely on. */
  lemma RenameFacts()
    ensures Rename("email") == "email" && Rename("phone") == "phone" && Rename("website") == "website"
    ensures Rename("geometry") == "geometry" && Rename("name") == "name"
    ensures Rename("contact:email") == "contact_email" && Rename("contact:phone") == "contact_phone"
    ensures Rename("contact:website") == "contact_website"
    ensures Rename("addr:street") == "street" && Rename("addr:housenumber") == "housenumber"
  {
  }

  /** The allow-list has no repeats and none of the names the step creates. */
  lemma KeepColumnsDistinct()
    ensures Distinct(KEEP_COLUMNS)
    ensures forall c :: c in KEEP_COLUMNS ==> c !in DERIVED_COLUMNS
  {
    KeepColumnsNoRepeats();
    KeepColumnsNotDerived();
  }

  lemma KeepColumnsNoRepeats()
    ensures Distinct(KEEP_COLUMNS)
  {
    var head, tail := KEEP_COLUMNS[..11], KEEP_COLUMNS[11..];
    KeepHeadNoRepeats();
    KeepTailNoRepeats();
    KeepHalvesDisjoint();
    DistinctAppend(head, tail);
    assert KEEP_COLUMNS == head + tail;
  }

  lemma KeepHeadNoRepeats()
    ensures Distinct(KEEP_COLUMNS[..11])
  {
  }

  lemma KeepTailNoRepeats()
    ensures Distinct(KEEP_COLUMNS[11..])
  {
  }

  lemma KeepHalvesDisjoint()
    ensures forall x :: x in KEEP_COLUMNS[..11] ==> x !in KEEP_COLUMNS[11..]
  {
    KeepHeadNotInMiddle();
    KeepHeadNotInLast();
    assert KEEP_COLUMNS[11..] == KEEP_COLUMNS[11..16] + KEEP_COLUMNS[16..];
  }

  lemma KeepHeadNotInMiddle()
    ensures forall x :: x in KEEP_COLUMNS[..11] ==> x !in KEEP_COLUMNS[11..16]
  {
  }

  lemma KeepHeadNotInLast()
    ensures forall x :: x in KEEP_COLUMNS[..11] ==> x !in KEEP_COLUMNS[16..]
  {
  }

  lemma KeepColumnsNotDerived()
    ensures forall c :: c in KEEP_COLUMNS ==> c !in DERIVED_COLUMNS
  {
  }

  /** Renaming is one-to-one on the allow-list, and no renamed allow-listed
      column takes a name that the cleaning step later creates. */
  lemma RenameInjectiveOnKeep()
    ensures forall c, d :: c in KEEP_COLUMNS && d in KEEP_COLUMNS && Rename(c) == Rename(d) ==> c == d
    ensures forall c :: c in KEEP_COLUMNS ==> Rename(c) !in DERIVED_COLUMNS
  {
    RenameTargetsDistinct();
    RenameTargetsFresh();
    KeepColumnsDistinct();
  }

  /** Step 1: keep the allow-listed columns the table has, in allow-list order. */
  function SelectColumns(t: Table): (s: Table)
    requires WellFormed(t)
    ensures WellFormed(s) && |s.rows| == |t.rows|
    ensures forall c :: c in s.columns <==> c in KEEP_COLUMNS && c in t.columns
    ensures forall a, b :: 0 <= a < b < |s.columns| ==>
      IndexOf(KEEP_COLUMNS, s.columns[a]) < IndexOf(KEEP_COLUMNS, s.columns[b])
    ensures forall i, c :: 0 <= i < |s.rows| && c in s.columns ==> s.rows[i][c] == t.rows[i][c]
  {
    KeepColumnsDistinct();
    var cols := FilterIn(KEEP_COLUMNS, t.columns);
    var s := Table(cols, seq(|t.rows|, i requires 0 <= i < |t.rows| => map c | c in cols :: t.rows[i][c]));
    assert forall i :: 0 <= i < |s.rows| ==> s.rows[i].Keys == ColumnSet(s);
    s
  }

  /** Step 2: rename columns; only tables whose columns are allow-listed reach it. */
  function RenameColumns(t: Table): (s: Table)
    requires WellFormed(t)
    requires forall c :: c in t.columns ==> c in KEEP_COLUMNS
    ensures WellFormed(s) && |s.rows| == |t.rows|
    ensures |s.columns| == |t.columns|
    ensures forall k :: 0 <= k < |t.columns| ==> s.columns[k] == Rename(t.columns[k])
    ensures forall i, c :: 0 <= i < |s.rows| && c in t.columns ==> s.rows[i][Rename(c)] == t.rows[i][c]
  {
    RenameInjectiveOnKeep();
    RenameTable(t, Rename)
  }

  /** Steps 1 and 2 together. */
  function Renamed(gdf: Table): (t: Table)
    requires WellFormed(gdf)
    ensures WellFormed(t) && |t.rows| == |gdf.rows|
  {
    RenameColumns(SelectColumns(gdf))
  }

  /** A row's cell, treating an absent column as missing. */
  function Lookup(r: Row, c: string): Cell
  {
    if c in r then r[c] else None
  }

  /** The contact-merge step on a whole table as written:
      `t[p].fillna(t.get(f))`. When the fallback column is absent, `get`
      yields nothing and `fillna` is called without a fill value, which
      raises. */
  function MergeContactAsWritten(t: Table, primary: string, fallback: string): (r: Result<seq<Cell>, Error>)
    requires WellFormed(t) && primary in t.columns
    ensures r.Failure? <==> fallback !in t.columns
    ensures r.Failure? ==> r.error == NoFillValue(fallback)
    ensures r.Success? ==> |r.value| == |t.rows|
  {
    match Get(t, fallback)
    case None => Failure(NoFillValue(fallback))
    case Some(other) => Success(FillNa(Column(t, primary), other))
  }

  /** The contact-merge step on one row as evidently intended: the target is
      the primary value when present, otherwise the fallback column's value
      when the row has that column; nothing else changes. */
  function FillContact(r: Row, target: string, primary: string, fallback: string): (o: Row)
    requires primary in r
    ensures o.Keys == r.Keys + {target}
    ensures o[target].Some? <==> r[primary].Some? || (fallback in r && r[fallback].Some?)
    ensures r[primary].Some? ==> o[target] == r[primary]
    ensures r[primary].None? ==> o[target] == Lookup(r, fallback)
    ensures forall n :: n in r && n != target ==> o[n] == r[n]
  {
    r[target := Coalesce(r[primary], Lookup(r, fallback))]
  }

  /** Where the fallback column exists, the merge as written and as intended agree. */
  lemma MergeContactAgreesWhenFallbackPresent(t: Table, target: string, primary: string, fallback: string)
    requires WellFormed(t) && primary in t.columns && fallback in t.columns
    ensures MergeContactAsWritten(t, primary, fallback).Success?
    ensures forall i :: 0 <= i < |t.rows| ==>
      MergeContactAsWritten(t, primary, fallback).value[i] == FillContact(t.rows[i], target, primary, fallback)[target]
  {
    forall i | 0 <= i < |t.rows|
      ensures MergeContactAsWritten(t, primary, fallback).value[i] == FillContact(t.rows[i], target, primary, fallback)[target]
    {
      assert primary in ColumnSet(t) && fallback in ColumnSet(t);
    }
  }

  /** A table with an email column and no contact column: the merge as written
      raises, the intended one keeps the email. */
  lemma MergeContactAsWrittenRaisesWithoutFallback()
    ensures var t := Table(["email"], [map["email" := Some(Text("a@b.example"))]]);
      && WellFormed(t)
      && MergeContactAsWritten(t, "email", "contact_email") == Failure(NoFillValue("contact_email"))
      && FillContact(t.rows[0], "final_email", "email", "contact_email")["final_email"] == Some(Text("a@b.example"))
  {
    var t := Table(["email"], [map["email" := Some(Text("a@b.example"))]]);
    assert ColumnSet(t) == {"email"};
  }

  /** The representative point of a geometry cell; the centroid itself is the
      geometry library's and is a parameter here. */
  function CentroidOf(cell: Cell, centroid: Geometry -> Point): Cell
  {
    match cell
    case Some(Shape(g)) => Some(Location(centroid(g)))
    case _ => None
  }

  /** `.x` of a point cell; missing for anything else. */
  function XOf(cell: Cell): Cell
  {
    match cell
    case Some(Location(p)) => Some(Number(p.x))
    case _ => None
  }

  /** `.y` of a point cell; missing for anything else. */
  function YOf(cell: Cell): Cell
  {
    match cell
    case Some(Location(p)) => Some(Number(p.y))
    case _ => None
  }

  /** The columns created by the contact merge. */
  const CONTACT_COLUMNS: seq<string> := ["final_email", "final_phone", "website_url"]

  /** The columns created from the geometry. */
  const POINT_COLUMNS: seq<string> := ["geom_point", "longitude", "latitude"]

  /** Step 3 on one row: each merged contact field is the primary value when
      present, otherwise the secondary `contact_*` value; nothing else changes. */
  function MergeContacts(r: Row): (o: Row)
    requires "email" in r && "phone" in r && "website" in r
    ensures o.Keys == r.Keys + {"final_email", "final_phone", "website_url"}
    ensures o["final_email"] == Coalesce(r["email"], Lookup(r, "contact_email"))
    ensures o["final_phone"] == Coalesce(r["phone"], Lookup(r, "contact_phone"))
    ensures o["website_url"] == Coalesce(r["website"], Lookup(r, "contact_website"))
    ensures forall n :: n in r && n !in CONTACT_COLUMNS ==> o[n] == r[n]
  {
    var r1 := FillContact(r, "final_email", "email", "contact_email");
    var r2 := FillContact(r1, "final_phone", "phone", "contact_phone");
    FillContact(r2, "website_url", "website", "contact_website")
  }

  /** Steps 4 and 5 on one row: the representative point of the geometry, and
      its x and y as longitude and latitude; nothing else changes. */
  function AddCoordinates(r: Row, centroid: Geometry -> Point): (o: Row)
    requires "geometry" in r
    ensures o.Keys == r.Keys + {"geom_point", "longitude", "latitude"}
    ensures o["geom_point"] == CentroidOf(r["geometry"], centroid)
    ensures o["longitude"] == XOf(o["geom_point"]) && o["latitude"] == YOf(o["geom_point"])
    ensures forall n :: n in r && n !in POINT_COLUMNS ==> o[n] == r[n]
  {
    var r4 := r["geom_point" := CentroidOf(r["geometry"], centroid)];
    var r5 := r4["longitude" := XOf(r4["geom_point"])];
    r5["latitude" := YOf(r5["geom_point"])]
  }

  /** Step 6 on one row: the name is never missing afterwards; a present name
      is kept and a missing one becomes the placeholder; nothing else changes. */
  function DefaultName(r: Row): (o: Row)
    requires "name" in r
    ensures o.Keys == r.Keys
    ensures o["name"].Some?
    ensures r["name"].Some? ==> o["name"] == r["name"]
    ensures r["name"].None? ==> o["name"] == Some(UNKNOWN_NAME)
    ensures forall n :: n in r && n != "name" ==> o[n] == r[n]
  {
    r["name" := Coalesce(r["name"], Some(UNKNOWN_NAME))]
  }

  /** Steps 3 to 6 on one row, in the order the cleaning step runs them. */
  function PrepareRow(r: Row, centroid: Geometry -> Point): (o: Row)
    requires "email" in r && "phone" in r && "website" in r && "geometry" in r && "name" in r
    ensures o.Keys == r.Keys + (set n | n in DERIVED_COLUMNS)
  {
    DerivedSet();
    UnionAssoc(r.Keys, {"final_email", "final_phone", "website_url"}, {"geom_point", "longitude", "latitude"});
    DefaultName(AddCoordinates(MergeContacts(r), centroid))
  }

  /** Steps 3 to 6 on a renamed table that has every column they read and
      none of the columns they create. */
  function Prepared(t0: Table, centroid: Geometry -> Point): (t: Table)
    requires WellFormed(t0)
    requires "email" in t0.columns && "phone" in t0.columns && "website" in t0.columns
    requires "geometry" in t0.columns && "name" in t0.columns
    requires forall n :: n in DERIVED_COLUMNS ==> n !in t0.columns
    ensures WellFormed(t) && |t.rows| == |t0.rows|
    ensures t.columns == t0.columns + DERIVED_COLUMNS
    ensures forall i :: 0 <= i < |t0.rows| ==> t.rows[i] == PrepareRow(t0.rows[i], centroid)
  {
    var t := Table(t0.columns + DERIVED_COLUMNS,
      seq(|t0.rows|, i requires 0 <= i < |t0.rows| => PrepareRow(t0.rows[i], centroid)));
    ColumnInEveryRow(t0, "email");
    ColumnInEveryRow(t0, "phone");
    ColumnInEveryRow(t0, "website");
    ColumnInEveryRow(t0, "geometry");
    ColumnInEveryRow(t0, "name");
    DerivedDistinct();
    AppendColumnsWellFormed(t0, DERIVED_COLUMNS, t.rows);
    t
  }

  /** The derived columns, as a set. */
  lemma DerivedSet()
    ensures (set n | n in DERIVED_COLUMNS) == {"final_email", "final_phone", "website_url"} + {"geom_point", "longitude", "latitude"}
  {
  }

  lemma UnionAssoc<T>(k: set<T>, a: set<T>, b: set<T>)
    ensures k + a + b == k + (a + b)
  {
  }

  lemma DerivedDistinct()
    ensures Distinct(DERIVED_COLUMNS)
  {
  }

  /** Everything up to and including the name default, row for row, as
      written: each column read by name raises when absent, in the order the
      step reads them. The contact merge reads the primary column with `[]`
      and the `contact_*` column with `get`; an absent `contact_*` column makes
      `get` yield nothing and `fillna` raise (see MergeContactAsWritten), so
      the row-wise merge only runs when both columns exist, where it agrees
      with the merge as written (MergeContactAgreesWhenFallbackPresent). */
  function Prepare(gdf: Table, centroid: Geometry -> Point): Result<Table, Error>
    requires WellFormed(gdf)
  {
    var t0 := Renamed(gdf);
    if "email" !in t0.columns then Failure(MissingColumn("email"))
    else if "contact_email" !in t0.columns then Failure(NoFillValue("contact_email"))
    else if "phone" !in t0.columns then Failure(MissingColumn("phone"))
    else if "contact_phone" !in t0.columns then Failure(NoFillValue("contact_phone"))
    else if "website" !in t0.columns then Failure(MissingColumn("website"))
    else if "contact_website" !in t0.columns then Failure(NoFillValue("contact_website"))
    else
      RenamedHasNoDerived(gdf);
      PreparePoint(t0, centroid)
  }

  /** `Prepare` with the contact merge as evidently intended: an absent
      `contact_*` column leaves the primary value as it is instead of raising. */
  function PrepareIntended(gdf: Table, centroid: Geometry -> Point): (r: Result<Table, Error>)
    requires WellFormed(gdf)
    ensures r.Failure? ==> !r.error.NoFillValue?
  {
    var t0 := Renamed(gdf);
    if "email" !in t0.columns then Failure(MissingColumn("email"))
    else if "phone" !in t0.columns then Failure(MissingColumn("phone"))
    else if "website" !in t0.columns then Failure(MissingColumn("website"))
    else
      RenamedHasNoDerived(gdf);
      PreparePoint(t0, centroid)
  }

  /** With every `contact_*` column after renaming, the row-wise part as
      written and as intended coincide. */
  lemma PrepareAgrees(gdf: Table, centroid: Geometry -> Point)
    requires WellFormed(gdf)
    requires var t0 := Renamed(gdf);
      "contact_email" in t0.columns && "contact_phone" in t0.columns && "contact_website" in t0.columns
    ensures Prepare(gdf, centroid) == PrepareIntended(gdf, centroid)
  {
    var t0 := Renamed(gdf);
    var cs := t0.columns;
    if "email" !in cs {
    } else if "phone" !in cs {
    } else if "website" !in cs {
    } else {
      RenamedHasNoDerived(gdf);
    }
  }

  /** The rest of the row-wise part once the contact columns are read: the
      active geometry and then the name must exist, and the row-wise stages
      run. */
  function PreparePoint(t0: Table, centroid: Geometry -> Point): (r: Result<Table, Error>)
    requires WellFormed(t0)
    requires "email" in t0.columns && "phone" in t0.columns && "website" in t0.columns
    requires forall n :: n in DERIVED_COLUMNS ==> n !in t0.columns
    ensures r.Failure? ==> !r.error.NoFillValue?
  {
    if "geometry" !in t0.columns then Failure(NoGeometry)
    else if "name" !in t0.columns then Failure(MissingColumn("name"))
    else Success(Prepared(t0, centroid))
  }

  /** No derived column name is taken by a renamed raw column. */
  lemma RenamedHasNoDerived(gdf: Table)
    requires WellFormed(gdf)
    ensures forall n :: n in DERIVED_COLUMNS ==> n !in Renamed(gdf).columns
  {
    RenameInjectiveOnKeep();
  }

  /** The deduplication key of a cleaned row. */
  function LibraryKey(r: Row): (Cell, Cell, Cell)
  {
    (Lookup(r, "name"), Lookup(r, "street"), Lookup(r, "housenumber"))
  }

  /** Step 7, `drop_duplicates` on the name, street and house number: a
      subset column the table lacks raises, otherwise the first row of each
      key is kept. */
  function DropDuplicateLibraries(t: Table): (r: Result<Table, Error>)
    ensures r.Failure? ==> r.error.MissingColumn?
  {
    if "street" !in t.columns then Failure(MissingColumn("street"))
    else if "housenumber" !in t.columns then Failure(MissingColumn("housenumber"))
    else Success(Table(t.columns, DropDuplicates(t.rows, LibraryKey)))
  }

  /** `clean_libraries`, as written. */
  function CleanLibraries(gdf: Table, centroid: Geometry -> Point): Result<Table, Error>
    requires WellFormed(gdf)
  {
    match Prepare(gdf, centroid)
    case Failure(e) => Failure(e)
    case Success(t) => DropDuplicateLibraries(t)
  }

  /** `clean_libraries` with the contact merge as evidently intended: it
      never raises for a missing fill value. */
  function CleanLibrariesIntended(gdf: Table, centroid: Geometry -> Point): (r: Result<Table, Error>)
    requires WellFormed(gdf)
    ensures r.Failure? ==> !r.error.NoFillValue?
  {
    match PrepareIntended(gdf, centroid)
    case Failure(e) => Failure(e)
    case Success(t) => DropDuplicateLibraries(t)
  }
}
