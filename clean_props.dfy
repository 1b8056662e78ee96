/** What `clean_libraries` guarantees, stated against the raw input table. */
module CleanProps {
  import opened Frames
  import opened Masks
  import opened Dedup
  import opened Transform

  /** The raw columns the cleaning step reads, in the order it reads them:
      each contact column with `[]` and then its `contact:*` alternative with
      `get`, the geometry, the name, and the address columns of the
      deduplication key. */
  const REQUIRED_COLUMNS: seq<string> :=
    ["email", "contact:email", "phone", "contact:phone", "website", "contact:website",
     "geometry", "name", "addr:street", "addr:housenumber"]

  /** The raw columns the cleaning step needs once the contact merge
      tolerates an absent `contact:*` column, in read order. */
  const INTENDED_COLUMNS: seq<string> :=
    ["email", "phone", "website", "geometry", "name", "addr:street", "addr:housenumber"]

  /** The deduplication key computed from a raw row: the name after the
      default, the street and the house number. */
  function RawKey(r: Row): (Cell, Cell, Cell)
  {
    (Coalesce(Lookup(r, "name"), Some(UNKNOWN_NAME)), Lookup(r, "addr:street"), Lookup(r, "addr:housenumber"))
  }

  /** `o` carries every allow-listed raw value of `r` other than the name,
      under its renamed column. */
  predicate KeepsRawValues(o: Row, r: Row)
  {
    forall c :: c in r && c in KEEP_COLUMNS && c != "name" ==> Rename(c) in o && o[Rename(c)] == r[c]
  }

  /** The columns of `o` that the cleaning step computes from raw row `r`. */
  predicate DerivedFrom(o: Row, r: Row, centroid: Geometry -> Point)
  {
    && Lookup(o, "name") == Coalesce(Lookup(r, "name"), Some(UNKNOWN_NAME))
    && Lookup(o, "final_email") == Coalesce(Lookup(r, "email"), Lookup(r, "contact:email"))
    && Lookup(o, "final_phone") == Coalesce(Lookup(r, "phone"), Lookup(r, "contact:phone"))
    && Lookup(o, "website_url") == Coalesce(Lookup(r, "website"), Lookup(r, "contact:website"))
    && Lookup(o, "geom_point") == CentroidOf(Lookup(r, "geometry"), centroid)
    && Lookup(o, "longitude") == XOf(Lookup(o, "geom_point"))
    && Lookup(o, "latitude") == YOf(Lookup(o, "geom_point"))
  }

  /** `o` is the cleaned form of raw row `r`. */
  predicate CleanedFrom(o: Row, r: Row, centroid: Geometry -> Point)
  {
    KeepsRawValues(o, r) && DerivedFrom(o, r, centroid)
  }

  /** An allow-listed raw column is present after selection and renaming,
      under its new name, exactly when it was present before. */
  lemma RenamedHas(gdf: Table, c: string)
    requires WellFormed(gdf) && c in KEEP_COLUMNS
    ensures Rename(c) in Renamed(gdf).columns <==> c in gdf.columns
  {
    var s := SelectColumns(gdf);
    var t := Renamed(gdf);
    RenameInjectiveOnKeep();
    if Rename(c) in t.columns {
      var k :| 0 <= k < |t.columns| && t.columns[k] == Rename(c);
      assert s.columns[k] == c;
    }
    if c in gdf.columns {
      assert c in s.columns;
      var k :| 0 <= k < |s.columns| && s.columns[k] == c;
      assert t.columns[k] == Rename(c);
    }
  }

  /** An allow-listed raw column's cells are, row for row, the cells of its
      renamed column after selection and renaming; both are missing together. */
  lemma RenamedCells(gdf: Table, c: string)
    requires WellFormed(gdf) && c in KEEP_COLUMNS
    ensures forall i :: 0 <= i < |gdf.rows| ==> Lookup(Renamed(gdf).rows[i], Rename(c)) == Lookup(gdf.rows[i], c)
  {
    var s := SelectColumns(gdf);
    var t := Renamed(gdf);
    RenameInjectiveOnKeep();
    RenamedHas(gdf, c);
    if c in gdf.columns {
      assert c in s.columns;
      var k :| 0 <= k < |s.columns| && s.columns[k] == c;
      assert t.columns[k] == Rename(c);
    }
    forall i | 0 <= i < |gdf.rows| ensures Lookup(t.rows[i], Rename(c)) == Lookup(gdf.rows[i], c) {
      assert c in gdf.rows[i] <==> c in ColumnSet(gdf);
      assert Rename(c) in t.rows[i] <==> Rename(c) in ColumnSet(t);
    }
  }

  /** Each column the cleaning step reads is present after selection and
      renaming, under its new name, exactly when the raw table has it. */
  lemma RenamedReadColumns(gdf: Table)
    requires WellFormed(gdf)
    ensures var cs, t0 := gdf.columns, Renamed(gdf).columns;
      && ("email" in t0 <==> "email" in cs)
      && ("contact_email" in t0 <==> "contact:email" in cs)
      && ("phone" in t0 <==> "phone" in cs)
      && ("contact_phone" in t0 <==> "contact:phone" in cs)
      && ("website" in t0 <==> "website" in cs)
      && ("contact_website" in t0 <==> "contact:website" in cs)
      && ("geometry" in t0 <==> "geometry" in cs)
      && ("name" in t0 <==> "name" in cs)
      && ("street" in t0 <==> "addr:street" in cs)
      && ("housenumber" in t0 <==> "addr:housenumber" in cs)
  {
    RenameFacts();
    RequiredKept();
    RenamedHas(gdf, "email");
    RenamedHas(gdf, "contact:email");
    RenamedHas(gdf, "phone");
    RenamedHas(gdf, "contact:phone");
    RenamedHas(gdf, "website");
    RenamedHas(gdf, "contact:website");
    RenamedHas(gdf, "geometry");
    RenamedHas(gdf, "name");
    RenamedHas(gdf, "addr:street");
    RenamedHas(gdf, "addr:housenumber");
  }

  /** The raw columns the cleaning step reads are all on the allow-list. */
  lemma RequiredKept()
    ensures "email" in KEEP_COLUMNS && "phone" in KEEP_COLUMNS && "website" in KEEP_COLUMNS
    ensures "contact:email" in KEEP_COLUMNS && "contact:phone" in KEEP_COLUMNS && "contact:website" in KEEP_COLUMNS
    ensures "geometry" in KEEP_COLUMNS && "name" in KEEP_COLUMNS
    ensures "addr:street" in KEEP_COLUMNS && "addr:housenumber" in KEEP_COLUMNS
  {
  }

  /** The renamed table meets what the row-wise stages demand. */
  predicate RenamedRequiredHolds(gdf: Table)
    requires WellFormed(gdf)
  {
    var t0 := Renamed(gdf);
    && "email" in t0.columns && "phone" in t0.columns && "website" in t0.columns
    && "geometry" in t0.columns && "name" in t0.columns
    && (forall n :: n in DERIVED_COLUMNS ==> n !in t0.columns)
  }

  /** The raw columns the row-wise stages read by name are still there
      after selection and renaming, and none of the derived names is taken. */
  lemma RenamedRequired(gdf: Table)
    requires WellFormed(gdf)
    requires "email" in gdf.columns && "phone" in gdf.columns && "website" in gdf.columns
    requires "geometry" in gdf.columns && "name" in gdf.columns
    ensures RenamedRequiredHolds(gdf)
  {
    RenameFacts();
    RenamedHasNoDerived(gdf);
    RenamedHas(gdf, "email");
    RenamedHas(gdf, "phone");
    RenamedHas(gdf, "website");
    RenamedHas(gdf, "geometry");
    RenamedHas(gdf, "name");
  }

  /** The `contact:*` columns are still there after selection and renaming,
      as `contact_*`. */
  lemma RenamedContacts(gdf: Table)
    requires WellFormed(gdf)
    requires "contact:email" in gdf.columns && "contact:phone" in gdf.columns && "contact:website" in gdf.columns
    ensures var t0 := Renamed(gdf);
      "contact_email" in t0.columns && "contact_phone" in t0.columns && "contact_website" in t0.columns
  {
    RenameFacts();
    RenamedHas(gdf, "contact:email");
    RenamedHas(gdf, "contact:phone");
    RenamedHas(gdf, "contact:website");
  }

  /** With every column it reads present, the row-wise part as written
      succeeds and is the row-wise stages applied to the renamed table. */
  lemma PrepareSucceeds(gdf: Table, centroid: Geometry -> Point)
    requires WellFormed(gdf)
    requires "email" in gdf.columns && "phone" in gdf.columns && "website" in gdf.columns
    requires "contact:email" in gdf.columns && "contact:phone" in gdf.columns && "contact:website" in gdf.columns
    requires "geometry" in gdf.columns && "name" in gdf.columns
    ensures RenamedRequiredHolds(gdf)
    ensures Prepare(gdf, centroid) == Success(Prepared(Renamed(gdf), centroid))
  {
    RenamedRequired(gdf);
    RenamedContacts(gdf);
  }

  /** The row-wise part as intended needs no `contact:*` column. */
  lemma PrepareIntendedSucceeds(gdf: Table, centroid: Geometry -> Point)
    requires WellFormed(gdf)
    requires "email" in gdf.columns && "phone" in gdf.columns && "website" in gdf.columns
    requires "geometry" in gdf.columns && "name" in gdf.columns
    ensures RenamedRequiredHolds(gdf)
    ensures PrepareIntended(gdf, centroid) == Success(Prepared(Renamed(gdf), centroid))
  {
    RenamedRequired(gdf);
  }

  /** Every listed column is present, one by one. */
  lemma RequiredPresent(cs: seq<string>)
    requires forall c :: c in REQUIRED_COLUMNS ==> c in cs
    ensures "email" in cs && "phone" in cs && "website" in cs
    ensures "contact:email" in cs && "contact:phone" in cs && "contact:website" in cs
    ensures "geometry" in cs && "name" in cs && "addr:street" in cs && "addr:housenumber" in cs
  {
    assert REQUIRED_COLUMNS[0] == "email" && REQUIRED_COLUMNS[1] == "contact:email";
    assert REQUIRED_COLUMNS[2] == "phone" && REQUIRED_COLUMNS[3] == "contact:phone";
    assert REQUIRED_COLUMNS[4] == "website" && REQUIRED_COLUMNS[5] == "contact:website";
    assert REQUIRED_COLUMNS[6] == "geometry" && REQUIRED_COLUMNS[7] == "name";
    assert REQUIRED_COLUMNS[8] == "addr:street" && REQUIRED_COLUMNS[9] == "addr:housenumber";
  }

  /** Every column the intended step needs is present, one by one. */
  lemma IntendedPresent(cs: seq<string>)
    requires forall c :: c in INTENDED_COLUMNS ==> c in cs
    ensures "email" in cs && "phone" in cs && "website" in cs
    ensures "geometry" in cs && "name" in cs && "addr:street" in cs && "addr:housenumber" in cs
  {
    assert INTENDED_COLUMNS[0] == "email" && INTENDED_COLUMNS[1] == "phone";
    assert INTENDED_COLUMNS[2] == "website" && INTENDED_COLUMNS[3] == "geometry";
    assert INTENDED_COLUMNS[4] == "name" && INTENDED_COLUMNS[5] == "addr:street";
    assert INTENDED_COLUMNS[6] == "addr:housenumber";
  }

  /** The cleaning step's row-wise part, as written, keeps every row, in
      order, and turns each into its cleaned form; the derived columns come
      after the renamed raw ones. */
  lemma PrepareRows(gdf: Table, centroid: Geometry -> Point)
    requires WellFormed(gdf)
    requires forall c :: c in REQUIRED_COLUMNS ==> c in gdf.columns
    ensures Prepare(gdf, centroid).Success?
    ensures var t := Prepare(gdf, centroid).value;
      && WellFormed(t)
      && t.columns == Renamed(gdf).columns + DERIVED_COLUMNS
      && "street" in t.columns && "housenumber" in t.columns
      && |t.rows| == |gdf.rows|
      && forall i :: 0 <= i < |t.rows| ==>
           CleanedFrom(t.rows[i], gdf.rows[i], centroid) && LibraryKey(t.rows[i]) == RawKey(gdf.rows[i])
  {
    RequiredPresent(gdf.columns);
    PrepareSucceeds(gdf, centroid);
    PreparedAddress(gdf, centroid);
    PreparedRowsCleaned(gdf, centroid);
  }

  /** The address columns survive the row-wise part. */
  lemma PreparedAddress(gdf: Table, centroid: Geometry -> Point)
    requires WellFormed(gdf)
    requires "email" in gdf.columns && "phone" in gdf.columns && "website" in gdf.columns
    requires "geometry" in gdf.columns && "name" in gdf.columns
    requires "addr:street" in gdf.columns && "addr:housenumber" in gdf.columns
    ensures RenamedRequiredHolds(gdf)
    ensures "street" in Prepared(Renamed(gdf), centroid).columns
    ensures "housenumber" in Prepared(Renamed(gdf), centroid).columns
  {
    RenamedRequired(gdf);
    RenameFacts();
    RenamedHas(gdf, "addr:street");
    RenamedHas(gdf, "addr:housenumber");
    AddressNotDerived(Renamed(gdf).columns);
  }

  /** Every row of the row-wise part is the cleaned form of its raw row. */
  lemma PreparedRowsCleaned(gdf: Table, centroid: Geometry -> Point)
    requires WellFormed(gdf)
    requires "email" in gdf.columns && "phone" in gdf.columns && "website" in gdf.columns
    requires "geometry" in gdf.columns && "name" in gdf.columns
    ensures RenamedRequiredHolds(gdf)
    ensures var t := Prepared(Renamed(gdf), centroid);
      forall i :: 0 <= i < |t.rows| ==>
        CleanedFrom(t.rows[i], gdf.rows[i], centroid) && LibraryKey(t.rows[i]) == RawKey(gdf.rows[i])
  {
    RenamedRequired(gdf);
    var t0 := Renamed(gdf);
    var t := Prepared(t0, centroid);
    forall i | 0 <= i < |t.rows|
      ensures CleanedFrom(t.rows[i], gdf.rows[i], centroid)
      ensures LibraryKey(t.rows[i]) == RawKey(gdf.rows[i])
    {
      RenamedRowKeeps(gdf, i);
      RenamedRowNamed(gdf, i);
      PrepareRowCleaned(gdf.rows[i], t0.rows[i], centroid);
    }
  }

  /** A raw row after selection and renaming keeps its allow-listed values. */
  lemma RenamedRowKeeps(gdf: Table, i: nat)
    requires WellFormed(gdf) && i < |gdf.rows|
    ensures KeepsRawValues(Renamed(gdf).rows[i], gdf.rows[i])
    ensures forall n :: n in DERIVED_COLUMNS ==> n !in Renamed(gdf).rows[i]
  {
    var t0 := Renamed(gdf);
    RenamedHasNoDerived(gdf);
    forall c | c in gdf.rows[i] && c in KEEP_COLUMNS && c != "name"
      ensures Rename(c) in t0.rows[i] && t0.rows[i][Rename(c)] == gdf.rows[i][c]
    {
      RenamedHas(gdf, c);
      RenamedCells(gdf, c);
      assert Rename(c) in ColumnSet(t0);
    }
  }

  /** The cells the later steps read by name, after selection and renaming. */
  lemma RenamedRowNamed(gdf: Table, i: nat)
    requires WellFormed(gdf) && i < |gdf.rows|
    ensures var r, r0 := gdf.rows[i], Renamed(gdf).rows[i];
      && Lookup(r0, "email") == Lookup(r, "email")
      && Lookup(r0, "phone") == Lookup(r, "phone")
      && Lookup(r0, "website") == Lookup(r, "website")
      && Lookup(r0, "contact_email") == Lookup(r, "contact:email")
      && Lookup(r0, "contact_phone") == Lookup(r, "contact:phone")
      && Lookup(r0, "contact_website") == Lookup(r, "contact:website")
      && Lookup(r0, "geometry") == Lookup(r, "geometry")
      && Lookup(r0, "name") == Lookup(r, "name")
      && Lookup(r0, "street") == Lookup(r, "addr:street")
      && Lookup(r0, "housenumber") == Lookup(r, "addr:housenumber")
  {
    RenameFacts();
    RenamedCells(gdf, "email");
    RenamedCells(gdf, "phone");
    RenamedCells(gdf, "website");
    RenamedCells(gdf, "contact:email");
    RenamedCells(gdf, "contact:phone");
    RenamedCells(gdf, "contact:website");
    RenamedCells(gdf, "geometry");
    RenamedCells(gdf, "name");
    RenamedCells(gdf, "addr:street");
    RenamedCells(gdf, "addr:housenumber");
  }

  /** The row-wise stages turn a renamed row into the cleaned form of the raw
      row it came from. */
  lemma PrepareRowCleaned(r: Row, r0: Row, centroid: Geometry -> Point)
    requires "email" in r0 && "phone" in r0 && "website" in r0 && "geometry" in r0 && "name" in r0
    requires forall n :: n in DERIVED_COLUMNS ==> n !in r0
    requires KeepsRawValues(r0, r)
    requires && Lookup(r0, "email") == Lookup(r, "email")
      && Lookup(r0, "phone") == Lookup(r, "phone")
      && Lookup(r0, "website") == Lookup(r, "website")
      && Lookup(r0, "contact_email") == Lookup(r, "contact:email")
      && Lookup(r0, "contact_phone") == Lookup(r, "contact:phone")
      && Lookup(r0, "contact_website") == Lookup(r, "contact:website")
      && Lookup(r0, "geometry") == Lookup(r, "geometry")
      && Lookup(r0, "name") == Lookup(r, "name")
      && Lookup(r0, "street") == Lookup(r, "addr:street")
      && Lookup(r0, "housenumber") == Lookup(r, "addr:housenumber")
    ensures CleanedFrom(PrepareRow(r0, centroid), r, centroid)
    ensures LibraryKey(PrepareRow(r0, centroid)) == RawKey(r)
  {
    PrepareRowKeeps(r, r0, centroid);
    PrepareRowDerived(r0, centroid);
  }

  /** The row-wise stages keep every cell outside the name and the derived columns. */
  lemma PrepareRowKeeps(r: Row, r0: Row, centroid: Geometry -> Point)
    requires "email" in r0 && "phone" in r0 && "website" in r0 && "geometry" in r0 && "name" in r0
    requires KeepsRawValues(r0, r)
    ensures KeepsRawValues(PrepareRow(r0, centroid), r)
  {
    var o := PrepareRow(r0, centroid);
    RenameInjectiveOnKeep();
    RenameFacts();
    forall c | c in r && c in KEEP_COLUMNS && c != "name" ensures Rename(c) in o && o[Rename(c)] == r[c] {
      var n := Rename(c);
      assert n != "name" && n !in DERIVED_COLUMNS && n in r0;
      RowStagesKeep(r0, centroid, n);
    }
  }

  /** The row-wise stages change only the name and the derived columns. */
  lemma RowStagesKeep(r0: Row, centroid: Geometry -> Point, n: string)
    requires "email" in r0 && "phone" in r0 && "website" in r0 && "geometry" in r0 && "name" in r0
    requires n in r0 && n != "name" && n !in DERIVED_COLUMNS
    ensures n in PrepareRow(r0, centroid) && PrepareRow(r0, centroid)[n] == r0[n]
  {
    var r3 := MergeContacts(r0);
    var r5 := AddCoordinates(r3, centroid);
    assert n !in CONTACT_COLUMNS && n !in POINT_COLUMNS;
  }

  /** The cells the row-wise stages compute, in terms of the renamed row. */
  lemma PrepareRowDerived(r0: Row, centroid: Geometry -> Point)
    requires "email" in r0 && "phone" in r0 && "website" in r0 && "geometry" in r0 && "name" in r0
    ensures var o := PrepareRow(r0, centroid);
      && Lookup(o, "name") == Coalesce(r0["name"], Some(UNKNOWN_NAME))
      && Lookup(o, "final_email") == Coalesce(r0["email"], Lookup(r0, "contact_email"))
      && Lookup(o, "final_phone") == Coalesce(r0["phone"], Lookup(r0, "contact_phone"))
      && Lookup(o, "website_url") == Coalesce(r0["website"], Lookup(r0, "contact_website"))
      && Lookup(o, "geom_point") == CentroidOf(r0["geometry"], centroid)
      && Lookup(o, "longitude") == XOf(Lookup(o, "geom_point"))
      && Lookup(o, "latitude") == YOf(Lookup(o, "geom_point"))
      && Lookup(o, "street") == Lookup(r0, "street")
      && Lookup(o, "housenumber") == Lookup(r0, "housenumber")
  {
    PrepareRowContacts(r0, centroid);
    PrepareRowPoint(r0, centroid);
    PrepareRowNamed(r0, centroid);
  }

  /** The merged contact cells of a cleaned row. */
  lemma PrepareRowContacts(r0: Row, centroid: Geometry -> Point)
    requires "email" in r0 && "phone" in r0 && "website" in r0 && "geometry" in r0 && "name" in r0
    ensures var o := PrepareRow(r0, centroid);
      && Lookup(o, "final_email") == Coalesce(r0["email"], Lookup(r0, "contact_email"))
      && Lookup(o, "final_phone") == Coalesce(r0["phone"], Lookup(r0, "contact_phone"))
      && Lookup(o, "website_url") == Coalesce(r0["website"], Lookup(r0, "contact_website"))
  {
    var r3 := MergeContacts(r0);
    LaterStagesKeep(r3, centroid, "final_email");
    LaterStagesKeep(r3, centroid, "final_phone");
    LaterStagesKeep(r3, centroid, "website_url");
  }

  /** Steps 4 to 6 keep a cell that is neither the name nor a point column. */
  lemma LaterStagesKeep(r3: Row, centroid: Geometry -> Point, n: string)
    requires "geometry" in r3 && "name" in r3
    requires n in r3 && n in CONTACT_COLUMNS
    ensures Lookup(DefaultName(AddCoordinates(r3, centroid)), n) == r3[n]
  {
    assert n != "name" && n !in POINT_COLUMNS;
  }

  /** The representative point and its coordinates in a cleaned row. */
  lemma PrepareRowPoint(r0: Row, centroid: Geometry -> Point)
    requires "email" in r0 && "phone" in r0 && "website" in r0 && "geometry" in r0 && "name" in r0
    ensures var o := PrepareRow(r0, centroid);
      && Lookup(o, "geom_point") == CentroidOf(r0["geometry"], centroid)
      && Lookup(o, "longitude") == XOf(Lookup(o, "geom_point"))
      && Lookup(o, "latitude") == YOf(Lookup(o, "geom_point"))
  {
    var r3 := MergeContacts(r0);
    assert "geometry" !in CONTACT_COLUMNS;
  }

  /** The name and the address cells of a cleaned row. */
  lemma PrepareRowNamed(r0: Row, centroid: Geometry -> Point)
    requires "email" in r0 && "phone" in r0 && "website" in r0 && "geometry" in r0 && "name" in r0
    ensures var o := PrepareRow(r0, centroid);
      && Lookup(o, "name") == Coalesce(r0["name"], Some(UNKNOWN_NAME))
      && Lookup(o, "street") == Lookup(r0, "street")
      && Lookup(o, "housenumber") == Lookup(r0, "housenumber")
  {
    PrepareRowName(r0, centroid);
    AddressOutsideStages();
    RowStagesLookup(r0, centroid, "street");
    RowStagesLookup(r0, centroid, "housenumber");
  }

  /** The name of a cleaned row. */
  lemma PrepareRowName(r0: Row, centroid: Geometry -> Point)
    requires "email" in r0 && "phone" in r0 && "website" in r0 && "geometry" in r0 && "name" in r0
    ensures Lookup(PrepareRow(r0, centroid), "name") == Coalesce(r0["name"], Some(UNKNOWN_NAME))
  {
    assert "name" !in CONTACT_COLUMNS && "name" !in POINT_COLUMNS;
  }

  /** The address columns are neither the name nor a column the row-wise
      stages create. */
  lemma AddressOutsideStages()
    ensures "street" != "name" && "street" !in CONTACT_COLUMNS && "street" !in POINT_COLUMNS
    ensures "housenumber" != "name" && "housenumber" !in CONTACT_COLUMNS && "housenumber" !in POINT_COLUMNS
  {
  }

  /** Steps 3 to 6 leave a column outside the name and the derived ones as
      it was, present or absent. */
  lemma RowStagesLookup(r0: Row, centroid: Geometry -> Point, n: string)
    requires "email" in r0 && "phone" in r0 && "website" in r0 && "geometry" in r0 && "name" in r0
    requires n != "name" && n !in CONTACT_COLUMNS && n !in POINT_COLUMNS
    ensures Lookup(PrepareRow(r0, centroid), n) == Lookup(r0, n)
  {
    var r3 := MergeContacts(r0);
    var r5 := AddCoordinates(r3, centroid);
  }

  /** Where the row-wise part as written succeeds, each merged contact
      column is the column the merge as written computes on the renamed
      table: the pipeline composes the merge as written. */
  lemma PrepareMergesAsWritten(gdf: Table, centroid: Geometry -> Point)
    requires WellFormed(gdf)
    requires Prepare(gdf, centroid).Success?
    ensures var t0, t := Renamed(gdf), Prepare(gdf, centroid).value;
      && "email" in t0.columns && "phone" in t0.columns && "website" in t0.columns
      && MergeContactAsWritten(t0, "email", "contact_email").Success?
      && MergeContactAsWritten(t0, "phone", "contact_phone").Success?
      && MergeContactAsWritten(t0, "website", "contact_website").Success?
      && |t.rows| == |t0.rows|
      && forall i :: 0 <= i < |t.rows| ==>
           && Lookup(t.rows[i], "final_email") == MergeContactAsWritten(t0, "email", "contact_email").value[i]
           && Lookup(t.rows[i], "final_phone") == MergeContactAsWritten(t0, "phone", "contact_phone").value[i]
           && Lookup(t.rows[i], "website_url") == MergeContactAsWritten(t0, "website", "contact_website").value[i]
  {
    PrepareSucceeded(gdf, centroid);
    PreparedMergesAsWritten(Renamed(gdf), centroid);
  }

  /** What a successful row-wise part as written has found on the renamed table. */
  lemma PrepareSucceeded(gdf: Table, centroid: Geometry -> Point)
    requires WellFormed(gdf)
    requires Prepare(gdf, centroid).Success?
    ensures var t0 := Renamed(gdf);
      && "email" in t0.columns && "phone" in t0.columns && "website" in t0.columns
      && "contact_email" in t0.columns && "contact_phone" in t0.columns && "contact_website" in t0.columns
      && "geometry" in t0.columns && "name" in t0.columns
      && (forall n :: n in DERIVED_COLUMNS ==> n !in t0.columns)
      && Prepare(gdf, centroid) == Success(Prepared(t0, centroid))
  {
    RenamedHasNoDerived(gdf);
  }

  /** On a renamed table with both columns of every contact merge, the
      row-wise stages merge as `fillna` does. */
  lemma PreparedMergesAsWritten(t0: Table, centroid: Geometry -> Point)
    requires WellFormed(t0)
    requires "email" in t0.columns && "phone" in t0.columns && "website" in t0.columns
    requires "contact_email" in t0.columns && "contact_phone" in t0.columns && "contact_website" in t0.columns
    requires "geometry" in t0.columns && "name" in t0.columns
    requires forall n :: n in DERIVED_COLUMNS ==> n !in t0.columns
    ensures var t := Prepared(t0, centroid);
      && MergeContactAsWritten(t0, "email", "contact_email").Success?
      && MergeContactAsWritten(t0, "phone", "contact_phone").Success?
      && MergeContactAsWritten(t0, "website", "contact_website").Success?
      && forall i :: 0 <= i < |t.rows| ==>
           && Lookup(t.rows[i], "final_email") == MergeContactAsWritten(t0, "email", "contact_email").value[i]
           && Lookup(t.rows[i], "final_phone") == MergeContactAsWritten(t0, "phone", "contact_phone").value[i]
           && Lookup(t.rows[i], "website_url") == MergeContactAsWritten(t0, "website", "contact_website").value[i]
  {
    var t := Prepared(t0, centroid);
    MergeContactAgreesWhenFallbackPresent(t0, "final_email", "email", "contact_email");
    MergeContactAgreesWhenFallbackPresent(t0, "final_phone", "phone", "contact_phone");
    MergeContactAgreesWhenFallbackPresent(t0, "website_url", "website", "contact_website");
    forall i | 0 <= i < |t.rows|
      ensures Lookup(t.rows[i], "final_email") == FillContact(t0.rows[i], "final_email", "email", "contact_email")["final_email"]
      ensures Lookup(t.rows[i], "final_phone") == FillContact(t0.rows[i], "final_phone", "phone", "contact_phone")["final_phone"]
      ensures Lookup(t.rows[i], "website_url") == FillContact(t0.rows[i], "website_url", "website", "contact_website")["website_url"]
    {
      ColumnInEveryRow(t0, "email");
      ColumnInEveryRow(t0, "phone");
      ColumnInEveryRow(t0, "website");
      ColumnInEveryRow(t0, "geometry");
      ColumnInEveryRow(t0, "name");
      PrepareRowContacts(t0.rows[i], centroid);
    }
  }

  /** The exception `clean_libraries` raises for a raw table, judged on its
      raw column names alone: the first column the step reads that the table
      lacks, named as the step names it, or nothing when none is absent. */
  function MissingRequired(cs: seq<string>): Option<Error>
  {
    if "email" !in cs then Some(MissingColumn("email"))
    else if "contact:email" !in cs then Some(NoFillValue("contact_email"))
    else if "phone" !in cs then Some(MissingColumn("phone"))
    else if "contact:phone" !in cs then Some(NoFillValue("contact_phone"))
    else if "website" !in cs then Some(MissingColumn("website"))
    else if "contact:website" !in cs then Some(NoFillValue("contact_website"))
    else if "geometry" !in cs then Some(NoGeometry)
    else if "name" !in cs then Some(MissingColumn("name"))
    else if "addr:street" !in cs then Some(MissingColumn("street"))
    else if "addr:housenumber" !in cs then Some(MissingColumn("housenumber"))
    else None
  }

  /** No reference error means every column the step reads is present. */
  lemma MissingRequiredNone(cs: seq<string>)
    ensures MissingRequired(cs).None? <==> forall c :: c in REQUIRED_COLUMNS ==> c in cs
  {
  }

  /** The exception of the step with the intended contact merge: an absent
      `contact:*` column is not an error. */
  function MissingIntended(cs: seq<string>): Option<Error>
  {
    if "email" !in cs then Some(MissingColumn("email"))
    else if "phone" !in cs then Some(MissingColumn("phone"))
    else if "website" !in cs then Some(MissingColumn("website"))
    else if "geometry" !in cs then Some(NoGeometry)
    else if "name" !in cs then Some(MissingColumn("name"))
    else if "addr:street" !in cs then Some(MissingColumn("street"))
    else if "addr:housenumber" !in cs then Some(MissingColumn("housenumber"))
    else None
  }

  /** No intended error means every column the intended step needs is present. */
  lemma MissingIntendedNone(cs: seq<string>)
    ensures MissingIntended(cs).None? <==> forall c :: c in INTENDED_COLUMNS ==> c in cs
  {
  }

  /** `clean_libraries` raises exactly when a column it reads is absent from
      the raw table, and the exception is the one for the first such column
      in the order the step reads them; a `contact:*` column counts, since
      `fillna` raises when `get` finds none. */
  lemma CleanLibrariesFails(gdf: Table, centroid: Geometry -> Point)
    requires WellFormed(gdf)
    ensures CleanLibraries(gdf, centroid).Failure? <==> MissingRequired(gdf.columns).Some?
    ensures CleanLibraries(gdf, centroid).Failure? ==>
      CleanLibraries(gdf, centroid).error == MissingRequired(gdf.columns).value
  {
    var cs := gdf.columns;
    var r := CleanLibraries(gdf, centroid);
    RenamedReadColumns(gdf);
    if "email" !in cs {
      assert r == Failure(MissingColumn("email"));
    } else if "contact:email" !in cs {
      assert r == Failure(NoFillValue("contact_email"));
    } else if "phone" !in cs {
      assert r == Failure(MissingColumn("phone"));
    } else if "contact:phone" !in cs {
      assert r == Failure(NoFillValue("contact_phone"));
    } else if "website" !in cs {
      assert r == Failure(MissingColumn("website"));
    } else if "contact:website" !in cs {
      assert r == Failure(NoFillValue("contact_website"));
    } else if "geometry" !in cs {
      assert r == Failure(NoGeometry);
    } else if "name" !in cs {
      assert r == Failure(MissingColumn("name"));
    } else {
      CleanLibrariesFailsAfterPrepare(gdf, centroid);
    }
  }

  /** `CleanLibrariesFails` once the row-wise part has succeeded. */
  lemma CleanLibrariesFailsAfterPrepare(gdf: Table, centroid: Geometry -> Point)
    requires WellFormed(gdf)
    requires "email" in gdf.columns && "phone" in gdf.columns && "website" in gdf.columns
    requires "contact:email" in gdf.columns && "contact:phone" in gdf.columns && "contact:website" in gdf.columns
    requires "geometry" in gdf.columns && "name" in gdf.columns
    ensures CleanLibraries(gdf, centroid).Failure? <==> MissingRequired(gdf.columns).Some?
    ensures CleanLibraries(gdf, centroid).Failure? ==>
      CleanLibraries(gdf, centroid).error == MissingRequired(gdf.columns).value
  {
    var cs := gdf.columns;
    PrepareSucceeds(gdf, centroid);
    MissingRequiredLate(cs);
    DropDuplicatesAfterPrepare(gdf, centroid);
    assert CleanLibraries(gdf, centroid) == DropDuplicateLibraries(Prepared(Renamed(gdf), centroid));
  }

  /** The reference error once every column of the row-wise part is present
      is the intended one. */
  lemma MissingRequiredLate(cs: seq<string>)
    requires "email" in cs && "phone" in cs && "website" in cs
    requires "contact:email" in cs && "contact:phone" in cs && "contact:website" in cs
    requires "geometry" in cs && "name" in cs
    ensures MissingRequired(cs) == MissingIntended(cs)
  {
  }

  /** The intended error once the first five columns are present. */
  lemma MissingIntendedLate(cs: seq<string>)
    requires "email" in cs && "phone" in cs && "website" in cs && "geometry" in cs && "name" in cs
    ensures "addr:street" !in cs ==> MissingIntended(cs) == Some(MissingColumn("street"))
    ensures "addr:street" in cs && "addr:housenumber" !in cs ==> MissingIntended(cs) == Some(MissingColumn("housenumber"))
    ensures "addr:street" in cs && "addr:housenumber" in cs ==> MissingIntended(cs) == None
  {
  }

  /** The drop_duplicates step after the row-wise part: it raises for the
      first absent address column. */
  lemma DropDuplicatesAfterPrepare(gdf: Table, centroid: Geometry -> Point)
    requires WellFormed(gdf)
    requires "email" in gdf.columns && "phone" in gdf.columns && "website" in gdf.columns
    requires "geometry" in gdf.columns && "name" in gdf.columns
    ensures RenamedRequiredHolds(gdf)
    ensures var r, cs := DropDuplicateLibraries(Prepared(Renamed(gdf), centroid)), gdf.columns;
      && (r.Failure? <==> MissingIntended(cs).Some?)
      && (r.Failure? ==> r.error == MissingIntended(cs).value)
  {
    var t0 := Renamed(gdf);
    RenamedRequired(gdf);
    MissingIntendedLate(gdf.columns);
    RenameFacts();
    RenamedHas(gdf, "addr:street");
    RenamedHas(gdf, "addr:housenumber");
    AddressNotDerived(t0.columns);
  }

  /** Appending the derived columns adds no address column. */
  lemma AddressNotDerived(cs: seq<string>)
    ensures "street" in cs + DERIVED_COLUMNS <==> "street" in cs
    ensures "housenumber" in cs + DERIVED_COLUMNS <==> "housenumber" in cs
  {
  }

  /** The step with the intended contact merge raises exactly when a column
      it needs is absent, for the first such column in read order; an absent
      `contact:*` column is never an error. */
  lemma CleanLibrariesIntendedFails(gdf: Table, centroid: Geometry -> Point)
    requires WellFormed(gdf)
    ensures CleanLibrariesIntended(gdf, centroid).Failure? <==> MissingIntended(gdf.columns).Some?
    ensures CleanLibrariesIntended(gdf, centroid).Failure? ==>
      CleanLibrariesIntended(gdf, centroid).error == MissingIntended(gdf.columns).value
  {
    var cs := gdf.columns;
    var r := CleanLibrariesIntended(gdf, centroid);
    RenamedReadColumns(gdf);
    if "email" !in cs {
      assert r == Failure(MissingColumn("email"));
    } else if "phone" !in cs {
      assert r == Failure(MissingColumn("phone"));
    } else if "website" !in cs {
      assert r == Failure(MissingColumn("website"));
    } else if "geometry" !in cs {
      assert r == Failure(NoGeometry);
    } else if "name" !in cs {
      assert r == Failure(MissingColumn("name"));
    } else {
      PrepareIntendedSucceeds(gdf, centroid);
      DropDuplicatesAfterPrepare(gdf, centroid);
      assert r == DropDuplicateLibraries(Prepared(Renamed(gdf), centroid));
    }
  }

  /** Where every `contact:*` column exists, the step as written and as
      intended give the same result, error or table. */
  lemma CleanLibrariesIntendedAgrees(gdf: Table, centroid: Geometry -> Point)
    requires WellFormed(gdf)
    requires "contact:email" in gdf.columns && "contact:phone" in gdf.columns && "contact:website" in gdf.columns
    ensures CleanLibrariesIntended(gdf, centroid) == CleanLibraries(gdf, centroid)
  {
    RenamedContacts(gdf);
    PrepareAgrees(gdf, centroid);
  }

  /** A table with every column the intended step needs but without some
      `contact:*` column: the step as written raises for the missing fill
      value, the intended one succeeds. */
  lemma CleanLibrariesRaisesWithoutContacts(gdf: Table, centroid: Geometry -> Point)
    requires WellFormed(gdf)
    requires forall c :: c in INTENDED_COLUMNS ==> c in gdf.columns
    requires "contact:email" !in gdf.columns || "contact:phone" !in gdf.columns || "contact:website" !in gdf.columns
    ensures CleanLibraries(gdf, centroid).Failure?
    ensures CleanLibraries(gdf, centroid).error.NoFillValue?
    ensures CleanLibrariesIntended(gdf, centroid).Success?
  {
    var cs := gdf.columns;
    IntendedPresent(cs);
    CleanLibrariesFails(gdf, centroid);
    CleanLibrariesIntendedFails(gdf, centroid);
    ContactsReportedFirst(cs);
  }

  /** With the five columns of the row-wise stages and the address present,
      only a `contact:*` column can be reported, as a missing fill value. */
  lemma ContactsReportedFirst(cs: seq<string>)
    requires "email" in cs && "phone" in cs && "website" in cs && "geometry" in cs && "name" in cs
    requires "addr:street" in cs && "addr:housenumber" in cs
    requires "contact:email" !in cs || "contact:phone" !in cs || "contact:website" !in cs
    ensures MissingRequired(cs).Some? && MissingRequired(cs).value.NoFillValue?
    ensures MissingIntended(cs).None?
  {
  }

  /** Deduplicating a table of cleaned rows keeps the first row of each raw
      key, in order, each still the cleaned form of its raw row. */
  lemma DeduplicateCleaned(t: Table, gdf: Table, centroid: Geometry -> Point)
    requires |t.rows| == |gdf.rows|
    requires forall i :: 0 <= i < |t.rows| ==> CleanedFrom(t.rows[i], gdf.rows[i], centroid)
    requires forall i :: 0 <= i < |t.rows| ==> LibraryKey(t.rows[i]) == RawKey(gdf.rows[i])
    ensures var out, idx := DropDuplicates(t.rows, LibraryKey), Retained(gdf.rows, RawKey);
      && |out| == |idx|
      && forall k :: 0 <= k < |idx| ==> CleanedFrom(out[k], gdf.rows[idx[k]], centroid)
  {
    DeduplicateAt(t, gdf);
  }

  /** Deduplicating a table whose keys are the raw rows' keys keeps the rows
      at the positions deduplicating the raw rows keeps. */
  lemma DeduplicateAt(t: Table, gdf: Table)
    requires |t.rows| == |gdf.rows|
    requires forall i :: 0 <= i < |t.rows| ==> LibraryKey(t.rows[i]) == RawKey(gdf.rows[i])
    ensures var out, idx := DropDuplicates(t.rows, LibraryKey), Retained(gdf.rows, RawKey);
      && |out| == |idx|
      && (forall k :: 0 <= k < |idx| ==> idx[k] < |t.rows| && out[k] == t.rows[idx[k]])
      && (forall k :: 0 <= k < |idx| ==> LibraryKey(out[k]) == RawKey(gdf.rows[idx[k]]))
  {
    RetainedSameKeys(t.rows, LibraryKey, gdf.rows, RawKey);
  }

  /** Deduplicating the rows of a well-formed table leaves it well-formed. */
  lemma DeduplicateWellFormed(t: Table)
    requires WellFormed(t)
    ensures WellFormed(Table(t.columns, DropDuplicates(t.rows, LibraryKey)))
  {
    var out := Table(t.columns, DropDuplicates(t.rows, LibraryKey));
    var idx := Retained(t.rows, LibraryKey);
    assert ColumnSet(out) == ColumnSet(t);
    forall k | 0 <= k < |out.rows| ensures out.rows[k].Keys == ColumnSet(out) {
      assert out.rows[k] == t.rows[idx[k]];
    }
  }

  /** Deduplicating a table of cleaned rows leaves no two rows with the same
      key and loses no raw key. */
  lemma DeduplicateKeys(t: Table, gdf: Table)
    requires |t.rows| == |gdf.rows|
    requires forall i :: 0 <= i < |t.rows| ==> LibraryKey(t.rows[i]) == RawKey(gdf.rows[i])
    ensures var out := DropDuplicates(t.rows, LibraryKey);
      && (forall a, b :: 0 <= a < b < |out| ==> LibraryKey(out[a]) != LibraryKey(out[b]))
      && (forall i :: 0 <= i < |gdf.rows| ==> exists k :: 0 <= k < |out| && LibraryKey(out[k]) == RawKey(gdf.rows[i]))
  {
    DropDuplicatesUniqueKeys(t.rows, LibraryKey);
    DropDuplicatesKeepsKeys(t.rows, LibraryKey);
    forall i | 0 <= i < |gdf.rows|
      ensures exists k :: 0 <= k < |DropDuplicates(t.rows, LibraryKey)| && LibraryKey(DropDuplicates(t.rows, LibraryKey)[k]) == RawKey(gdf.rows[i])
    {
      assert LibraryKey(t.rows[i]) == RawKey(gdf.rows[i]);
    }
  }

  /** The deduplication of the row-wise part, for a table with every column
      the row-wise stages and the key need: the first row of each (defaulted
      name, street, house number) key and no other, in input order, each in
      its cleaned form, under the renamed columns followed by the derived ones. */
  lemma CleanedOutput(gdf: Table, centroid: Geometry -> Point)
    requires WellFormed(gdf)
    requires "email" in gdf.columns && "phone" in gdf.columns && "website" in gdf.columns
    requires "geometry" in gdf.columns && "name" in gdf.columns
    requires "addr:street" in gdf.columns && "addr:housenumber" in gdf.columns
    ensures RenamedRequiredHolds(gdf)
    ensures DropDuplicateLibraries(Prepared(Renamed(gdf), centroid)).Success?
    ensures var out, idx := DropDuplicateLibraries(Prepared(Renamed(gdf), centroid)).value, Retained(gdf.rows, RawKey);
      && WellFormed(out)
      && out.columns == Renamed(gdf).columns + DERIVED_COLUMNS
      && |out.rows| == |idx| <= |gdf.rows|
      && (forall a, b :: 0 <= a < b < |idx| ==> idx[a] < idx[b])
      && (forall k, j :: 0 <= k < |idx| && 0 <= j < idx[k] ==> RawKey(gdf.rows[j]) != RawKey(gdf.rows[idx[k]]))
      && (forall k :: 0 <= k < |idx| ==>
            CleanedFrom(out.rows[k], gdf.rows[idx[k]], centroid) && LibraryKey(out.rows[k]) == RawKey(gdf.rows[idx[k]]))
  {
    PreparedAddress(gdf, centroid);
    PreparedRowsCleaned(gdf, centroid);
    var t := Prepared(Renamed(gdf), centroid);
    DeduplicateWellFormed(t);
    DeduplicateAt(t, gdf);
    DeduplicateCleaned(t, gdf, centroid);
  }

  /** With every column it reads present, `clean_libraries` succeeds and is
      the deduplication of the row-wise part. */
  lemma CleanLibrariesSucceeds(gdf: Table, centroid: Geometry -> Point)
    requires WellFormed(gdf)
    requires forall c :: c in REQUIRED_COLUMNS ==> c in gdf.columns
    ensures RenamedRequiredHolds(gdf)
    ensures var t := Prepared(Renamed(gdf), centroid);
      && |t.rows| == |gdf.rows|
      && (forall i :: 0 <= i < |t.rows| ==> LibraryKey(t.rows[i]) == RawKey(gdf.rows[i]))
      && CleanLibraries(gdf, centroid) == Success(Table(t.columns, DropDuplicates(t.rows, LibraryKey)))
  {
    RequiredPresent(gdf.columns);
    PrepareSucceeds(gdf, centroid);
    PreparedAddress(gdf, centroid);
    PreparedRowsCleaned(gdf, centroid);
  }

  /** With every column it reads present, `clean_libraries` keeps the first
      row of each (defaulted name, street, house number) key and no other, in
      input order, each in its cleaned form, under the renamed columns
      followed by the derived ones. */
  lemma CleanLibrariesOutput(gdf: Table, centroid: Geometry -> Point)
    requires WellFormed(gdf)
    requires forall c :: c in REQUIRED_COLUMNS ==> c in gdf.columns
    ensures CleanLibraries(gdf, centroid).Success?
    ensures var out, idx := CleanLibraries(gdf, centroid).value, Retained(gdf.rows, RawKey);
      && WellFormed(out)
      && out.columns == Renamed(gdf).columns + DERIVED_COLUMNS
      && |out.rows| == |idx| <= |gdf.rows|
      && (forall a, b :: 0 <= a < b < |idx| ==> idx[a] < idx[b])
      && (forall k, j :: 0 <= k < |idx| && 0 <= j < idx[k] ==> RawKey(gdf.rows[j]) != RawKey(gdf.rows[idx[k]]))
      && (forall k :: 0 <= k < |idx| ==>
            CleanedFrom(out.rows[k], gdf.rows[idx[k]], centroid) && LibraryKey(out.rows[k]) == RawKey(gdf.rows[idx[k]]))
  {
    RequiredPresent(gdf.columns);
    PrepareSucceeds(gdf, centroid);
    CleanedOutput(gdf, centroid);
  }

  /** The same output for the step with the intended contact merge, which
      needs no `contact:*` column. */
  lemma CleanLibrariesIntendedOutput(gdf: Table, centroid: Geometry -> Point)
    requires WellFormed(gdf)
    requires forall c :: c in INTENDED_COLUMNS ==> c in gdf.columns
    ensures CleanLibrariesIntended(gdf, centroid).Success?
    ensures var out, idx := CleanLibrariesIntended(gdf, centroid).value, Retained(gdf.rows, RawKey);
      && WellFormed(out)
      && out.columns == Renamed(gdf).columns + DERIVED_COLUMNS
      && |out.rows| == |idx| <= |gdf.rows|
      && (forall a, b :: 0 <= a < b < |idx| ==> idx[a] < idx[b])
      && (forall k, j :: 0 <= k < |idx| && 0 <= j < idx[k] ==> RawKey(gdf.rows[j]) != RawKey(gdf.rows[idx[k]]))
      && (forall k :: 0 <= k < |idx| ==>
            CleanedFrom(out.rows[k], gdf.rows[idx[k]], centroid) && LibraryKey(out.rows[k]) == RawKey(gdf.rows[idx[k]]))
  {
    IntendedPresent(gdf.columns);
    PrepareIntendedSucceeds(gdf, centroid);
    CleanedOutput(gdf, centroid);
  }

  /** With every column it reads present, no two rows `clean_libraries`
      returns share a deduplication key. */
  lemma CleanLibrariesUniqueKeys(gdf: Table, centroid: Geometry -> Point)
    requires WellFormed(gdf)
    requires forall c :: c in REQUIRED_COLUMNS ==> c in gdf.columns
    ensures CleanLibraries(gdf, centroid).Success?
    ensures var out := CleanLibraries(gdf, centroid).value;
      forall a, b :: 0 <= a < b < |out.rows| ==> LibraryKey(out.rows[a]) != LibraryKey(out.rows[b])
  {
    CleanLibrariesSucceeds(gdf, centroid);
    DropDuplicatesUniqueKeys(Prepared(Renamed(gdf), centroid).rows, LibraryKey);
  }

  /** With every column it reads present, every raw row's key is carried by
      some row `clean_libraries` returns. */
  lemma CleanLibrariesKeepsKeys(gdf: Table, centroid: Geometry -> Point)
    requires WellFormed(gdf)
    requires forall c :: c in REQUIRED_COLUMNS ==> c in gdf.columns
    ensures CleanLibraries(gdf, centroid).Success?
    ensures var out := CleanLibraries(gdf, centroid).value;
      forall i :: 0 <= i < |gdf.rows| ==> exists k :: 0 <= k < |out.rows| && LibraryKey(out.rows[k]) == RawKey(gdf.rows[i])
  {
    CleanLibrariesSucceeds(gdf, centroid);
    var t := Prepared(Renamed(gdf), centroid);
    var out := CleanLibraries(gdf, centroid).value;
    assert out.rows == DropDuplicates(t.rows, LibraryKey);
    DeduplicateKeys(t, gdf);
  }

  /** With every column it reads present, no row `clean_libraries` returns
      lacks a name. */
  lemma CleanLibrariesNamed(gdf: Table, centroid: Geometry -> Point)
    requires WellFormed(gdf)
    requires forall c :: c in REQUIRED_COLUMNS ==> c in gdf.columns
    ensures CleanLibraries(gdf, centroid).Success?
    ensures var out := CleanLibraries(gdf, centroid).value;
      forall k :: 0 <= k < |out.rows| ==> Lookup(out.rows[k], "name").Some?
  {
    CleanLibrariesOutput(gdf, centroid);
    var out := CleanLibraries(gdf, centroid).value;
    var idx := Retained(gdf.rows, RawKey);
    forall k | 0 <= k < |out.rows| ensures Lookup(out.rows[k], "name").Some? {
      CleanedIsNamed(out.rows[k], gdf.rows[idx[k]], centroid);
    }
  }

  lemma CleanedIsNamed(o: Row, r: Row, centroid: Geometry -> Point)
    requires CleanedFrom(o, r, centroid)
    ensures Lookup(o, "name").Some?
  {
  }

  /** A row is dropped exactly when an earlier row has the same key; in
      particular a row without a name is dropped after an earlier row at the
      same address that is named "unknown" or has no name either. */
  lemma DroppedIffEarlierSameKey(gdf: Table, j: nat)
    requires j < |gdf.rows|
    ensures j in Retained(gdf.rows, RawKey) <==> forall i :: 0 <= i < j ==> RawKey(gdf.rows[i]) != RawKey(gdf.rows[j])
    ensures forall i | 0 <= i < j ::
      (&& Lookup(gdf.rows[j], "name").None?
       && Lookup(gdf.rows[i], "name") in {None, Some(UNKNOWN_NAME)}
       && Lookup(gdf.rows[i], "addr:street") == Lookup(gdf.rows[j], "addr:street")
       && Lookup(gdf.rows[i], "addr:housenumber") == Lookup(gdf.rows[j], "addr:housenumber"))
      ==> j !in Retained(gdf.rows, RawKey)
  {
    var idx := Retained(gdf.rows, RawKey);
    if j in idx {
      var k :| 0 <= k < |idx| && idx[k] == j;
    }
  }
}
