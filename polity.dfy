/** The political side of the reconciliation: `prepare_polity_dataset` (after the spreadsheet is
    read), `map_polity_region_dataset` and `get_polityshift_column`, in helper_function.py. */
module Polity {
  import opened Frames
  import opened Strings
  import opened Olympic

  /** A row of the polity spreadsheet, with the columns the rules keep. */
  datatype PolityRecord = PolityRecord(scode: string, country: string, year: int, polity: Option<int>,
                                       polity2: Option<int>, durable: Option<int>)

  /** A row of the prepared polity table: the record plus the region and the Olympic code that the
      two merges with the region table found for it. */
  datatype PolityRow = PolityRow(scode: string, country: string, year: int, polity: Option<int>,
                                 polity2: Option<int>, durable: Option<int>,
                                 alternateRegion: Option<string>, alternateNoc: Option<string>)

  /** The first Olympic year the rules keep polity data for. */
  const FirstYear: int := 1890

  // ---------------------------------------------------------------------------------------------
  // prepare_polity_dataset

  predicate FromFirstYear(rec: PolityRecord) { rec.year >= FirstYear }

  /** `country.str.upper().str.strip()` */
  function Normalise(rec: PolityRecord): PolityRecord {
    rec.(country := Strip(Upper(rec.country)))
  }

  /** The records from 1890 on, with the country name normalised. */
  function Selected(records: seq<PolityRecord>): seq<PolityRecord> {
    MapSeq(Filter(records, FromFirstYear), Normalise)
  }

  /** The mask "this region row names the country". */
  function RegionIs(country: string): NocRow -> bool {
    (n: NocRow) => n.region == Some(country)
  }

  /** The mask "this region row carries the code". */
  function CodeIs(code: string): NocRow -> bool {
    (n: NocRow) => n.noc == code
  }

  function SomeNoc(n: NocRow): Option<NocRow> { Some(n) }

  /** What a left merge attaches to one row: every matching right row, or one all-null row. */
  function LeftMatches(ms: seq<NocRow>): (r: seq<Option<NocRow>>)
    ensures |r| == if ms == [] then 1 else |ms|
    ensures ms == [] ==> r == [None]
    ensures forall i :: 0 <= i < |ms| ==> r[i] == Some(ms[i])
  {
    if ms == [] then [None] else MapSeq(ms, SomeNoc)
  }

  /** An all-null row is attached exactly when nothing matches; otherwise each match once. */
  lemma LeftMatchesMembers(ms: seq<NocRow>, m: Option<NocRow>)
    ensures m in LeftMatches(ms) <==> (ms == [] && m.None?) || (m.Some? && m.value in ms)
  {
    if ms != [] {
      MapSeqMembers(ms, SomeNoc);
    }
  }

  function RegionCell(m: Option<NocRow>): Option<string> {
    if m.Some? then m.value.region else None
  }

  function CodeCell(m: Option<NocRow>): Option<string> {
    if m.Some? then Some(m.value.noc) else None
  }

  /** One merged row: `x` from the merge on the country name, `y` from the merge on the code.
      `region_z` and `NOC_z` take the name-merge value unless it is null. */
  function Combine(rec: PolityRecord, x: Option<NocRow>, y: Option<NocRow>): (r: PolityRow)
    ensures SameColumns(r, rec)
    ensures r.alternateNoc.Some? <==> x.Some? || y.Some?
    ensures x.Some? ==> r.alternateNoc == Some(x.value.noc)
    ensures x.Some? && x.value.region.Some? ==> r.alternateRegion == x.value.region
    ensures x.Some? && x.value.region.None? ==> r.alternateRegion == RegionCell(y)
    ensures x.None? ==> r.alternateRegion == RegionCell(y) && r.alternateNoc == CodeCell(y)
  {
    PolityRow(rec.scode, rec.country, rec.year, rec.polity, rec.polity2, rec.durable,
              Coalesce(RegionCell(x), RegionCell(y)), Coalesce(CodeCell(x), CodeCell(y)))
  }

  function CombineWith(rec: PolityRecord, x: Option<NocRow>): Option<NocRow> -> PolityRow {
    y => Combine(rec, x, y)
  }

  /** The rows of one record after both merges: for each name match, each code match. */
  function Cross(rec: PolityRecord, xs: seq<Option<NocRow>>, ys: seq<Option<NocRow>>): (r: seq<PolityRow>)
    ensures xs != [] && ys != [] ==> r != []
    ensures |xs| == 1 ==> |r| == |ys|
  {
    if xs == [] then [] else MapSeq(ys, CombineWith(rec, xs[0])) + Cross(rec, xs[1..], ys)
  }

  /** The merged rows of one record are the combinations of a name match with a code match. */
  lemma {:induction false} CrossMembers(rec: PolityRecord, xs: seq<Option<NocRow>>, ys: seq<Option<NocRow>>)
    ensures forall row :: row in Cross(rec, xs, ys) ==> exists x, y :: x in xs && y in ys && row == Combine(rec, x, y)
    ensures forall x, y :: x in xs && y in ys ==> Combine(rec, x, y) in Cross(rec, xs, ys)
  {
    if xs != [] {
      CrossMembers(rec, xs[1..], ys);
      var head := MapSeq(ys, CombineWith(rec, xs[0]));
      var rest := Cross(rec, xs[1..], ys);
      assert Cross(rec, xs, ys) == head + rest;
      forall row | row in Cross(rec, xs, ys)
        ensures exists x, y :: x in xs && y in ys && row == Combine(rec, x, y)
      {
        if row in head {
          var j :| 0 <= j < |ys| && head[j] == row;
          assert xs[0] in xs && ys[j] in ys && row == Combine(rec, xs[0], ys[j]);
        } else {
          assert row in rest;
          var x, y :| x in xs[1..] && y in ys && row == Combine(rec, x, y);
          assert x in xs;
        }
      }
      forall x, y | x in xs && y in ys ensures Combine(rec, x, y) in Cross(rec, xs, ys) {
        if x == xs[0] {
          var j :| 0 <= j < |ys| && ys[j] == y;
          assert head[j] == Combine(rec, x, y);
          assert Combine(rec, x, y) in head;
        } else {
          var i :| 0 <= i < |xs| && xs[i] == x;
          assert i > 0 && xs[1..][i - 1] == x;
          assert x in xs[1..];
          assert Combine(rec, x, y) in rest;
        }
      }
    }
  }

  function MergeRecord(rec: PolityRecord, nocs: seq<NocRow>): seq<PolityRow> {
    Cross(rec, LeftMatches(Filter(nocs, RegionIs(rec.country))), LeftMatches(Filter(nocs, CodeIs(rec.scode))))
  }

  function Merger(nocs: seq<NocRow>): PolityRecord -> seq<PolityRow> {
    rec => MergeRecord(rec, nocs)
  }

  /** The two left merges over the whole table, in the order of the left rows. */
  function MergeAll(recs: seq<PolityRecord>, nocs: seq<NocRow>): seq<PolityRow> {
    FlatMap(recs, Merger(nocs))
  }

  /** `prepare_polity_dataset` after the spreadsheet is read: a left merge, so no record of 1890
      or later is lost. */
  function PreparePolityDataset(records: seq<PolityRecord>, nocs: seq<NocRow>): (r: seq<PolityRow>)
    ensures |r| >= |Filter(records, FromFirstYear)|
  {
    SelectedMembers(records);
    MergeAllMembers(Selected(records), nocs);
    MergeAll(Selected(records), nocs)
  }

  /** The output row carries the record's own columns, with the country normalised. */
  predicate Carries(row: PolityRow, rec: PolityRecord) {
    row.scode == rec.scode && row.country == Strip(Upper(rec.country)) && row.year == rec.year
    && row.polity == rec.polity && row.polity2 == rec.polity2 && row.durable == rec.durable
  }

  /** Some region row names the country. */
  predicate NamedRegion(nocs: seq<NocRow>, country: string) {
    exists k :: 0 <= k < |nocs| && nocs[k].region == Some(country)
  }

  lemma MergeAllMembers(recs: seq<PolityRecord>, nocs: seq<NocRow>)
    ensures |MergeAll(recs, nocs)| >= |recs|
    ensures forall row :: row in MergeAll(recs, nocs) ==> exists k :: 0 <= k < |recs| && row in MergeRecord(recs[k], nocs)
    ensures forall k, row :: 0 <= k < |recs| && row in MergeRecord(recs[k], nocs) ==> row in MergeAll(recs, nocs)
  {
    FlatMapMembers(recs, Merger(nocs));
    FlatMapLonger(recs, Merger(nocs));
  }

  lemma SelectedMembers(records: seq<PolityRecord>)
    ensures |Selected(records)| == |Filter(records, FromFirstYear)|
    ensures forall s :: s in Selected(records) ==> exists rec :: rec in records && rec.year >= FirstYear && s == Normalise(rec)
    ensures forall rec :: rec in records && rec.year >= FirstYear ==> Normalise(rec) in Selected(records)
  {
    var f := Filter(records, FromFirstYear);
    MapSeqMembers(f, Normalise);
    forall s | s in Selected(records) ensures exists rec :: rec in records && rec.year >= FirstYear && s == Normalise(rec) {
      var rec :| rec in f && s == Normalise(rec);
      assert rec in records && FromFirstYear(rec);
    }
    forall rec | rec in records && rec.year >= FirstYear ensures Normalise(rec) in Selected(records) {
      assert FromFirstYear(rec);
      assert rec in f;
    }
  }

  /** The merged row keeps the record's own columns. */
  predicate SameColumns(row: PolityRow, rec: PolityRecord) {
    row.scode == rec.scode && row.country == rec.country && row.year == rec.year
    && row.polity == rec.polity && row.polity2 == rec.polity2 && row.durable == rec.durable
  }

  /** A left merge never drops a record and never changes its columns. */
  lemma MergeRecordColumns(rec: PolityRecord, nocs: seq<NocRow>)
    ensures MergeRecord(rec, nocs) != []
    ensures forall row :: row in MergeRecord(rec, nocs) ==> SameColumns(row, rec)
  {
    var xs := LeftMatches(Filter(nocs, RegionIs(rec.country)));
    var ys := LeftMatches(Filter(nocs, CodeIs(rec.scode)));
    CrossMembers(rec, xs, ys);
  }

  lemma NormaliseCountry(rec: PolityRecord)
    ensures NoLower(Normalise(rec).country) && Stripped(Normalise(rec).country)
  {
    StripNoLower(Upper(rec.country));
  }

  /** Where one output row of the preparation comes from. */
  lemma PreparedRowOrigin(records: seq<PolityRecord>, nocs: seq<NocRow>, row: PolityRow)
    requires row in PreparePolityDataset(records, nocs)
    ensures row.year >= FirstYear && NoLower(row.country) && Stripped(row.country)
    ensures exists rec :: rec in records && rec.year >= FirstYear && Carries(row, rec)
  {
    var sel := Selected(records);
    SelectedMembers(records);
    MergeAllMembers(sel, nocs);
    var k :| 0 <= k < |sel| && row in MergeRecord(sel[k], nocs);
    assert sel[k] in sel;
    var rec :| rec in records && rec.year >= FirstYear && sel[k] == Normalise(rec);
    MergeRecordColumns(sel[k], nocs);
    NormaliseCountry(rec);
    assert SameColumns(row, Normalise(rec));
  }

  /** Every record from the first year on reaches the output. */
  lemma SelectedIndex(records: seq<PolityRecord>, rec: PolityRecord) returns (j: nat)
    requires rec in records && rec.year >= FirstYear
    ensures j < |Selected(records)| && Selected(records)[j] == Normalise(rec)
  {
    var f := Filter(records, FromFirstYear);
    assert rec in f;
    j :| 0 <= j < |f| && f[j] == rec;
  }

  lemma MergeAllFirst(recs: seq<PolityRecord>, nocs: seq<NocRow>, j: nat)
    requires j < |recs|
    ensures MergeRecord(recs[j], nocs) != [] && MergeRecord(recs[j], nocs)[0] in MergeAll(recs, nocs)
  {
    MergeRecordColumns(recs[j], nocs);
    assert MergeRecord(recs[j], nocs)[0] in Merger(nocs)(recs[j]);
    FlatMapMembers(recs, Merger(nocs));
  }

  lemma PreparedRecordKept(records: seq<PolityRecord>, nocs: seq<NocRow>, rec: PolityRecord)
    requires rec in records && rec.year >= FirstYear
    ensures exists row :: row in PreparePolityDataset(records, nocs) && Carries(row, rec)
  {
    var sel := Selected(records);
    var j := SelectedIndex(records, rec);
    MergeAllFirst(sel, nocs, j);
    MergeRecordColumns(sel[j], nocs);
    var row := MergeRecord(sel[j], nocs)[0];
    assert SameColumns(row, Normalise(rec));
    assert row in PreparePolityDataset(records, nocs);
  }

  /** Every prepared row comes from a record of 1890 or later, keeps its columns, and has an
      upper-case country without surrounding whitespace; every such record yields at least one row. */
  lemma PreparePolityRows(records: seq<PolityRecord>, nocs: seq<NocRow>)
    ensures forall row :: row in PreparePolityDataset(records, nocs) ==>
              row.year >= FirstYear && NoLower(row.country) && Stripped(row.country)
              && exists rec :: rec in records && rec.year >= FirstYear && Carries(row, rec)
    ensures forall rec :: rec in records && rec.year >= FirstYear ==>
              exists row :: row in PreparePolityDataset(records, nocs) && Carries(row, rec)
  {
    MergeAllMembers(Selected(records), nocs);
    forall row | row in PreparePolityDataset(records, nocs)
      ensures row.year >= FirstYear && NoLower(row.country) && Stripped(row.country)
      ensures exists rec :: rec in records && rec.year >= FirstYear && Carries(row, rec)
    {
      PreparedRowOrigin(records, nocs, row);
    }
    forall rec | rec in records && rec.year >= FirstYear
      ensures exists row :: row in PreparePolityDataset(records, nocs) && Carries(row, rec)
    {
      PreparedRecordKept(records, nocs, rec);
    }
  }

  /** The rule of the alternate columns for one merged row of a record whose name is in the table. */
  predicate NameRule(row: PolityRow, nocs: seq<NocRow>) {
    row.alternateRegion == Some(row.country) && row.alternateNoc.Some?
    && exists k :: 0 <= k < |nocs| && nocs[k].region == Some(row.country) && nocs[k].noc == row.alternateNoc.value
  }

  /** The rule of the alternate columns for one merged row of a record whose name is not. */
  predicate CodeRule(row: PolityRow, nocs: seq<NocRow>) {
    (row.alternateNoc.Some? <==> KnownNoc(nocs, row.scode))
    && (row.alternateNoc.Some? ==> row.alternateNoc.value == row.scode)
    && (KnownNoc(nocs, row.scode) ==>
          exists k :: 0 <= k < |nocs| && nocs[k].noc == row.scode && nocs[k].region == row.alternateRegion)
    && (!KnownNoc(nocs, row.scode) ==> row.alternateRegion.None?)
  }

  lemma CombineNamed(rec: PolityRecord, x: Option<NocRow>, y: Option<NocRow>, nocs: seq<NocRow>)
    requires NamedRegion(nocs, rec.country)
    requires x in LeftMatches(Filter(nocs, RegionIs(rec.country)))
    ensures NameRule(Combine(rec, x, y), nocs)
  {
    var names := Filter(nocs, RegionIs(rec.country));
    var k :| 0 <= k < |nocs| && nocs[k].region == Some(rec.country);
    assert nocs[k] in names;
    LeftMatchesMembers(names, x);
    var n := x.value;
    assert n in nocs && n.region == Some(rec.country);
    var k' :| 0 <= k' < |nocs| && nocs[k'] == n;
  }

  lemma CombineUnnamed(rec: PolityRecord, x: Option<NocRow>, y: Option<NocRow>, nocs: seq<NocRow>)
    requires !NamedRegion(nocs, rec.country)
    requires x in LeftMatches(Filter(nocs, RegionIs(rec.country)))
    requires y in LeftMatches(Filter(nocs, CodeIs(rec.scode)))
    ensures CodeRule(Combine(rec, x, y), nocs)
  {
    var codes := Filter(nocs, CodeIs(rec.scode));
    LeftMatchesMembers(Filter(nocs, RegionIs(rec.country)), x);
    LeftMatchesMembers(codes, y);
    if KnownNoc(nocs, rec.scode) {
      var k :| 0 <= k < |nocs| && nocs[k].noc == rec.scode;
      assert nocs[k] in codes;
    }
    if y.Some? {
      var k :| 0 <= k < |nocs| && nocs[k] == y.value;
    }
  }

  lemma MergeRecordAlternates(rec: PolityRecord, nocs: seq<NocRow>)
    ensures forall row :: row in MergeRecord(rec, nocs) ==>
              if NamedRegion(nocs, rec.country) then NameRule(row, nocs) else CodeRule(row, nocs)
  {
    var names := Filter(nocs, RegionIs(rec.country));
    var codes := Filter(nocs, CodeIs(rec.scode));
    CrossMembers(rec, LeftMatches(names), LeftMatches(codes));
    forall row | row in MergeRecord(rec, nocs)
      ensures if NamedRegion(nocs, rec.country) then NameRule(row, nocs) else CodeRule(row, nocs)
    {
      var x, y :| x in LeftMatches(names) && y in LeftMatches(codes) && row == Combine(rec, x, y);
      if NamedRegion(nocs, rec.country) {
        CombineNamed(rec, x, y, nocs);
      } else {
        CombineUnnamed(rec, x, y, nocs);
      }
    }
  }

  /** How the alternate columns are filled, whatever the region table holds: a region row naming
      the country wins; otherwise the region and code come from a region row with the record's code. */
  lemma PreparePolityAlternates(records: seq<PolityRecord>, nocs: seq<NocRow>)
    ensures forall row :: row in PreparePolityDataset(records, nocs) && NamedRegion(nocs, row.country) ==> NameRule(row, nocs)
    ensures forall row :: row in PreparePolityDataset(records, nocs) && !NamedRegion(nocs, row.country) ==> CodeRule(row, nocs)
  {
    var sel := Selected(records);
    MergeAllMembers(sel, nocs);
    forall row | row in PreparePolityDataset(records, nocs)
      ensures if NamedRegion(nocs, row.country) then NameRule(row, nocs) else CodeRule(row, nocs)
    {
      var i :| 0 <= i < |sel| && row in MergeRecord(sel[i], nocs);
      MergeRecordColumns(sel[i], nocs);
      MergeRecordAlternates(sel[i], nocs);
    }
  }

  /** Every region is named by at most one region row. */
  predicate UniqueRegion(nocs: seq<NocRow>) {
    forall k, l :: 0 <= k < l < |nocs| && nocs[k].region.Some? ==> nocs[k].region != nocs[l].region
  }

  /** With unique regions and codes each merge finds at most one region row, so a record yields one row. */
  lemma MergeRecordUnique(rec: PolityRecord, nocs: seq<NocRow>)
    requires UniqueRegion(nocs) && UniqueNoc(nocs)
    ensures |MergeRecord(rec, nocs)| == 1
  {
    FilterAtMostOne(nocs, RegionIs(rec.country));
    FilterAtMostOne(nocs, CodeIs(rec.scode));
  }

  /** With one region row per region and one per code, the merges keep the table's shape:
      one output row per record of 1890 or later, in the same order. */
  lemma PreparePolityUnique(records: seq<PolityRecord>, nocs: seq<NocRow>)
    requires UniqueRegion(nocs) && UniqueNoc(nocs)
    ensures |PreparePolityDataset(records, nocs)| == |Filter(records, FromFirstYear)|
    ensures forall i :: 0 <= i < |Filter(records, FromFirstYear)| ==>
              Carries(PreparePolityDataset(records, nocs)[i], Filter(records, FromFirstYear)[i])
  {
    var sel := Selected(records);
    forall k | 0 <= k < |sel| ensures |Merger(nocs)(sel[k])| == 1 {
      MergeRecordUnique(sel[k], nocs);
    }
    FlatMapSingle(sel, Merger(nocs));
    forall i | 0 <= i < |sel|
      ensures Carries(PreparePolityDataset(records, nocs)[i], Filter(records, FromFirstYear)[i])
    {
      MergeRecordColumns(sel[i], nocs);
      assert MergeRecord(sel[i], nocs)[0] in MergeRecord(sel[i], nocs);
    }
  }

  // ---------------------------------------------------------------------------------------------
  // map_polity_region_dataset

  /** A null `alternate_noc` takes `country_dict[country]`, or stays null when the name is missing. */
  function FillCode(row: PolityRow, countryDict: map<string, string>): PolityRow {
    if row.alternateNoc.None? then row.(alternateNoc := Lookup(countryDict, row.country)) else row
  }

  function CodeFiller(countryDict: map<string, string>): PolityRow -> PolityRow {
    row => FillCode(row, countryDict)
  }

  /** The null-only fill of `alternate_noc`: present codes are kept, missing ones are looked up by
      country, and every other column is untouched. */
  function FillCodes(rows: seq<PolityRow>, countryDict: map<string, string>): (r: seq<PolityRow>)
    ensures |r| == |rows|
    ensures forall i :: 0 <= i < |rows| ==> r[i].alternateNoc == Coalesce(rows[i].alternateNoc, Lookup(countryDict, rows[i].country))
    ensures forall i :: 0 <= i < |rows| ==> r[i].(alternateNoc := rows[i].alternateNoc) == rows[i]
  {
    MapSeq(rows, CodeFiller(countryDict))
  }

  /** Filling codes twice fills nothing more. */
  lemma FillCodesIdempotent(rows: seq<PolityRow>, countryDict: map<string, string>)
    ensures FillCodes(FillCodes(rows, countryDict), countryDict) == FillCodes(rows, countryDict)
  {
    var once := FillCodes(rows, countryDict);
    var twice := FillCodes(once, countryDict);
    forall i | 0 <= i < |rows| ensures twice[i] == once[i] {
      assert twice[i].(alternateNoc := once[i].alternateNoc) == once[i];
    }
  }

  predicate NotOrangeFreeState(row: PolityRow) { row.country != "ORANGE FREE STATE" }

  /** Drops a row whose `polity2` cell holds -66. A null cell is a missing score, which this
      filter keeps. */
  predicate NotInterrupted(row: PolityRow) { row.polity2 != Some(-66) }

  predicate Kept(row: PolityRow) { NotOrangeFreeState(row) && NotInterrupted(row) }

  /** The two successive row exclusions: a row survives exactly when it is neither the Orange Free
      State nor interrupted. */
  function DropExcluded(rows: seq<PolityRow>): (r: seq<PolityRow>)
    ensures |r| <= |rows|
    ensures forall row :: row in r <==> row in rows && row.country != "ORANGE FREE STATE" && row.polity2 != Some(-66)
  {
    Filter(Filter(rows, NotOrangeFreeState), NotInterrupted)
  }

  /** The exclusions keep exactly the rows that pass both, in their original order. */
  lemma DropExcludedKept(rows: seq<PolityRow>)
    ensures DropExcluded(rows) == Filter(rows, Kept)
  {
    FilterFilter(rows, NotOrangeFreeState, NotInterrupted, Kept);
  }

  /** A null `alternate_region` takes `country_mapper[alternate_noc]`; a null or unknown code leaves it null. */
  function FillRegion(row: PolityRow, countryMapper: map<string, string>): PolityRow {
    if row.alternateRegion.None? && row.alternateNoc.Some? then
      row.(alternateRegion := Lookup(countryMapper, row.alternateNoc.value))
    else row
  }

  function RegionFiller(countryMapper: map<string, string>): PolityRow -> PolityRow {
    row => FillRegion(row, countryMapper)
  }

  /** The region of a code, null for a null or unknown code. */
  function RegionOfCode(code: Option<string>, countryMapper: map<string, string>): Option<string> {
    if code.Some? then Lookup(countryMapper, code.value) else None
  }

  /** The null-only fill of `alternate_region` from the code column. */
  function FillRegions(rows: seq<PolityRow>, countryMapper: map<string, string>): (r: seq<PolityRow>)
    ensures |r| == |rows|
    ensures forall i :: 0 <= i < |rows| ==> r[i].alternateRegion == Coalesce(rows[i].alternateRegion, RegionOfCode(rows[i].alternateNoc, countryMapper))
    ensures forall i :: 0 <= i < |rows| ==> r[i].(alternateRegion := rows[i].alternateRegion) == rows[i]
  {
    MapSeq(rows, RegionFiller(countryMapper))
  }

  /** The table `map_polity_region_dataset` returns: no more rows than it was given, none of them
      an excluded one. */
  function MapPolityRegion(rows: seq<PolityRow>, countryDict: map<string, string>, countryMapper: map<string, string>): (r: seq<PolityRow>)
    ensures |r| <= |rows|
    ensures forall i :: 0 <= i < |r| ==> Kept(r[i])
  {
    var kept := DropExcluded(FillCodes(rows, countryDict));
    assert forall i :: 0 <= i < |kept| ==> Kept(kept[i]) by {
      forall i | 0 <= i < |kept| ensures Kept(kept[i]) {
        assert kept[i] in kept;
      }
    }
    FillRegions(kept, countryMapper)
  }

  /** The returned table holds the kept rows in their order; each has its code filled from the
      country name first, and then its region filled from that filled code. */
  lemma MapPolityRegionKept(rows: seq<PolityRow>, countryDict: map<string, string>, countryMapper: map<string, string>)
    ensures |MapPolityRegion(rows, countryDict, countryMapper)| == |Filter(rows, Kept)|
    ensures forall i :: 0 <= i < |Filter(rows, Kept)| ==>
              var row, out := Filter(rows, Kept)[i], MapPolityRegion(rows, countryDict, countryMapper)[i];
              var code := Coalesce(row.alternateNoc, Lookup(countryDict, row.country));
              out == row.(alternateNoc := code, alternateRegion := Coalesce(row.alternateRegion, RegionOfCode(code, countryMapper)))
  {
    var filled := FillCodes(rows, countryDict);
    DropExcludedKept(filled);
    FilterMapSeq(rows, CodeFiller(countryDict), Kept, Kept);
    assert DropExcluded(filled) == FillCodes(Filter(rows, Kept), countryDict);
  }

  /** The polity table: `map_polity_region_dataset` writes the code fill into the caller's table. */
  class PolityTable {
    var rows: seq<PolityRow>

    constructor (rows: seq<PolityRow>)
      ensures this.rows == rows
    {
      this.rows := rows;
    }

    /** Fills, in place, each null code with the dictionary's code for the row's country. */
    method FillNullCodes(countryDict: map<string, string>)
      modifies this
      ensures rows == FillCodes(old(rows), countryDict)
    {
      rows := FillCodes(rows, countryDict);
    }

    /** Fills, in place, each null region with the mapper's region for the row's code. */
    method FillNullRegions(countryMapper: map<string, string>)
      modifies this
      ensures rows == FillRegions(old(rows), countryMapper)
    {
      rows := FillRegions(rows, countryMapper);
    }
  }

  /** `map_polity_region_dataset`: the code fill lands in the caller's table; the exclusions and the
      region fill happen on a new table, which is returned. */
  method MapPolityRegionDataset(countryDict: map<string, string>, polityDf: PolityTable, countryMapper: map<string, string>)
    returns (result: PolityTable)
    modifies polityDf
    ensures polityDf.rows == FillCodes(old(polityDf.rows), countryDict)
    ensures fresh(result)
    ensures result.rows == MapPolityRegion(old(polityDf.rows), countryDict, countryMapper)
  {
    polityDf.FillNullCodes(countryDict);
    result := new PolityTable(DropExcluded(polityDf.rows));
    result.FillNullRegions(countryMapper);
  }

  // ---------------------------------------------------------------------------------------------
  // get_polityshift_column

  /** A polity row with the added `shift` column. */
  datatype ShiftedRow = ShiftedRow(row: PolityRow, shift: Option<int>)

  /** Subtraction of two nullable scores; a null operand gives null. */
  function Diff(a: Option<int>, b: Option<int>): (r: Option<int>)
    ensures r.Some? <==> a.Some? && b.Some?
    ensures r.Some? ==> r.value + b.value == a.value
  {
    if a.Some? && b.Some? then Some(a.value - b.value) else None
  }

  /** The shift of row `i` of one country's rows: its score minus the next row's; none for the last. */
  function ShiftAt(block: seq<PolityRow>, i: nat): Option<int>
    requires i < |block|
  {
    if i + 1 < |block| then Diff(block[i].polity2, block[i + 1].polity2) else None
  }

  /** `polity2 - polity2.shift(-1)` on one country's rows. */
  function ShiftBlock(block: seq<PolityRow>): (r: seq<ShiftedRow>)
    ensures |r| == |block|
    ensures forall i :: 0 <= i < |block| ==> r[i] == ShiftedRow(block[i], ShiftAt(block, i))
  {
    seq(|block|, i requires 0 <= i < |block| => ShiftedRow(block[i], ShiftAt(block, i)))
  }

  function CountryOf(row: PolityRow): string { row.country }

  function Countries(rows: seq<PolityRow>): seq<string> {
    MapSeq(rows, CountryOf)
  }

  /** The shifted blocks of the countries `cs`, one after another. */
  function ShiftBlocks(rows: seq<PolityRow>, cs: seq<string>): seq<ShiftedRow> {
    if cs == [] then []
    else ShiftBlocks(rows, cs[..|cs| - 1]) + ShiftBlock(Group(rows, CountryOf, cs[|cs| - 1]))
  }

  /** The table `get_polityshift_column` returns. Shifting adds a column and nothing else: the
      input rows come back, each as often as before. */
  function PolityShift(rows: seq<PolityRow>): (r: seq<ShiftedRow>)
    ensures |r| == |rows|
    ensures multiset(Unshifted(r)) == multiset(rows)
  {
    var cs := Distinct(Countries(rows));
    UnshiftedBlocks(rows, cs);
    CountriesDistinct(rows);
    FlattenPermutation(rows, CountryOf, cs);
    ShiftBlocks(rows, cs)
  }

  function RowOf(s: ShiftedRow): PolityRow { s.row }

  /** The output with the shift column dropped again. */
  function Unshifted(out: seq<ShiftedRow>): seq<PolityRow> {
    MapSeq(out, RowOf)
  }

  /** `get_polityshift_column`: one pass per distinct country, in order of first appearance. */
  method GetPolityShiftColumn(df: seq<PolityRow>) returns (reqDf: seq<ShiftedRow>)
    ensures reqDf == PolityShift(df)
  {
    var countries := Distinct(Countries(df));
    reqDf := [];
    var i := 0;
    while i < |countries|
      invariant 0 <= i <= |countries|
      invariant reqDf == ShiftBlocks(df, countries[..i])
    {
      var processed := Group(df, CountryOf, countries[i]);
      assert countries[..i + 1][..i] == countries[..i];
      reqDf := reqDf + ShiftBlock(processed);
      i := i + 1;
    }
    assert countries[..|countries|] == countries;
  }

  lemma UnshiftedBlock(block: seq<PolityRow>)
    ensures Unshifted(ShiftBlock(block)) == block
  {
  }

  lemma {:induction false} UnshiftedBlocks(rows: seq<PolityRow>, cs: seq<string>)
    ensures Unshifted(ShiftBlocks(rows, cs)) == Flatten(rows, CountryOf, cs)
  {
    if cs != [] {
      var init, last := cs[..|cs| - 1], cs[|cs| - 1];
      UnshiftedBlocks(rows, init);
      var g := Group(rows, CountryOf, last);
      MapSeqConcat(ShiftBlocks(rows, init), ShiftBlock(g), RowOf);
      UnshiftedBlock(g);
    }
  }

  lemma CountriesDistinct(rows: seq<PolityRow>)
    ensures forall i :: 0 <= i < |rows| ==> CountryOf(rows[i]) in Distinct(Countries(rows))
  {
    forall i | 0 <= i < |rows| ensures CountryOf(rows[i]) in Distinct(Countries(rows)) {
      assert Countries(rows)[i] == CountryOf(rows[i]);
    }
  }

  /** Within each country the rows keep their original order. */
  lemma PolityShiftWithinCountry(rows: seq<PolityRow>, c: string)
    ensures Group(Unshifted(PolityShift(rows)), CountryOf, c) == Group(rows, CountryOf, c)
  {
    var cs := Distinct(Countries(rows));
    UnshiftedBlocks(rows, cs);
    GroupFlatten(rows, CountryOf, cs, c);
    CountriesDistinct(rows);
    if c !in cs {
      FilterNone(rows, KeyIs(CountryOf, c));
    }
  }

  /** Each row's shift is its score minus the next row's when the next row is of the same country,
      and null on a country's last row. */
  predicate ShiftsAdjacent(out: seq<ShiftedRow>) {
    (forall k :: 0 <= k < |out| - 1 ==>
       out[k].shift == if out[k + 1].row.country == out[k].row.country
                       then Diff(out[k].row.polity2, out[k + 1].row.polity2) else None)
    && (out != [] ==> out[|out| - 1].shift == None)
  }

  /** Every row of the output is of country `c`. */
  predicate AllOf(out: seq<ShiftedRow>, c: string) {
    forall k :: 0 <= k < |out| ==> out[k].row.country == c
  }

  /** One country's shifted block is adjacent-shifted. */
  lemma ShiftBlockAdjacent(block: seq<PolityRow>, c: string)
    requires forall j :: 0 <= j < |block| ==> block[j].country == c
    ensures ShiftsAdjacent(ShiftBlock(block))
    ensures AllOf(ShiftBlock(block), c)
  {
    var out := ShiftBlock(block);
    forall k | 0 <= k < |out| - 1
      ensures out[k].shift == if out[k + 1].row.country == out[k].row.country
                              then Diff(out[k].row.polity2, out[k + 1].row.polity2) else None
    {
      assert out[k] == ShiftedRow(block[k], ShiftAt(block, k));
      assert out[k + 1].row == block[k + 1];
    }
    if out != [] {
      assert out[|out| - 1] == ShiftedRow(block[|out| - 1], ShiftAt(block, |out| - 1));
    }
    forall k | 0 <= k < |out| ensures out[k].row.country == c {
      assert out[k].row == block[k];
    }
  }

  lemma GroupCountry(rows: seq<PolityRow>, c: string)
    ensures forall j :: 0 <= j < |Group(rows, CountryOf, c)| ==> Group(rows, CountryOf, c)[j].country == c
  {
    var g := Group(rows, CountryOf, c);
    assert forall j :: 0 <= j < |g| ==> g[j] in g;
  }

  /** Two adjacent-shifted tables whose seam joins two countries stay adjacent-shifted. */
  lemma AdjacentConcat(a: seq<ShiftedRow>, b: seq<ShiftedRow>)
    requires ShiftsAdjacent(a) && ShiftsAdjacent(b)
    requires a != [] && b != [] ==> a[|a| - 1].row.country != b[0].row.country
    ensures ShiftsAdjacent(a + b)
  {
    var out := a + b;
    forall k | 0 <= k < |out| - 1
      ensures out[k].shift == if out[k + 1].row.country == out[k].row.country
                              then Diff(out[k].row.polity2, out[k + 1].row.polity2) else None
    {
      if k + 1 < |a| {
        assert out[k] == a[k] && out[k + 1] == a[k + 1];
      } else if k + 1 == |a| {
        assert out[k] == a[k] && out[k + 1] == b[0];
      } else {
        assert out[k] == b[k - |a|] && out[k + 1] == b[k + 1 - |a|];
      }
    }
    if b == [] {
      assert out == a;
    } else {
      assert out[|out| - 1] == b[|b| - 1];
    }
  }

  /** The blocks hold only rows of the countries listed. */
  lemma {:induction false} ShiftBlocksCountries(rows: seq<PolityRow>, cs: seq<string>)
    ensures forall k :: 0 <= k < |ShiftBlocks(rows, cs)| ==> ShiftBlocks(rows, cs)[k].row.country in cs
  {
    if cs != [] {
      var init, last := cs[..|cs| - 1], cs[|cs| - 1];
      ShiftBlocksCountries(rows, init);
      GroupCountry(rows, last);
      var a := ShiftBlocks(rows, init);
      var b := ShiftBlock(Group(rows, CountryOf, last));
      var out := a + b;
      assert forall c :: c in init ==> c in cs;
      forall k | 0 <= k < |out| ensures out[k].row.country in cs {
        if k < |a| {
          assert out[k] == a[k];
        } else {
          assert out[k] == b[k - |a|];
        }
      }
    }
  }

  lemma {:induction false} ShiftBlocksAdjacent(rows: seq<PolityRow>, cs: seq<string>)
    requires NoDup(cs)
    ensures ShiftsAdjacent(ShiftBlocks(rows, cs))
  {
    if cs != [] {
      var init, last := cs[..|cs| - 1], cs[|cs| - 1];
      assert cs == init + [last];
      assert NoDup(init);
      ShiftBlocksAdjacent(rows, init);
      ShiftBlocksCountries(rows, init);
      GroupCountry(rows, last);
      ShiftBlockAdjacent(Group(rows, CountryOf, last), last);
      var a := ShiftBlocks(rows, init);
      var b := ShiftBlock(Group(rows, CountryOf, last));
      if a != [] && b != [] {
        assert a[|a| - 1].row.country in init;
      }
      AdjacentConcat(a, b);
    }
  }

  /** The shift column of the whole output, as the source promises. */
  lemma PolityShiftAdjacent(rows: seq<PolityRow>)
    ensures ShiftsAdjacent(PolityShift(rows))
  {
    ShiftBlocksAdjacent(rows, Distinct(Countries(rows)));
  }

  /** The output's countries never go down in `rank` when `cs` goes up in it. */
  lemma {:induction false} ShiftBlocksOrdered(rows: seq<PolityRow>, cs: seq<string>, rank: string -> int)
    requires forall i, j :: 0 <= i < j < |cs| ==> rank(cs[i]) < rank(cs[j])
    ensures forall k, l :: 0 <= k < l < |ShiftBlocks(rows, cs)| ==>
              rank(ShiftBlocks(rows, cs)[k].row.country) <= rank(ShiftBlocks(rows, cs)[l].row.country)
  {
    if cs != [] {
      var init, last := cs[..|cs| - 1], cs[|cs| - 1];
      assert forall i :: 0 <= i < |init| ==> init[i] == cs[i];
      ShiftBlocksOrdered(rows, init, rank);
      ShiftBlocksCountries(rows, init);
      GroupCountry(rows, last);
      var a := ShiftBlocks(rows, init);
      var b := ShiftBlock(Group(rows, CountryOf, last));
      assert forall j :: 0 <= j < |b| ==> b[j].row.country == last;
      assert forall c :: c in init ==> rank(c) < rank(last) by {
        forall c | c in init ensures rank(c) < rank(last) {
          var i :| 0 <= i < |init| && init[i] == c;
          assert cs[i] == c && cs[|cs| - 1] == last;
        }
      }
      var out := a + b;
      forall k, l | 0 <= k < l < |out|
        ensures rank(out[k].row.country) <= rank(out[l].row.country)
      {
        if l < |a| {
          assert out[k] == a[k] && out[l] == a[l];
        } else if k < |a| {
          assert out[k] == a[k] && out[l] == b[l - |a|];
        } else {
          assert out[k] == b[k - |a|] && out[l] == b[l - |a|];
        }
      }
    }
  }

  /** The position of a country's first row in the input (0 for a country it lacks). */
  function FirstRow(rows: seq<PolityRow>): string -> int {
    c => if c in Countries(rows) then IndexOf(Countries(rows), c) else 0
  }

  /** Countries come in the order of their first appearance in the input. */
  lemma PolityShiftCountryOrder(rows: seq<PolityRow>)
    ensures forall k :: 0 <= k < |PolityShift(rows)| ==> PolityShift(rows)[k].row.country in Countries(rows)
    ensures forall k, l :: 0 <= k < l < |PolityShift(rows)| ==>
              FirstRow(rows)(PolityShift(rows)[k].row.country) <= FirstRow(rows)(PolityShift(rows)[l].row.country)
  {
    var s := Countries(rows);
    var cs := Distinct(s);
    DistinctFirstAppearance(s);
    ShiftBlocksCountries(rows, cs);
    assert forall i, j :: 0 <= i < j < |cs| ==> FirstRow(rows)(cs[i]) < FirstRow(rows)(cs[j]) by {
      forall i, j | 0 <= i < j < |cs| ensures FirstRow(rows)(cs[i]) < FirstRow(rows)(cs[j]) {
        assert cs[i] in cs && cs[j] in cs;
      }
    }
    ShiftBlocksOrdered(rows, cs, FirstRow(rows));
  }
}
