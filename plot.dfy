/** `modify_data_for_plot` in helper_function.py: the per-year table behind the medals-versus-polity
    plot of one country. */
module Plot {
  import opened Frames
  import opened Olympic
  import opened Polity

  /** A row of the left merge of polity rows with Olympic rows on the year. */
  datatype PlotPair = PlotPair(p: PolityRow, o: Option<OlympicRow>)

  /** A row of the plot table: the year, the summed Olympic columns, and the sum and the count of
      the non-null `polity2` cells, whose quotient is the mean the plot shows. */
  datatype PlotRow = PlotRow(year: int, counts: Counts, polity2Sum: int, polity2Count: nat)

  // ---------------------------------------------------------------------------------------------
  // Masks

  function AltRegionIs(country: string): PolityRow -> bool {
    (p: PolityRow) => p.alternateRegion == Some(country)
  }

  function PolityYearIs(year: int): PolityRow -> bool {
    (p: PolityRow) => p.year == year
  }

  function OlympicRegionIs(country: string): OlympicRow -> bool {
    (o: OlympicRow) => o.key.region == country
  }

  function YearIs(year: int): OlympicRow -> bool {
    (o: OlympicRow) => o.key.year == year
  }

  function RegionYear(country: string, year: int): OlympicRow -> bool {
    (o: OlympicRow) => o.key.region == country && o.key.year == year
  }

  /** The filter after the merge: an Olympic row of the country inside the year window. */
  function InPlot(country: string, startYear: int, endYear: int): PlotPair -> bool {
    (pp: PlotPair) => pp.o.Some? && pp.o.value.key.region == country && startYear <= pp.o.value.key.year <= endYear
  }

  function PairYear(year: int): PlotPair -> bool {
    (pp: PlotPair) => pp.o.Some? && pp.o.value.key.year == year
  }

  function InPlotYear(country: string, year: int): PlotPair -> bool {
    (pp: PlotPair) => pp.o.Some? && pp.o.value.key.region == country && pp.o.value.key.year == year
  }

  // ---------------------------------------------------------------------------------------------
  // The merge, the filter and the groupby

  function Pairer(p: PolityRow): OlympicRow -> PlotPair {
    (o: OlympicRow) => PlotPair(p, Some(o))
  }

  /** What the left merge on `year == Year` attaches to one polity row. */
  function YearPairs(p: PolityRow, olympic: seq<OlympicRow>): seq<PlotPair> {
    var ms := Filter(olympic, YearIs(p.year));
    if ms == [] then [PlotPair(p, None)] else MapSeq(ms, Pairer(p))
  }

  function YearJoiner(olympic: seq<OlympicRow>): PolityRow -> seq<PlotPair> {
    (p: PolityRow) => YearPairs(p, olympic)
  }

  /** The merged rows that survive the filter on region and year window. */
  function PlotPairs(olympic: seq<OlympicRow>, polity: seq<PolityRow>, country: string, startYear: int, endYear: int): seq<PlotPair> {
    Filter(FlatMap(Filter(polity, AltRegionIs(country)), YearJoiner(olympic)), InPlot(country, startYear, endYear))
  }

  function PairCounts(pp: PlotPair): Counts {
    if pp.o.Some? then pp.o.value.counts else Zero
  }

  function Polity2Value(p: PolityRow): int {
    if p.polity2.Some? then p.polity2.value else 0
  }

  function SumCounts(g: seq<PlotPair>): Counts {
    if g == [] then Zero else Plus(PairCounts(g[0]), SumCounts(g[1..]))
  }

  function Polity2Sum(g: seq<PlotPair>): int {
    if g == [] then 0 else Polity2Value(g[0].p) + Polity2Sum(g[1..])
  }

  function Polity2Count(g: seq<PlotPair>): nat {
    if g == [] then 0 else Ind(g[0].p.polity2.Some?) + Polity2Count(g[1..])
  }

  /** The aggregate of one year's group. */
  function YearRow(year: int, g: seq<PlotPair>): PlotRow {
    PlotRow(year, SumCounts(g), Polity2Sum(g), Polity2Count(g))
  }

  /** `groupby(['Year'])` over the years `year..endYear`: one row per year that has a group, so
      the years lie in the window and ascend strictly. */
  function YearRows(pairs: seq<PlotPair>, year: int, endYear: int): (r: seq<PlotRow>)
    ensures forall i :: 0 <= i < |r| ==> year <= r[i].year <= endYear
    ensures forall i, j :: 0 <= i < j < |r| ==> r[i].year < r[j].year
    decreases endYear - year
  {
    if year > endYear then []
    else
      var g := Filter(pairs, PairYear(year));
      var head: seq<PlotRow> := if g == [] then [] else [YearRow(year, g)];
      var rest := YearRows(pairs, year + 1, endYear);
      assert forall i :: |head| <= i < |head + rest| ==> (head + rest)[i] == rest[i - |head|];
      head + rest
  }

  /** `modify_data_for_plot`: the plot rows come in strictly increasing year order, all inside
      `startYear..endYear`, so there is at most one row per year. */
  function ModifyDataForPlot(olympic: seq<OlympicRow>, polity: seq<PolityRow>, country: string, startYear: int, endYear: int): (r: seq<PlotRow>)
    ensures forall i :: 0 <= i < |r| ==> startYear <= r[i].year <= endYear
    ensures forall i, j :: 0 <= i < j < |r| ==> r[i].year < r[j].year
  {
    YearRows(PlotPairs(olympic, polity, country, startYear, endYear), startYear, endYear)
  }

  // ---------------------------------------------------------------------------------------------
  // Reference sums

  function OlympicSum(os: seq<OlympicRow>): Counts {
    if os == [] then Zero else Plus(os[0].counts, OlympicSum(os[1..]))
  }

  /** `k` copies of `c` added up. */
  function Scale(k: nat, c: Counts): Counts {
    if k == 0 then Zero else Plus(c, Scale(k - 1, c))
  }

  function PolitySum(ps: seq<PolityRow>): int {
    if ps == [] then 0 else Polity2Value(ps[0]) + PolitySum(ps[1..])
  }

  function PolityCount(ps: seq<PolityRow>): nat {
    if ps == [] then 0 else Ind(ps[0].polity2.Some?) + PolityCount(ps[1..])
  }

  /** The polity rows of `ps` in `year`. */
  function OfYear(ps: seq<PolityRow>, year: int): seq<PolityRow> {
    Filter(ps, PolityYearIs(year))
  }

  /** The Olympic rows of the country in `year`. */
  function Games(olympic: seq<OlympicRow>, country: string, year: int): seq<OlympicRow> {
    Filter(olympic, RegionYear(country, year))
  }

  /** The merged rows of one year, polity row by polity row: each polity row of that year paired
      with every Olympic row of the country and year. */
  function YearBlocks(ps: seq<PolityRow>, olympic: seq<OlympicRow>, country: string, year: int): seq<PlotPair> {
    if ps == [] then []
    else
      (if ps[0].year == year then MapSeq(Games(olympic, country, year), Pairer(ps[0])) else [])
      + YearBlocks(ps[1..], olympic, country, year)
  }

  // ---------------------------------------------------------------------------------------------
  // The groupby

  /** A plot row is the aggregate of the non-empty group of its year. */
  predicate RowOfGroup(pairs: seq<PlotPair>, row: PlotRow) {
    Filter(pairs, PairYear(row.year)) != [] && row == YearRow(row.year, Filter(pairs, PairYear(row.year)))
  }

  lemma {:induction false} YearRowsRows(pairs: seq<PlotPair>, year: int, endYear: int)
    ensures forall i :: 0 <= i < |YearRows(pairs, year, endYear)| ==> RowOfGroup(pairs, YearRows(pairs, year, endYear)[i])
    decreases endYear - year
  {
    if year <= endYear {
      YearRowsRows(pairs, year + 1, endYear);
      var g := Filter(pairs, PairYear(year));
      var head: seq<PlotRow> := if g == [] then [] else [YearRow(year, g)];
      var rest := YearRows(pairs, year + 1, endYear);
      forall i | 0 <= i < |head + rest| ensures RowOfGroup(pairs, (head + rest)[i]) {
        if i >= |head| {
          assert (head + rest)[i] == rest[i - |head|];
        }
      }
    }
  }

  lemma {:induction false} YearRowsPresent(pairs: seq<PlotPair>, year: int, endYear: int, z: int)
    requires year <= z <= endYear && Filter(pairs, PairYear(z)) != []
    ensures exists i :: 0 <= i < |YearRows(pairs, year, endYear)| && YearRows(pairs, year, endYear)[i].year == z
    decreases endYear - year
  {
    var g := Filter(pairs, PairYear(year));
    var head: seq<PlotRow> := if g == [] then [] else [YearRow(year, g)];
    var rest := YearRows(pairs, year + 1, endYear);
    var r := head + rest;
    assert YearRows(pairs, year, endYear) == r;
    if z == year {
      assert r[0].year == z;
    } else {
      YearRowsPresent(pairs, year + 1, endYear, z);
      var i :| 0 <= i < |rest| && rest[i].year == z;
      assert r[i + |head|] == rest[i];
    }
  }

  /** The groupby keeps nothing but each year's group: two pair tables with the same groups
      in the window give the same plot rows. */
  lemma {:induction false} YearRowsExt(a: seq<PlotPair>, b: seq<PlotPair>, year: int, endYear: int)
    requires forall z :: year <= z <= endYear ==> Filter(a, PairYear(z)) == Filter(b, PairYear(z))
    ensures YearRows(a, year, endYear) == YearRows(b, year, endYear)
    decreases endYear - year
  {
    if year <= endYear {
      YearRowsExt(a, b, year + 1, endYear);
    }
  }

  // ---------------------------------------------------------------------------------------------
  // One year's group

  /** The pairs one polity row contributes to the group of `year`. */
  lemma YearPairsOfYear(p: PolityRow, olympic: seq<OlympicRow>, country: string, year: int)
    ensures Filter(YearPairs(p, olympic), InPlotYear(country, year))
            == if p.year == year then MapSeq(Games(olympic, country, year), Pairer(p)) else []
  {
    var ms := Filter(olympic, YearIs(p.year));
    if ms == [] {
      assert Filter([PlotPair(p, None)], InPlotYear(country, year)) == [];
      if p.year == year {
        FilterFilter(olympic, YearIs(p.year), RegionYear(country, year), RegionYear(country, year));
      }
    } else {
      FilterMapSeq(ms, Pairer(p), InPlotYear(country, year), RegionYear(country, year));
      if p.year == year {
        FilterFilter(olympic, YearIs(p.year), RegionYear(country, year), RegionYear(country, year));
      } else {
        assert forall i :: 0 <= i < |ms| ==> ms[i] in ms;
        FilterNone(ms, RegionYear(country, year));
      }
    }
  }

  lemma {:induction false} FlatMapOfYear(ps: seq<PolityRow>, olympic: seq<OlympicRow>, country: string, year: int)
    ensures Filter(FlatMap(ps, YearJoiner(olympic)), InPlotYear(country, year)) == YearBlocks(ps, olympic, country, year)
  {
    if ps != [] {
      FlatMapOfYear(ps[1..], olympic, country, year);
      FilterConcat(YearPairs(ps[0], olympic), FlatMap(ps[1..], YearJoiner(olympic)), InPlotYear(country, year));
      YearPairsOfYear(ps[0], olympic, country, year);
    }
  }

  /** The group of a year inside the window is that year's blocks of the country's polity rows. */
  lemma GroupOfYear(olympic: seq<OlympicRow>, polity: seq<PolityRow>, country: string, startYear: int, endYear: int, year: int)
    requires startYear <= year <= endYear
    ensures Filter(PlotPairs(olympic, polity, country, startYear, endYear), PairYear(year))
            == YearBlocks(Filter(polity, AltRegionIs(country)), olympic, country, year)
  {
    var merged := FlatMap(Filter(polity, AltRegionIs(country)), YearJoiner(olympic));
    FilterFilter(merged, InPlot(country, startYear, endYear), PairYear(year), InPlotYear(country, year));
    FlatMapOfYear(Filter(polity, AltRegionIs(country)), olympic, country, year);
  }

  // ---------------------------------------------------------------------------------------------
  // Counts arithmetic: proof helpers for the sums below, not operations of the rules

  lemma PlusAssoc(c: Counts, d: Counts, e: Counts)
    ensures Plus(Plus(c, d), e) == Plus(c, Plus(d, e))
  {
  }

  lemma PlusZero(c: Counts)
    ensures Plus(Zero, c) == c
  {
  }

  lemma Distribute(k: nat, x: int, y: int)
    ensures k * (x + y) == k * x + k * y
  {
  }

  // ---------------------------------------------------------------------------------------------
  // Sums over concatenated groups

  lemma {:induction false} SumCountsConcat(a: seq<PlotPair>, b: seq<PlotPair>)
    ensures SumCounts(a + b) == Plus(SumCounts(a), SumCounts(b))
  {
    if a == [] {
      assert a + b == b;
      PlusZero(SumCounts(b));
    } else {
      var ab := a + b;
      assert ab[0] == a[0] && ab[1..] == a[1..] + b;
      SumCountsConcat(a[1..], b);
      assert SumCounts(ab) == Plus(PairCounts(a[0]), Plus(SumCounts(a[1..]), SumCounts(b)));
      PlusAssoc(PairCounts(a[0]), SumCounts(a[1..]), SumCounts(b));
    }
  }

  /** The derived `TotalMedals` cell of one row: its three medal counts added. */
  function TotalMedals(c: Counts): nat {
    c.medalBronze + c.medalSilver + c.medalGold
  }

  /** The `TotalMedals` column summed over a group. */
  function TotalMedalsSum(g: seq<PlotPair>): nat {
    if g == [] then 0 else TotalMedals(PairCounts(g[0])) + TotalMedalsSum(g[1..])
  }

  /** Summing the derived `TotalMedals` column gives the sum of the three medal sums. */
  lemma {:induction false} TotalMedalsLinear(g: seq<PlotPair>)
    ensures TotalMedalsSum(g) == TotalMedals(SumCounts(g))
  {
    if g != [] {
      TotalMedalsLinear(g[1..]);
    }
  }

  lemma {:induction false} Polity2SumConcat(a: seq<PlotPair>, b: seq<PlotPair>)
    ensures Polity2Sum(a + b) == Polity2Sum(a) + Polity2Sum(b)
  {
    if a == [] {
      assert a + b == b;
    } else {
      assert (a + b)[1..] == a[1..] + b;
      Polity2SumConcat(a[1..], b);
    }
  }

  lemma {:induction false} Polity2CountConcat(a: seq<PlotPair>, b: seq<PlotPair>)
    ensures Polity2Count(a + b) == Polity2Count(a) + Polity2Count(b)
  {
    if a == [] {
      assert a + b == b;
    } else {
      assert (a + b)[1..] == a[1..] + b;
      Polity2CountConcat(a[1..], b);
    }
  }

  /** One polity row paired with Olympic rows `os`: the Olympic columns of `os` once, its score once per row. */
  lemma {:induction false} PairedCounts(os: seq<OlympicRow>, p: PolityRow)
    ensures SumCounts(MapSeq(os, Pairer(p))) == OlympicSum(os)
  {
    if os != [] {
      PairedCounts(os[1..], p);
      assert MapSeq(os, Pairer(p))[1..] == MapSeq(os[1..], Pairer(p));
    }
  }

  lemma {:induction false} PairedPolity2(os: seq<OlympicRow>, p: PolityRow)
    ensures Polity2Sum(MapSeq(os, Pairer(p))) == |os| * Polity2Value(p)
    ensures Polity2Count(MapSeq(os, Pairer(p))) == |os| * Ind(p.polity2.Some?)
  {
    if os != [] {
      PairedPolity2(os[1..], p);
      assert MapSeq(os, Pairer(p))[1..] == MapSeq(os[1..], Pairer(p));
    }
  }

  lemma OfYearCons(ps: seq<PolityRow>, year: int)
    requires ps != []
    ensures OfYear(ps, year) == if ps[0].year == year then [ps[0]] + OfYear(ps[1..], year) else OfYear(ps[1..], year)
  {
  }

  lemma {:induction false} BlockCounts(ps: seq<PolityRow>, olympic: seq<OlympicRow>, country: string, year: int)
    ensures SumCounts(YearBlocks(ps, olympic, country, year)) == Scale(|OfYear(ps, year)|, OlympicSum(Games(olympic, country, year)))
  {
    if ps != [] {
      var os := Games(olympic, country, year);
      var head := if ps[0].year == year then MapSeq(os, Pairer(ps[0])) else [];
      BlockCounts(ps[1..], olympic, country, year);
      SumCountsConcat(head, YearBlocks(ps[1..], olympic, country, year));
      OfYearCons(ps, year);
      if ps[0].year == year {
        PairedCounts(os, ps[0]);
      }
    }
  }

  lemma {:induction false} BlockPolity2Sum(ps: seq<PolityRow>, olympic: seq<OlympicRow>, country: string, year: int)
    ensures Polity2Sum(YearBlocks(ps, olympic, country, year)) == |Games(olympic, country, year)| * PolitySum(OfYear(ps, year))
  {
    if ps != [] {
      var os := Games(olympic, country, year);
      var head := if ps[0].year == year then MapSeq(os, Pairer(ps[0])) else [];
      BlockPolity2Sum(ps[1..], olympic, country, year);
      Polity2SumConcat(head, YearBlocks(ps[1..], olympic, country, year));
      OfYearCons(ps, year);
      if ps[0].year == year {
        PairedPolity2(os, ps[0]);
        var py := OfYear(ps[1..], year);
        assert ([ps[0]] + py)[1..] == py;
        Distribute(|os|, Polity2Value(ps[0]), PolitySum(py));
      }
    }
  }

  lemma {:induction false} BlockPolity2Count(ps: seq<PolityRow>, olympic: seq<OlympicRow>, country: string, year: int)
    ensures Polity2Count(YearBlocks(ps, olympic, country, year)) == |Games(olympic, country, year)| * PolityCount(OfYear(ps, year))
  {
    if ps != [] {
      var os := Games(olympic, country, year);
      var head := if ps[0].year == year then MapSeq(os, Pairer(ps[0])) else [];
      var rest := YearBlocks(ps[1..], olympic, country, year);
      var py := OfYear(ps[1..], year);
      BlockPolity2Count(ps[1..], olympic, country, year);
      assert YearBlocks(ps, olympic, country, year) == head + rest;
      Polity2CountConcat(head, rest);
      OfYearCons(ps, year);
      if ps[0].year == year {
        PairedPolity2(os, ps[0]);
        assert ([ps[0]] + py)[1..] == py;
        assert PolityCount(OfYear(ps, year)) == Ind(ps[0].polity2.Some?) + PolityCount(py);
        Distribute(|os|, Ind(ps[0].polity2.Some?), PolityCount(py));
      } else {
        assert Polity2Count(head) == 0;
      }
    }
  }

  lemma {:induction false} BlocksNonEmpty(ps: seq<PolityRow>, olympic: seq<OlympicRow>, country: string, year: int)
    ensures YearBlocks(ps, olympic, country, year) != []
            <==> OfYear(ps, year) != [] && Games(olympic, country, year) != []
  {
    if ps != [] {
      BlocksNonEmpty(ps[1..], olympic, country, year);
    }
  }

  // ---------------------------------------------------------------------------------------------
  // What the plot table holds

  /** A polity row mapped to the country in `year`. */
  predicate PolityIn(polity: seq<PolityRow>, country: string, year: int) {
    exists k :: 0 <= k < |polity| && polity[k].alternateRegion == Some(country) && polity[k].year == year
  }

  /** An Olympic row of the country in `year`. */
  predicate OlympicIn(olympic: seq<OlympicRow>, country: string, year: int) {
    exists k :: 0 <= k < |olympic| && olympic[k].key.region == country && olympic[k].key.year == year
  }

  lemma PolityInSelected(polity: seq<PolityRow>, country: string, year: int)
    ensures PolityIn(polity, country, year) <==> OfYear(Filter(polity, AltRegionIs(country)), year) != []
  {
    var sel := Filter(polity, AltRegionIs(country));
    FilterNonEmpty(sel, PolityYearIs(year));
    if PolityIn(polity, country, year) {
      var k :| 0 <= k < |polity| && polity[k].alternateRegion == Some(country) && polity[k].year == year;
      assert polity[k] in sel;
      var j :| 0 <= j < |sel| && sel[j] == polity[k];
      assert PolityYearIs(year)(sel[j]);
    }
    if OfYear(sel, year) != [] {
      var j :| 0 <= j < |sel| && PolityYearIs(year)(sel[j]);
      assert sel[j] in polity;
      var k :| 0 <= k < |polity| && polity[k] == sel[j];
    }
  }

  lemma OlympicInGames(olympic: seq<OlympicRow>, country: string, year: int)
    ensures OlympicIn(olympic, country, year) <==> Games(olympic, country, year) != []
  {
    FilterNonEmpty(olympic, RegionYear(country, year));
    if OlympicIn(olympic, country, year) {
      var k :| 0 <= k < |olympic| && olympic[k].key.region == country && olympic[k].key.year == year;
      assert RegionYear(country, year)(olympic[k]);
    }
  }

  /** Inside the window, a year's group is non-empty exactly when both tables have a row of the country in it. */
  lemma GroupPresent(olympic: seq<OlympicRow>, polity: seq<PolityRow>, country: string, startYear: int, endYear: int, year: int)
    requires startYear <= year <= endYear
    ensures Filter(PlotPairs(olympic, polity, country, startYear, endYear), PairYear(year)) != []
            <==> PolityIn(polity, country, year) && OlympicIn(olympic, country, year)
  {
    GroupOfYear(olympic, polity, country, startYear, endYear, year);
    BlocksNonEmpty(Filter(polity, AltRegionIs(country)), olympic, country, year);
    PolityInSelected(polity, country, year);
    OlympicInGames(olympic, country, year);
  }

  /** Every plotted year has rows of the country in both tables. */
  lemma PlotYearHasRows(olympic: seq<OlympicRow>, polity: seq<PolityRow>, country: string, startYear: int, endYear: int, i: nat)
    requires i < |ModifyDataForPlot(olympic, polity, country, startYear, endYear)|
    ensures PolityIn(polity, country, ModifyDataForPlot(olympic, polity, country, startYear, endYear)[i].year)
    ensures OlympicIn(olympic, country, ModifyDataForPlot(olympic, polity, country, startYear, endYear)[i].year)
  {
    var pairs := PlotPairs(olympic, polity, country, startYear, endYear);
    assert ModifyDataForPlot(olympic, polity, country, startYear, endYear) == YearRows(pairs, startYear, endYear);
    YearRowsRows(pairs, startYear, endYear);
    GroupPresent(olympic, polity, country, startYear, endYear, ModifyDataForPlot(olympic, polity, country, startYear, endYear)[i].year);
  }

  /** Every year of the window with rows of the country in both tables is plotted. */
  lemma PlotYearPresent(olympic: seq<OlympicRow>, polity: seq<PolityRow>, country: string, startYear: int, endYear: int, year: int)
    requires startYear <= year <= endYear
    requires PolityIn(polity, country, year) && OlympicIn(olympic, country, year)
    ensures exists i :: 0 <= i < |ModifyDataForPlot(olympic, polity, country, startYear, endYear)|
                        && ModifyDataForPlot(olympic, polity, country, startYear, endYear)[i].year == year
  {
    GroupPresent(olympic, polity, country, startYear, endYear, year);
    assert ModifyDataForPlot(olympic, polity, country, startYear, endYear) == YearRows(PlotPairs(olympic, polity, country, startYear, endYear), startYear, endYear);
    YearRowsPresent(PlotPairs(olympic, polity, country, startYear, endYear), startYear, endYear, year);
  }

  /** Each plotted year aggregates every pairing of a polity row of that year with an Olympic row
      of the country and year: the Olympic columns are summed once per such polity row, and the
      polity score is weighted by the number of Olympic rows, so the mean is the mean of the
      polity rows of that year. */
  lemma PlotRowValues(olympic: seq<OlympicRow>, polity: seq<PolityRow>, country: string, startYear: int, endYear: int, i: nat)
    requires i < |ModifyDataForPlot(olympic, polity, country, startYear, endYear)|
    ensures var row := ModifyDataForPlot(olympic, polity, country, startYear, endYear)[i];
            var ps := OfYear(Filter(polity, AltRegionIs(country)), row.year);
            var os := Games(olympic, country, row.year);
            row.counts == Scale(|ps|, OlympicSum(os))
            && row.polity2Sum == |os| * PolitySum(ps)
            && row.polity2Count == |os| * PolityCount(ps)
  {
    var pairs := PlotPairs(olympic, polity, country, startYear, endYear);
    var row := ModifyDataForPlot(olympic, polity, country, startYear, endYear)[i];
    var sel := Filter(polity, AltRegionIs(country));
    assert ModifyDataForPlot(olympic, polity, country, startYear, endYear) == YearRows(pairs, startYear, endYear);
    YearRowsRows(pairs, startYear, endYear);
    GroupOfYear(olympic, polity, country, startYear, endYear, row.year);
    BlockCounts(sel, olympic, country, row.year);
    BlockPolity2Sum(sel, olympic, country, row.year);
    BlockPolity2Count(sel, olympic, country, row.year);
  }

  /** The plot is built from the country's rows only: dropping every other country's Olympic rows
      and every polity row mapped elsewhere changes nothing. */
  lemma PlotOnlyCountry(olympic: seq<OlympicRow>, polity: seq<PolityRow>, country: string, startYear: int, endYear: int)
    ensures ModifyDataForPlot(olympic, polity, country, startYear, endYear)
            == ModifyDataForPlot(Filter(olympic, OlympicRegionIs(country)), Filter(polity, AltRegionIs(country)), country, startYear, endYear)
  {
    var own := Filter(olympic, OlympicRegionIs(country));
    var sel := Filter(polity, AltRegionIs(country));
    FilterFilter(polity, AltRegionIs(country), AltRegionIs(country), AltRegionIs(country));
    forall z | startYear <= z <= endYear
      ensures Filter(PlotPairs(olympic, polity, country, startYear, endYear), PairYear(z))
              == Filter(PlotPairs(own, sel, country, startYear, endYear), PairYear(z))
    {
      GroupOfYear(olympic, polity, country, startYear, endYear, z);
      GroupOfYear(own, sel, country, startYear, endYear, z);
      FilterFilter(olympic, OlympicRegionIs(country), RegionYear(country, z), RegionYear(country, z));
      YearBlocksOlympic(sel, own, olympic, country, z);
    }
    YearRowsExt(PlotPairs(olympic, polity, country, startYear, endYear), PlotPairs(own, sel, country, startYear, endYear), startYear, endYear);
  }

  lemma {:induction false} YearBlocksOlympic(ps: seq<PolityRow>, a: seq<OlympicRow>, b: seq<OlympicRow>, country: string, year: int)
    requires Filter(a, RegionYear(country, year)) == Filter(b, RegionYear(country, year))
    ensures YearBlocks(ps, a, country, year) == YearBlocks(ps, b, country, year)
  {
    if ps != [] {
      YearBlocksOlympic(ps[1..], a, b, country, year);
    }
  }
}
