/** The Olympic side of the reconciliation: `prepare_olympic_dataset` (after the two CSV files
    are read) and `correct_team_medals_won`, in helper_function.py. */
module Olympic {
  import opened Frames
  import opened Strings

  datatype Sex = F | M
  datatype Season = Summer | Winter
  datatype Medal = Bronze | Silver | Gold

  /** A row of the athlete-events table, with the columns the rules read (Age is not modelled). */
  datatype Athlete = Athlete(name: string, sex: Sex, team: string, noc: string, year: int, season: Season,
                             city: string, sport: string, event: string, medal: Option<Medal>)

  /** A row of the NOC-to-region table; some codes have no region. */
  datatype NocRow = NocRow(noc: string, region: Option<string>)

  /** An athlete row after the inner merge on NOC: the region table contributes `region`. */
  datatype JoinedRow = JoinedRow(athlete: Athlete, region: Option<string>)

  /** The aggregated columns: `Name` counted, the seven indicator columns summed. */
  datatype Counts = Counts(name: nat, sexF: nat, sexM: nat, medalBronze: nat, medalSilver: nat,
                           medalGold: nat, seasonSummer: nat, seasonWinter: nat)

  /** The groupby key `['region', 'Year', 'NOC', 'City', 'Sport', 'Event']`. */
  datatype GroupKey = GroupKey(region: string, year: int, noc: string, city: string, sport: string, event: string)

  /** A row of the prepared Olympic table (`reset_index()` puts the key back as columns). */
  datatype OlympicRow = OlympicRow(key: GroupKey, counts: Counts)

  /** What `prepare_olympic_dataset` returns: the aggregated table and the upper-cased region table. */
  datatype Prepared = Prepared(table: seq<OlympicRow>, nocs: seq<NocRow>)

  // ---------------------------------------------------------------------------------------------
  // Normalisation (`str.upper` on Team and on region)

  function UpperTeams(athletes: seq<Athlete>): (r: seq<Athlete>)
    ensures |r| == |athletes|
    ensures forall i :: 0 <= i < |r| ==> r[i] == athletes[i].(team := Upper(athletes[i].team))
  {
    seq(|athletes|, i requires 0 <= i < |athletes| => athletes[i].(team := Upper(athletes[i].team)))
  }

  /** `str.upper` leaves a null region null. */
  function UpperRegion(region: Option<string>): (r: Option<string>)
    ensures r.Some? <==> region.Some?
    ensures r.Some? ==> r.value == Upper(region.value) && NoLower(r.value)
  {
    if region.Some? then Some(Upper(region.value)) else None
  }

  function UpperRegions(nocs: seq<NocRow>): (r: seq<NocRow>)
    ensures |r| == |nocs|
    ensures forall i :: 0 <= i < |r| ==> r[i] == NocRow(nocs[i].noc, UpperRegion(nocs[i].region))
  {
    seq(|nocs|, i requires 0 <= i < |nocs| => NocRow(nocs[i].noc, UpperRegion(nocs[i].region)))
  }

  // ---------------------------------------------------------------------------------------------
  // Inner merge on NOC

  /** The rows one athlete contributes to the inner merge: one per region row with its code. */
  function MatchNoc(a: Athlete, nocs: seq<NocRow>): (r: seq<JoinedRow>)
    ensures |r| <= |nocs|
    ensures forall j :: j in r <==> exists k :: 0 <= k < |nocs| && nocs[k].noc == a.noc && j == JoinedRow(a, nocs[k].region)
  {
    if nocs == [] then []
    else
      (if nocs[0].noc == a.noc then [JoinedRow(a, nocs[0].region)] else []) + MatchNoc(a, nocs[1..])
  }

  /** `olympic_df.merge(noc_df, on="NOC", how="inner")`, in the order of the left table. */
  function InnerJoin(athletes: seq<Athlete>, nocs: seq<NocRow>): (r: seq<JoinedRow>)
    ensures |r| <= |athletes| * |nocs|
  {
    if athletes == [] then []
    else
      var head, rest := MatchNoc(athletes[0], nocs), InnerJoin(athletes[1..], nocs);
      assert |athletes| * |nocs| == |nocs| + |athletes[1..]| * |nocs|;
      head + rest
  }

  /** A merged row exists exactly for each pair of an athlete and a region row that share a code. */
  lemma {:induction false} InnerJoinMembers(athletes: seq<Athlete>, nocs: seq<NocRow>)
    ensures forall j :: j in InnerJoin(athletes, nocs) <==>
              exists i, k :: 0 <= i < |athletes| && 0 <= k < |nocs| && athletes[i].noc == nocs[k].noc
                             && j == JoinedRow(athletes[i], nocs[k].region)
  {
    if athletes != [] {
      var rest := athletes[1..];
      InnerJoinMembers(rest, nocs);
      forall j | j in InnerJoin(athletes, nocs)
        ensures exists i, k :: 0 <= i < |athletes| && 0 <= k < |nocs| && athletes[i].noc == nocs[k].noc
                               && j == JoinedRow(athletes[i], nocs[k].region)
      {
        if j in MatchNoc(athletes[0], nocs) {
          var k :| 0 <= k < |nocs| && nocs[k].noc == athletes[0].noc && j == JoinedRow(athletes[0], nocs[k].region);
        } else {
          assert j in InnerJoin(rest, nocs);
          var i, k :| 0 <= i < |rest| && 0 <= k < |nocs| && rest[i].noc == nocs[k].noc
                      && j == JoinedRow(rest[i], nocs[k].region);
          assert athletes[i + 1] == rest[i];
        }
      }
      forall j, i, k | 0 <= i < |athletes| && 0 <= k < |nocs| && athletes[i].noc == nocs[k].noc
                       && j == JoinedRow(athletes[i], nocs[k].region)
        ensures j in InnerJoin(athletes, nocs)
      {
        if i == 0 {
          assert j in MatchNoc(athletes[0], nocs);
        } else {
          assert rest[i - 1] == athletes[i];
          assert j in InnerJoin(rest, nocs);
        }
      }
    }
  }

  /** Every region row carries a different code. */
  predicate UniqueNoc(nocs: seq<NocRow>) {
    forall k, l :: 0 <= k < l < |nocs| ==> nocs[k].noc != nocs[l].noc
  }

  /** The region of the first region row with code `code`; null when there is none. */
  function RegionOf(nocs: seq<NocRow>, code: string): Option<string> {
    if nocs == [] then None
    else if nocs[0].noc == code then nocs[0].region
    else RegionOf(nocs[1..], code)
  }

  predicate KnownNoc(nocs: seq<NocRow>, code: string) {
    exists k :: 0 <= k < |nocs| && nocs[k].noc == code
  }

  /** The mask "the athlete's code is in the region table". */
  function KnownIn(nocs: seq<NocRow>): Athlete -> bool {
    (a: Athlete) => KnownNoc(nocs, a.noc)
  }

  /** The mask "the athlete's code has a non-null region". */
  function RegionIn(nocs: seq<NocRow>): Athlete -> bool {
    (a: Athlete) => RegionOf(nocs, a.noc).Some?
  }

  lemma {:induction false} KnownNocTail(nocs: seq<NocRow>, code: string)
    requires nocs != []
    ensures KnownNoc(nocs, code) <==> nocs[0].noc == code || KnownNoc(nocs[1..], code)
  {
    if k :| 0 <= k < |nocs| && nocs[k].noc == code {
      if k > 0 {
        assert nocs[1..][k - 1].noc == code;
      }
    }
    if k :| 0 <= k < |nocs[1..]| && nocs[1..][k].noc == code {
      assert nocs[k + 1].noc == code;
    }
  }

  lemma {:induction false} MatchNocUnique(a: Athlete, nocs: seq<NocRow>)
    requires UniqueNoc(nocs)
    ensures MatchNoc(a, nocs) == if KnownNoc(nocs, a.noc) then [JoinedRow(a, RegionOf(nocs, a.noc))] else []
  {
    if nocs != [] {
      MatchNocUnique(a, nocs[1..]);
      KnownNocTail(nocs, a.noc);
      if nocs[0].noc == a.noc {
        assert !KnownNoc(nocs[1..], a.noc) by {
          forall k | 0 <= k < |nocs[1..]| ensures nocs[1..][k].noc != a.noc {
            assert nocs[1..][k] == nocs[k + 1];
          }
        }
      }
    }
  }

  /** Each kept athlete with the region of its code. */
  function Attach(athletes: seq<Athlete>, nocs: seq<NocRow>): (r: seq<JoinedRow>)
    ensures |r| == |athletes|
    ensures forall i :: 0 <= i < |r| ==> r[i] == JoinedRow(athletes[i], RegionOf(nocs, athletes[i].noc))
  {
    seq(|athletes|, i requires 0 <= i < |athletes| => JoinedRow(athletes[i], RegionOf(nocs, athletes[i].noc)))
  }

  /** With one row per code, the inner merge keeps each athlete whose code is known exactly once,
      in the original order, with the region of its code. */
  lemma {:induction false} InnerJoinUnique(athletes: seq<Athlete>, nocs: seq<NocRow>)
    requires UniqueNoc(nocs)
    ensures InnerJoin(athletes, nocs) == Attach(Filter(athletes, KnownIn(nocs)), nocs)
  {
    if athletes != [] {
      InnerJoinUnique(athletes[1..], nocs);
      MatchNocUnique(athletes[0], nocs);
      var kept := Filter(athletes[1..], KnownIn(nocs));
      assert InnerJoin(athletes, nocs) == MatchNoc(athletes[0], nocs) + InnerJoin(athletes[1..], nocs);
      if KnownNoc(nocs, athletes[0].noc) {
        assert Filter(athletes, KnownIn(nocs)) == [athletes[0]] + kept;
        assert Attach([athletes[0]] + kept, nocs) == [JoinedRow(athletes[0], RegionOf(nocs, athletes[0].noc))] + Attach(kept, nocs);
      } else {
        assert Filter(athletes, KnownIn(nocs)) == kept;
      }
    }
  }

  // ---------------------------------------------------------------------------------------------
  // One-hot expansion (`pd.get_dummies` on Sex, Medal, Season) and the summed aggregate

  predicate IsFemale(j: JoinedRow) { j.athlete.sex == F }
  predicate IsMale(j: JoinedRow) { j.athlete.sex == M }
  predicate IsSummer(j: JoinedRow) { j.athlete.season == Summer }
  predicate IsWinter(j: JoinedRow) { j.athlete.season == Winter }
  predicate WonBronze(j: JoinedRow) { j.athlete.medal == Some(Bronze) }
  predicate WonSilver(j: JoinedRow) { j.athlete.medal == Some(Silver) }
  predicate WonGold(j: JoinedRow) { j.athlete.medal == Some(Gold) }
  predicate WonMedal(j: JoinedRow) { j.athlete.medal.Some? }

  function Ind(b: bool): nat { if b then 1 else 0 }

  /** The seven indicator cells of one merged row, with `Name` counted as 1; a null medal gives none. */
  function Indicators(j: JoinedRow): (c: Counts)
    ensures c.name == 1 && c.sexF + c.sexM == 1 && c.seasonSummer + c.seasonWinter == 1
    ensures c.medalBronze + c.medalSilver + c.medalGold == Ind(WonMedal(j))
  {
    match j.athlete.medal
    case None => Counts(1, Ind(IsFemale(j)), Ind(IsMale(j)), 0, 0, 0, Ind(IsSummer(j)), Ind(IsWinter(j)))
    case Some(m) =>
      Counts(1, Ind(IsFemale(j)), Ind(IsMale(j)), Ind(m == Bronze), Ind(m == Silver), Ind(m == Gold),
             Ind(IsSummer(j)), Ind(IsWinter(j)))
  }

  function Plus(c: Counts, d: Counts): Counts {
    Counts(c.name + d.name, c.sexF + d.sexF, c.sexM + d.sexM, c.medalBronze + d.medalBronze,
           c.medalSilver + d.medalSilver, c.medalGold + d.medalGold, c.seasonSummer + d.seasonSummer,
           c.seasonWinter + d.seasonWinter)
  }

  const Zero := Counts(0, 0, 0, 0, 0, 0, 0, 0)

  /** `.agg({"Name": 'count', 'Sex_F': 'sum', ...})` over one group: the two sex columns and the two
      season columns each add up to the row count, the medal columns to at most that. */
  function Aggregate(s: seq<JoinedRow>): (c: Counts)
    ensures c.name == |s|
    ensures c.sexF + c.sexM == c.name && c.seasonSummer + c.seasonWinter == c.name
    ensures c.medalBronze + c.medalSilver + c.medalGold <= c.name
  {
    if s == [] then Zero else Plus(Indicators(s[0]), Aggregate(s[1..]))
  }

  /** Each summed indicator column counts the rows of its category; the medal columns together
      count the rows that have a medal at all. */
  lemma {:induction false} AggregateCategories(s: seq<JoinedRow>)
    ensures var c := Aggregate(s);
            && c.sexF == |Filter(s, IsFemale)| && c.sexM == |Filter(s, IsMale)|
            && c.seasonSummer == |Filter(s, IsSummer)| && c.seasonWinter == |Filter(s, IsWinter)|
            && c.medalBronze == |Filter(s, WonBronze)| && c.medalSilver == |Filter(s, WonSilver)|
            && c.medalGold == |Filter(s, WonGold)|
            && c.medalBronze + c.medalSilver + c.medalGold == |Filter(s, WonMedal)|
  {
    if s != [] {
      AggregateCategories(s[1..]);
      FilterLength(s, IsFemale);
      FilterLength(s, IsMale);
      FilterLength(s, IsSummer);
      FilterLength(s, IsWinter);
      FilterLength(s, WonBronze);
      FilterLength(s, WonSilver);
      FilterLength(s, WonGold);
      FilterLength(s, WonMedal);
    }
  }

  // ---------------------------------------------------------------------------------------------
  // groupby: rows with a null key are dropped, the groups come in ascending key order

  predicate HasRegion(j: JoinedRow) { j.region.Some? }

  /** The group key of a merged row; only applied to rows whose region is not null. */
  function KeyOf(j: JoinedRow): GroupKey {
    var a := j.athlete;
    GroupKey(if j.region.Some? then j.region.value else "", a.year, a.noc, a.city, a.sport, a.event)
  }

  /** Python's tuple order on keys: field by field, strings by code point. */
  predicate KeyLess(a: GroupKey, b: GroupKey) {
    || StrLess(a.region, b.region)
    || (a.region == b.region && a.year < b.year)
    || (a.region == b.region && a.year == b.year && StrLess(a.noc, b.noc))
    || (a.region == b.region && a.year == b.year && a.noc == b.noc && StrLess(a.city, b.city))
    || (a.region == b.region && a.year == b.year && a.noc == b.noc && a.city == b.city && StrLess(a.sport, b.sport))
    || (a.region == b.region && a.year == b.year && a.noc == b.noc && a.city == b.city && a.sport == b.sport
        && StrLess(a.event, b.event))
  }

  lemma KeyLessIrreflexive(a: GroupKey)
    ensures !KeyLess(a, a)
  {
    StrLessIrreflexive(a.region);
    StrLessIrreflexive(a.noc);
    StrLessIrreflexive(a.city);
    StrLessIrreflexive(a.sport);
    StrLessIrreflexive(a.event);
  }

  lemma KeyLessTransitive(a: GroupKey, b: GroupKey, c: GroupKey)
    ensures KeyLess(a, b) && KeyLess(b, c) ==> KeyLess(a, c)
  {
    StrLessIrreflexive(a.region);
    StrLessTransitive(a.region, b.region, c.region);
    StrLessTransitive(a.noc, b.noc, c.noc);
    StrLessTransitive(a.city, b.city, c.city);
    StrLessTransitive(a.sport, b.sport, c.sport);
    StrLessTransitive(a.event, b.event, c.event);
  }

  lemma KeyLessTotal(a: GroupKey, b: GroupKey)
    ensures a == b || KeyLess(a, b) || KeyLess(b, a)
  {
    StrLessTotal(a.region, b.region);
    StrLessTotal(a.noc, b.noc);
    StrLessTotal(a.city, b.city);
    StrLessTotal(a.sport, b.sport);
    StrLessTotal(a.event, b.event);
  }

  predicate StrictlySorted(ks: seq<GroupKey>) {
    forall i, j :: 0 <= i < j < |ks| ==> KeyLess(ks[i], ks[j])
  }

  lemma StrictlySortedNoDup(ks: seq<GroupKey>)
    requires StrictlySorted(ks)
    ensures NoDup(ks)
  {
    forall i, j | 0 <= i < j < |ks| ensures ks[i] != ks[j] {
      KeyLessIrreflexive(ks[i]);
    }
  }

  function InsertKey(k: GroupKey, ks: seq<GroupKey>): (r: seq<GroupKey>)
    requires StrictlySorted(ks) && k !in ks
    ensures StrictlySorted(r)
    ensures multiset(r) == multiset(ks) + multiset{k}
  {
    if ks == [] then [k]
    else if KeyLess(k, ks[0]) then
      assert forall j :: 0 <= j < |ks| ==> KeyLess(k, ks[j]) by {
        forall j | 0 <= j < |ks| ensures KeyLess(k, ks[j]) {
          KeyLessTransitive(k, ks[0], ks[j]);
        }
      }
      [k] + ks
    else
      KeyLessTotal(k, ks[0]);
      var rest := InsertKey(k, ks[1..]);
      assert ks == [ks[0]] + ks[1..];
      assert forall x :: x in rest ==> KeyLess(ks[0], x) by {
        forall x | x in rest ensures KeyLess(ks[0], x) {
          assert x in multiset(rest);
          if x != k {
            assert x in ks[1..];
          }
        }
      }
      [ks[0]] + rest
  }

  /** Insertion sort of distinct keys into ascending order. */
  function SortKeys(ks: seq<GroupKey>): (r: seq<GroupKey>)
    requires NoDup(ks)
    ensures StrictlySorted(r)
    ensures multiset(r) == multiset(ks)
  {
    if ks == [] then []
    else
      assert ks == [ks[0]] + ks[1..];
      var rest := SortKeys(ks[1..]);
      assert ks[0] !in rest by {
        assert ks[0] !in ks[1..];
        assert ks[0] !in multiset(rest);
      }
      InsertKey(ks[0], rest)
  }

  function Keys(s: seq<JoinedRow>): (r: seq<GroupKey>)
    ensures |r| == |s|
    ensures forall i :: 0 <= i < |s| ==> r[i] == KeyOf(s[i])
  {
    seq(|s|, i requires 0 <= i < |s| => KeyOf(s[i]))
  }

  /** `k` is the key of some row of `s`. */
  predicate KeyOccurs(s: seq<JoinedRow>, k: GroupKey) {
    exists i :: 0 <= i < |s| && KeyOf(s[i]) == k
  }

  /** The groups `groupby` forms: the keys of the rows, each once, in ascending order. */
  function GroupKeys(s: seq<JoinedRow>): (r: seq<GroupKey>)
    ensures StrictlySorted(r) && NoDup(r)
    ensures forall k :: k in r <==> KeyOccurs(s, k)
  {
    var ks := Keys(s);
    var d := Distinct(ks);
    var r := SortKeys(d);
    StrictlySortedNoDup(r);
    assert forall k :: k in r <==> KeyOccurs(s, k) by {
      forall k ensures k in r <==> KeyOccurs(s, k) {
        calc {
          k in r;
          k in multiset(r);
          k in multiset(d);
          k in d;
          k in ks;
        }
        if k in ks {
          var i :| 0 <= i < |ks| && ks[i] == k;
          assert KeyOf(s[i]) == k;
        }
        if KeyOccurs(s, k) {
          var i :| 0 <= i < |s| && KeyOf(s[i]) == k;
          assert ks[i] == k;
        }
      }
    }
    r
  }

  /** One output row per key, aggregating the rows of that key. */
  function GroupRows(s: seq<JoinedRow>, ks: seq<GroupKey>): (r: seq<OlympicRow>)
    ensures |r| == |ks|
    ensures forall i :: 0 <= i < |ks| ==> r[i] == OlympicRow(ks[i], Aggregate(Group(s, KeyOf, ks[i])))
  {
    if ks == [] then []
    else GroupRows(s, ks[..|ks| - 1]) + [OlympicRow(ks[|ks| - 1], Aggregate(Group(s, KeyOf, ks[|ks| - 1])))]
  }

  /** `groupby(keys).agg(...).reset_index()` on the rows whose region is not null. */
  function GroupBy(grouped: seq<JoinedRow>): (r: seq<OlympicRow>)
    ensures forall i :: 0 <= i < |r| ==>
              KeyOccurs(grouped, r[i].key) && r[i].counts == Aggregate(Group(grouped, KeyOf, r[i].key))
  {
    GroupRows(grouped, GroupKeys(grouped))
  }

  /** The merged, not yet grouped rows. */
  function Merged(athletes: seq<Athlete>, nocs: seq<NocRow>): seq<JoinedRow> {
    InnerJoin(UpperTeams(athletes), UpperRegions(nocs))
  }

  /** `prepare_olympic_dataset` once its two tables are loaded: every row of the aggregated table
      satisfies the per-group sums, and the region table comes back row for row. */
  function PrepareOlympicDataset(athletes: seq<Athlete>, nocs: seq<NocRow>): (r: Prepared)
    ensures WellCounted(r.table)
    ensures |r.nocs| == |nocs|
  {
    var grouped := Filter(Merged(athletes, nocs), HasRegion);
    GroupByCounts(grouped);
    Prepared(GroupBy(grouped), UpperRegions(nocs))
  }

  /** The sum of the `Name` column. */
  function TotalNames(rows: seq<OlympicRow>): nat {
    if rows == [] then 0 else TotalNames(rows[..|rows| - 1]) + rows[|rows| - 1].counts.name
  }

  /** The medal columns never exceed the participant count of their row. */
  predicate ValidCounts(rows: seq<OlympicRow>) {
    forall i :: 0 <= i < |rows| ==>
      var c := rows[i].counts;
      c.medalBronze <= c.name && c.medalSilver <= c.name && c.medalGold <= c.name
  }

  /** The per-row promises of the aggregated table. */
  predicate WellCounted(rows: seq<OlympicRow>) {
    && ValidCounts(rows)
    && forall i :: 0 <= i < |rows| ==>
         var c := rows[i].counts;
         c.name >= 1 && c.sexF + c.sexM == c.name && c.seasonSummer + c.seasonWinter == c.name
         && c.medalBronze + c.medalSilver + c.medalGold <= c.name
  }

  // ---------------------------------------------------------------------------------------------
  // What the prepared table promises

  /** Each group row aggregates at least one merged row; its sex columns and its season columns
      each add up to its `Name` count, and its medal columns together stay within that count. */
  lemma GroupByCounts(grouped: seq<JoinedRow>)
    ensures WellCounted(GroupBy(grouped))
  {
    var ks := GroupKeys(grouped);
    var t := GroupRows(grouped, ks);
    forall i | 0 <= i < |t| ensures t[i].counts.name >= 1 {
      assert KeyOccurs(grouped, ks[i]);
      var m :| 0 <= m < |grouped| && KeyOf(grouped[m]) == ks[i];
      assert grouped[m] in Group(grouped, KeyOf, ks[i]);
    }
  }

  /** The grouped rows come in strictly ascending key order, one row per key, and their keys are
      exactly the keys of the input rows. */
  lemma GroupByKeys(grouped: seq<JoinedRow>)
    ensures var t := GroupBy(grouped);
            (forall i, j :: 0 <= i < j < |t| ==> KeyLess(t[i].key, t[j].key))
            && forall g :: (exists i :: 0 <= i < |t| && t[i].key == g) <==> KeyOccurs(grouped, g)
  {
    var ks := GroupKeys(grouped);
    var t := GroupRows(grouped, ks);
    forall g ensures (exists i :: 0 <= i < |t| && t[i].key == g) <==> KeyOccurs(grouped, g) {
      if i :| 0 <= i < |t| && t[i].key == g {
        assert ks[i] == g;
      }
      if KeyOccurs(grouped, g) {
        var i :| 0 <= i < |ks| && ks[i] == g;
        assert t[i].key == g;
      }
    }
  }

  /** A key built from an athlete row and a region row with the same code and a non-null region. */
  predicate KeyFromInputs(athletes: seq<Athlete>, nocs: seq<NocRow>, g: GroupKey) {
    exists i, k :: 0 <= i < |athletes| && 0 <= k < |nocs| && athletes[i].noc == nocs[k].noc
                   && nocs[k].region.Some?
                   && g == GroupKey(Upper(nocs[k].region.value), athletes[i].year, athletes[i].noc,
                                    athletes[i].city, athletes[i].sport, athletes[i].event)
  }

  lemma MergedKeys(athletes: seq<Athlete>, nocs: seq<NocRow>)
    ensures forall g :: KeyOccurs(Filter(Merged(athletes, nocs), HasRegion), g) <==> KeyFromInputs(athletes, nocs, g)
    ensures forall g :: KeyOccurs(Filter(Merged(athletes, nocs), HasRegion), g) ==> NoLower(g.region)
  {
    var us := UpperTeams(athletes);
    var uns := UpperRegions(nocs);
    var joined := InnerJoin(us, uns);
    var grouped := Filter(joined, HasRegion);
    InnerJoinMembers(us, uns);
    forall g | KeyOccurs(grouped, g)
      ensures KeyFromInputs(athletes, nocs, g) && NoLower(g.region)
    {
      var m :| 0 <= m < |grouped| && KeyOf(grouped[m]) == g;
      assert grouped[m] in joined;
      var a, k :| 0 <= a < |us| && 0 <= k < |uns| && us[a].noc == uns[k].noc && grouped[m] == JoinedRow(us[a], uns[k].region);
      assert athletes[a].noc == nocs[k].noc;
    }
    forall g | KeyFromInputs(athletes, nocs, g)
      ensures KeyOccurs(grouped, g)
    {
      var a, k :| 0 <= a < |athletes| && 0 <= k < |nocs| && athletes[a].noc == nocs[k].noc
                  && nocs[k].region.Some?
                  && g == GroupKey(Upper(nocs[k].region.value), athletes[a].year, athletes[a].noc,
                                   athletes[a].city, athletes[a].sport, athletes[a].event);
      var j := JoinedRow(us[a], uns[k].region);
      assert j in joined;
      assert j in grouped;
      var m :| 0 <= m < |grouped| && grouped[m] == j;
      assert KeyOf(grouped[m]) == g;
    }
  }

  /** The output keys ascend strictly (one row per key, in sorted order); a key occurs exactly when
      some athlete's code has a non-null region in the region table, and its region is upper-case. */
  lemma PrepareOlympicKeys(athletes: seq<Athlete>, nocs: seq<NocRow>)
    ensures var t := PrepareOlympicDataset(athletes, nocs).table;
            (forall i, j :: 0 <= i < j < |t| ==> KeyLess(t[i].key, t[j].key))
            && (forall i :: 0 <= i < |t| ==> NoLower(t[i].key.region))
            && forall g :: (exists i :: 0 <= i < |t| && t[i].key == g) <==> KeyFromInputs(athletes, nocs, g)
  {
    var t := PrepareOlympicDataset(athletes, nocs).table;
    GroupByKeys(Filter(Merged(athletes, nocs), HasRegion));
    MergedKeys(athletes, nocs);
    forall i | 0 <= i < |t| ensures NoLower(t[i].key.region) {
      assert exists m :: 0 <= m < |t| && t[m].key == t[i].key;
    }
  }

  lemma {:induction false} TotalNamesGroupRows(s: seq<JoinedRow>, ks: seq<GroupKey>)
    ensures TotalNames(GroupRows(s, ks)) == |Flatten(s, KeyOf, ks)|
  {
    if ks != [] {
      var init := ks[..|ks| - 1];
      var rows := GroupRows(s, ks);
      assert rows[..|rows| - 1] == GroupRows(s, init);
      TotalNamesGroupRows(s, init);
    }
  }

  /** Counts add up: the `Name` column of the grouped table sums to the number of input rows,
      so every row lands in exactly one group. */
  lemma GroupByTotal(grouped: seq<JoinedRow>)
    ensures TotalNames(GroupBy(grouped)) == |grouped|
  {
    var ks := GroupKeys(grouped);
    TotalNamesGroupRows(grouped, ks);
    forall i | 0 <= i < |grouped| ensures KeyOf(grouped[i]) in ks {
      assert KeyOccurs(grouped, KeyOf(grouped[i]));
    }
    FlattenPermutation(grouped, KeyOf, ks);
  }

  lemma {:induction false} RegionOfUpper(nocs: seq<NocRow>, code: string)
    ensures RegionOf(UpperRegions(nocs), code) == UpperRegion(RegionOf(nocs, code))
  {
    if nocs != [] {
      assert UpperRegions(nocs)[1..] == UpperRegions(nocs[1..]);
      RegionOfUpper(nocs[1..], code);
    }
  }

  lemma {:induction false} RegionOfKnown(nocs: seq<NocRow>, code: string)
    ensures RegionOf(nocs, code).Some? ==> KnownNoc(nocs, code)
  {
    if nocs != [] {
      KnownNocTail(nocs, code);
      if nocs[0].noc != code {
        RegionOfKnown(nocs[1..], code);
      }
    }
  }

  /** Attaching regions and keeping the non-null ones keeps exactly the athletes whose code has a
      region, in order, each with its region. */
  lemma {:induction false} AttachWithRegion(xs: seq<Athlete>, nocs: seq<NocRow>)
    ensures Filter(Attach(xs, nocs), HasRegion) == Attach(Filter(xs, RegionIn(nocs)), nocs)
  {
    if xs != [] {
      var j := JoinedRow(xs[0], RegionOf(nocs, xs[0].noc));
      assert Attach(xs, nocs) == [j] + Attach(xs[1..], nocs);
      FilterConcat([j], Attach(xs[1..], nocs), HasRegion);
      AttachWithRegion(xs[1..], nocs);
      var rest := Filter(xs[1..], RegionIn(nocs));
      if RegionIn(nocs)(xs[0]) {
        assert Filter(xs, RegionIn(nocs)) == [xs[0]] + rest;
        assert Attach([xs[0]] + rest, nocs) == [j] + Attach(rest, nocs);
      } else {
        assert Filter(xs, RegionIn(nocs)) == rest;
      }
    }
  }

  /** Upper-casing `Team` does not change which athletes have a region: the kept athletes are the
      upper-cased athletes kept before. */
  lemma {:induction false} UpperTeamsRegion(xs: seq<Athlete>, nocs: seq<NocRow>)
    ensures Filter(UpperTeams(xs), RegionIn(UpperRegions(nocs))) == UpperTeams(Filter(xs, RegionIn(nocs)))
  {
    if xs != [] {
      var u := xs[0].(team := Upper(xs[0].team));
      assert UpperTeams(xs) == [u] + UpperTeams(xs[1..]);
      RegionOfUpper(nocs, xs[0].noc);
      UpperTeamsRegion(xs[1..], nocs);
      var rest := Filter(xs[1..], RegionIn(nocs));
      assert Filter(UpperTeams(xs), RegionIn(UpperRegions(nocs)))
             == (if RegionIn(nocs)(xs[0]) then [u] else []) + Filter(UpperTeams(xs[1..]), RegionIn(UpperRegions(nocs)));
      if RegionIn(nocs)(xs[0]) {
        assert Filter(xs, RegionIn(nocs)) == [xs[0]] + rest;
        assert UpperTeams([xs[0]] + rest) == [u] + UpperTeams(rest);
      } else {
        assert Filter(xs, RegionIn(nocs)) == rest;
      }
    }
  }

  /** With one region row per code, each athlete row whose code has a non-null region adds exactly
      one to the `Name` total of the prepared table, and no other athlete row adds anything. */
  lemma PrepareOlympicTotal(athletes: seq<Athlete>, nocs: seq<NocRow>)
    requires UniqueNoc(nocs)
    ensures TotalNames(PrepareOlympicDataset(athletes, nocs).table) == |Filter(athletes, RegionIn(nocs))|
  {
    var us := UpperTeams(athletes);
    var uns := UpperRegions(nocs);
    GroupByTotal(Filter(Merged(athletes, nocs), HasRegion));
    assert UniqueNoc(uns);
    InnerJoinUnique(us, uns);
    var known := Filter(us, KnownIn(uns));
    AttachWithRegion(known, uns);
    forall i | 0 <= i < |us| ensures RegionIn(uns)(us[i]) == (KnownIn(uns)(us[i]) && RegionIn(uns)(us[i])) {
      RegionOfKnown(uns, us[i].noc);
    }
    FilterFilter(us, KnownIn(uns), RegionIn(uns), RegionIn(uns));
    UpperTeamsRegion(athletes, nocs);
  }

  /** The region table handed back has every region upper-cased and nothing else changed. */
  lemma PrepareOlympicNocs(athletes: seq<Athlete>, nocs: seq<NocRow>)
    ensures var r := PrepareOlympicDataset(athletes, nocs).nocs;
            |r| == |nocs| &&
            forall i :: 0 <= i < |r| ==>
              r[i].noc == nocs[i].noc && r[i].region == UpperRegion(nocs[i].region)
              && (r[i].region.Some? <==> nocs[i].region.Some?)
              && (r[i].region.Some? ==> NoLower(r[i].region.value))
  {
  }

  // ---------------------------------------------------------------------------------------------
  // correct_team_medals_won

  predicate SportsKnown(rows: seq<OlympicRow>, sportDict: map<string, bool>) {
    forall i :: 0 <= i < |rows| ==> rows[i].key.sport in sportDict
  }

  /** The `TeamGame` cell of one row. */
  predicate TeamGame(row: OlympicRow, sportDict: map<string, bool>)
    requires row.key.sport in sportDict
  {
    sportDict[row.key.sport] && !Contains(row.key.event, "Single") && !Contains(row.key.event, "One")
    && Contains(row.key.event, "Relay")
  }

  function TeamGameColumn(rows: seq<OlympicRow>, sportDict: map<string, bool>): (r: seq<bool>)
    requires SportsKnown(rows, sportDict)
    ensures |r| == |rows|
    ensures forall i :: 0 <= i < |rows| ==> r[i] == TeamGame(rows[i], sportDict)
  {
    seq(|rows|, i requires 0 <= i < |rows| => TeamGame(rows[i], sportDict))
  }

  /** A row is flagged as a team game exactly when its sport is marked as one and its event name
      has "Relay" in it but neither "Single" nor "One". */
  lemma TeamGameIff(rows: seq<OlympicRow>, sportDict: map<string, bool>, i: nat)
    requires SportsKnown(rows, sportDict) && i < |rows|
    ensures var e := rows[i].key.event;
            TeamGameColumn(rows, sportDict)[i] <==>
              sportDict[rows[i].key.sport] && (forall p :: !OccursAt(e, "Single", p))
              && (forall p :: !OccursAt(e, "One", p)) && (exists p :: OccursAt(e, "Relay", p))
  {
    var e := rows[i].key.event;
    ContainsAt(e, "Single");
    ContainsAt(e, "One");
    ContainsAt(e, "Relay");
  }

  /** The Python values `is` can compare here: the `True` singleton, or a column object. */
  datatype PyValue = PyBool(value: bool) | PyColumn(cells: seq<bool>)

  /** `olympics_df.TeamGame is True`: Python's identity test between the column object and the
      `True` singleton. A column object is never the singleton, whatever its cells. */
  function ColumnIsTrue(column: seq<bool>): (b: bool)
    ensures !b
  {
    PyColumn(column) == PyBool(true)
  }

  function DivideIf(flag: bool, medals: nat, name: nat): nat {
    if flag && medals > 0 && name > 0 then medals / name else medals
  }

  /** The three `.loc` assignments: where the row's guard holds and the medal cell is positive,
      the medal cell becomes the medal count divided by the `Name` count. */
  function DivideTeamMedals(rows: seq<OlympicRow>, guard: seq<bool>): (r: seq<OlympicRow>)
    requires |guard| == |rows|
    ensures |r| == |rows|
    ensures forall i :: 0 <= i < |rows| ==>
              var c, d := rows[i].counts, r[i].counts;
              r[i].key == rows[i].key
              && d == c.(medalBronze := d.medalBronze, medalSilver := d.medalSilver, medalGold := d.medalGold)
    ensures forall i :: 0 <= i < |rows| && !guard[i] ==> r[i] == rows[i]
  {
    seq(|rows|, i requires 0 <= i < |rows| =>
      var c := rows[i].counts;
      rows[i].(counts := c.(medalBronze := DivideIf(guard[i], c.medalBronze, c.name),
                            medalGold := DivideIf(guard[i], c.medalGold, c.name),
                            medalSilver := DivideIf(guard[i], c.medalSilver, c.name))))
  }

  /** `astype('uint8')` keeps the low eight bits. */
  function U8(v: nat): (r: nat)
    ensures r < 256
    ensures v < 256 ==> r == v
  {
    v % 256
  }

  function CastMedals(rows: seq<OlympicRow>): (r: seq<OlympicRow>)
    ensures |r| == |rows|
    ensures forall i :: 0 <= i < |rows| ==>
              var c, d := rows[i].counts, r[i].counts;
              r[i].key == rows[i].key && d.name == c.name && d.medalBronze == U8(c.medalBronze)
              && d.medalSilver == U8(c.medalSilver) && d.medalGold == U8(c.medalGold)
              && d == c.(medalBronze := d.medalBronze, medalSilver := d.medalSilver, medalGold := d.medalGold)
  {
    seq(|rows|, i requires 0 <= i < |rows| =>
      var c := rows[i].counts;
      rows[i].(counts := c.(medalBronze := U8(c.medalBronze), medalSilver := U8(c.medalSilver),
                            medalGold := U8(c.medalGold))))
  }

  /** The rows `correct_team_medals_won` produces, with the guard as written: the keys and every
      count but the medal columns are kept, and the medal columns fit in a byte. */
  function CorrectedRows(rows: seq<OlympicRow>, sportDict: map<string, bool>): (r: seq<OlympicRow>)
    requires SportsKnown(rows, sportDict)
    ensures |r| == |rows|
    ensures forall i :: 0 <= i < |rows| ==>
              var c, d := rows[i].counts, r[i].counts;
              r[i].key == rows[i].key
              && d == c.(medalBronze := d.medalBronze, medalSilver := d.medalSilver, medalGold := d.medalGold)
              && d.medalBronze < 256 && d.medalSilver < 256 && d.medalGold < 256
  {
    var column := TeamGameColumn(rows, sportDict);
    CastMedals(DivideTeamMedals(rows, AsWrittenGuard(rows, column)))
  }

  /** The guard `TeamGame is True` as written: false on every row. */
  function AsWrittenGuard(rows: seq<OlympicRow>, column: seq<bool>): (g: seq<bool>)
    ensures |g| == |rows|
    ensures forall i :: 0 <= i < |g| ==> !g[i]
  {
    var b := ColumnIsTrue(column);
    seq(|rows|, i => b)
  }

  /** Since the guard never holds, no medal cell is divided: the pass only re-casts the medal columns,
      and a table whose medal counts fit in a byte comes back unchanged. */
  lemma CorrectedRowsOnlyCast(rows: seq<OlympicRow>, sportDict: map<string, bool>)
    requires SportsKnown(rows, sportDict)
    ensures CorrectedRows(rows, sportDict) == CastMedals(rows)
    ensures (forall i :: 0 <= i < |rows| ==>
               rows[i].counts.medalBronze < 256 && rows[i].counts.medalSilver < 256 && rows[i].counts.medalGold < 256)
            ==> CorrectedRows(rows, sportDict) == rows
  {
    var column := TeamGameColumn(rows, sportDict);
    var guard := AsWrittenGuard(rows, column);
    var divided := DivideTeamMedals(rows, guard);
    forall i | 0 <= i < |rows| ensures divided[i] == rows[i] {
      assert !guard[i];
    }
    assert divided == rows;
  }

  lemma DivideIfTeam(m: nat, name: nat)
    requires m <= name
    ensures DivideIf(true, m, name) <= 1
    ensures DivideIf(true, m, name) == 1 <==> m == name > 0
  {
    if m > 0 {
      assert m / name <= 1;
      if m < name {
        assert m / name == 0;
      }
    }
  }

  /** The intended correction: an element-wise `TeamGame` guard, so that a team game's medal cell
      becomes its medal count divided by its participant count. */
  function IntendedTeamMedals(rows: seq<OlympicRow>, sportDict: map<string, bool>): (r: seq<OlympicRow>)
    requires SportsKnown(rows, sportDict) && ValidCounts(rows)
    ensures |r| == |rows|
    ensures forall i :: 0 <= i < |rows| && TeamGame(rows[i], sportDict) ==>
              var c, d := rows[i].counts, r[i].counts;
              d.medalBronze <= 1 && d.medalSilver <= 1 && d.medalGold <= 1
              && (d.medalGold == 1 <==> c.medalGold == c.name > 0)
    ensures forall i :: 0 <= i < |rows| && !TeamGame(rows[i], sportDict) ==> r[i] == CastMedals(rows)[i]
  {
    var column := TeamGameColumn(rows, sportDict);
    var divided := DivideTeamMedals(rows, column);
    var r := CastMedals(divided);
    forall i | 0 <= i < |rows| && TeamGame(rows[i], sportDict)
      ensures var c, d := rows[i].counts, r[i].counts;
              d.medalBronze <= 1 && d.medalSilver <= 1 && d.medalGold <= 1
              && (d.medalGold == 1 <==> c.medalGold == c.name > 0)
    {
      var c := rows[i].counts;
      DivideIfTeam(c.medalBronze, c.name);
      DivideIfTeam(c.medalSilver, c.name);
      DivideIfTeam(c.medalGold, c.name);
      assert divided[i].counts.medalGold == DivideIf(true, c.medalGold, c.name);
      assert divided[i].counts.medalSilver == DivideIf(true, c.medalSilver, c.name);
      assert divided[i].counts.medalBronze == DivideIf(true, c.medalBronze, c.name);
    }
    forall i | 0 <= i < |rows| && !TeamGame(rows[i], sportDict) ensures r[i] == CastMedals(rows)[i] {
      assert divided[i] == rows[i];
    }
    r
  }

  /** A relay row whose four participants each won gold keeps a gold count of 4 under the guard as
      written, where the element-wise guard would have made it 1. */
  lemma TeamGuardNeverFires(rows: seq<OlympicRow>, sportDict: map<string, bool>, i: nat)
    requires SportsKnown(rows, sportDict) && ValidCounts(rows) && i < |rows|
    requires TeamGame(rows[i], sportDict) && rows[i].counts.medalGold == rows[i].counts.name == 4
    ensures CorrectedRows(rows, sportDict)[i].counts.medalGold == 4
    ensures IntendedTeamMedals(rows, sportDict)[i].counts.medalGold == 1
  {
    CorrectedRowsOnlyCast(rows, sportDict);
  }

  /** The prepared Olympic table as a mutable data frame: its rows and, once added, its `TeamGame` column. */
  class OlympicTable {
    var rows: seq<OlympicRow>
    var teamGame: Option<seq<bool>>

    constructor (rows: seq<OlympicRow>)
      ensures this.rows == rows && teamGame == None
    {
      this.rows := rows;
      teamGame := None;
    }

    /** `correct_team_medals_won`: adds the `TeamGame` column and re-casts the medal columns in place.
        A sport missing from `sportDict` raises before anything is written (`ok` is false). */
    method CorrectTeamMedals(sportDict: map<string, bool>) returns (ok: bool)
      modifies this
      ensures ok == SportsKnown(old(rows), sportDict)
      ensures !ok ==> rows == old(rows) && teamGame == old(teamGame)
      ensures ok ==> teamGame == Some(TeamGameColumn(old(rows), sportDict))
      ensures ok ==> rows == CorrectedRows(old(rows), sportDict) == CastMedals(old(rows))
    {
      if !SportsKnown(rows, sportDict) {
        return false;
      }
      var column := TeamGameColumn(rows, sportDict);
      teamGame := Some(column);
      CorrectedRowsOnlyCast(rows, sportDict);
      rows := CastMedals(DivideTeamMedals(rows, AsWrittenGuard(rows, column)));
      ok := true;
    }
  }
}
