/** Scan aggregation (backend/analytics.py) and the scan queries behind it
    (backend/scan_repository.py). */
module Analytics {
  import opened Common
  import opened Links

  const MICROSECONDS_PER_DAY: int := 86_400_000_000

  datatype Category = Country | Subdivision | DeviceClass

  /** The breakdown key of a scan; missing and empty values count as "unknown". */
  function ValueOf(s: Scan, c: Category): string {
    var v := match c
      case Country => s.visitor.country
      case Subdivision => s.visitor.subdivision
      case DeviceClass => s.visitor.deviceClass;
    if v.Some? && v.value != "" then v.value else "unknown"
  }

  function Values(scans: seq<Scan>, c: Category): (r: seq<string>)
    ensures |r| == |scans|
  {
    if scans == [] then [] else Values(Front(scans), c) + [ValueOf(Last(scans), c)]
  }

  /** The calendar day (UTC) of a scan, as a day number; ISO dates sort the same way. */
  function DayOf(s: Scan): int { s.scannedAt / MICROSECONDS_PER_DAY }

  function Days(scans: seq<Scan>): (r: seq<int>)
    ensures |r| == |scans|
  {
    if scans == [] then [] else Days(Front(scans)) + [DayOf(Last(scans))]
  }

  /** The status codes of one day's scans. */
  function CodesOn(scans: seq<Scan>, day: int): seq<int> {
    if scans == [] then []
    else CodesOn(Front(scans), day) + if DayOf(Last(scans)) == day then [Last(scans).statusCode] else []
  }

  // ---- counting with a dictionary ----

  function Bump<K>(counts: map<K, nat>, k: K): map<K, nat> {
    counts[k := (if k in counts then counts[k] else 0) + 1]
  }

  function Tally<K>(values: seq<K>): map<K, nat> {
    if values == [] then map[] else Bump(Tally(Front(values)), Last(values))
  }

  lemma TallyAppend<K>(values: seq<K>, v: K)
    ensures Tally(values + [v]) == Bump(Tally(values), v)
  {
    assert Front(values + [v]) == values;
  }

  /** A tally has a key for each value that occurs, and counts its occurrences. */
  lemma {:induction false} TallyCounts<K>(values: seq<K>, k: K)
    ensures k in Tally(values) <==> k in multiset(values)
    ensures k in Tally(values) ==> Tally(values)[k] == multiset(values)[k]
  {
    if values != [] {
      TallyCounts(Front(values), k);
      assert values == Front(values) + [Last(values)];
    }
  }

  /** The occurrences, in `values`, of the listed keys. */
  function Occurrences<K(==)>(values: seq<K>, keys: seq<K>): nat {
    if keys == [] then 0 else Occurrences(values, Front(keys)) + multiset(values)[Last(keys)]
  }

  ghost predicate Distinct<K>(keys: seq<K>) {
    forall i, j :: 0 <= i < j < |keys| ==> keys[i] != keys[j]
  }

  lemma {:induction false} OneMoreOccurrence<K>(values: seq<K>, v: K, keys: seq<K>)
    requires Distinct(keys)
    ensures Occurrences(values + [v], keys) == Occurrences(values, keys) + if v in keys then 1 else 0
  {
    if keys != [] {
      OneMoreOccurrence(values, v, Front(keys));
      assert keys == Front(keys) + [Last(keys)];
    }
  }

  lemma {:induction false} NoOccurrences<K>(keys: seq<K>)
    ensures Occurrences([], keys) == 0
  {
    if keys != [] {
      NoOccurrences(Front(keys));
    }
  }

  /** Counts over distinct keys that cover all the values add up to the number of values. */
  lemma {:induction false} OccurrencesCover<K>(values: seq<K>, keys: seq<K>)
    requires Distinct(keys) && forall v :: v in values ==> v in keys
    ensures Occurrences(values, keys) == |values|
  {
    if values == [] {
      NoOccurrences(keys);
    } else {
      OccurrencesCover(Front(values), keys);
      assert values == Front(values) + [Last(values)];
      OneMoreOccurrence(Front(values), Last(values), keys);
    }
  }

  /** The sum of a dictionary's counts over its keys, in the order listed. */
  function Sum<K>(counts: map<K, nat>, keys: seq<K>): nat
    requires forall k :: k in keys ==> k in counts
  {
    if keys == [] then 0 else Sum(counts, Front(keys)) + counts[Last(keys)]
  }

  ghost predicate Enumerates<K>(keys: seq<K>, m: set<K>) {
    Distinct(keys) && (forall k :: k in keys ==> k in m) && (forall k :: k in m ==> k in keys)
  }

  lemma {:induction false} SumOfTally<K>(values: seq<K>, keys: seq<K>)
    requires forall k :: k in keys ==> k in Tally(values)
    ensures Sum(Tally(values), keys) == Occurrences(values, keys)
  {
    if keys != [] {
      SumOfTally(values, Front(keys));
      TallyCounts(values, Last(keys));
    }
  }

  /** Conservation: a tally's counts sum to the number of values. */
  lemma TallyTotal<K>(values: seq<K>, keys: seq<K>)
    requires Enumerates(keys, Tally(values).Keys)
    ensures Sum(Tally(values), keys) == |values|
  {
    SumOfTally(values, keys);
    forall v | v in values ensures v in keys {
      TallyCounts(values, v);
    }
    OccurrencesCover(values, keys);
  }

  // ---- categorical breakdowns ----

  lemma ValuesPrefix(scans: seq<Scan>, i: nat, c: Category)
    requires i < |scans|
    ensures Tally(Values(scans[..i + 1], c)) == Bump(Tally(Values(scans[..i], c)), ValueOf(scans[i], c))
  {
    assert Front(scans[..i + 1]) == scans[..i];
    TallyAppend(Values(scans[..i], c), ValueOf(scans[i], c));
  }

  method ScansByField(scans: seq<Scan>, c: Category) returns (counts: map<string, nat>)
    ensures counts == Tally(Values(scans, c))
  {
    counts := map[];
    for i := 0 to |scans|
      invariant counts == Tally(Values(scans[..i], c))
    {
      ValuesPrefix(scans, i, c);
      var value := ValueOf(scans[i], c);
      counts := Bump(counts, value);
    }
    assert scans[..|scans|] == scans;
  }

  /** Every breakdown sums to total_scans. */
  lemma BreakdownTotal(scans: seq<Scan>, c: Category, keys: seq<string>)
    requires Enumerates(keys, Tally(Values(scans, c)).Keys)
    ensures Sum(Tally(Values(scans, c)), keys) == |scans|
  {
    TallyTotal(Values(scans, c), keys);
  }

  /** How a stored value shows in a breakdown. */
  predicate ShowsAs(v: Option<string>, k: string) {
    (v.Some? && v.value != "" && k == v.value) || ((v.None? || v.value == "") && k == "unknown")
  }

  /** Under which key a scan shows in each of the three breakdowns. */
  predicate Shows(s: Scan, c: Category, k: string) {
    (c == Country ==> ShowsAs(s.visitor.country, k)) &&
    (c == Subdivision ==> ShowsAs(s.visitor.subdivision, k)) &&
    (c == DeviceClass ==> ShowsAs(s.visitor.deviceClass, k))
  }

  /** How many scans show under `k`. */
  function Showing(scans: seq<Scan>, c: Category, k: string): nat {
    if scans == [] then 0 else Showing(Front(scans), c, k) + if Shows(Last(scans), c, k) then 1 else 0
  }

  lemma ValueShows(s: Scan, c: Category, k: string)
    ensures ValueOf(s, c) == k <==> Shows(s, c, k)
  {
  }

  lemma {:induction false} OccurrencesShow(scans: seq<Scan>, c: Category, k: string)
    ensures multiset(Values(scans, c))[k] == Showing(scans, c, k)
  {
    if scans != [] {
      OccurrencesShow(Front(scans), c, k);
      ValueShows(Last(scans), c, k);
    }
  }

  /** Each breakdown reads its own field: under a key it counts the scans whose country,
      subdivision or device class shows as that key, and has no other keys. */
  lemma BreakdownExact(scans: seq<Scan>, c: Category, k: string)
    ensures k in Tally(Values(scans, c)) <==> Showing(scans, c, k) > 0
    ensures k in Tally(Values(scans, c)) ==> Tally(Values(scans, c))[k] == Showing(scans, c, k)
  {
    TallyCounts(Values(scans, c), k);
    OccurrencesShow(scans, c, k);
  }

  // ---- days ----

  datatype DayData = DayData(count: nat, statusCodes: map<int, nat>)

  datatype DayRow = DayRow(date: int, count: nat, statusCodes: map<int, nat>)

  /** `day_data` after one more scan. */
  function AddScan(data: map<int, DayData>, s: Scan): map<int, DayData> {
    var was := if DayOf(s) in data then data[DayOf(s)] else DayData(0, map[]);
    data[DayOf(s) := DayData(was.count + 1, Bump(was.statusCodes, s.statusCode))]
  }

  function DayTally(scans: seq<Scan>): map<int, DayData> {
    if scans == [] then map[] else AddScan(DayTally(Front(scans)), Last(scans))
  }

  ghost predicate Ascending(rows: seq<DayRow>) {
    forall i, j :: 0 <= i < j < |rows| ==> rows[i].date < rows[j].date
  }

  /** Rows in strictly ascending date order, one for each day of the dictionary. */
  ghost predicate ListsDays(rows: seq<DayRow>, data: map<int, DayData>) {
    Ascending(rows) &&
    (forall r :: r in rows ==> r.date in data && DayData(r.count, r.statusCodes) == data[r.date]) &&
    (forall d :: d in data ==> exists i :: 0 <= i < |rows| && rows[i].date == d)
  }

  function InsertRow(row: DayRow, rows: seq<DayRow>): seq<DayRow> {
    if rows == [] || row.date < rows[0].date then [row] + rows
    else [rows[0]] + InsertRow(row, rows[1..])
  }

  lemma AscendingCons(row: DayRow, rows: seq<DayRow>)
    requires Ascending(rows) && forall r :: r in rows ==> row.date < r.date
    ensures Ascending([row] + rows)
  {
  }

  lemma AboveHead(rows: seq<DayRow>)
    requires Ascending(rows) && rows != []
    ensures Ascending(rows[1..]) && forall r :: r in rows[1..] ==> r in rows && rows[0].date < r.date
  {
  }

  lemma {:induction false} InsertRowFacts(row: DayRow, rows: seq<DayRow>)
    requires Ascending(rows) && forall r :: r in rows ==> r.date != row.date
    ensures Ascending(InsertRow(row, rows))
    ensures forall r :: r in InsertRow(row, rows) <==> r == row || r in rows
  {
    if rows != [] {
      AboveHead(rows);
      assert rows == [rows[0]] + rows[1..];
      if row.date < rows[0].date {
        AscendingCons(row, rows);
      } else {
        assert rows[0] in rows;
        InsertRowFacts(row, rows[1..]);
        AscendingCons(rows[0], InsertRow(row, rows[1..]));
      }
    }
  }

  function RowFor(d: int, data: DayData): DayRow { DayRow(d, data.count, data.statusCodes) }

  /** `sorted(day_data.items())`, as rows; `items` are the keys in the order they were added. */
  method SortedItems(data: map<int, DayData>, items: seq<int>) returns (rows: seq<DayRow>)
    requires Enumerates(items, data.Keys)
    ensures ListsDays(rows, data)
  {
    rows := [];
    for k := 0 to |items|
      invariant forall i, j :: 0 <= i < j < |rows| ==> rows[i].date < rows[j].date
      invariant forall r :: r in rows ==> r.date in items[..k] && r.date in data && r == RowFor(r.date, data[r.date])
      invariant forall j :: 0 <= j < k ==> RowFor(items[j], data[items[j]]) in rows
    {
      var row := RowFor(items[k], data[items[k]]);
      InsertRowFacts(row, rows);
      rows := InsertRow(row, rows);
    }
    forall d | d in data ensures exists i :: 0 <= i < |rows| && rows[i].date == d {
      assert d in items;
      assert RowFor(d, data[d]) in rows;
    }
  }

  lemma AddScanKeys(data: map<int, DayData>, items: seq<int>, s: Scan)
    requires Enumerates(items, data.Keys)
    ensures Enumerates(if DayOf(s) in data then items else items + [DayOf(s)], AddScan(data, s).Keys)
  {
  }

  method ScansByDay(scans: seq<Scan>) returns (rows: seq<DayRow>)
    ensures ListsDays(rows, DayTally(scans))
  {
    var dayData: map<int, DayData>, items: seq<int> := map[], [];
    for i := 0 to |scans|
      invariant dayData == DayTally(scans[..i]) && Enumerates(items, dayData.Keys)
    {
      assert Front(scans[..i + 1]) == scans[..i];
      AddScanKeys(dayData, items, scans[i]);
      if DayOf(scans[i]) !in dayData {
        items := items + [DayOf(scans[i])];
      }
      dayData := AddScan(dayData, scans[i]);
    }
    assert scans[..|scans|] == scans;
    rows := SortedItems(dayData, items);
  }

  /** What the dictionary holds for a day, given all the days and that day's status codes. */
  ghost predicate DayCounted(data: map<int, DayData>, days: seq<int>, codes: seq<int>, d: int) {
    (d in data <==> d in multiset(days)) && |codes| == multiset(days)[d] &&
    (d in data ==> data[d] == DayData(multiset(days)[d], Tally(codes))) && (d !in data ==> codes == [])
  }

  lemma DayCountedStep(data: map<int, DayData>, days: seq<int>, codes: seq<int>, s: Scan, d: int)
    requires DayCounted(data, days, codes, d)
    ensures DayCounted(AddScan(data, s), days + [DayOf(s)], if DayOf(s) == d then codes + [s.statusCode] else codes, d)
  {
    TallyAppend(codes, s.statusCode);
  }

  lemma {:induction false} DaysCounted(scans: seq<Scan>, d: int)
    ensures DayCounted(DayTally(scans), Days(scans), CodesOn(scans, d), d)
  {
    if scans != [] {
      DaysCounted(Front(scans), d);
      DayCountedStep(DayTally(Front(scans)), Days(Front(scans)), CodesOn(Front(scans), d), Last(scans), d);
      assert CodesOn(Front(scans), d) + [] == CodesOn(Front(scans), d);
    }
  }

  /** The dictionary has an entry for each day that occurs, with that day's number of scans
      and a tally of its status codes. */
  lemma DayTallyCounts(scans: seq<Scan>, d: int)
    ensures d in DayTally(scans) <==> d in multiset(Days(scans))
    ensures d in DayTally(scans) ==>
      DayTally(scans)[d] == DayData(multiset(Days(scans))[d], Tally(CodesOn(scans, d)))
    ensures d !in DayTally(scans) ==> CodesOn(scans, d) == []
    ensures |CodesOn(scans, d)| == multiset(Days(scans))[d]
  {
    DaysCounted(scans, d);
  }

  function Dates(rows: seq<DayRow>): (r: seq<int>)
    ensures |r| == |rows| && forall i :: 0 <= i < |rows| ==> r[i] == rows[i].date
  {
    seq(|rows|, i requires 0 <= i < |rows| => rows[i].date)
  }

  function SumCounts(rows: seq<DayRow>): nat {
    if rows == [] then 0 else SumCounts(Front(rows)) + Last(rows).count
  }

  lemma {:induction false} SumCountsIs(rows: seq<DayRow>, scans: seq<Scan>)
    requires forall i :: 0 <= i < |rows| ==> rows[i].count == multiset(Days(scans))[rows[i].date]
    ensures SumCounts(rows) == Occurrences(Days(scans), Dates(rows))
  {
    if rows != [] {
      SumCountsIs(Front(rows), scans);
      assert Front(Dates(rows)) == Dates(Front(rows));
    }
  }

  lemma RowCount(rows: seq<DayRow>, scans: seq<Scan>, i: nat)
    requires ListsDays(rows, DayTally(scans)) && i < |rows|
    ensures rows[i].count == multiset(Days(scans))[rows[i].date] == |CodesOn(scans, rows[i].date)|
    ensures rows[i].statusCodes == Tally(CodesOn(scans, rows[i].date))
  {
    assert rows[i] in rows;
    DayTallyCounts(scans, rows[i].date);
  }

  lemma DateListed(rows: seq<DayRow>, scans: seq<Scan>, d: int)
    requires ListsDays(rows, DayTally(scans)) && d in Days(scans)
    ensures d in Dates(rows)
  {
    DayTallyCounts(scans, d);
    assert exists i :: 0 <= i < |rows| && rows[i].date == d;
    assert forall i :: 0 <= i < |rows| ==> Dates(rows)[i] == rows[i].date;
  }

  /** Conservation by day: the rows' counts sum to total_scans. */
  lemma DaysTotal(scans: seq<Scan>, rows: seq<DayRow>)
    requires ListsDays(rows, DayTally(scans))
    ensures SumCounts(rows) == |scans|
  {
    forall i | 0 <= i < |rows| ensures rows[i].count == multiset(Days(scans))[rows[i].date] {
      RowCount(rows, scans, i);
    }
    SumCountsIs(rows, scans);
    forall d | d in Days(scans) ensures d in Dates(rows) {
      DateListed(rows, scans, d);
    }
    OccurrencesCover(Days(scans), Dates(rows));
  }

  /** Conservation within a day: each row's status codes sum to its count. */
  lemma DayCodesTotal(scans: seq<Scan>, rows: seq<DayRow>, i: nat, codes: seq<int>)
    requires ListsDays(rows, DayTally(scans)) && i < |rows| && Enumerates(codes, rows[i].statusCodes.Keys)
    ensures Sum(rows[i].statusCodes, codes) == rows[i].count
  {
    RowCount(rows, scans, i);
    TallyTotal(CodesOn(scans, rows[i].date), codes);
  }

  /** The 86,400 seconds, in microseconds, that make day `d`. */
  predicate OnDay(s: Scan, d: int) {
    d * 86_400_000_000 <= s.scannedAt < (d + 1) * 86_400_000_000
  }

  /** How many scans fall on day `d`. */
  function ScansOn(scans: seq<Scan>, d: int): nat {
    if scans == [] then 0 else ScansOn(Front(scans), d) + if OnDay(Last(scans), d) then 1 else 0
  }

  /** How many of those have that status code. */
  function ScansWith(scans: seq<Scan>, d: int, code: int): nat {
    if scans == [] then 0
    else ScansWith(Front(scans), d, code) + if OnDay(Last(scans), d) && Last(scans).statusCode == code then 1 else 0
  }

  lemma {:induction false} DaysCount(scans: seq<Scan>, d: int)
    ensures multiset(Days(scans))[d] == ScansOn(scans, d)
  {
    if scans != [] {
      DaysCount(Front(scans), d);
      assert DayOf(Last(scans)) == d <==> OnDay(Last(scans), d);
    }
  }

  lemma {:induction false} CodesCount(scans: seq<Scan>, d: int, code: int)
    ensures multiset(CodesOn(scans, d))[code] == ScansWith(scans, d, code)
  {
    if scans != [] {
      CodesCount(Front(scans), d, code);
      assert DayOf(Last(scans)) == d <==> OnDay(Last(scans), d);
    }
  }

  /** A row counts the scans of its day, and under a status code those of them with that code. */
  lemma DayRowExact(scans: seq<Scan>, rows: seq<DayRow>, row: DayRow, code: int)
    requires ListsDays(rows, DayTally(scans)) && row in rows
    ensures row.count == ScansOn(scans, row.date)
    ensures code in row.statusCodes <==> ScansWith(scans, row.date, code) > 0
    ensures code in row.statusCodes ==> row.statusCodes[code] == ScansWith(scans, row.date, code)
  {
    DayTallyCounts(scans, row.date);
    DaysCount(scans, row.date);
    CodesCount(scans, row.date, code);
    TallyCounts(CodesOn(scans, row.date), code);
  }

  lemma {:induction false} DayPresent(scans: seq<Scan>, s: Scan)
    requires s in scans
    ensures DayOf(s) in Days(scans)
  {
    if s != Last(scans) {
      DayPresent(Front(scans), s);
    }
  }

  /** Every scan falls on the day of some row, and no row is without scans. */
  lemma DayRowsCover(scans: seq<Scan>, rows: seq<DayRow>, s: Scan)
    requires ListsDays(rows, DayTally(scans)) && s in scans
    ensures exists row :: row in rows && OnDay(s, row.date)
    ensures forall row :: row in rows ==> row.count > 0
  {
    DayPresent(scans, s);
    DayTallyCounts(scans, DayOf(s));
    var i :| 0 <= i < |rows| && rows[i].date == DayOf(s);
    assert rows[i] in rows && OnDay(s, rows[i].date);
    forall row | row in rows ensures row.count > 0 {
      DayTallyCounts(scans, row.date);
    }
  }

  // ---- the most recent scans ----

  function InsertNewest(s: Scan, sorted: seq<Scan>): seq<Scan> {
    if sorted == [] || s.scannedAt >= sorted[0].scannedAt then [s] + sorted
    else [sorted[0]] + InsertNewest(s, sorted[1..])
  }

  /** `sorted(scans, key=scanned_at, reverse=True)`, which keeps ties in their given order. */
  function NewestFirst(scans: seq<Scan>): seq<Scan> {
    if scans == [] then [] else InsertNewest(scans[0], NewestFirst(scans[1..]))
  }

  function RecentScans(scans: seq<Scan>, limit: nat): seq<Scan> {
    var sorted := NewestFirst(scans);
    if limit < |sorted| then sorted[..limit] else sorted
  }

  ghost predicate Descending(s: seq<Scan>) {
    forall i, j :: 0 <= i < j < |s| ==> s[i].scannedAt >= s[j].scannedAt
  }

  /** The scans made at one instant, in order. */
  function At(scans: seq<Scan>, t: Time): seq<Scan> {
    if scans == [] then [] else (if scans[0].scannedAt == t then [scans[0]] else []) + At(scans[1..], t)
  }

  lemma DescendingCons(s: Scan, sorted: seq<Scan>)
    requires Descending(sorted) && forall x :: x in sorted ==> s.scannedAt >= x.scannedAt
    ensures Descending([s] + sorted)
  {
  }

  lemma BelowHead(sorted: seq<Scan>)
    requires Descending(sorted) && sorted != []
    ensures Descending(sorted[1..]) && forall x :: x in sorted ==> sorted[0].scannedAt >= x.scannedAt
  {
  }

  lemma {:induction false} InsertNewestOrder(s: Scan, sorted: seq<Scan>)
    requires Descending(sorted)
    ensures var r := InsertNewest(s, sorted);
      Descending(r) && |r| == |sorted| + 1 && (forall x :: x in r <==> x == s || x in sorted)
  {
    if sorted == [] {
      DescendingCons(s, sorted);
    } else {
      BelowHead(sorted);
      assert sorted == [sorted[0]] + sorted[1..];
      if s.scannedAt < sorted[0].scannedAt {
        InsertNewestOrder(s, sorted[1..]);
        DescendingCons(sorted[0], InsertNewest(s, sorted[1..]));
      } else {
        DescendingCons(s, sorted);
      }
    }
  }

  lemma AtCons(s: Scan, rest: seq<Scan>, t: Time)
    ensures At([s] + rest, t) == (if s.scannedAt == t then [s] else []) + At(rest, t)
  {
    assert ([s] + rest)[1..] == rest;
  }

  lemma {:induction false} InsertNewestAt(s: Scan, sorted: seq<Scan>, t: Time)
    ensures At(InsertNewest(s, sorted), t) == (if s.scannedAt == t then [s] else []) + At(sorted, t)
  {
    if sorted == [] || s.scannedAt >= sorted[0].scannedAt {
      AtCons(s, sorted, t);
    } else {
      InsertNewestAt(s, sorted[1..], t);
      AtCons(sorted[0], InsertNewest(s, sorted[1..]), t);
      AtCons(sorted[0], sorted[1..], t);
      assert sorted == [sorted[0]] + sorted[1..];
    }
  }

  /** The order is newest first, holds every scan, and keeps scans of one instant as given. */
  lemma {:induction false} NewestFirstSorts(scans: seq<Scan>)
    ensures var r := NewestFirst(scans);
      Descending(r) && |r| == |scans| && forall t :: At(r, t) == At(scans, t)
  {
    if scans != [] {
      NewestFirstSorts(scans[1..]);
      InsertNewestOrder(scans[0], NewestFirst(scans[1..]));
      forall t ensures At(NewestFirst(scans), t) == At(scans, t) {
        InsertNewestAt(scans[0], NewestFirst(scans[1..]), t);
      }
    }
  }

  lemma {:induction false} AtMember(s: seq<Scan>, t: Time)
    requires At(s, t) != []
    ensures exists i :: 0 <= i < |s| && s[i].scannedAt == t
  {
    if s[0].scannedAt != t {
      AtMember(s[1..], t);
      var i :| 0 <= i < |s[1..]| && s[1..][i].scannedAt == t;
      assert s[i + 1].scannedAt == t;
    }
  }

  lemma HeadIsNewest(s: seq<Scan>, t: Time)
    requires Descending(s) && At(s, t) != []
    ensures s != [] && s[0].scannedAt >= t
  {
    AtMember(s, t);
  }

  lemma NothingAtAll(s: seq<Scan>)
    requires forall t :: At(s, t) == []
    ensures s == []
  {
    assert s != [] ==> At(s, s[0].scannedAt) != [];
  }

  /** And it is the only such order. */
  lemma {:induction false} NewestFirstUnique(a: seq<Scan>, b: seq<Scan>)
    requires Descending(a) && Descending(b) && forall t :: At(a, t) == At(b, t)
    ensures a == b
  {
    if a == [] {
      NothingAtAll(b);
    } else {
      var t := a[0].scannedAt;
      assert At(b, t) == At(a, t) != [];
      HeadIsNewest(b, t);
      HeadIsNewest(a, b[0].scannedAt);
      assert a[0] == At(a, t)[0] == At(b, t)[0] == b[0];
      forall u ensures At(a[1..], u) == At(b[1..], u) {
        assert At(a, u) == At(b, u);
        assert (if a[0].scannedAt == u then At(a, u)[1..] else At(a, u)) == At(a[1..], u);
        assert (if b[0].scannedAt == u then At(b, u)[1..] else At(b, u)) == At(b[1..], u);
      }
      NewestFirstUnique(a[1..], b[1..]);
      assert a == [a[0]] + a[1..] && b == [b[0]] + b[1..];
    }
  }

  /** recent_scans is the first min(limit, n) of the stable newest-first order. */
  lemma RecentIsTop(scans: seq<Scan>, limit: nat, order: seq<Scan>)
    requires Descending(order) && forall t :: At(order, t) == At(scans, t)
    ensures RecentScans(scans, limit) <= order
    ensures |RecentScans(scans, limit)| == if limit <= |scans| then limit else |scans|
  {
    NewestFirstSorts(scans);
    forall t ensures At(order, t) == At(NewestFirst(scans), t) {
    }
    NewestFirstUnique(order, NewestFirst(scans));
  }

  // ---- the queries ----

  function ScansForToken(scans: seq<Scan>, token: string): seq<Scan> {
    if scans == [] then []
    else ScansForToken(Front(scans), token) + if Last(scans).token == token then [Last(scans)] else []
  }

  /** The query returns the token's scans, every one of them, and no others. */
  lemma {:induction false} ScansForTokenExact(scans: seq<Scan>, token: string, s: Scan)
    ensures multiset(ScansForToken(scans, token))[s] == if s.token == token then multiset(scans)[s] else 0
  {
    if scans != [] {
      ScansForTokenExact(Front(scans), token, s);
      assert scans == Front(scans) + [Last(scans)];
    }
  }

  function TokensAmong(scans: seq<Scan>, tokens: seq<string>): seq<string> {
    if scans == [] then []
    else TokensAmong(Front(scans), tokens) + if Last(scans).token in tokens then [Last(scans).token] else []
  }

  /** The GROUP BY behind the dashboard. */
  function ScanCounts(scans: seq<Scan>, tokens: seq<string>): map<string, nat> {
    Tally(TokensAmong(scans, tokens))
  }

  /** The dashboard's count of a listed token is the total its analytics page shows. */
  lemma {:induction false} DashboardAgrees(scans: seq<Scan>, tokens: seq<string>, token: string)
    requires token in tokens
    ensures var counts := ScanCounts(scans, tokens);
      (if token in counts then counts[token] else 0) == |ScansForToken(scans, token)|
  {
    if scans != [] {
      DashboardAgrees(Front(scans), tokens, token);
      var before := TokensAmong(Front(scans), tokens);
      TallyAppend(before, Last(scans).token);
      assert before + [] == before;
    }
  }

  lemma {:induction false} AmongListed(scans: seq<Scan>, tokens: seq<string>, t: string)
    requires t in TokensAmong(scans, tokens)
    ensures t in tokens
  {
    if t in TokensAmong(Front(scans), tokens) {
      AmongListed(Front(scans), tokens, t);
    }
  }

  /** And it lists no other token, nor one without scans. */
  lemma CountsListed(scans: seq<Scan>, tokens: seq<string>, t: string)
    requires t in ScanCounts(scans, tokens)
    ensures t in tokens && ScanCounts(scans, tokens)[t] > 0
  {
    TallyCounts(TokensAmong(scans, tokens), t);
    AmongListed(scans, tokens, t);
  }

  // ---- end to end ----

  /** Redirects only ever record 302 and 410. */
  ghost predicate RecordsRedirects(db: Database) {
    (forall s :: s in db.scans ==> s.statusCode == 302 || s.statusCode == 410) &&
    (forall t :: t in db.queue ==> t.statusCode == 302)
  }

  lemma RedirectRecordsRedirects(db: Database, r: Request)
    requires RecordsRedirects(db) && r.Redirect?
    ensures RecordsRedirects(ServeRedirect(db, r).0)
  {
  }

  lemma StepRecordsRedirects(db: Database, r: Request)
    requires RecordsRedirects(db)
    ensures RecordsRedirects(Serve(db, r).0)
  {
    if r.Redirect? {
      RedirectRecordsRedirects(db, r);
    }
  }

  lemma {:induction false} RunRecordsRedirects(reqs: seq<Request>)
    ensures RecordsRedirects(After(EMPTY, reqs))
  {
    if reqs != [] {
      RunRecordsRedirects(Front(reqs));
      StepRecordsRedirects(After(EMPTY, Front(reqs)), Last(reqs));
    }
  }

  lemma {:induction false} TotalByStatus(scans: seq<Scan>, token: string)
    requires forall s :: s in scans ==> s.statusCode == 302 || s.statusCode == 410
    ensures |ScansForToken(scans, token)| == CountScans(scans, token, 302) + CountScans(scans, token, 410)
  {
    if scans != [] {
      TotalByStatus(Front(scans), token);
      assert Last(scans) in scans;
    }
  }

  lemma {:induction false} NoGoneQueued(queue: seq<Task>, token: string)
    requires forall t :: t in queue ==> t.statusCode == 302
    ensures CountTasks(queue, token, 410) == 0
  {
    if queue != [] {
      NoGoneQueued(Front(queue), token);
      assert Last(queue) in queue;
    }
  }

  /** In every run from an empty server, a token's total_scans plus its still queued scans is
      the number of its redirects that found the token. */
  lemma TotalScansAreAttempts(reqs: seq<Request>, token: string)
    ensures var db := After(EMPTY, reqs);
      |ScansForToken(db.scans, token)| + CountTasks(db.queue, token, 302) ==
      Attempts(EMPTY, reqs, token, 302) + Attempts(EMPTY, reqs, token, 410)
  {
    var db := After(EMPTY, reqs);
    RunRecordsRedirects(reqs);
    TotalByStatus(db.scans, token);
    NoGoneQueued(db.queue, token);
    ScansConserved(EMPTY, reqs, token, 302);
    ScansConserved(EMPTY, reqs, token, 410);
  }
}
