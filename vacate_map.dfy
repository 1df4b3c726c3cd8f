/** The vacate-order map page (script.js). It loads the city's vacate-order
    rows, turns each usable row into a coloured circle marker, and keeps two
    marker groups, a heat-map overlay and the six-number summary panel in
    step with the borough filter and the heat-map and clustering toggles.
    Leaflet and the page are modelled by what they hold: the marker groups
    as sequences of markers, the map as the set of this page's layers on it,
    the panel as its six counts. */
module VacateMap {
  import opened Strings
  import opened JsValues

  /** `MAX_POINTS`: at most this many rows of one load become markers. */
  const MaxPoints: nat := 5000

  /** The weight of every heat-map point. */
  const HeatIntensity: real := 0.6

  /** JavaScript truthiness of a string field that may be absent. */
  predicate Present(v: Option<string>) {
    v.Some? && v.value != ""
  }

  /** `v || ""` */
  function TextOr(v: Option<string>): (t: string)
    ensures Present(v) ==> t == v.value
    ensures !Present(v) ==> t == ""
  {
    if Present(v) then v.value else ""
  }

  // ---------------------------------------------------------------------------
  // Marker colours and the reason categories of the summary panel.
  // ---------------------------------------------------------------------------

  /** `getMarkerColor(reason)`: grey without a reason, otherwise the first of
      the key words fire, illegal, habit, entire that the lower-cased reason
      contains picks red, purple, orange or black; blue when none does. */
  function GetMarkerColor(reason: Option<string>): (color: string)
    ensures !Present(reason) ==> color == "gray"
    ensures color in {"gray", "red", "purple", "orange", "black", "blue"}
  {
    if !Present(reason) then "gray"
    else
      var r := Lower(reason.value);
      if Contains(r, "fire") then "red"
      else if Contains(r, "illegal") then "purple"
      else if Contains(r, "habit") then "orange"
      else if Contains(r, "entire") then "black"
      else "blue"
  }

  /** The counters of the summary panel a record can fall into. */
  datatype Category = Fire | Illegal | Habit | Entire | Other

  /** The counter `applyFilter` increments for a record with this reason. */
  function CategoryOf(reason: Option<string>): Category {
    var r := Lower(TextOr(reason));
    if Contains(r, "fire") then Fire
    else if Contains(r, "illegal") then Illegal
    else if Contains(r, "habit") then Habit
    else if Contains(r, "entire") then Entire
    else Other
  }

  function CategoryColor(c: Category): string {
    match c
    case Fire => "red"
    case Illegal => "purple"
    case Habit => "orange"
    case Entire => "black"
    case Other => "blue"
  }

  /** The marker colour and the panel counter agree: a record with a reason is
      drawn in the colour of the counter it is counted under, and a record
      without one is drawn grey and counted as other. */
  lemma MarkerColorMatchesCategory(reason: Option<string>)
    ensures Present(reason) ==> GetMarkerColor(reason) == CategoryColor(CategoryOf(reason))
    ensures !Present(reason) ==> GetMarkerColor(reason) == "gray" && CategoryOf(reason) == Other
  {
  }

  /** The colour does not depend on letter case. */
  lemma MarkerColorIgnoresCase(s: string)
    ensures GetMarkerColor(Some(Upper(s))) == GetMarkerColor(Some(s))
    ensures CategoryOf(Some(Upper(s))) == CategoryOf(Some(s))
  {
    LowerOfUpper(s);
    SameLowerSameColor(Some(Upper(s)), Some(s));
  }

  /** Colour and counter read the reason only through its lower-cased text. */
  lemma SameLowerSameColor(a: Option<string>, b: Option<string>)
    requires Present(a) == Present(b) && Lower(TextOr(a)) == Lower(TextOr(b))
    ensures GetMarkerColor(a) == GetMarkerColor(b) && CategoryOf(a) == CategoryOf(b)
  {
    if Present(a) {
      assert Lower(a.value) == Lower(b.value);
    }
  }

  // ---------------------------------------------------------------------------
  // `formatDate`
  // ---------------------------------------------------------------------------

  /** The characters the regular-expression `.` does not match. */
  predicate IsLineTerminator(c: char) {
    c == '\n' || c == '\r' || c == '\U{2028}' || c == '\U{2029}'
  }

  predicate NoLineTerminator(s: string) {
    forall i :: 0 <= i < |s| ==> !IsLineTerminator(s[i])
  }

  /** `s.replace(/T.*$/, "")`: the match starts at the first `T` from which
      `.*` can reach the end of the text, that is, the first `T` with no line
      terminator after it, and runs to the end; no such `T` leaves `s` as it
      is. */
  function StripTime(s: string): (r: string)
    ensures |r| <= |s| && r == s[..|r|]
  {
    if s == [] then []
    else if s[0] == 'T' && NoLineTerminator(s[1..]) then []
    else [s[0]] + StripTime(s[1..])
  }

  /** `formatDate(dateStr)`: empty text for a missing date. `String` of a
      string cannot throw, so the `catch` branch is never taken. */
  function FormatDate(dateStr: Option<string>): (d: string)
    ensures !Present(dateStr) ==> d == ""
    ensures Present(dateStr) ==> d == StripTime(dateStr.value)
  {
    if !Present(dateStr) then "" else StripTime(dateStr.value)
  }

  /** A timestamp `<date>T<time>` whose date has no `T` and whose time has no
      line break is cut back to its date. */
  lemma {:induction false} TimestampLosesItsTime(date: string, time: string)
    requires 'T' !in date && NoLineTerminator(time)
    ensures FormatDate(Some(date + "T" + time)) == date
  {
    if date != [] {
      var s := date + "T" + time;
      assert s[0] == date[0] && s[1..] == date[1..] + "T" + time;
      TimestampLosesItsTime(date[1..], time);
      assert StripTime(s) == [date[0]] + StripTime(s[1..]);
    } else {
      var s := date + "T" + time;
      assert s[0] == 'T' && s[1..] == time;
    }
  }

  /** Text without a `T` is shown as it is. */
  lemma {:induction false} DateWithoutTimeIsKept(s: string)
    requires 'T' !in s
    ensures StripTime(s) == s
    ensures FormatDate(Some(s)) == s
  {
    if s != [] {
      assert 'T' !in s[1..];
      DateWithoutTimeIsKept(s[1..]);
    }
  }

  /** The `T` of the stripped part stays when a line break follows it: the
      result then still holds that `T`. */
  lemma {:induction false} LineBreakKeepsTime(date: string, time: string)
    requires 'T' !in date && !NoLineTerminator(time) && 'T' !in time
    ensures FormatDate(Some(date + "T" + time)) == date + "T" + time
  {
    DateWithoutTimeIsKept(time);
    if date != [] {
      var s := date + "T" + time;
      assert s[1..] == date[1..] + "T" + time;
      LineBreakKeepsTime(date[1..], time);
    } else {
      var s := date + "T" + time;
      assert s[1..] == time;
    }
  }

  // ---------------------------------------------------------------------------
  // Rows of the vacate-order data set and the records built from them.
  // ---------------------------------------------------------------------------

  /** The fields of a fetched row that the map uses (the address, unit count
      and date fields only feed the popup text). */
  datatype Row = Row(
    latitude: Option<string>,
    longitude: Option<string>,
    boroShortName: Option<string>,
    primaryVacateReason: Option<string>)

  /** A circle marker: the `id` tells apart markers made from different rows. */
  datatype Marker = CircleMarker(id: nat, lat: Number, lon: Number, color: string)

  /** An entry of `markersData`. */
  datatype MarkerData = MarkerData(marker: Marker, lat: Number, lon: Number, boro: Option<string>, reason: Option<string>)

  /** A row becomes a marker when both coordinates are present and neither
      parses to NaN. */
  predicate Accepts(r: Row, parseFloat: string -> Number) {
    Present(r.latitude) && Present(r.longitude)
    && !parseFloat(r.latitude.value).NaN? && !parseFloat(r.longitude.value).NaN?
  }

  /** The record pushed for an accepted row, its marker numbered `id`. */
  function RecordOf(r: Row, parseFloat: string -> Number, id: nat): (md: MarkerData)
    requires Accepts(r, parseFloat)
  {
    var lat := parseFloat(r.latitude.value);
    var lon := parseFloat(r.longitude.value);
    MarkerData(CircleMarker(id, lat, lon, GetMarkerColor(r.primaryVacateReason)),
               lat, lon, r.boroShortName, r.primaryVacateReason)
  }

  /** The accepted rows, in order. */
  function AcceptedRows(rows: seq<Row>, parseFloat: string -> Number): (a: seq<Row>)
    ensures |a| <= |rows|
    ensures forall i :: 0 <= i < |a| ==> Accepts(a[i], parseFloat)
  {
    if rows == [] then []
    else
      var rest := AcceptedRows(rows[..|rows| - 1], parseFloat);
      if Accepts(rows[|rows| - 1], parseFloat) then rest + [rows[|rows| - 1]] else rest
  }

  /** The first `n` elements, or all of them when there are fewer. */
  function Take<T>(s: seq<T>, n: nat): (t: seq<T>)
    ensures |t| == if |s| <= n then |s| else n
    ensures t == s[..|t|]
  {
    if |s| <= n then s else s[..n]
  }

  /** The records built from accepted rows, numbered from `firstId`. */
  function RecordsOf(rows: seq<Row>, parseFloat: string -> Number, firstId: nat): (mds: seq<MarkerData>)
    requires forall i :: 0 <= i < |rows| ==> Accepts(rows[i], parseFloat)
    ensures |mds| == |rows|
  {
    seq(|rows|, i requires 0 <= i < |rows| => RecordOf(rows[i], parseFloat, firstId + i))
  }

  /** The records one load appends to `markersData`: those of the first
      `MaxPoints` accepted rows. */
  function Loaded(rows: seq<Row>, parseFloat: string -> Number, firstId: nat): seq<MarkerData> {
    RecordsOf(Take(AcceptedRows(rows, parseFloat), MaxPoints), parseFloat, firstId)
  }

  /** A load keeps at most `MaxPoints` rows; it keeps every accepted row when
      there are no more than that; each record has numeric coordinates, the
      marker colour of its reason and the next marker number. */
  lemma LoadedRecords(rows: seq<Row>, parseFloat: string -> Number, firstId: nat)
    ensures |Loaded(rows, parseFloat, firstId)| <= MaxPoints
    ensures |AcceptedRows(rows, parseFloat)| <= MaxPoints ==> |Loaded(rows, parseFloat, firstId)| == |AcceptedRows(rows, parseFloat)|
    ensures forall j :: 0 <= j < |Loaded(rows, parseFloat, firstId)| ==>
              var md := Loaded(rows, parseFloat, firstId)[j];
              && !md.lat.NaN? && !md.lon.NaN?
              && md.marker == CircleMarker(firstId + j, md.lat, md.lon, GetMarkerColor(md.reason))
  {
  }

  /** The accepted rows hold each row that passes the checks as often as the
      input does, and no other row. */
  lemma {:induction false} AcceptedRowsCounts(rows: seq<Row>, parseFloat: string -> Number, r: Row)
    ensures multiset(AcceptedRows(rows, parseFloat))[r] == if Accepts(r, parseFloat) then multiset(rows)[r] else 0
  {
    if rows != [] {
      AcceptedRowsCounts(rows[..|rows| - 1], parseFloat, r);
      assert rows == rows[..|rows| - 1] + [rows[|rows| - 1]];
    }
  }

  /** How the records of a load grow by one row. */
  lemma LoadStep(rows: seq<Row>, i: nat, parseFloat: string -> Number, firstId: nat)
    requires i < |rows|
    ensures var taken := Take(AcceptedRows(rows[..i], parseFloat), MaxPoints);
            var grows := |taken| < MaxPoints && Accepts(rows[i], parseFloat);
            && |Take(AcceptedRows(rows[..i + 1], parseFloat), MaxPoints)| == |taken| + (if grows then 1 else 0)
            && Loaded(rows[..i + 1], parseFloat, firstId)
               == Loaded(rows[..i], parseFloat, firstId)
                  + (if grows then [RecordOf(rows[i], parseFloat, firstId + |taken|)] else [])
  {
    AcceptedStep(rows, i, parseFloat);
    var accepted := AcceptedRows(rows[..i], parseFloat);
    if Accepts(rows[i], parseFloat) {
      TakeAppend(accepted, rows[i], MaxPoints);
    }
    if |Take(accepted, MaxPoints)| < MaxPoints && Accepts(rows[i], parseFloat) {
      LoadGrows(rows, i, parseFloat, firstId);
    } else {
      LoadKeeps(rows, i, parseFloat, firstId);
    }
  }

  /** A row accepted while fewer than `MaxPoints` are kept adds its record. */
  lemma LoadGrows(rows: seq<Row>, i: nat, parseFloat: string -> Number, firstId: nat)
    requires i < |rows| && Accepts(rows[i], parseFloat)
    requires |Take(AcceptedRows(rows[..i], parseFloat), MaxPoints)| < MaxPoints
    ensures var taken := Take(AcceptedRows(rows[..i], parseFloat), MaxPoints);
            Loaded(rows[..i + 1], parseFloat, firstId)
            == Loaded(rows[..i], parseFloat, firstId) + [RecordOf(rows[i], parseFloat, firstId + |taken|)]
  {
    var accepted := AcceptedRows(rows[..i], parseFloat);
    var taken := Take(accepted, MaxPoints);
    calc {
      Loaded(rows[..i + 1], parseFloat, firstId);
      RecordsOf(Take(AcceptedRows(rows[..i + 1], parseFloat), MaxPoints), parseFloat, firstId);
      { AcceptedStep(rows, i, parseFloat); }
      RecordsOf(Take(accepted + [rows[i]], MaxPoints), parseFloat, firstId);
      { TakeAppend(accepted, rows[i], MaxPoints); }
      RecordsOf(taken + [rows[i]], parseFloat, firstId);
      { RecordsOfAppend(taken, rows[i], parseFloat, firstId); }
      RecordsOf(taken, parseFloat, firstId) + [RecordOf(rows[i], parseFloat, firstId + |taken|)];
    }
  }

  /** Any other row leaves the records as they are. */
  lemma LoadKeeps(rows: seq<Row>, i: nat, parseFloat: string -> Number, firstId: nat)
    requires i < |rows|
    requires !Accepts(rows[i], parseFloat) || |Take(AcceptedRows(rows[..i], parseFloat), MaxPoints)| == MaxPoints
    ensures Loaded(rows[..i + 1], parseFloat, firstId) == Loaded(rows[..i], parseFloat, firstId) + []
  {
    var accepted := AcceptedRows(rows[..i], parseFloat);
    AcceptedStep(rows, i, parseFloat);
    if Accepts(rows[i], parseFloat) {
      TakeAppend(accepted, rows[i], MaxPoints);
    }
    assert Take(AcceptedRows(rows[..i + 1], parseFloat), MaxPoints) == Take(accepted, MaxPoints);
  }

  lemma AcceptedStep(rows: seq<Row>, i: nat, parseFloat: string -> Number)
    requires i < |rows|
    ensures AcceptedRows(rows[..i + 1], parseFloat)
            == AcceptedRows(rows[..i], parseFloat) + (if Accepts(rows[i], parseFloat) then [rows[i]] else [])
  {
    assert rows[..i + 1][..i] == rows[..i];
  }

  lemma TakeAppend<T>(s: seq<T>, x: T, n: nat)
    ensures Take(s + [x], n) == if |Take(s, n)| < n then Take(s, n) + [x] else Take(s, n)
  {
    if n <= |s| {
      assert (s + [x])[..n] == s[..n];
    }
  }

  lemma RecordsOfAppend(rows: seq<Row>, r: Row, parseFloat: string -> Number, firstId: nat)
    requires forall i :: 0 <= i < |rows| ==> Accepts(rows[i], parseFloat)
    requires Accepts(r, parseFloat)
    ensures RecordsOf(rows + [r], parseFloat, firstId)
            == RecordsOf(rows, parseFloat, firstId) + [RecordOf(r, parseFloat, firstId + |rows|)]
  {
    var whole := RecordsOf(rows + [r], parseFloat, firstId);
    var front := RecordsOf(rows, parseFloat, firstId);
    forall j | 0 <= j < |rows|
      ensures whole[j] == front[j]
    {
      assert (rows + [r])[j] == rows[j];
    }
  }

  /** The `forEach` of the data handler: the records pushed for the first
      `MaxPoints` accepted rows, their markers numbered from `firstId`. */
  method LoadRows(rows: seq<Row>, parseFloat: string -> Number, firstId: nat) returns (records: seq<MarkerData>)
    ensures records == Loaded(rows, parseFloat, firstId)
  {
    records := [];
    var count: nat := 0;
    var i := 0;
    while i < |rows|
      invariant 0 <= i <= |rows|
      invariant records == Loaded(rows[..i], parseFloat, firstId)
      invariant count == |records| == |Take(AcceptedRows(rows[..i], parseFloat), MaxPoints)|
    {
      LoadStep(rows, i, parseFloat, firstId);
      records, count := LoadRow(records, count, rows[i], parseFloat, firstId);
      i := i + 1;
    }
    assert rows[..i] == rows;
  }

  /** One turn of the data handler's loop: the count check, the coordinate
      checks, and the push of the new record. */
  method LoadRow(records: seq<MarkerData>, count: nat, r: Row, parseFloat: string -> Number, firstId: nat)
    returns (records': seq<MarkerData>, count': nat)
    ensures count < MaxPoints && Accepts(r, parseFloat) ==>
              records' == records + [RecordOf(r, parseFloat, firstId + count)] && count' == count + 1
    ensures !(count < MaxPoints && Accepts(r, parseFloat)) ==> records' == records && count' == count
  {
    records', count' := records, count;
    if count >= MaxPoints {
      return;
    }
    if !Present(r.latitude) || !Present(r.longitude) {
      return;
    }
    var lat := parseFloat(r.latitude.value);
    var lon := parseFloat(r.longitude.value);
    if lat.NaN? || lon.NaN? {
      return;
    }
    var color := GetMarkerColor(r.primaryVacateReason);
    var marker := CircleMarker(firstId + count, lat, lon, color);
    records' := records + [MarkerData(marker, lat, lon, r.boroShortName, r.primaryVacateReason)];
    count' := count + 1;
  }

  // ---------------------------------------------------------------------------
  // What `applyFilter` shows for a borough filter.
  // ---------------------------------------------------------------------------

  /** `!(currentBoroFilter && md.boro !== currentBoroFilter)` */
  predicate Shows(md: MarkerData, filter: Option<string>) {
    !Present(filter) || md.boro == filter
  }

  /** The records the filter lets through, in order. */
  function Selected(mds: seq<MarkerData>, filter: Option<string>): seq<MarkerData> {
    if mds == [] then []
    else
      var rest := Selected(mds[..|mds| - 1], filter);
      if Shows(mds[|mds| - 1], filter) then rest + [mds[|mds| - 1]] else rest
  }

  function MarkersOf(mds: seq<MarkerData>): (ms: seq<Marker>)
    ensures |ms| == |mds|
  {
    if mds == [] then [] else MarkersOf(mds[..|mds| - 1]) + [mds[|mds| - 1].marker]
  }

  /** A heat-map point `[lat, lon, intensity]`. */
  datatype HeatPoint = HeatPoint(lat: Number, lon: Number, intensity: real)

  function HeatPointsOf(mds: seq<MarkerData>): (ps: seq<HeatPoint>)
    ensures |ps| == |mds|
  {
    if mds == [] then []
    else HeatPointsOf(mds[..|mds| - 1]) + [HeatPoint(mds[|mds| - 1].lat, mds[|mds| - 1].lon, HeatIntensity)]
  }

  /** The six numbers of the summary panel. */
  datatype Counts = Counts(total: nat, fire: nat, illegal: nat, habit: nat, entire: nat, other: nat)
  {
    /** One more record, counted under `c`. */
    function Add(c: Category): Counts {
      match c
      case Fire => this.(total := total + 1, fire := fire + 1)
      case Illegal => this.(total := total + 1, illegal := illegal + 1)
      case Habit => this.(total := total + 1, habit := habit + 1)
      case Entire => this.(total := total + 1, entire := entire + 1)
      case Other => this.(total := total + 1, other := other + 1)
    }

    function Of(c: Category): nat {
      match c
      case Fire => fire
      case Illegal => illegal
      case Habit => habit
      case Entire => entire
      case Other => other
    }
  }

  function Tally(mds: seq<MarkerData>): Counts {
    if mds == [] then Counts(0, 0, 0, 0, 0, 0)
    else Tally(mds[..|mds| - 1]).Add(CategoryOf(mds[|mds| - 1].reason))
  }

  /** The category of each record, in order. */
  function CategoriesOf(mds: seq<MarkerData>): (cs: seq<Category>)
    ensures |cs| == |mds|
  {
    if mds == [] then [] else CategoriesOf(mds[..|mds| - 1]) + [CategoryOf(mds[|mds| - 1].reason)]
  }

  /** The heat-map overlay built for the shown records: none when nothing is
      shown. */
  function HeatOf(mds: seq<MarkerData>): (h: Option<HeatLayer>)
    ensures h.Some? <==> mds != []
  {
    if mds == [] then None else Some(HeatLayer(HeatPointsOf(mds)))
  }

  /** Every shown record is counted exactly once, under exactly one reason. */
  lemma {:induction false} TallySumsToTotal(mds: seq<MarkerData>)
    ensures var c := Tally(mds);
            c.total == |mds| && c.fire + c.illegal + c.habit + c.entire + c.other == c.total
  {
    if mds != [] {
      var init := mds[..|mds| - 1];
      TallySumsToTotal(init);
      AddCountsOnce(Tally(init), CategoryOf(mds[|mds| - 1].reason));
    }
  }

  lemma AddCountsOnce(c: Counts, cat: Category)
    ensures var d := c.Add(cat);
            && d.total == c.total + 1
            && d.fire + d.illegal + d.habit + d.entire + d.other == c.fire + c.illegal + c.habit + c.entire + c.other + 1
  {
  }

  /** Each counter is the number of shown records whose reason falls under it. */
  lemma {:induction false} TallyCountsCategories(mds: seq<MarkerData>, c: Category)
    ensures Tally(mds).Of(c) == multiset(CategoriesOf(mds))[c]
  {
    if mds != [] {
      var init := mds[..|mds| - 1];
      var last := CategoryOf(mds[|mds| - 1].reason);
      TallyCountsCategories(init, c);
      AddCountsOne(Tally(init), last, c);
      assert multiset(CategoriesOf(mds))[c] == multiset(CategoriesOf(init))[c] + (if last == c then 1 else 0);
    }
  }

  lemma AddCountsOne(counts: Counts, added: Category, c: Category)
    ensures counts.Add(added).Of(c) == counts.Of(c) + (if added == c then 1 else 0)
    ensures counts.Add(added).total == counts.total + 1
  {
  }

  /** With no filter every record is shown. */
  lemma {:induction false} NoFilterShowsAll(mds: seq<MarkerData>, filter: Option<string>)
    requires !Present(filter)
    ensures Selected(mds, filter) == mds
  {
    if mds != [] {
      NoFilterShowsAll(mds[..|mds| - 1], filter);
    }
  }

  /** With a borough filter, exactly the records of that borough are shown,
      as often as they occur. */
  lemma {:induction false} SelectedRecords(mds: seq<MarkerData>, filter: Option<string>, md: MarkerData)
    ensures multiset(Selected(mds, filter))[md] == if Shows(md, filter) then multiset(mds)[md] else 0
    ensures forall i :: 0 <= i < |Selected(mds, filter)| ==> Shows(Selected(mds, filter)[i], filter)
  {
    if mds != [] {
      var init := mds[..|mds| - 1];
      SelectedRecords(init, filter, md);
      assert mds == init + [mds[|mds| - 1]];
    }
  }

  /** The heat map has a point for each record the panel counts, with the
      record's coordinates. */
  lemma {:induction false} HeatPointsFollowRecords(mds: seq<MarkerData>)
    ensures |HeatPointsOf(mds)| == Tally(mds).total
    ensures forall i :: 0 <= i < |mds| ==> HeatPointsOf(mds)[i] == HeatPoint(mds[i].lat, mds[i].lon, HeatIntensity)
    ensures forall i :: 0 <= i < |mds| ==> MarkersOf(mds)[i] == mds[i].marker
  {
    TallySumsToTotal(mds);
    forall i | 0 <= i < |mds|
      ensures HeatPointsOf(mds)[i] == HeatPoint(mds[i].lat, mds[i].lon, HeatIntensity)
      ensures MarkersOf(mds)[i] == mds[i].marker
    {
      RecordAt(mds, i);
    }
  }

  /** The heat point and the marker at position `i` are those of record `i`. */
  lemma {:induction false} RecordAt(mds: seq<MarkerData>, i: nat)
    requires i < |mds|
    ensures HeatPointsOf(mds)[i] == HeatPoint(mds[i].lat, mds[i].lon, HeatIntensity)
    ensures MarkersOf(mds)[i] == mds[i].marker
  {
    if i < |mds| - 1 {
      RecordAt(mds[..|mds| - 1], i);
    }
  }

  /** How the shown records grow by one record of `markersData`. */
  lemma SelectedStep(mds: seq<MarkerData>, i: nat, filter: Option<string>)
    requires i < |mds|
    ensures Selected(mds[..i + 1], filter)
            == Selected(mds[..i], filter) + (if Shows(mds[i], filter) then [mds[i]] else [])
  {
    assert mds[..i + 1][..i] == mds[..i];
  }

  /** The counter updates of `applyFilter` for one shown record: the total,
      and the first of fire, illegal, habit, entire that its lower-cased
      reason contains, or other. */
  method CountRecord(counts: Counts, reason: Option<string>) returns (next: Counts)
    ensures next == counts.Add(CategoryOf(reason))
    ensures next.total == counts.total + 1
  {
    next := counts.(total := counts.total + 1);
    var r := Lower(TextOr(reason));
    if Contains(r, "fire") {
      assert CategoryOf(reason) == Fire;
      next := next.(fire := next.fire + 1);
    } else if Contains(r, "illegal") {
      assert CategoryOf(reason) == Illegal;
      next := next.(illegal := next.illegal + 1);
    } else if Contains(r, "habit") {
      assert CategoryOf(reason) == Habit;
      next := next.(habit := next.habit + 1);
    } else if Contains(r, "entire") {
      assert CategoryOf(reason) == Entire;
      next := next.(entire := next.entire + 1);
    } else {
      assert CategoryOf(reason) == Other;
      next := next.(other := next.other + 1);
    }
  }

  /** The markers, heat points and counts of one more shown record. */
  lemma AppendShown(shown: seq<MarkerData>, md: MarkerData)
    ensures MarkersOf(shown + [md]) == MarkersOf(shown) + [md.marker]
    ensures HeatPointsOf(shown + [md]) == HeatPointsOf(shown) + [HeatPoint(md.lat, md.lon, HeatIntensity)]
    ensures Tally(shown + [md]) == Tally(shown).Add(CategoryOf(md.reason))
  {
    assert (shown + [md])[..|shown|] == shown;
  }

  /** The `forEach` of `applyFilter` over `markersData`: the markers handed to
      `addLayer`, the heat points and the counts of the records the filter
      shows, in order. */
  method CollectShown(records: seq<MarkerData>, filter: Option<string>)
    returns (added: seq<Marker>, heatPoints: seq<HeatPoint>, counts: Counts)
    ensures added == MarkersOf(Selected(records, filter))
    ensures heatPoints == HeatPointsOf(Selected(records, filter))
    ensures counts == Tally(Selected(records, filter))
  {
    added := [];
    heatPoints := [];
    counts := Counts(0, 0, 0, 0, 0, 0);
    ghost var shown: seq<MarkerData> := [];

    var i := 0;
    while i < |records|
      invariant 0 <= i <= |records|
      invariant shown == Selected(records[..i], filter)
      invariant added == MarkersOf(shown)
      invariant heatPoints == HeatPointsOf(shown)
      invariant counts == Tally(shown)
    {
      var md := records[i];
      SelectedStep(records, i, filter);
      if Shows(md, filter) {
        AppendShown(shown, md);
        counts := CountRecord(counts, md.reason);
        added := added + [md.marker];
        heatPoints := heatPoints + [HeatPoint(md.lat, md.lon, HeatIntensity)];
        shown := shown + [md];
      }
      i := i + 1;
    }
    assert records[..i] == records;
  }

  // ---------------------------------------------------------------------------
  // The page state and its event handlers.
  // ---------------------------------------------------------------------------

  /** A heat-map overlay built from its points. */
  datatype HeatLayer = HeatLayer(points: seq<HeatPoint>)

  /** The layers this page puts on the map: the clustering marker group, the
      plain marker group and heat-map overlays. */
  datatype Layer = ClusterGroup | PlainGroup | Heat(layer: HeatLayer)

  const Groups: set<Layer> := {ClusterGroup, PlainGroup}

  /** The marker group `clusterEnabled` selects. */
  function GroupFor(clusterEnabled: bool): (l: Layer)
    ensures l in Groups
  {
    if clusterEnabled then ClusterGroup else PlainGroup
  }

  /** A group together with overlays splits back into the two. */
  lemma SplitLayers(g: Layer, overlays: set<Layer>)
    requires g in Groups && forall l :: l in overlays ==> l.Heat?
    ensures ({g} + overlays) * Groups == {g}
    ensures ({g} + overlays) - Groups == overlays
  {
    assert forall l :: l in Groups <==> l.ClusterGroup? || l.PlainGroup?;
  }

  class MapView {
    /** `markersData` */
    var markersData: seq<MarkerData>
    /** `currentBoroFilter`: `None` for `null`. */
    var currentBoroFilter: Option<string>
    /** The markers in `clusterGroup` and in `nonClusterGroup`. */
    var clusterGroup: seq<Marker>
    var nonClusterGroup: seq<Marker>
    var clusterEnabled: bool
    /** `heatLayer`: `None` for `null`. */
    var heatLayer: Option<HeatLayer>
    var heatEnabled: bool
    /** The layers of this page on the map. */
    var onMap: set<Layer>
    /** The summary panel; `None` until the first render writes it. */
    var panel: Option<Counts>

    /** The records the current filter shows. */
    function Shown(): seq<MarkerData>
      reads this
    {
      Selected(markersData, currentBoroFilter)
    }

    /** The overlay that belongs on the map: the current one, when the heat
        map is switched on. */
    function HeatShown(): set<Layer>
      reads this
    {
      if heatEnabled && heatLayer.Some? then {Heat(heatLayer.value)} else {}
    }

    /** No overlay other than the current one is on the map, and the current
        one is there exactly when the heat map is switched on. */
    predicate OverlayTracked()
      reads this
    {
      onMap - Groups == HeatShown()
    }

    /** Both marker groups hold the markers of the shown records, the overlay
        is built from them, at most the group `clusterEnabled` selects is on
        the map, and once rendered the panel counts the shown records and that
        group is on the map. */
    ghost predicate Valid()
      reads this
    {
      && clusterGroup == MarkersOf(Shown())
      && nonClusterGroup == clusterGroup
      && heatLayer == HeatOf(Shown())
      && OverlayTracked()
      && onMap * Groups <= {GroupFor(clusterEnabled)}
      && (panel.Some? ==> panel.value == Tally(Shown()) && GroupFor(clusterEnabled) in onMap)
    }

    /** The page before the data arrives. */
    constructor()
      ensures Valid()
      ensures markersData == [] && currentBoroFilter == None
      ensures clusterEnabled && heatEnabled
      ensures onMap == {} && panel == None
    {
      markersData := [];
      currentBoroFilter := None;
      clusterGroup := [];
      nonClusterGroup := [];
      clusterEnabled := true;
      heatLayer := None;
      heatEnabled := true;
      onMap := {};
      panel := None;
    }

    /** `applyFilter()`: rebuilds both groups, the overlay and the panel from
        the records the filter shows, and puts the selected group and, when
        switched on, the new overlay on the map. */
    method ApplyFilter()
      requires OverlayTracked()
      modifies this
      ensures markersData == old(markersData) && currentBoroFilter == old(currentBoroFilter)
      ensures clusterEnabled == old(clusterEnabled) && heatEnabled == old(heatEnabled)
      ensures clusterGroup == MarkersOf(Shown()) && nonClusterGroup == clusterGroup
      ensures heatLayer == HeatOf(Shown())
      ensures panel == Some(Tally(Shown()))
      ensures onMap == {GroupFor(clusterEnabled)} + HeatShown()
      ensures Valid()
    {
      ClearLayers();
      var heatPoints, counts := AddShownMarkers();
      ShowMarkerGroup();
      ShowHeat(heatPoints);
      SplitLayers(GroupFor(clusterEnabled), HeatShown());
      panel := Some(counts);
    }

    /** The heat-map step of `applyFilter`: a new overlay from the points when
        there are any, put on the map when the heat map is switched on. */
    method ShowHeat(heatPoints: seq<HeatPoint>)
      requires heatLayer == None
      modifies this
      ensures heatLayer == if |heatPoints| > 0 then Some(HeatLayer(heatPoints)) else None
      ensures onMap == old(onMap) + HeatShown()
      ensures markersData == old(markersData) && currentBoroFilter == old(currentBoroFilter)
      ensures clusterEnabled == old(clusterEnabled) && heatEnabled == old(heatEnabled)
      ensures clusterGroup == old(clusterGroup) && nonClusterGroup == old(nonClusterGroup)
      ensures panel == old(panel)
    {
      if |heatPoints| > 0 {
        heatLayer := Some(HeatLayer(heatPoints));
        if heatEnabled {
          onMap := onMap + {Heat(heatLayer.value)};
        }
      }
    }

    /** The first step of `applyFilter`: empties both groups and takes the
        overlay off the map. */
    method ClearLayers()
      requires OverlayTracked()
      modifies this
      ensures markersData == old(markersData) && currentBoroFilter == old(currentBoroFilter)
      ensures clusterEnabled == old(clusterEnabled) && heatEnabled == old(heatEnabled)
      ensures clusterGroup == [] && nonClusterGroup == [] && heatLayer == None
      ensures onMap == old(onMap) * Groups
      ensures panel == old(panel)
    {
      clusterGroup := [];
      nonClusterGroup := [];
      if heatLayer.Some? {
        onMap := onMap - {Heat(heatLayer.value)};
        heatLayer := None;
      }
    }

    /** The loop of `applyFilter`: adds the marker of each shown record to both
        groups, collects its heat point and counts it under its reason. */
    method AddShownMarkers() returns (heatPoints: seq<HeatPoint>, counts: Counts)
      requires clusterGroup == [] && nonClusterGroup == []
      modifies this
      ensures markersData == old(markersData) && currentBoroFilter == old(currentBoroFilter)
      ensures clusterEnabled == old(clusterEnabled) && heatEnabled == old(heatEnabled)
      ensures heatLayer == old(heatLayer) && onMap == old(onMap) && panel == old(panel)
      ensures clusterGroup == MarkersOf(Shown()) && nonClusterGroup == clusterGroup
      ensures heatPoints == HeatPointsOf(Shown())
      ensures counts == Tally(Shown())
    {
      var added;
      added, heatPoints, counts := CollectShown(markersData, currentBoroFilter);
      clusterGroup := clusterGroup + added;
      nonClusterGroup := nonClusterGroup + added;
    }

    /** Puts the group `clusterEnabled` selects on the map and takes the other
        one off. */
    method ShowMarkerGroup()
      requires onMap <= Groups
      modifies this
      ensures onMap == {GroupFor(clusterEnabled)}
      ensures markersData == old(markersData) && currentBoroFilter == old(currentBoroFilter)
      ensures clusterEnabled == old(clusterEnabled) && heatEnabled == old(heatEnabled)
      ensures clusterGroup == old(clusterGroup) && nonClusterGroup == old(nonClusterGroup)
      ensures heatLayer == old(heatLayer) && panel == old(panel)
    {
      if clusterEnabled {
        if ClusterGroup !in onMap {
          onMap := onMap + {ClusterGroup};
        }
        if PlainGroup in onMap {
          onMap := onMap - {PlainGroup};
        }
      } else {
        if PlainGroup !in onMap {
          onMap := onMap + {PlainGroup};
        }
        if ClusterGroup in onMap {
          onMap := onMap - {ClusterGroup};
        }
      }
      assert forall l :: l in Groups ==> l == ClusterGroup || l == PlainGroup;
    }

    /** The data handler: appends the records of the rows and renders. */
    method OnRowsLoaded(rows: seq<Row>, parseFloat: string -> Number)
      requires Valid()
      modifies this
      ensures markersData == old(markersData) + Loaded(rows, parseFloat, |old(markersData)|)
      ensures currentBoroFilter == old(currentBoroFilter)
      ensures clusterEnabled == old(clusterEnabled) && heatEnabled == old(heatEnabled)
      ensures panel == Some(Tally(Shown()))
      ensures onMap == {GroupFor(clusterEnabled)} + HeatShown()
      ensures Valid()
    {
      AppendRows(rows, parseFloat);
      ApplyFilter();
    }

    /** The loop of the data handler: appends a record for each of the first
        `MaxPoints` accepted rows, numbering the markers on from the records
        already there. */
    method AppendRows(rows: seq<Row>, parseFloat: string -> Number)
      modifies this
      ensures markersData == old(markersData) + Loaded(rows, parseFloat, |old(markersData)|)
      ensures currentBoroFilter == old(currentBoroFilter)
      ensures clusterEnabled == old(clusterEnabled) && heatEnabled == old(heatEnabled)
      ensures heatLayer == old(heatLayer) && onMap == old(onMap)
      ensures clusterGroup == old(clusterGroup) && nonClusterGroup == old(nonClusterGroup)
      ensures panel == old(panel)
    {
      var records := LoadRows(rows, parseFloat, |markersData|);
      markersData := markersData + records;
    }

    /** The heat-map toggle: flips `heatEnabled` and adds or removes the
        current overlay, if there is one. */
    method ToggleHeat()
      requires Valid()
      modifies this
      ensures heatEnabled == !old(heatEnabled)
      ensures onMap == old(onMap) * Groups + HeatShown()
      ensures markersData == old(markersData) && currentBoroFilter == old(currentBoroFilter)
      ensures clusterEnabled == old(clusterEnabled) && heatLayer == old(heatLayer)
      ensures clusterGroup == old(clusterGroup) && nonClusterGroup == old(nonClusterGroup)
      ensures panel == old(panel)
      ensures Valid()
    {
      heatEnabled := !heatEnabled;
      if heatLayer.Some? {
        if heatEnabled {
          onMap := onMap + {Heat(heatLayer.value)};
        } else {
          onMap := onMap - {Heat(heatLayer.value)};
        }
      }
    }

    /** The clustering toggle: flips `clusterEnabled` and renders, which swaps
        the marker group on the map. */
    method ToggleCluster()
      requires Valid()
      modifies this
      ensures clusterEnabled == !old(clusterEnabled)
      ensures markersData == old(markersData) && currentBoroFilter == old(currentBoroFilter)
      ensures heatEnabled == old(heatEnabled) && heatLayer == old(heatLayer)
      ensures onMap == {GroupFor(clusterEnabled)} + HeatShown()
      ensures panel == Some(Tally(Shown()))
      ensures Valid()
    {
      clusterEnabled := !clusterEnabled;
      ApplyFilter();
    }

    /** A borough button: filters by the button's `data-boro` attribute
        (`None` when the attribute is missing) and renders. */
    method SelectBorough(boro: Option<string>)
      requires Valid()
      modifies this
      ensures currentBoroFilter == boro
      ensures markersData == old(markersData)
      ensures clusterEnabled == old(clusterEnabled) && heatEnabled == old(heatEnabled)
      ensures onMap == {GroupFor(clusterEnabled)} + HeatShown()
      ensures panel == Some(Tally(Selected(markersData, boro)))
      ensures Valid()
    {
      currentBoroFilter := boro;
      ApplyFilter();
    }

    /** The show-all button: clears the filter and renders every record. */
    method ShowAll()
      requires Valid()
      modifies this
      ensures currentBoroFilter == None
      ensures markersData == old(markersData)
      ensures clusterEnabled == old(clusterEnabled) && heatEnabled == old(heatEnabled)
      ensures clusterGroup == MarkersOf(markersData)
      ensures panel == Some(Tally(markersData))
      ensures Valid()
    {
      currentBoroFilter := None;
      ApplyFilter();
      NoFilterShowsAll(markersData, None);
    }
  }
}
