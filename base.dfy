/**
 * `build_base` (src/boe_sumario_text_json.py:296-325): for every day of the year, fetch that
 * day's catalog, parse it, keep the items with a title, stamp them with the day and a theme;
 * then add the month and quarter columns. The network and the XML parser are parameters.
 */
module Base {
  import opened Wrappers
  import opened PyStr
  import opened Seqs
  import opened Calendar
  import opened Themes
  import opened Fetcher
  import opened ETree
  import opened Sumario
  import opened Dom

  /** What the pipeline cannot compute itself: the scripted outcomes of the requests to each URL,
      and the three parsers (`None` when the parser raises). */
  datatype Env = Env(
    net: string -> seq<Outcome>,
    parseCatalog: string -> Option<Element>,
    parseXml: string -> Option<Node>,
    parseHtml: string -> Option<Node>)

  /** One row of the data frame: the catalog row and the columns added to it. `None` is a
      column the frame does not have yet (or `NaN`). */
  datatype Record = Record(row: Row, tematica: string, mes: Option<string>, trimestre: Option<string>,
                           textoLimpio: Option<string>)

  /** `SUMARIO_ENDPOINT.format(fecha=d.strftime("%Y%m%d"))` */
  function DayUrl(d: Date): string
    requires Valid(d)
  {
    "https://www.boe.es/datosabiertos/api/boe/sumario/" + FormatCompact(d)
  }

  /** What `robust_get_sumario_xml` returns for day `d`. */
  function DayCatalog(env: Env, d: Date): Option<string>
    requires Valid(d)
  {
    Retry(env.net(DayUrl(d)), NonBlankText, DefaultTries).result
  }

  /** `it["fecha"] = fecha` */
  function WithFecha(r: Row, fecha: string): Row {
    Row(Some(fecha), r.diarioNumero, r.seccionCodigo, r.seccionNombre, r.departamentoCodigo, r.departamentoNombre,
        r.epigrafeNombre, r.identificador, r.titulo, r.urlHtml, r.urlXml, r.urlPdf,
        r.szBytes, r.szKBytes, r.paginaInicial, r.paginaFinal)
  }

  /** The record kept for one catalog row on day `fecha`, if its title is not blank. */
  function Stamp(r: Row, fecha: string): seq<Record> {
    var titulo := Strip(r.titulo);
    if titulo == [] then [] else [Record(WithFecha(r, fecha), ClassifyTheme(Some(titulo)), None, None, None)]
  }

  function StampAll(items: seq<Row>, fecha: string): seq<Record> {
    if items == [] then [] else StampAll(items[..|items| - 1], fecha) + Stamp(items[|items| - 1], fecha)
  }

  /** A row whose title is not blank. */
  predicate HasTitle(r: Row) {
    Strip(r.titulo) != []
  }

  /** The rows of `items` whose title is not blank, in order. */
  function Titled(items: seq<Row>): seq<Row> {
    Filter(items, HasTitle)
  }

  /** The record of a row kept on day `fecha`: the row with that date, and the theme of its
      stripped title. */
  function StampRow(r: Row, fecha: string): Record {
    Record(WithFecha(r, fecha), ClassifyTheme(Some(Strip(r.titulo))), None, None, None)
  }

  /** The records day `d` contributes: none when the catalog could not be fetched. */
  function DayRecords(env: Env, d: Date): seq<Record>
    requires Valid(d)
  {
    match DayCatalog(env, d)
    case None => []
    case Some(xml) => if xml == [] then [] else StampAll(SumarioRows(env.parseCatalog(xml)), FormatIso(d))
  }

  function DaysRecords(env: Env, days: seq<Date>): seq<Record>
    requires forall i :: 0 <= i < |days| ==> Valid(days[i])
  {
    if days == [] then [] else DaysRecords(env, days[..|days| - 1]) + DayRecords(env, days[|days| - 1])
  }

  /** The days whose catalog came back, each followed by `time.sleep(sleep_each_day)`. */
  function FetchedDays(env: Env, days: seq<Date>): nat
    requires forall i :: 0 <= i < |days| ==> Valid(days[i])
  {
    if days == [] then 0
    else
      var c := DayCatalog(env, days[|days| - 1]);
      FetchedDays(env, days[..|days| - 1]) + (if c.Some? && c.value != [] then 1 else 0)
  }

  lemma DaysStep(env: Env, days: seq<Date>, i: nat)
    requires i < |days| && forall k :: 0 <= k < |days| ==> Valid(days[k])
    ensures DaysRecords(env, days[..i + 1]) == DaysRecords(env, days[..i]) + DayRecords(env, days[i])
    ensures var c := DayCatalog(env, days[i]);
      FetchedDays(env, days[..i + 1]) == FetchedDays(env, days[..i]) + (if c.Some? && c.value != [] then 1 else 0)
  {
    assert days[..i + 1][..i] == days[..i];
  }

  /** The `mes` and `trimestre` columns, from `pd.to_datetime(df["fecha"], errors="coerce")`. */
  function WithPeriod(r: Record): Record {
    match ParseIso(r.row.fecha.GetOr(""))
    case None => Record(r.row, r.tematica, None, None, r.textoLimpio)
    case Some(d) => Record(r.row, r.tematica, Some(MonthLabel(d)), Some(QMap[d.month]), r.textoLimpio)
  }

  function WithPeriods(rs: seq<Record>): (out: seq<Record>)
    ensures |out| == |rs|
    ensures forall i :: 0 <= i < |rs| ==> out[i] == WithPeriod(rs[i])
  {
    seq(|rs|, i requires 0 <= i < |rs| => WithPeriod(rs[i]))
  }

  /** What `build_base(year)` returns. */
  function BaseRecords(env: Env, year: int): seq<Record>
    requires 1 <= year <= 9999
  {
    YearDaysValid(year);
    WithPeriods(DaysRecords(env, YearDays(year)))
  }

  /** The date of a stamped record. */
  function RecordDate(r: Record): Option<Date> {
    ParseIso(r.row.fecha.GetOr(""))
  }

  /** A record of day `d` as `build_base` leaves it before the period columns. */
  predicate StampedOn(r: Record, d: Date)
    requires Valid(d)
  {
    && r.row.fecha == Some(FormatIso(d))
    && Strip(r.row.titulo) != []
    && r.tematica == ClassifyTheme(Some(Strip(r.row.titulo)))
    && r.mes.None? && r.trimestre.None? && r.textoLimpio.None?
  }

  /** A row with a non-blank title becomes one record stamped on `d`; any other row, none. */
  lemma StampSpec(r: Row, d: Date)
    requires Valid(d)
    ensures |Stamp(r, FormatIso(d))| == (if Strip(r.titulo) == [] then 0 else 1)
    ensures forall i :: 0 <= i < |Stamp(r, FormatIso(d))| ==> StampedOn(Stamp(r, FormatIso(d))[i], d)
  {
  }

  /** The records of one day's catalog: one per row with a non-blank title, in the rows' order,
      each that row with the day's date and the theme of its title; so all stamped on `d`. */
  lemma {:induction false} StampAllSpec(items: seq<Row>, d: Date)
    requires Valid(d)
    ensures |StampAll(items, FormatIso(d))| == |Titled(items)| <= |items|
    ensures forall i :: 0 <= i < |Titled(items)| ==> StampAll(items, FormatIso(d))[i] == StampRow(Titled(items)[i], FormatIso(d))
    ensures forall i :: 0 <= i < |StampAll(items, FormatIso(d))| ==> StampedOn(StampAll(items, FormatIso(d))[i], d)
  {
    StampAllContents(items, FormatIso(d));
    FilterSpec(items, HasTitle);
    if items != [] {
      StampAllSpec(items[..|items| - 1], d);
      var front, back := StampAll(items[..|items| - 1], FormatIso(d)), Stamp(items[|items| - 1], FormatIso(d));
      StampSpec(items[|items| - 1], d);
      AllConcat(front, back, r => StampedOn(r, d));
    }
  }

  lemma {:induction false} StampAllContents(items: seq<Row>, fecha: string)
    ensures |StampAll(items, fecha)| == |Titled(items)|
    ensures forall i :: 0 <= i < |Titled(items)| ==> StampAll(items, fecha)[i] == StampRow(Titled(items)[i], fecha)
  {
    if items != [] {
      var init, last := items[..|items| - 1], items[|items| - 1];
      StampAllContents(init, fecha);
      var front, back := StampAll(init, fecha), Stamp(last, fecha);
      var tf: seq<Row>, tb: seq<Row> := Titled(init), if HasTitle(last) then [last] else [];
      assert Titled(items) == tf + tb;
      assert |back| == |tb|;
      forall i | 0 <= i < |tf + tb| ensures (front + back)[i] == StampRow((tf + tb)[i], fecha) {
        if i < |tf| {
          IndexFront(front, back, i);
          IndexFront(tf, tb, i);
        } else {
          IndexBack(front, back, i - |tf|);
          IndexBack(tf, tb, i - |tf|);
        }
      }
    }
  }

  /** Every record of day `d` is one of its catalog rows with a non-blank title, stamped on `d`:
      one for each such row of the parsed catalog, in order; none when the catalog could not be
      fetched. */
  lemma DayRecordsSpec(env: Env, d: Date)
    requires Valid(d)
    ensures forall i :: 0 <= i < |DayRecords(env, d)| ==> StampedOn(DayRecords(env, d)[i], d)
    ensures DayCatalog(env, d).None? || DayCatalog(env, d) == Some([]) ==> DayRecords(env, d) == []
    ensures DayCatalog(env, d).Some? && DayCatalog(env, d).value != [] ==>
      var items := Titled(SumarioRows(env.parseCatalog(DayCatalog(env, d).value)));
      && |DayRecords(env, d)| == |items|
      && forall i :: 0 <= i < |items| ==> DayRecords(env, d)[i] == StampRow(items[i], FormatIso(d))
  {
    var c := DayCatalog(env, d);
    if c.Some? && c.value != [] {
      StampAllSpec(SumarioRows(env.parseCatalog(c.value)), d);
    }
  }

  /** For each record of `DaysRecords(env, days)`, the index in `days` of the day it comes from. */
  function DayIndexes(env: Env, days: seq<Date>): seq<int>
    requires forall i :: 0 <= i < |days| ==> Valid(days[i])
  {
    if days == [] then []
    else DayIndexes(env, days[..|days| - 1]) + seq(|DayRecords(env, days[|days| - 1])|, _ => |days| - 1)
  }

  /** `idx` gives, in order, the day of `days` each of `rs` is stamped on. */
  predicate IndexedBy(rs: seq<Record>, idx: seq<int>, days: seq<Date>)
    requires forall i :: 0 <= i < |days| ==> Valid(days[i])
  {
    && |idx| == |rs|
    && (forall i :: 0 <= i < |idx| ==> 0 <= idx[i] < |days| && StampedOn(rs[i], days[idx[i]]))
    && (forall i, j :: 0 <= i < j < |idx| ==> idx[i] <= idx[j])
  }

  /** Appending the records of the next day to records indexed by earlier days. */
  lemma JoinIndexed<T>(front: seq<T>, fi: seq<int>, back: seq<T>, n: nat, P: (T, int) -> bool)
    requires |fi| == |front|
    requires forall i :: 0 <= i < |fi| ==> 0 <= fi[i] < n && P(front[i], fi[i])
    requires forall i, j :: 0 <= i < j < |fi| ==> fi[i] <= fi[j]
    requires forall i :: 0 <= i < |back| ==> P(back[i], n)
    ensures var idx := fi + seq(|back|, _ => n);
      && |idx| == |front + back|
      && (forall i :: 0 <= i < |idx| ==> 0 <= idx[i] <= n && P((front + back)[i], idx[i]))
      && (forall i, j :: 0 <= i < j < |idx| ==> idx[i] <= idx[j])
  {
    var idx := fi + seq(|back|, _ => n);
    forall i | 0 <= i < |idx| ensures 0 <= idx[i] <= n && P((front + back)[i], idx[i]) {
      if i < |fi| {
        assert (front + back)[i] == front[i] && idx[i] == fi[i];
      } else {
        assert (front + back)[i] == back[i - |front|] && idx[i] == n;
      }
    }
  }

  lemma JoinDay(front: seq<Record>, fi: seq<int>, back: seq<Record>, days: seq<Date>)
    requires days != [] && forall i :: 0 <= i < |days| ==> Valid(days[i])
    requires IndexedBy(front, fi, days[..|days| - 1])
    requires forall i :: 0 <= i < |back| ==> StampedOn(back[i], days[|days| - 1])
    ensures IndexedBy(front + back, fi + seq(|back|, _ => |days| - 1), days)
  {
    var n := |days| - 1;
    var P := (r: Record, k: int) => 0 <= k < |days| && StampedOn(r, days[k]);
    forall i | 0 <= i < |fi| ensures 0 <= fi[i] < n && P(front[i], fi[i]) {
      assert days[..n][fi[i]] == days[fi[i]];
    }
    JoinIndexed(front, fi, back, n, P);
  }

  /** Each record of a run of valid days is stamped on one of them, and the days of the records
      go forward. */
  lemma {:induction false} DaysRecordsSpec(env: Env, days: seq<Date>)
    requires forall i :: 0 <= i < |days| ==> Valid(days[i])
    ensures IndexedBy(DaysRecords(env, days), DayIndexes(env, days), days)
  {
    if days != [] {
      var init := days[..|days| - 1];
      DaysRecordsSpec(env, init);
      DayRecordsSpec(env, days[|days| - 1]);
      JoinDay(DaysRecords(env, init), DayIndexes(env, init), DayRecords(env, days[|days| - 1]), days);
    }
  }

  /** What `build_base(year)` returns: every record is an item with a non-blank title from the
      catalog of a day of `year`, stamped with that day's `YYYY-MM-DD` date, its theme, the
      `YYYY-MM` month and the quarter of that date; the records are in date order; and the
      records of each day are exactly that day's records (one per titled catalog item, in the
      catalog's order; none when the fetch failed). */
  lemma BaseRecordsSpec(env: Env, year: int)
    requires 1 <= year <= 9999
    ensures var rs := BaseRecords(env, year);
      && (forall i :: 0 <= i < |rs| ==> RecordDate(rs[i]).Some? && PeriodOk(rs[i], year))
      && (forall i, j :: 0 <= i < j < |rs| ==> DateLe(RecordDate(rs[i]).value, RecordDate(rs[j]).value))
      && (forall d :: Valid(d) && d.year == year ==> OnDate(rs, FormatIso(d)) == WithPeriods(DayRecords(env, d)))
  {
    BaseRecordsDated(env, year);
    forall d | Valid(d) && d.year == year ensures OnDate(BaseRecords(env, year), FormatIso(d)) == WithPeriods(DayRecords(env, d)) {
      BaseRecordsOnDay(env, year, d);
    }
  }

  lemma BaseRecordsDated(env: Env, year: int)
    requires 1 <= year <= 9999
    ensures var rs := BaseRecords(env, year);
      && (forall i :: 0 <= i < |rs| ==> RecordDate(rs[i]).Some? && PeriodOk(rs[i], year))
      && (forall i, j :: 0 <= i < j < |rs| ==> DateLe(RecordDate(rs[i]).value, RecordDate(rs[j]).value))
  {
    YearDaysSpec(year);
    var days := YearDays(year);
    DaysRecordsSpec(env, days);
    var stamped, idx := DaysRecords(env, days), DayIndexes(env, days);
    var rs := WithPeriods(stamped);
    forall i | 0 <= i < |rs| ensures RecordDate(rs[i]) == Some(days[idx[i]]) && PeriodOk(rs[i], year) {
      PeriodOfStamped(stamped[i], days[idx[i]]);
    }
    forall i, j | 0 <= i < j < |rs| ensures DateLe(RecordDate(rs[i]).value, RecordDate(rs[j]).value) {
      if idx[i] < idx[j] {
        assert DateLt(days[idx[i]], days[idx[j]]);
      }
    }
  }

  /** The records of `rs` dated `fecha`, in order. */
  function OnDate(rs: seq<Record>, fecha: string): seq<Record> {
    Filter(rs, (r: Record) => r.row.fecha == Some(fecha))
  }

  lemma OnDateConcat(a: seq<Record>, b: seq<Record>, fecha: string)
    ensures OnDate(a + b, fecha) == OnDate(a, fecha) + OnDate(b, fecha)
  {
    FilterConcat(a, b, (r: Record) => r.row.fecha == Some(fecha));
  }

  /** The period columns leave the date alone, so filtering by date and adding them commute. */
  lemma {:induction false} OnDateWithPeriods(rs: seq<Record>, fecha: string)
    ensures OnDate(WithPeriods(rs), fecha) == WithPeriods(OnDate(rs, fecha))
  {
    if rs != [] {
      var init, last := rs[..|rs| - 1], rs[|rs| - 1];
      var P := (r: Record) => r.row.fecha == Some(fecha);
      OnDateWithPeriods(init, fecha);
      assert WithPeriods(rs)[..|rs| - 1] == WithPeriods(init);
      assert WithPeriods(rs)[|rs| - 1] == WithPeriod(last);
      assert WithPeriod(last).row == last.row;
      var t := if P(last) then [last] else [];
      assert OnDate(rs, fecha) == OnDate(init, fecha) + t;
      assert WithPeriods(OnDate(init, fecha) + t) == WithPeriods(OnDate(init, fecha)) + WithPeriods(t);
    }
  }

  /** The records of a run of distinct days dated like day `d`: those of `d` when it is one of
      them, none otherwise. */
  lemma {:induction false} DaysOnDate(env: Env, days: seq<Date>, d: Date)
    requires Valid(d) && forall i :: 0 <= i < |days| ==> Valid(days[i])
    requires forall i, j :: 0 <= i < j < |days| ==> days[i] != days[j]
    ensures OnDate(DaysRecords(env, days), FormatIso(d)) == if d in days then DayRecords(env, d) else []
  {
    if days != [] {
      var init, last := days[..|days| - 1], days[|days| - 1];
      DaysOnDate(env, init, d);
      OnDateConcat(DaysRecords(env, init), DayRecords(env, last), FormatIso(d));
      DayRecordsDated(env, last);
      assert d in days <==> d in init || d == last;
      if last == d {
        assert d !in init;
        OnDateAll(DayRecords(env, last), FormatIso(d));
      } else {
        IsoRoundTrip(d);
        IsoRoundTrip(last);
        OnDateNone(DayRecords(env, last), FormatIso(d));
      }
    }
  }

  lemma DayRecordsDated(env: Env, d: Date)
    requires Valid(d)
    ensures forall i :: 0 <= i < |DayRecords(env, d)| ==> DayRecords(env, d)[i].row.fecha == Some(FormatIso(d))
  {
    DayRecordsSpec(env, d);
  }

  lemma OnDateAll(rs: seq<Record>, fecha: string)
    requires forall i :: 0 <= i < |rs| ==> rs[i].row.fecha == Some(fecha)
    ensures OnDate(rs, fecha) == rs
  {
    FilterSpec(rs, (r: Record) => r.row.fecha == Some(fecha));
  }

  lemma OnDateNone(rs: seq<Record>, fecha: string)
    requires forall i :: 0 <= i < |rs| ==> rs[i].row.fecha != Some(fecha)
    ensures OnDate(rs, fecha) == []
  {
    FilterSpec(rs, (r: Record) => r.row.fecha == Some(fecha));
  }

  /** The records `build_base(year)` gives day `d` of the year: exactly that day's records, in
      order, with their period columns. */
  lemma BaseRecordsOnDay(env: Env, year: int, d: Date)
    requires 1 <= year <= 9999 && Valid(d) && d.year == year
    ensures OnDate(BaseRecords(env, year), FormatIso(d)) == WithPeriods(DayRecords(env, d))
  {
    YearDaysSpec(year);
    var days := YearDays(year);
    forall i, j | 0 <= i < j < |days| ensures days[i] != days[j] {
      assert DateLt(days[i], days[j]);
    }
    DaysOnDate(env, days, d);
    OnDateWithPeriods(DaysRecords(env, days), FormatIso(d));
  }

  /** A record of `year` with its period columns: the fields `build_base` promises. */
  predicate PeriodOk(r: Record, year: int)
    requires RecordDate(r).Some?
  {
    var d := RecordDate(r).value;
    && Valid(d) && d.year == year
    && r.row.fecha == Some(FormatIso(d))
    && Strip(r.row.titulo) != []
    && r.tematica == ClassifyTheme(Some(Strip(r.row.titulo)))
    && r.mes == Some(r.row.fecha.value[..7])
    && d.month in QMap && r.trimestre == Some(QMap[d.month])
    && r.textoLimpio.None?
  }

  lemma PeriodOfStamped(r: Record, d: Date)
    requires Valid(d) && StampedOn(r, d)
    ensures RecordDate(WithPeriod(r)) == Some(d)
    ensures PeriodOk(WithPeriod(r), d.year)
  {
    IsoRoundTrip(d);
    MonthLabelIsPrefix(d);
    QMapQuarter(d.month);
  }

  /** `for it in items: titulo = ...; if not titulo: continue; ...; rows.append(it)` */
  method AppendStamped(rows: seq<Record>, items: seq<Row>, fecha: string) returns (res: seq<Record>)
    ensures res == rows + StampAll(items, fecha)
  {
    res := rows;
    for j := 0 to |items|
      invariant res == rows + StampAll(items[..j], fecha)
    {
      var titulo := Strip(items[j].titulo);
      var add := if titulo == [] then [] else [Record(WithFecha(items[j], fecha), ClassifyTheme(Some(titulo)), None, None, None)];
      assert items[..j + 1][..j] == items[..j];
      assert StampAll(items[..j + 1], fecha) == StampAll(items[..j], fecha) + add;
      AppendAssoc(rows, StampAll(items[..j], fecha), add);
      res := res + add;
    }
    assert items[..|items|] == items;
  }

  /** The fetch at the top of the day loop: the day's URL and `robust_get_sumario_xml`. */
  method FetchCatalog(env: Env, d: Date) returns (xmlText: Option<string>)
    requires Valid(d)
    ensures xmlText == DayCatalog(env, d)
  {
    var url := "https://www.boe.es/datosabiertos/api/boe/sumario/" + FormatCompact(d);
    var run;
    xmlText, run := RobustGetSumarioXml(env.net(url));
  }

  /** The rest of the day loop once the catalog is in hand: parse it and append its rows. */
  method AppendDay(env: Env, rows: seq<Record>, d: Date, xmlText: string) returns (res: seq<Record>)
    requires Valid(d) && DayCatalog(env, d) == Some(xmlText) && xmlText != []
    ensures res == rows + DayRecords(env, d)
  {
    var fechaHum := FormatIso(d);
    var items := ParseSumarioXml(env.parseCatalog(xmlText));
    res := AppendStamped(rows, items, fechaHum);
  }

  /** How many times `build_base(year)` sleeps: once per day whose catalog came back. */
  function BasePauses(env: Env, year: int): nat
    requires 1 <= year <= 9999
  {
    YearDaysValid(year);
    FetchedDays(env, YearDays(year))
  }

  /** `build_base`; `pauses` counts the `time.sleep(sleep_each_day)` calls, which the `continue`
      skips on a day whose catalog could not be fetched. */
  method BuildBase(env: Env, year: int) returns (records: seq<Record>, pauses: nat)
    requires 1 <= year <= 9999
    ensures records == BaseRecords(env, year)
    ensures pauses == BasePauses(env, year)
  {
    YearDaysValid(year);
    var days := IterateDays(year);
    var rows: seq<Record> := [];
    pauses := 0;
    for i := 0 to |days|
      invariant rows == DaysRecords(env, days[..i])
      invariant pauses == FetchedDays(env, days[..i])
    {
      var d := days[i];
      DaysStep(env, days, i);
      var xmlText := FetchCatalog(env, d);
      if xmlText.None? || xmlText.value == [] {
        EmptyAppend(rows);
        continue;
      }
      rows := AppendDay(env, rows, d, xmlText.value);
      pauses := pauses + 1;
    }
    assert days[..|days|] == days;
    records := WithPeriods(rows);
  }
}
