/**
 * `classify_theme` and `THEME_KEYWORDS` (src/boe_sumario_text_json.py:30-39, 68-74):
 * an ordered table of (theme, keywords) pairs scanned first-match on the lower-cased title.
 */
module Themes {
  import opened Wrappers
  import opened PyStr

  type Table = seq<(string, seq<string>)>

  /** `THEME_KEYWORDS`, in its insertion order. */
  const ThemeKeywords: Table := [
    ("Sanidad", ["covid", "coronavirus", "sars-cov-2", "salud", "sanidad", "mascarilla", "vacuna", "vacunación"]),
    ("Economía/Empresa", ["impuesto", "tribut", "iva", "irpf", "subvención", "ayuda", "financiación", "ico", "contratación"]),
    ("Trabajo/Laboral", ["erte", "desempleo", "prestación", "laboral", "trabajo", "seguridad social", "convenio", "empleo"]),
    ("Educación/Universidad", ["educación", "universidad", "escolar", "alumno", "docente", "beca"]),
    ("Tráfico/Movilidad/Carreteras", ["tráfico", "dgt", "carretera", "autovía", "autopista", "peaje", "movilidad", "transporte", "vehículo"]),
    ("Vivienda/Urbanismo", ["vivienda", "alquiler", "hipoteca", "urbanismo", "rehabilitación", "arrendamiento"]),
    ("Energía/Medio ambiente", ["energía", "eléctrica", "renovable", "clima", "emisiones", "ambiental", "residuos"]),
    ("Justicia/Procedimientos", ["procedimiento", "plazo", "judicial", "tribunal", "juzgado", "sanción"])
  ]

  /** The label returned when no theme matches. */
  const Default: string := "Otras"

  /** Some keyword of `kws` occurs in `t` (the inner `for kw in kws: if kw in t`). */
  predicate AnyKeyword(kws: seq<string>, t: string) {
    exists k :: 0 <= k < |kws| && Contains(t, kws[k])
  }

  /** The index of the first table entry with a keyword occurring in `t`. */
  function FirstMatch(table: Table, t: string): (r: Option<nat>)
    ensures r.Some? ==> r.value < |table| && AnyKeyword(table[r.value].1, t)
    ensures r.Some? ==> forall j :: 0 <= j < r.value ==> !AnyKeyword(table[j].1, t)
    ensures r.None? <==> forall j :: 0 <= j < |table| ==> !AnyKeyword(table[j].1, t)
  {
    if table == [] then None
    else if AnyKeyword(table[0].1, t) then Some(0)
    else match FirstMatch(table[1..], t)
      case None => None
      case Some(i) => Some(i + 1)
  }

  /** `classify_theme` against an explicit table. */
  function ClassifyWith(table: Table, text: string): string {
    match FirstMatch(table, Lower(text))
    case None => Default
    case Some(i) => table[i].0
  }

  /** `classify_theme(text)`; `None` and `""` are both read as the empty title. */
  function ClassifyTheme(text: Option<string>): string {
    ClassifyWith(ThemeKeywords, text.GetOr(""))
  }

  /** The themes of the table, in order. */
  function Themes(table: Table): (names: seq<string>)
    ensures |names| == |table| && forall i :: 0 <= i < |table| ==> names[i] == table[i].0
  {
    seq(|table|, i requires 0 <= i < |table| => table[i].0)
  }

  /** The result is the earliest theme having a keyword in the lower-cased title,
      and `Default` exactly when no theme has one. */
  lemma ClassifyWithFirst(table: Table, text: string)
    requires Default !in Themes(table)
    ensures var r := ClassifyWith(table, text); var t := Lower(text);
      && (r == Default <==> forall j :: 0 <= j < |table| ==> !AnyKeyword(table[j].1, t))
      && (r != Default ==> exists i :: 0 <= i < |table| && r == table[i].0 && AnyKeyword(table[i].1, t)
                                     && forall j :: 0 <= j < i ==> !AnyKeyword(table[j].1, t))
  {
    var m := FirstMatch(table, Lower(text));
    if m.Some? {
      assert Themes(table)[m.value] == table[m.value].0;
    }
  }

  /** Tie-break by table order: if theme `i` matches, no later theme is returned. */
  lemma EarlierThemeWins(table: Table, text: string, i: nat)
    requires i < |table| && AnyKeyword(table[i].1, Lower(text))
    requires forall a, b :: 0 <= a < b < |table| ==> table[a].0 != table[b].0
    ensures forall j :: i < j < |table| ==> ClassifyWith(table, text) != table[j].0
    ensures ClassifyWith(table, text) in Themes(table)[..i + 1]
  {
    var m := FirstMatch(table, Lower(text));
    assert m.Some? && m.value <= i;
    assert Themes(table)[..i + 1][m.value] == table[m.value].0;
  }

  /** The table's themes are distinct and none of them is the default label. */
  lemma ThemeKeywordsWellFormed()
    ensures Themes(ThemeKeywords) == ["Sanidad", "Economía/Empresa", "Trabajo/Laboral", "Educación/Universidad",
      "Tráfico/Movilidad/Carreteras", "Vivienda/Urbanismo", "Energía/Medio ambiente", "Justicia/Procedimientos"]
    ensures Default !in Themes(ThemeKeywords)
    ensures forall a, b :: 0 <= a < b < |ThemeKeywords| ==> ThemeKeywords[a].0 != ThemeKeywords[b].0
  {
    var names := Themes(ThemeKeywords);
    assert names == ["Sanidad", "Economía/Empresa", "Trabajo/Laboral", "Educación/Universidad",
      "Tráfico/Movilidad/Carreteras", "Vivienda/Urbanismo", "Energía/Medio ambiente", "Justicia/Procedimientos"];
  }

  /** `classify_theme` always returns a table theme or `"Otras"`, `"Otras"` exactly when no keyword
      occurs in the lower-cased title, and otherwise the first theme in table order that has one. */
  lemma ClassifyThemeSpec(text: Option<string>)
    ensures var r := ClassifyTheme(text); var t := Lower(text.GetOr(""));
      && (r in Themes(ThemeKeywords) || r == Default)
      && (r == Default <==> forall j :: 0 <= j < |ThemeKeywords| ==> !AnyKeyword(ThemeKeywords[j].1, t))
      && (r != Default ==> exists i :: 0 <= i < |ThemeKeywords| && r == ThemeKeywords[i].0 && AnyKeyword(ThemeKeywords[i].1, t)
                                     && forall j :: 0 <= j < i ==> !AnyKeyword(ThemeKeywords[j].1, t))
  {
    ThemeKeywordsWellFormed();
    ClassifyWithFirst(ThemeKeywords, text.GetOr(""));
    var m := FirstMatch(ThemeKeywords, Lower(text.GetOr("")));
    if m.Some? {
      assert Themes(ThemeKeywords)[m.value] == ThemeKeywords[m.value].0;
    }
  }

  /** No title and the empty title are both classified `"Otras"`. */
  lemma EmptyTitleIsOtras()
    ensures ClassifyTheme(None) == "Otras" && ClassifyTheme(Some("")) == "Otras"
  {
    forall j, k | 0 <= j < |ThemeKeywords| && 0 <= k < |ThemeKeywords[j].1|
      ensures ThemeKeywords[j].1[k] != []
    {
    }
    EmptyTextIsDefault(ThemeKeywords);
  }

  /** With no empty keyword, the empty text matches no theme. */
  lemma EmptyTextIsDefault(table: Table)
    requires forall j, k :: 0 <= j < |table| && 0 <= k < |table[j].1| ==> table[j].1[k] != []
    ensures ClassifyWith(table, "") == Default
  {
    assert Lower("") == "";
    forall j | 0 <= j < |table| ensures !AnyKeyword(table[j].1, "") {
      forall k | 0 <= k < |table[j].1| ensures !Contains("", table[j].1[k]) {
        assert table[j].1[k] != [];
      }
    }
  }

  /** A title mentioning both a health keyword and an economy keyword is health: order wins. */
  lemma CovidAidIsHealth()
    ensures AnyKeyword(ThemeKeywords[1].1, Lower("Ayudas COVID"))
    ensures ClassifyTheme(Some("Ayudas COVID")) == "Sanidad"
  {
    var t := Lower("Ayudas COVID");
    assert t == "ayudas covid";
    assert t[0..5] == "ayuda";
    ContainsWitness(t, "ayuda", 0);
    assert ThemeKeywords[1].1[5] == "ayuda";
    assert t[7..12] == "covid";
    ContainsWitness(t, "covid", 7);
    assert ThemeKeywords[0].1[0] == "covid";
    FirstThemeWins(ThemeKeywords, "Ayudas COVID");
  }

  /** A text with a keyword of the first theme gets that theme. */
  lemma FirstThemeWins(table: Table, text: string)
    requires table != [] && AnyKeyword(table[0].1, Lower(text))
    ensures ClassifyWith(table, text) == table[0].0
  {
  }

  lemma ContainsWitness(t: string, kw: string, i: nat)
    requires i + |kw| <= |t| && t[i..i + |kw|] == kw
    ensures Contains(t, kw)
  {
    ContainsAt(t, kw);
    assert OccursAt(t, kw, i);
  }
}
