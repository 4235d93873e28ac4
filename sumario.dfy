/**
 * `parse_sumario_xml`, `_get_text`, `_get_attr` and `_item_to_row`
 * (src/boe_sumario_text_json.py:103-161): the daily catalog (sumario) becomes one row per
 * `item`, carrying the numbers and names of the diario, seccion, departamento and epigrafe it
 * hangs from. `ET.fromstring` is a parameter: the document, or `None` for a `ParseError`.
 */
module Sumario {
  import opened Wrappers
  import opened PyStr
  import opened ETree
  import opened Seqs

  /** The branch an item hangs from. */
  datatype Branch = Branch(
    diarioNumero: string,
    seccionCodigo: string, seccionNombre: string,
    departamentoCodigo: string, departamentoNombre: string,
    epigrafeNombre: string)

  /** One catalog row, the dictionary `_item_to_row` builds. */
  datatype Row = Row(
    fecha: Option<string>,
    diarioNumero: string,
    seccionCodigo: string, seccionNombre: string,
    departamentoCodigo: string, departamentoNombre: string,
    epigrafeNombre: string,
    identificador: string, titulo: string,
    urlHtml: string, urlXml: string, urlPdf: string,
    szBytes: string, szKBytes: string, paginaInicial: string, paginaFinal: string)

  function BranchOf(r: Row): Branch {
    Branch(r.diarioNumero, r.seccionCodigo, r.seccionNombre, r.departamentoCodigo, r.departamentoNombre, r.epigrafeNombre)
  }

  /** What every parsed row looks like: no date yet, and every text field stripped. */
  predicate WellFormed(r: Row) {
    && r.fecha.None?
    && Trimmed(r.identificador) && Trimmed(r.titulo)
    && Trimmed(r.urlHtml) && Trimmed(r.urlXml) && Trimmed(r.urlPdf)
  }

  /** `_get_text(node, "./" + tag)` */
  function GetText(node: Element, tag: string): string {
    match FindChild(node, tag)
    case None => ""
    case Some(el) => if el.text.Some? && el.text.value != [] then Strip(el.text.value) else ""
  }

  /** `_get_attr(node, "./" + tag, attr)` */
  function GetAttr(node: Element, tag: string, attr: string): string {
    match FindChild(node, tag)
    case None => ""
    case Some(el) => Get(el, attr, "")
  }

  /** `_get_text` gives the stripped text of the first child with the tag, and `""` when there is
      no such child or it has no text. */
  lemma GetTextSpec(node: Element, tag: string)
    ensures Trimmed(GetText(node, tag))
    ensures FindChild(node, tag).None? ==> GetText(node, tag) == ""
    ensures FindChild(node, tag).Some? && FindChild(node, tag).value.text.Some? ==>
      GetText(node, tag) == Strip(FindChild(node, tag).value.text.value)
    ensures FindChild(node, tag).Some? && FindChild(node, tag).value.text.None? ==> GetText(node, tag) == ""
  {
    if FindChild(node, tag).Some? && FindChild(node, tag).value.text.Some? {
      StripEmpty(FindChild(node, tag).value.text.value);
    }
  }

  /** `_get_attr` gives the attribute of the first child with the tag, and `""` when no child has
      the tag or that child lacks the attribute. */
  lemma GetAttrSpec(node: Element, tag: string, attr: string)
    ensures (forall c :: c in node.children ==> c.tag != tag) ==> GetAttr(node, tag, attr) == ""
    ensures forall k :: FirstWithTag(node.children, tag, k) && attr in node.children[k].attrib ==>
      GetAttr(node, tag, attr) == node.children[k].attrib[attr]
    ensures forall k :: FirstWithTag(node.children, tag, k) && attr !in node.children[k].attrib ==>
      GetAttr(node, tag, attr) == ""
  {
    FindChildSpec(node, tag);
    forall k | FirstWithTag(node.children, tag, k)
      ensures FindChild(node, tag) == Some(node.children[k])
    {
      var j :| FirstWithTag(node.children, tag, j) && node.children[j] == FindChild(node, tag).value;
      FirstWithTagUnique(node.children, tag, j, k);
    }
  }

  /** `_item_to_row` */
  function ItemToRow(item: Element, b: Branch): Row {
    Row(None, b.diarioNumero, b.seccionCodigo, b.seccionNombre, b.departamentoCodigo, b.departamentoNombre,
        b.epigrafeNombre,
        GetText(item, "identificador"), GetText(item, "titulo"),
        GetText(item, "url_html"), GetText(item, "url_xml"), GetText(item, "url_pdf"),
        GetAttr(item, "url_pdf", "szBytes"), GetAttr(item, "url_pdf", "szKBytes"),
        GetAttr(item, "url_pdf", "pagina_inicial"), GetAttr(item, "url_pdf", "pagina_final"))
  }

  /** `_item_to_row` gives a row with no date on branch `b`, whose texts and attributes are those
      of the item's `identificador`, `titulo`, `url_*` children (stripped) and of its `url_pdf` child. */
  lemma ItemToRowSpec(item: Element, b: Branch)
    ensures var r := ItemToRow(item, b);
      && WellFormed(r) && BranchOf(r) == b
      && r.identificador == GetText(item, "identificador") && r.titulo == GetText(item, "titulo")
      && r.urlHtml == GetText(item, "url_html") && r.urlXml == GetText(item, "url_xml")
      && r.urlPdf == GetText(item, "url_pdf")
      && r.szBytes == GetAttr(item, "url_pdf", "szBytes") && r.szKBytes == GetAttr(item, "url_pdf", "szKBytes")
      && r.paginaInicial == GetAttr(item, "url_pdf", "pagina_inicial")
      && r.paginaFinal == GetAttr(item, "url_pdf", "pagina_final")
  {
    GetTextSpec(item, "identificador");
    GetTextSpec(item, "titulo");
    GetTextSpec(item, "url_html");
    GetTextSpec(item, "url_xml");
    GetTextSpec(item, "url_pdf");
  }

  /** The rows of `items`, one each, in order, on branch `b`. */
  function ItemRows(items: seq<Element>, b: Branch): seq<Row> {
    if items == [] then []
    else ItemRows(items[..|items| - 1], b) + [ItemToRow(items[|items| - 1], b)]
  }

  lemma ItemRowsStep(items: seq<Element>, b: Branch, i: nat)
    requires i < |items|
    ensures ItemRows(items[..i + 1], b) == ItemRows(items[..i], b) + [ItemToRow(items[i], b)]
  {
    assert items[..i + 1][..i] == items[..i];
  }

  /** The rows under the epigrafes `epis` of one departamento: each epigrafe's items, in order,
      carrying the epigrafe's `nombre`. */
  function EpigrafeRows(epis: seq<Element>, b: Branch): seq<Row> {
    if epis == [] then [] else EpigrafeRows(epis[..|epis| - 1], b) + EpigrafeBlock(epis[|epis| - 1], b)
  }

  /** The items of one epigrafe, carrying its `nombre`. */
  function EpigrafeBlock(epi: Element, b: Branch): seq<Row> {
    ItemRows(FindAllChildren(epi, "item"), WithEpigrafe(b, Get(epi, "nombre", "")))
  }

  lemma EpigrafeRowsStep(epis: seq<Element>, b: Branch, i: nat)
    requires i < |epis|
    ensures EpigrafeRows(epis[..i + 1], b) == EpigrafeRows(epis[..i], b) + EpigrafeBlock(epis[i], b)
  {
    assert epis[..i + 1][..i] == epis[..i];
  }

  /** The number of items under the epigrafes `epis`. */
  function ItemCount(epis: seq<Element>): nat {
    if epis == [] then 0 else ItemCount(epis[..|epis| - 1]) + |FindAllChildren(epis[|epis| - 1], "item")|
  }

  /** The branch of a departamento inside branch `b`, with no epigrafe. */
  function DeptBranch(dept: Element, b: Branch): Branch {
    Branch(b.diarioNumero, b.seccionCodigo, b.seccionNombre, Get(dept, "codigo", ""), Get(dept, "nombre", ""), "")
  }

  /** Branch `b` under the epigrafe named `nombre`. */
  function WithEpigrafe(b: Branch, nombre: string): Branch {
    Branch(b.diarioNumero, b.seccionCodigo, b.seccionNombre, b.departamentoCodigo, b.departamentoNombre, nombre)
  }

  /** One departamento: the items of its epigrafes first, then its own direct items. */
  function DeptRows(dept: Element, b: Branch): seq<Row> {
    var db := DeptBranch(dept, b);
    EpigrafeRows(FindAllChildren(dept, "epigrafe"), db) + ItemRows(FindAllChildren(dept, "item"), db)
  }

  function DeptsRows(depts: seq<Element>, b: Branch): seq<Row> {
    if depts == [] then [] else DeptsRows(depts[..|depts| - 1], b) + DeptRows(depts[|depts| - 1], b)
  }

  lemma DeptsRowsStep(depts: seq<Element>, b: Branch, i: nat)
    requires i < |depts|
    ensures DeptsRows(depts[..i + 1], b) == DeptsRows(depts[..i], b) + DeptRows(depts[i], b)
  {
    assert depts[..i + 1][..i] == depts[..i];
  }

  /** The branch of a seccion of the diario numbered `numero`. */
  function SeccionBranch(sec: Element, numero: string): Branch {
    Branch(numero, Get(sec, "codigo", ""), Get(sec, "nombre", ""), "", "", "")
  }

  function SeccionesRows(secs: seq<Element>, numero: string): seq<Row> {
    if secs == [] then [] else SeccionesRows(secs[..|secs| - 1], numero) + SeccionBlock(secs[|secs| - 1], numero)
  }

  /** The rows of one seccion: those of its departamentos, in order. */
  function SeccionBlock(sec: Element, numero: string): seq<Row> {
    DeptsRows(FindAllChildren(sec, "departamento"), SeccionBranch(sec, numero))
  }

  lemma SeccionesRowsStep(secs: seq<Element>, numero: string, i: nat)
    requires i < |secs|
    ensures SeccionesRows(secs[..i + 1], numero) == SeccionesRows(secs[..i], numero) + SeccionBlock(secs[i], numero)
  {
    assert secs[..i + 1][..i] == secs[..i];
  }

  function DiariosRows(diarios: seq<Element>): seq<Row> {
    if diarios == [] then [] else DiariosRows(diarios[..|diarios| - 1]) + DiarioBlock(diarios[|diarios| - 1])
  }

  /** The rows of one diario: those of its secciones, in order, carrying its `numero`. */
  function DiarioBlock(diario: Element): seq<Row> {
    SeccionesRows(FindAllChildren(diario, "seccion"), Get(diario, "numero", ""))
  }

  lemma DiariosRowsStep(diarios: seq<Element>, i: nat)
    requires i < |diarios|
    ensures DiariosRows(diarios[..i + 1]) == DiariosRows(diarios[..i]) + DiarioBlock(diarios[i])
  {
    assert diarios[..i + 1][..i] == diarios[..i];
  }

  /** What `parse_sumario_xml` returns for a parsed document (or a parse error): nothing without a
      `data` descendant or a `sumario` below it, otherwise the rows of every `diario` below the
      `sumario`, in document order. */
  function SumarioRows(doc: Option<Element>): (rows: seq<Row>)
    ensures doc.None? ==> rows == []
    ensures doc.Some? && FindDescendant(doc.value, "data").None? ==> rows == []
    ensures (doc.Some? && FindDescendant(doc.value, "data").Some? &&
             FindDescendant(FindDescendant(doc.value, "data").value, "sumario").None?) ==> rows == []
  {
    match doc
    case None => []
    case Some(root) =>
      match FindDescendant(root, "data")
      case None => []
      case Some(data) =>
        match FindDescendant(data, "sumario")
        case None => []
        case Some(sumario) => DiariosRows(FindAllDescendants(sumario, "diario"))
  }

  predicate AllWellFormed(rows: seq<Row>) {
    forall i :: 0 <= i < |rows| ==> WellFormed(rows[i])
  }

  lemma AllWellFormedConcat(a: seq<Row>, b: seq<Row>)
    requires AllWellFormed(a) && AllWellFormed(b)
    ensures AllWellFormed(a + b)
  {
    forall i | 0 <= i < |a + b| ensures WellFormed((a + b)[i]) {
      if i >= |a| { assert (a + b)[i] == b[i - |a|]; }
    }
  }

  /** One row per item, in the items' order, each on branch `b`. */
  lemma {:induction false} ItemRowsSpec(items: seq<Element>, b: Branch)
    ensures |ItemRows(items, b)| == |items|
    ensures forall i :: 0 <= i < |items| ==> ItemRows(items, b)[i] == ItemToRow(items[i], b)
    decreases |items|
  {
    if items != [] {
      ItemRowsSpec(items[..|items| - 1], b);
    }
  }

  lemma ItemRowsShape(items: seq<Element>, b: Branch)
    ensures AllWellFormed(ItemRows(items, b))
    ensures forall i :: 0 <= i < |ItemRows(items, b)| ==> BranchOf(ItemRows(items, b)[i]) == b
  {
    ItemRowsSpec(items, b);
    forall i | 0 <= i < |items| ensures WellFormed(ItemRows(items, b)[i]) && BranchOf(ItemRows(items, b)[i]) == b {
      ItemToRowSpec(items[i], b);
    }
  }

  /** The rows under a departamento's epigrafes: one per item of those epigrafes; they keep the
      departamento's branch; each row's epigrafe is the `nombre` of one of those epigrafes. */
  lemma {:induction false} EpigrafeRowsSpec(epis: seq<Element>, b: Branch)
    ensures |EpigrafeRows(epis, b)| == ItemCount(epis)
    ensures AllWellFormed(EpigrafeRows(epis, b))
    ensures forall i :: 0 <= i < |EpigrafeRows(epis, b)| ==>
      WithEpigrafe(BranchOf(EpigrafeRows(epis, b)[i]), b.epigrafeNombre) == b
    ensures forall i :: 0 <= i < |EpigrafeRows(epis, b)| ==>
      exists e :: e in epis && EpigrafeRows(epis, b)[i].epigrafeNombre == Get(e, "nombre", "")
    decreases |epis|
  {
    if epis != [] {
      var init, epi := epis[..|epis| - 1], epis[|epis| - 1];
      var eb := WithEpigrafe(b, Get(epi, "nombre", ""));
      EpigrafeRowsSpec(init, b);
      EpigrafeRowsCount(epis, b);
      ItemRowsShape(FindAllChildren(epi, "item"), eb);
      var front, back := EpigrafeRows(init, b), ItemRows(FindAllChildren(epi, "item"), eb);
      AllWellFormedConcat(front, back);
      forall i | 0 <= i < |front + back|
        ensures WithEpigrafe(BranchOf((front + back)[i]), b.epigrafeNombre) == b
        ensures exists e :: e in epis && (front + back)[i].epigrafeNombre == Get(e, "nombre", "")
      {
        if i < |front| {
          var e :| e in init && front[i].epigrafeNombre == Get(e, "nombre", "");
          assert e in epis;
        } else {
          assert (front + back)[i] == back[i - |front|];
          assert epi in epis;
        }
      }
    }
  }

  /** Epigrafe by epigrafe, in order: item `k` of epigrafe `i` gives the row right after the
      items of the epigrafes before `i` and the items before `k`, on the branch carrying that
      epigrafe's `nombre`. */
  lemma {:induction false} EpigrafeRowsAt(epis: seq<Element>, b: Branch, i: nat, k: nat)
    requires i < |epis| && k < |FindAllChildren(epis[i], "item")|
    ensures ItemCount(epis[..i]) + k < |EpigrafeRows(epis, b)|
    ensures EpigrafeRows(epis, b)[ItemCount(epis[..i]) + k] ==
      ItemToRow(FindAllChildren(epis[i], "item")[k], WithEpigrafe(b, Get(epis[i], "nombre", "")))
    decreases |epis|
  {
    var init, epi := epis[..|epis| - 1], epis[|epis| - 1];
    var front, block := EpigrafeRows(init, b), EpigrafeBlock(epi, b);
    EpigrafeRowsCount(init, b);
    if i == |epis| - 1 {
      assert init == epis[..i];
      ItemRowsSpec(FindAllChildren(epi, "item"), WithEpigrafe(b, Get(epi, "nombre", "")));
      IndexBack(front, block, k);
    } else {
      assert init[..i] == epis[..i] && init[i] == epis[i];
      EpigrafeRowsAt(init, b, i, k);
      IndexFront(front, block, ItemCount(epis[..i]) + k);
    }
  }

  lemma {:induction false} EpigrafeRowsCount(epis: seq<Element>, b: Branch)
    ensures |EpigrafeRows(epis, b)| == ItemCount(epis)
    decreases |epis|
  {
    if epis != [] {
      EpigrafeRowsCount(epis[..|epis| - 1], b);
      ItemRowsSpec(FindAllChildren(epis[|epis| - 1], "item"), WithEpigrafe(b, Get(epis[|epis| - 1], "nombre", "")));
    }
  }

  /** A departamento's rows: first those of its epigrafes, each carrying the `nombre` of one of
      them, then one per direct item, with an empty epigrafe; all on the departamento's `codigo` and
      `nombre` inside branch `b`. */
  lemma DeptRowsSpec(dept: Element, b: Branch)
    ensures var rows := DeptRows(dept, b);
      var epis, items := FindAllChildren(dept, "epigrafe"), FindAllChildren(dept, "item");
      var n := |EpigrafeRows(epis, DeptBranch(dept, b))|;
      && n == ItemCount(epis)
      && AllWellFormed(rows)
      && |rows| == n + |items|
      && (forall i :: 0 <= i < n ==> rows[i] == EpigrafeRows(epis, DeptBranch(dept, b))[i])
      && (forall k :: 0 <= k < |items| ==> rows[n + k] == ItemToRow(items[k], DeptBranch(dept, b)))
      && (forall i :: 0 <= i < |rows| ==> WithEpigrafe(BranchOf(rows[i]), "") == DeptBranch(dept, b))
      && (forall i :: 0 <= i < n ==>
            exists e :: e in FindAllChildren(dept, "epigrafe") && rows[i].epigrafeNombre == Get(e, "nombre", ""))
      && (forall i :: n <= i < |rows| ==> rows[i].epigrafeNombre == "")
  {
    var db := DeptBranch(dept, b);
    EpigrafeRowsSpec(FindAllChildren(dept, "epigrafe"), db);
    ItemRowsSpec(FindAllChildren(dept, "item"), db);
    ItemRowsShape(FindAllChildren(dept, "item"), db);
    var front, back := EpigrafeRows(FindAllChildren(dept, "epigrafe"), db), ItemRows(FindAllChildren(dept, "item"), db);
    EpigrafeRowsCount(FindAllChildren(dept, "epigrafe"), db);
    DeptConcat(front, back, db);
    forall k | 0 <= k < |back| ensures (front + back)[|front| + k] == back[k] {
      IndexBack(front, back, k);
    }
  }

  /** Epigrafe rows on branch `db` (up to the epigrafe) followed by direct-item rows on `db` itself. */
  lemma DeptConcat(front: seq<Row>, back: seq<Row>, db: Branch)
    requires db.epigrafeNombre == ""
    requires AllWellFormed(front) && AllWellFormed(back)
    requires forall i :: 0 <= i < |front| ==> WithEpigrafe(BranchOf(front[i]), "") == db
    requires forall i :: 0 <= i < |back| ==> BranchOf(back[i]) == db
    ensures AllWellFormed(front + back)
    ensures forall i :: 0 <= i < |front + back| ==> WithEpigrafe(BranchOf((front + back)[i]), "") == db
    ensures forall i :: 0 <= i < |front| ==> (front + back)[i] == front[i]
    ensures forall i :: |front| <= i < |front + back| ==> (front + back)[i].epigrafeNombre == ""
  {
    AllWellFormedConcat(front, back);
    forall i | |front| <= i < |front + back|
      ensures WithEpigrafe(BranchOf((front + back)[i]), "") == db && (front + back)[i].epigrafeNombre == ""
    {
      assert (front + back)[i] == back[i - |front|];
    }
  }

  lemma {:induction false} DeptsRowsWellFormed(depts: seq<Element>, b: Branch)
    ensures AllWellFormed(DeptsRows(depts, b))
    decreases |depts|
  {
    if depts != [] {
      DeptsRowsWellFormed(depts[..|depts| - 1], b);
      DeptRowsSpec(depts[|depts| - 1], b);
      AllWellFormedConcat(DeptsRows(depts[..|depts| - 1], b), DeptRows(depts[|depts| - 1], b));
    }
  }

  lemma {:induction false} SeccionesRowsWellFormed(secs: seq<Element>, numero: string)
    ensures AllWellFormed(SeccionesRows(secs, numero))
    decreases |secs|
  {
    if secs != [] {
      var sec := secs[|secs| - 1];
      SeccionesRowsWellFormed(secs[..|secs| - 1], numero);
      DeptsRowsWellFormed(FindAllChildren(sec, "departamento"), SeccionBranch(sec, numero));
      AllWellFormedConcat(SeccionesRows(secs[..|secs| - 1], numero),
                          DeptsRows(FindAllChildren(sec, "departamento"), SeccionBranch(sec, numero)));
    }
  }

  lemma {:induction false} DiariosRowsWellFormed(diarios: seq<Element>)
    ensures AllWellFormed(DiariosRows(diarios))
    decreases |diarios|
  {
    if diarios != [] {
      var diario := diarios[|diarios| - 1];
      DiariosRowsWellFormed(diarios[..|diarios| - 1]);
      SeccionesRowsWellFormed(FindAllChildren(diario, "seccion"), Get(diario, "numero", ""));
      AllWellFormedConcat(DiariosRows(diarios[..|diarios| - 1]),
                          SeccionesRows(FindAllChildren(diario, "seccion"), Get(diario, "numero", "")));
    }
  }

  /** Every row `parse_sumario_xml` returns has no date yet and stripped text fields. */
  lemma SumarioRowsWellFormed(doc: Option<Element>)
    ensures AllWellFormed(SumarioRows(doc))
  {
    if doc.Some? && FindDescendant(doc.value, "data").Some? {
      var sumario := FindDescendant(FindDescendant(doc.value, "data").value, "sumario");
      if sumario.Some? {
        DiariosRowsWellFormed(FindAllDescendants(sumario.value, "diario"));
      }
    }
  }

  /** Row `r` is the row of an item of departamento `dept` inside branch `b`: of one of its
      direct items, on the departamento's branch, or of an item of one of its epigrafes, on that
      branch carrying the epigrafe's `nombre`. */
  ghost predicate FromDept(r: Row, dept: Element, b: Branch) {
    var db := DeptBranch(dept, b);
    || (exists item :: item in FindAllChildren(dept, "item") && r == ItemToRow(item, db))
    || (exists epi, item :: epi in FindAllChildren(dept, "epigrafe") && item in FindAllChildren(epi, "item")
          && r == ItemToRow(item, WithEpigrafe(db, Get(epi, "nombre", ""))))
  }

  /** Row `r` comes from a departamento of seccion `sec` in the diario numbered `numero`. */
  ghost predicate FromSeccion(r: Row, sec: Element, numero: string) {
    exists dept :: dept in FindAllChildren(sec, "departamento") && FromDept(r, dept, SeccionBranch(sec, numero))
  }

  /** Row `r` comes from a seccion of `diario`, carrying its `numero`. */
  ghost predicate FromDiario(r: Row, diario: Element) {
    exists sec :: sec in FindAllChildren(diario, "seccion") && FromSeccion(r, sec, Get(diario, "numero", ""))
  }

  /** The `sumario` element `parse_sumario_xml` reads its diarios from, if any. */
  function SumarioOf(doc: Option<Element>): Option<Element> {
    match doc
    case None => None
    case Some(root) =>
      match FindDescendant(root, "data")
      case None => None
      case Some(data) => FindDescendant(data, "sumario")
  }

  lemma ItemRowsMember(items: seq<Element>, b: Branch, r: Row)
    ensures r in ItemRows(items, b) <==> exists item :: item in items && r == ItemToRow(item, b)
  {
    ItemRowsSpec(items, b);
    if r in ItemRows(items, b) {
      var i :| 0 <= i < |ItemRows(items, b)| && ItemRows(items, b)[i] == r;
      assert items[i] in items;
    }
    if exists item :: item in items && r == ItemToRow(item, b) {
      var item :| item in items && r == ItemToRow(item, b);
      var i :| 0 <= i < |items| && items[i] == item;
      assert ItemRows(items, b)[i] == r;
    }
  }

  lemma {:induction false} EpigrafeRowsFlat(epis: seq<Element>, b: Branch)
    ensures EpigrafeRows(epis, b) == FlatMap(epis, (e: Element) => EpigrafeBlock(e, b))
    decreases |epis|
  {
    if epis != [] {
      EpigrafeRowsFlat(epis[..|epis| - 1], b);
    }
  }

  /** The rows under epigrafes `epis` are exactly the rows of their items, each on branch `b`
      carrying its own epigrafe's `nombre`. */
  lemma EpigrafeRowsMember(epis: seq<Element>, b: Branch, r: Row)
    ensures r in EpigrafeRows(epis, b) <==>
      exists epi, item :: epi in epis && item in FindAllChildren(epi, "item")
        && r == ItemToRow(item, WithEpigrafe(b, Get(epi, "nombre", "")))
  {
    var f := (e: Element) => EpigrafeBlock(e, b);
    EpigrafeRowsFlat(epis, b);
    FlatMapMember(epis, f, r);
    if r in EpigrafeRows(epis, b) {
      var epi :| epi in epis && r in f(epi);
      ItemRowsMember(FindAllChildren(epi, "item"), WithEpigrafe(b, Get(epi, "nombre", "")), r);
    }
    if exists epi, item :: epi in epis && item in FindAllChildren(epi, "item")
         && r == ItemToRow(item, WithEpigrafe(b, Get(epi, "nombre", ""))) {
      var epi, item :| epi in epis && item in FindAllChildren(epi, "item")
        && r == ItemToRow(item, WithEpigrafe(b, Get(epi, "nombre", "")));
      ItemRowsMember(FindAllChildren(epi, "item"), WithEpigrafe(b, Get(epi, "nombre", "")), r);
      assert r in f(epi);
    }
  }

  /** A departamento's rows are exactly the rows of its items, direct or under an epigrafe. */
  lemma DeptRowsMember(dept: Element, b: Branch, r: Row)
    ensures r in DeptRows(dept, b) <==> FromDept(r, dept, b)
  {
    var db := DeptBranch(dept, b);
    EpigrafeRowsMember(FindAllChildren(dept, "epigrafe"), db, r);
    ItemRowsMember(FindAllChildren(dept, "item"), db, r);
  }

  lemma {:induction false} DeptsRowsFlat(depts: seq<Element>, b: Branch)
    ensures DeptsRows(depts, b) == FlatMap(depts, (d: Element) => DeptRows(d, b))
    decreases |depts|
  {
    if depts != [] {
      DeptsRowsFlat(depts[..|depts| - 1], b);
    }
  }

  lemma SeccionBlockMember(sec: Element, numero: string, r: Row)
    ensures r in SeccionBlock(sec, numero) <==> FromSeccion(r, sec, numero)
  {
    var sb := SeccionBranch(sec, numero);
    var depts := FindAllChildren(sec, "departamento");
    var f := (d: Element) => DeptRows(d, sb);
    DeptsRowsFlat(depts, sb);
    FlatMapMember(depts, f, r);
    forall dept | dept in depts ensures r in f(dept) <==> FromDept(r, dept, sb) {
      DeptRowsMember(dept, sb, r);
    }
  }

  lemma {:induction false} SeccionesRowsFlat(secs: seq<Element>, numero: string)
    ensures SeccionesRows(secs, numero) == FlatMap(secs, (s: Element) => SeccionBlock(s, numero))
    decreases |secs|
  {
    if secs != [] {
      SeccionesRowsFlat(secs[..|secs| - 1], numero);
    }
  }

  lemma DiarioBlockMember(diario: Element, r: Row)
    ensures r in DiarioBlock(diario) <==> FromDiario(r, diario)
  {
    var numero := Get(diario, "numero", "");
    var secs := FindAllChildren(diario, "seccion");
    var f := (s: Element) => SeccionBlock(s, numero);
    SeccionesRowsFlat(secs, numero);
    FlatMapMember(secs, f, r);
    forall sec | sec in secs ensures r in f(sec) <==> FromSeccion(r, sec, numero) {
      SeccionBlockMember(sec, numero, r);
    }
  }

  lemma {:induction false} DiariosRowsFlat(diarios: seq<Element>)
    ensures DiariosRows(diarios) == FlatMap(diarios, DiarioBlock)
    decreases |diarios|
  {
    if diarios != [] {
      DiariosRowsFlat(diarios[..|diarios| - 1]);
    }
  }

  /** `parse_sumario_xml` returns nothing without a `sumario` (below a `data` descendant) in a
      parsed document; otherwise exactly the rows of the items below a `departamento` child of a
      `seccion` child of a `diario` below the `sumario`, each carrying the diario's `numero`, the
      seccion's and the departamento's `codigo` and `nombre`, and for an item of an `epigrafe`
      child of the departamento, that epigrafe's `nombre`. */
  lemma SumarioRowsMember(doc: Option<Element>, r: Row)
    ensures SumarioOf(doc).None? ==> SumarioRows(doc) == []
    ensures SumarioOf(doc).Some? ==>
      (r in SumarioRows(doc) <==>
         exists diario :: diario in FindAllDescendants(SumarioOf(doc).value, "diario") && FromDiario(r, diario))
  {
    if SumarioOf(doc).Some? {
      var diarios := FindAllDescendants(SumarioOf(doc).value, "diario");
      DiariosRowsFlat(diarios);
      FlatMapMember(diarios, DiarioBlock, r);
      forall diario | diario in diarios ensures r in DiarioBlock(diario) <==> FromDiario(r, diario) {
        DiarioBlockMember(diario, r);
      }
    }
  }

  /** `for item in items: out.append(_item_to_row(item, ...))` */
  method AppendItems(out: seq<Row>, items: seq<Element>, b: Branch) returns (res: seq<Row>)
    ensures res == out + ItemRows(items, b)
  {
    res := out;
    for i := 0 to |items|
      invariant res == out + ItemRows(items[..i], b)
    {
      var row := ItemToRow(items[i], b);
      ItemRowsStep(items, b, i);
      AppendAssoc(out, ItemRows(items[..i], b), [row]);
      res := res + [row];
    }
    assert items[..|items|] == items;
  }

  /** The body of `for dept in seccion.findall("./departamento")`: the loop over its epigrafes,
      then the loop over its direct items. */
  method AppendDept(out: seq<Row>, dept: Element, b: Branch) returns (res: seq<Row>)
    ensures res == out + DeptRows(dept, b)
  {
    var db := DeptBranch(dept, b);
    res := AppendEpigrafes(out, FindAllChildren(dept, "epigrafe"), db);
    AppendAssoc(out, EpigrafeRows(FindAllChildren(dept, "epigrafe"), db), ItemRows(FindAllChildren(dept, "item"), db));
    res := AppendItems(res, FindAllChildren(dept, "item"), db);
  }

  /** `for epi in dept.findall("./epigrafe"): for item in epi.findall("./item"): out.append(...)` */
  method AppendEpigrafes(out: seq<Row>, epis: seq<Element>, db: Branch) returns (res: seq<Row>)
    ensures res == out + EpigrafeRows(epis, db)
  {
    res := out;
    for i := 0 to |epis|
      invariant res == out + EpigrafeRows(epis[..i], db)
    {
      var eb := WithEpigrafe(db, Get(epis[i], "nombre", ""));
      var block := ItemRows(FindAllChildren(epis[i], "item"), eb);
      EpigrafeRowsStep(epis, db, i);
      AppendAssoc(out, EpigrafeRows(epis[..i], db), block);
      res := AppendItems(res, FindAllChildren(epis[i], "item"), eb);
    }
    assert epis[..|epis|] == epis;
  }

  /** The body of `for diario in sumario.findall(".//diario")`. */
  method AppendDiario(out: seq<Row>, diario: Element) returns (res: seq<Row>)
    ensures res == out + DiarioBlock(diario)
  {
    var numero := Get(diario, "numero", "");
    var secs := FindAllChildren(diario, "seccion");
    res := out;
    for i := 0 to |secs|
      invariant res == out + SeccionesRows(secs[..i], numero)
    {
      var sb := SeccionBranch(secs[i], numero);
      var depts := FindAllChildren(secs[i], "departamento");
      SeccionesRowsStep(secs, numero, i);
      AppendAssoc(out, SeccionesRows(secs[..i], numero), DeptsRows(depts, sb));
      res := AppendDepts(res, depts, sb);
    }
    assert secs[..|secs|] == secs;
  }

  /** `for dept in seccion.findall("./departamento")` */
  method AppendDepts(out: seq<Row>, depts: seq<Element>, sb: Branch) returns (res: seq<Row>)
    ensures res == out + DeptsRows(depts, sb)
  {
    res := out;
    for j := 0 to |depts|
      invariant res == out + DeptsRows(depts[..j], sb)
    {
      DeptsRowsStep(depts, sb, j);
      AppendAssoc(out, DeptsRows(depts[..j], sb), DeptRows(depts[j], sb));
      res := AppendDept(res, depts[j], sb);
    }
    assert depts[..|depts|] == depts;
  }

  /** `parse_sumario_xml` */
  method ParseSumarioXml(doc: Option<Element>) returns (out: seq<Row>)
    ensures out == SumarioRows(doc)
  {
    out := [];
    if doc.None? {
      return;
    }
    var data := FindDescendant(doc.value, "data");
    if data.None? {
      return;
    }
    var sumario := FindDescendant(data.value, "sumario");
    if sumario.None? {
      return;
    }
    var diarios := FindAllDescendants(sumario.value, "diario");
    for i := 0 to |diarios|
      invariant out == DiariosRows(diarios[..i])
    {
      DiariosRowsStep(diarios, i);
      out := AppendDiario(out, diarios[i]);
    }
    assert diarios[..|diarios|] == diarios;
  }
}
