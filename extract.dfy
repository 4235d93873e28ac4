/**
 * The two text extractors: `extract_plain_from_xml` (src/boe_sumario_text_json.py:163-190) and
 * `extract_plain_from_html` (lines 192-212). Both take the document BeautifulSoup would build
 * (parsing is not part of this model) and end in `clean_final_text`.
 */
module Extract {
  import opened Wrappers
  import opened PyStr
  import opened Normalizer
  import opened Dom
  import opened Seqs

  /** The tags whose heading and paragraphs the XML extractor collects. */
  const SectionTags: set<string> := {"articulo", "capitulo", "titulo", "seccion", "apartado", "epigrafe", "parrafo"}
  const ParagraphTags: set<string> := {"p", "li"}

  /** Neither empty nor whitespace only: Python's `x and x.strip()`. */
  predicate Visible(x: string) {
    !AllSpace(x)
  }

  /** `[x for x in parts if x and x.strip()]`: every visible part, in order, and nothing else. */
  function VisibleOnly(parts: seq<string>): (r: seq<string>)
    ensures forall i :: 0 <= i < |r| ==> Visible(r[i])
    ensures r == [] <==> forall i :: 0 <= i < |parts| ==> !Visible(parts[i])
    ensures r == Filter(parts, Visible)
  {
    if parts == [] then []
    else
      var rest := VisibleOnly(parts[1..]);
      assert forall i :: 1 <= i < |parts| ==> parts[i] == parts[1..][i - 1];
      assert parts == [parts[0]] + parts[1..];
      FilterConcat([parts[0]], parts[1..], Visible);
      assert Filter([parts[0]], Visible) == if Visible(parts[0]) then [parts[0]] else [] by {
        assert [parts[0]][..0] == [];
      }
      (if Visible(parts[0]) then [parts[0]] else []) + rest
  }

  /** `t.get_text(" ", strip=True)`, kept only when it is not empty. */
  function TextOf(node: Node): seq<string> {
    var txt := GetText(node);
    if txt != [] then [txt] else []
  }

  /** The texts `t.get_text(" ", strip=True)` of `nodes` that are not empty, as the loops
      `if txt: parts.append(txt)` and `if len(txt) >= 1: parts.append(txt)` collect them. */
  function NonEmptyTexts(nodes: seq<Node>): seq<string> {
    if nodes == [] then [] else NonEmptyTexts(nodes[..|nodes| - 1]) + TextOf(nodes[|nodes| - 1])
  }

  lemma NonEmptyTextsStep(nodes: seq<Node>, i: nat)
    requires i < |nodes|
    ensures NonEmptyTexts(nodes[..i + 1]) == NonEmptyTexts(nodes[..i]) + TextOf(nodes[i])
  {
    assert nodes[..i + 1][..i] == nodes[..i];
  }

  /** `node.get("titulo") or node.get("nombre")`, stripped, when it is not empty. */
  function Heading(node: Node): seq<string> {
    var head := OrElse(Attr(node, "titulo"), Attr(node, "nombre"));
    if head.Some? && head.value != [] then [Strip(head.value)] else []
  }

  /** One section tag's contribution: its heading, then its `p`/`li` texts. */
  function SectionParts(node: Node): seq<string> {
    Heading(node) + NonEmptyTexts(FindAll(node, ParagraphTags))
  }

  function SectionsParts(nodes: seq<Node>): seq<string> {
    if nodes == [] then [] else SectionsParts(nodes[..|nodes| - 1]) + SectionParts(nodes[|nodes| - 1])
  }

  lemma SectionsPartsStep(nodes: seq<Node>, i: nat)
    requires i < |nodes|
    ensures SectionsParts(nodes[..i + 1]) == SectionsParts(nodes[..i]) + SectionParts(nodes[i])
  {
    assert nodes[..i + 1][..i] == nodes[..i];
  }

  /** `soup.find("disposicion") or soup.find("documento") or soup` */
  function XmlRoot(doc: Node): Node {
    match Find(doc, "disposicion")
    case Some(r) => r
    case None =>
      match Find(doc, "documento")
      case Some(r) => r
      case None => doc
  }

  /** The `parts` of the XML extractor: the `texto` texts, then every section's heading and
      paragraphs; only when that gives nothing, every `p`/`li` text under the root. */
  function XmlParts(root: Node): seq<string> {
    var parts := NonEmptyTexts(FindAll(root, {"texto"})) + SectionsParts(FindAll(root, SectionTags));
    if parts == [] then NonEmptyTexts(FindAll(root, ParagraphTags)) else parts
  }

  /** What `extract_plain_from_xml` returns for a parsed document. */
  function XmlPlain(doc: Node): string {
    CleanFinalText(Join(VisibleOnly(XmlParts(XmlRoot(doc))), "\n"))
  }

  /** `for t in nodes: txt = t.get_text(" ", strip=True); if txt: parts.append(txt)` */
  method AppendTexts(parts: seq<string>, nodes: seq<Node>) returns (res: seq<string>)
    ensures res == parts + NonEmptyTexts(nodes)
  {
    res := parts;
    for i := 0 to |nodes|
      invariant res == parts + NonEmptyTexts(nodes[..i])
    {
      var txt := GetText(nodes[i]);
      var add := if txt != [] then [txt] else [];
      NonEmptyTextsStep(nodes, i);
      AppendAssoc(parts, NonEmptyTexts(nodes[..i]), add);
      res := res + add;
    }
    assert nodes[..|nodes|] == nodes;
  }

  /** `extract_plain_from_xml` */
  method ExtractPlainFromXml(doc: Node) returns (plain: string)
    ensures plain == XmlPlain(doc)
  {
    var root := XmlRoot(doc);
    var parts := AppendTexts([], FindAll(root, {"texto"}));
    EmptyAppend(NonEmptyTexts(FindAll(root, {"texto"})));
    parts := AppendSections(parts, FindAll(root, SectionTags));
    if parts == [] {
      parts := AppendTexts(parts, FindAll(root, ParagraphTags));
      EmptyAppend(NonEmptyTexts(FindAll(root, ParagraphTags)));
    }
    assert parts == XmlParts(root);
    plain := CleanFinalText(Join(VisibleOnly(parts), "\n"));
  }

  /** `for node in root.find_all([...]): head = ...; if head: parts.append(head.strip()); for p in ...` */
  method AppendSections(parts: seq<string>, sections: seq<Node>) returns (res: seq<string>)
    ensures res == parts + SectionsParts(sections)
  {
    res := parts;
    for i := 0 to |sections|
      invariant res == parts + SectionsParts(sections[..i])
    {
      var head := OrElse(Attr(sections[i], "titulo"), Attr(sections[i], "nombre"));
      var heading := if head.Some? && head.value != [] then [Strip(head.value)] else [];
      var texts := NonEmptyTexts(FindAll(sections[i], ParagraphTags));
      SectionsPartsStep(sections, i);
      AppendAssoc(parts, SectionsParts(sections[..i]), heading + texts);
      AppendAssoc(res, heading, texts);
      res := res + heading;
      res := AppendTexts(res, FindAll(sections[i], ParagraphTags));
    }
    assert sections[..|sections|] == sections;
  }

  /** A join of visible parts is blank only when there are no parts. */
  lemma JoinVisible(ps: seq<string>, sep: string)
    requires forall i :: 0 <= i < |ps| ==> Visible(ps[i])
    ensures AllSpace(Join(ps, sep)) <==> ps == []
  {
    if ps != [] {
      var j :| 0 <= j < |ps[0]| && !IsSpace(ps[0][j]);
      assert Join(ps, sep)[j] == ps[0][j] by {
        if |ps| > 1 {
          assert Join(ps, sep) == ps[0] + (sep + Join(ps[1..], sep));
        }
      }
    }
  }

  /** The XML extractor's text is clean (as `clean_final_text` promises) and empty exactly when
      every collected part is blank. */
  lemma XmlPlainSpec(doc: Node)
    ensures IsClean(XmlPlain(doc))
    ensures XmlPlain(doc) == [] <==> forall i :: 0 <= i < |XmlParts(XmlRoot(doc))| ==> !Visible(XmlParts(XmlRoot(doc))[i])
  {
    JoinVisible(VisibleOnly(XmlParts(XmlRoot(doc))), "\n");
    CleanFinalTextSpec(Join(VisibleOnly(XmlParts(XmlRoot(doc))), "\n"));
  }

  /** The layout elements the HTML extractor decomposes, in the order it does. */
  const ChromeSelectors: seq<Selector> := [
    ByName("nav"), ByName("header"), ByName("footer"), ByClass("pie"), ByClass("breadcrumbs"),
    ById("barra_cabecera"), ById("barra_portada"), ByClass("enlaces"), ByClass("reproductor")]

  /** `#text, .texto, #contenido, article, .contenido` */
  const MainSelectors: seq<Selector> := [ById("text"), ByClass("texto"), ById("contenido"), ByName("article"), ByClass("contenido")]

  const BlockTags: set<string> := {"p", "li", "blockquote", "h4", "h5", "h6"}

  /** The document after decomposing what `sels` match, one selector after another. */
  function PruneEach(doc: Node, sels: seq<Selector>): Node {
    if sels == [] then doc else Prune(PruneEach(doc, sels[..|sels| - 1]), sels[|sels| - 1])
  }

  /** After the removal loop nothing left under the document matches any of the selectors. */
  lemma {:induction false} PruneEachFrees(doc: Node, sels: seq<Selector>)
    ensures forall k :: 0 <= k < |sels| ==> FreeOf(PruneEach(doc, sels), sels[k])
  {
    if sels != [] {
      var init, last := sels[..|sels| - 1], sels[|sels| - 1];
      PruneEachFrees(doc, init);
      PruneFrees(PruneEach(doc, init), last);
      forall k | 0 <= k < |sels| - 1 ensures FreeOf(PruneEach(doc, sels), sels[k]) {
        assert sels[k] == init[k];
        PruneKeepsFree(PruneEach(doc, init), last, sels[k]);
      }
    }
  }

  /** The `for sel in [...]: for el in soup.select(sel): el.decompose()` loop. */
  method RemoveChrome(doc: Node) returns (d: Node)
    ensures d == PruneEach(doc, ChromeSelectors)
    ensures forall k :: 0 <= k < |ChromeSelectors| ==> FreeOf(d, ChromeSelectors[k])
  {
    d := doc;
    for i := 0 to |ChromeSelectors|
      invariant d == PruneEach(doc, ChromeSelectors[..i])
    {
      assert ChromeSelectors[..i + 1][..i] == ChromeSelectors[..i];
      d := Prune(d, ChromeSelectors[i]);
    }
    assert ChromeSelectors[..|ChromeSelectors|] == ChromeSelectors;
    PruneEachFrees(doc, ChromeSelectors);
  }

  /** `" ".join(h1.get_text(" ", strip=True).split()).lower() == known_title.strip().lower()` */
  predicate TitleMatches(h1: Node, knownTitle: string) {
    Lower(CollapseWs(GetText(h1))) == Lower(Strip(knownTitle))
  }

  /** The first `h1` goes when a non-empty known title matches its text. */
  function DropTitle(doc: Node, knownTitle: Option<string>): Node {
    match Find(doc, "h1")
    case None => doc
    case Some(h1) =>
      if knownTitle.Some? && knownTitle.value != [] && TitleMatches(h1, knownTitle.value)
      then RemoveFirst(doc, "h1").node
      else doc
  }

  /** `soup.select_one("#text, .texto, #contenido, article, .contenido") or soup.body or soup` */
  function MainRegion(doc: Node): Node {
    match SelectOne(doc, MainSelectors)
    case Some(m) => m
    case None =>
      match Find(doc, "body")
      case Some(b) => b
      case None => doc
  }

  /** `" ".join(tag.get_text(" ", strip=True).split())`, kept only when it is not empty. */
  function BlockText(node: Node): seq<string> {
    var txt := CollapseWs(GetText(node));
    if txt != [] then [txt] else []
  }

  /** The block texts of `nodes`, the empty ones dropped. */
  function BlockTexts(nodes: seq<Node>): seq<string> {
    if nodes == [] then [] else BlockTexts(nodes[..|nodes| - 1]) + BlockText(nodes[|nodes| - 1])
  }

  lemma BlockTextsStep(nodes: seq<Node>, i: nat)
    requires i < |nodes|
    ensures BlockTexts(nodes[..i + 1]) == BlockTexts(nodes[..i]) + BlockText(nodes[i])
  {
    assert nodes[..i + 1][..i] == nodes[..i];
  }

  /** What `extract_plain_from_html` returns for a parsed document. */
  function HtmlPlain(doc: Node, knownTitle: Option<string>): string {
    var main := MainRegion(DropTitle(PruneEach(doc, ChromeSelectors), knownTitle));
    CleanFinalText(Join(BlockTexts(FindAll(main, BlockTags)), "\n"))
  }

  /** `extract_plain_from_html` */
  method ExtractPlainFromHtml(doc: Node, knownTitle: Option<string>) returns (plain: string)
    ensures plain == HtmlPlain(doc, knownTitle)
  {
    var d := RemoveChrome(doc);
    var h1 := Find(d, "h1");
    if h1.Some? && knownTitle.Some? && knownTitle.value != [] {
      if TitleMatches(h1.value, knownTitle.value) {
        d := RemoveFirst(d, "h1").node;
      }
    }
    var main := MainRegion(d);
    var parts := CollectBlocks(FindAll(main, BlockTags));
    plain := CleanFinalText(Join(parts, "\n"));
  }

  /** `for tag in main.find_all([...]): txt = " ".join(...split()); if txt: parts.append(txt)` */
  method CollectBlocks(blocks: seq<Node>) returns (parts: seq<string>)
    ensures parts == BlockTexts(blocks)
  {
    parts := [];
    for i := 0 to |blocks|
      invariant parts == BlockTexts(blocks[..i])
    {
      var txt := CollapseWs(GetText(blocks[i]));
      var add := if txt != [] then [txt] else [];
      BlockTextsStep(blocks, i);
      parts := parts + add;
    }
    assert blocks[..|blocks|] == blocks;
  }

  /** Every block text is a non-empty run of words separated by single spaces. */
  predicate AllCollapsed(ps: seq<string>) {
    forall i :: 0 <= i < |ps| ==> ps[i] != [] && Collapsed(ps[i])
  }

  lemma AllCollapsedConcat(a: seq<string>, b: seq<string>)
    requires AllCollapsed(a) && AllCollapsed(b)
    ensures AllCollapsed(a + b)
  {
    forall i | 0 <= i < |a + b| ensures (a + b)[i] != [] && Collapsed((a + b)[i]) {
      if i >= |a| {
        assert (a + b)[i] == b[i - |a|];
      }
    }
  }

  lemma BlockTextCollapsed(node: Node)
    ensures AllCollapsed(BlockText(node))
  {
    CollapseWsSpec(GetText(node));
  }

  lemma {:induction false} BlockTextsCollapsed(nodes: seq<Node>)
    ensures AllCollapsed(BlockTexts(nodes))
  {
    if nodes != [] {
      BlockTextsCollapsed(nodes[..|nodes| - 1]);
      BlockTextCollapsed(nodes[|nodes| - 1]);
      AllCollapsedConcat(BlockTexts(nodes[..|nodes| - 1]), BlockText(nodes[|nodes| - 1]));
    }
  }

  /** The HTML extractor's text is clean; the region it reads has none of the layout chrome left
      in it; and the text is empty exactly when that region has no block with text. */
  lemma HtmlPlainSpec(doc: Node, knownTitle: Option<string>)
    ensures IsClean(HtmlPlain(doc, knownTitle))
    ensures forall k :: 0 <= k < |ChromeSelectors| ==> FreeOf(PruneEach(doc, ChromeSelectors), ChromeSelectors[k])
    ensures var main := MainRegion(DropTitle(PruneEach(doc, ChromeSelectors), knownTitle));
      forall k :: 0 <= k < |ChromeSelectors| ==> FreeOf(main, ChromeSelectors[k])
    ensures var main := MainRegion(DropTitle(PruneEach(doc, ChromeSelectors), knownTitle));
      HtmlPlain(doc, knownTitle) == [] <==> BlockTexts(FindAll(main, BlockTags)) == []
  {
    PruneEachFrees(doc, ChromeSelectors);
    var pruned := PruneEach(doc, ChromeSelectors);
    var main := MainRegion(DropTitle(pruned, knownTitle));
    forall k | 0 <= k < |ChromeSelectors| ensures FreeOf(main, ChromeSelectors[k]) {
      DropTitleKeepsFree(pruned, knownTitle, ChromeSelectors[k]);
      MainRegionKeepsFree(DropTitle(pruned, knownTitle), ChromeSelectors[k]);
    }
    var parts := BlockTexts(FindAll(main, BlockTags));
    BlockTextsCollapsed(FindAll(main, BlockTags));
    forall i | 0 <= i < |parts| ensures Visible(parts[i]) {
      assert !IsSpace(parts[i][0]);
    }
    JoinVisible(parts, "\n");
    CleanFinalTextSpec(Join(parts, "\n"));
  }

  /** The known title removes the first `h1` when it matches that heading, and nothing otherwise:
      the document's walk loses exactly that heading's walk, no `h1` comes before it, and the tree
      shrinks by that heading's size. */
  lemma DropTitleSpec(doc: Node, knownTitle: Option<string>)
    ensures var h1 := Find(doc, "h1");
      && (h1.Some? && knownTitle.Some? && knownTitle.value != [] && TitleMatches(h1.value, knownTitle.value) ==>
            && Cut(Labels(Descendants(doc)), h1.value, Labels(Descendants(DropTitle(doc, knownTitle))), "h1")
            && Label(DropTitle(doc, knownTitle)) == Label(doc)
            && Size(DropTitle(doc, knownTitle)) + Size(h1.value) == Size(doc))
      && (!(h1.Some? && knownTitle.Some? && knownTitle.value != [] && TitleMatches(h1.value, knownTitle.value)) ==>
            DropTitle(doc, knownTitle) == doc)
  {
    RemoveFirstSpec(doc, "h1");
    RemoveFirstOrder(doc, "h1");
  }

  lemma DropTitleKeepsFree(doc: Node, knownTitle: Option<string>, sel: Selector)
    requires FreeOf(doc, sel)
    ensures FreeOf(DropTitle(doc, knownTitle), sel)
  {
    RemoveFirstKeepsFree(doc, "h1", sel);
  }

  /** The main region is the first descendant, in document order, matching any of the content
      selectors when there is one; otherwise the `body`, otherwise the whole document. */
  lemma MainRegionSpec(doc: Node)
    ensures (exists k :: 0 <= k < |Descendants(doc)| && MatchesAny(Descendants(doc)[k], MainSelectors)) ==>
      exists k :: FirstMatchAt(Descendants(doc), MainSelectors, k) && MainRegion(doc) == Descendants(doc)[k]
    ensures (forall k :: 0 <= k < |Descendants(doc)| ==> !MatchesAny(Descendants(doc)[k], MainSelectors)) ==>
      MainRegion(doc) == (if Find(doc, "body").Some? then Find(doc, "body").value else doc)
  {
    var r := SelectOne(doc, MainSelectors);
    if r.Some? {
      var k :| FirstMatchAt(Descendants(doc), MainSelectors, k) && Descendants(doc)[k] == r.value;
      assert MainRegion(doc) == Descendants(doc)[k];
    }
  }

  /** The main region is the document or one of its descendants, so it is free of whatever the
      document is free of. */
  lemma MainRegionKeepsFree(doc: Node, sel: Selector)
    requires FreeOf(doc, sel)
    ensures FreeOf(MainRegion(doc), sel)
  {
    if SelectOne(doc, MainSelectors).None? && Find(doc, "body").Some? {
      NamedIn(Descendants(doc), {"body"}, Find(doc, "body").value);
    }
    if MainRegion(doc) != doc {
      FreeOfDescendant(doc, MainRegion(doc), sel);
    }
  }
}
