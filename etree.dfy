/**
 * The part of `xml.etree.ElementTree` that the catalog parser uses: elements with a tag,
 * attributes, an optional text and children; `find`/`findall` with the paths `./tag` (direct
 * children) and `.//tag` (all descendants, in document order, the element itself excluded),
 * and `get(attr, default)`.
 */
module ETree {
  import opened Wrappers

  datatype Element = Element(tag: string, attrib: map<string, string>, text: Option<string>, children: seq<Element>)

  /** The proper descendants of `e` in document (pre-)order. */
  function Descendants(e: Element): seq<Element> {
    Subtrees(e.children)
  }

  /** Each element of `cs` followed by its descendants, in order. */
  function Subtrees(cs: seq<Element>): seq<Element> {
    if cs == [] then [] else [cs[0]] + Descendants(cs[0]) + Subtrees(cs[1..])
  }

  /** The elements of `xs` whose tag is `tag`, in their order. */
  function Tagged(xs: seq<Element>, tag: string): seq<Element> {
    if xs == [] then []
    else (if xs[0].tag == tag then [xs[0]] else []) + Tagged(xs[1..], tag)
  }

  /** `Tagged` keeps exactly the elements with the tag, and no more of them than there were. */
  lemma {:induction false} TaggedSpec(xs: seq<Element>, tag: string)
    ensures |Tagged(xs, tag)| <= |xs|
    ensures forall x :: x in Tagged(xs, tag) <==> x in xs && x.tag == tag
  {
    if xs != [] {
      TaggedSpec(xs[1..], tag);
      assert xs == [xs[0]] + xs[1..];
    }
  }

  /** The first element of a list, if any. */
  function First(xs: seq<Element>): (r: Option<Element>)
    ensures r.Some? <==> xs != []
    ensures r.Some? ==> r.value == xs[0]
  {
    if xs == [] then None else Some(xs[0])
  }

  /** `e.findall("./" + tag)` */
  function FindAllChildren(e: Element, tag: string): seq<Element> {
    Tagged(e.children, tag)
  }

  /** `e.findall(".//" + tag)` */
  function FindAllDescendants(e: Element, tag: string): seq<Element> {
    Tagged(Descendants(e), tag)
  }

  /** `e.find("./" + tag)` */
  function FindChild(e: Element, tag: string): Option<Element> {
    First(FindAllChildren(e, tag))
  }

  /** `e.find(".//" + tag)` */
  function FindDescendant(e: Element, tag: string): Option<Element> {
    First(FindAllDescendants(e, tag))
  }

  /** `e.get(attr, default)` */
  function Get(e: Element, attr: string, default: string): (r: string)
    ensures attr in e.attrib ==> r == e.attrib[attr]
    ensures attr !in e.attrib ==> r == default
  {
    if attr in e.attrib then e.attrib[attr] else default
  }

  /** `find("./tag")` returns the first child with that tag: one of the children, carrying the tag,
      with no child of that tag before it; `None` exactly when no child has it. */
  lemma FindChildSpec(e: Element, tag: string)
    ensures FindChild(e, tag).None? <==> forall c :: c in e.children ==> c.tag != tag
    ensures FindChild(e, tag).Some? ==> exists k :: FirstWithTag(e.children, tag, k) && e.children[k] == FindChild(e, tag).value
  {
    TaggedSpec(e.children, tag);
    if FindChild(e, tag).Some? {
      FirstTagged(e.children, tag);
    }
  }

  lemma {:induction false} FirstTagged(xs: seq<Element>, tag: string)
    requires Tagged(xs, tag) != []
    ensures exists k :: FirstWithTag(xs, tag, k) && xs[k] == Tagged(xs, tag)[0]
  {
    if xs[0].tag != tag {
      FirstTagged(xs[1..], tag);
      var k :| FirstWithTag(xs[1..], tag, k) && xs[1..][k] == Tagged(xs[1..], tag)[0];
      assert xs[k + 1] == Tagged(xs, tag)[0];
      forall j | 0 <= j < k + 1 ensures xs[j].tag != tag {
        if j > 0 { assert xs[j] == xs[1..][j - 1]; }
      }
      assert FirstWithTag(xs, tag, k + 1);
    } else {
      assert FirstWithTag(xs, tag, 0);
    }
  }

  /** `xs[k]` is the first element of `xs` tagged `tag`. */
  predicate FirstWithTag(xs: seq<Element>, tag: string, k: int) {
    0 <= k < |xs| && xs[k].tag == tag && forall j :: 0 <= j < k ==> xs[j].tag != tag
  }

  /** Only one index is the first with a tag. */
  lemma FirstWithTagUnique(xs: seq<Element>, tag: string, j: int, k: int)
    requires FirstWithTag(xs, tag, j) && FirstWithTag(xs, tag, k)
    ensures j == k
  {
  }

  /** Every descendant of a child is a descendant of the parent, and so is the child. */
  lemma {:induction false} SubtreesContain(cs: seq<Element>, k: int)
    requires 0 <= k < |cs|
    ensures cs[k] in Subtrees(cs)
    ensures forall d :: d in Descendants(cs[k]) ==> d in Subtrees(cs)
  {
    if k > 0 {
      SubtreesContain(cs[1..], k - 1);
    }
  }

  /** `.//tag` finds a matching child, if there is one among the children. */
  lemma ChildIsDescendant(e: Element, tag: string, c: Element)
    requires c in e.children && c.tag == tag
    ensures c in FindAllDescendants(e, tag)
    ensures FindDescendant(e, tag).Some?
  {
    var k :| 0 <= k < |e.children| && e.children[k] == c;
    SubtreesContain(e.children, k);
    TaggedSpec(Descendants(e), tag);
  }
}
