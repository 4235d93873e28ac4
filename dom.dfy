/**
 * The part of a BeautifulSoup document the text extractors use: a tree of tags and text
 * strings under the `[document]` root; `find`/`find_all` by tag name (proper descendants in
 * document order), `get(attr)`, `get_text(" ", strip=True)`, the CSS selectors `name`, `.class`
 * and `#id` for `select`/`select_one`, and `decompose()` of matched elements.
 */
module Dom {
  import opened Wrappers
  import opened PyStr
  import opened Seqs

  datatype Node = Text(text: string) | Tag(name: string, attrs: map<string, string>, children: seq<Node>)

  /** The proper descendants of `n` (tags and strings) in document order. */
  function Descendants(n: Node): seq<Node> {
    if n.Text? then [] else SubtreesOf(n.children)
  }

  function SubtreesOf(cs: seq<Node>): seq<Node> {
    if cs == [] then [] else [cs[0]] + Descendants(cs[0]) + SubtreesOf(cs[1..])
  }

  /** The number of nodes in the tree rooted at `n`. */
  function Size(n: Node): nat {
    if n.Text? then 1 else 1 + SizeOf(n.children)
  }

  function SizeOf(cs: seq<Node>): nat {
    if cs == [] then 0 else Size(cs[0]) + SizeOf(cs[1..])
  }

  predicate IsTagNamed(n: Node, names: set<string>) {
    n.Tag? && n.name in names
  }

  /** The tags of `xs` whose name is in `names`, in order. */
  function Named(xs: seq<Node>, names: set<string>): seq<Node> {
    if xs == [] then [] else (if IsTagNamed(xs[0], names) then [xs[0]] else []) + Named(xs[1..], names)
  }

  /** `n.find_all(names)` */
  function FindAll(n: Node, names: set<string>): seq<Node> {
    Named(Descendants(n), names)
  }

  /** `n.find(name)` */
  function Find(n: Node, name: string): Option<Node> {
    var found := FindAll(n, {name});
    if found == [] then None else Some(found[0])
  }

  /** `n.get(attr)`, with `None` for a missing attribute. */
  function Attr(n: Node, attr: string): Option<string> {
    if n.Tag? && attr in n.attrs then Some(n.attrs[attr]) else None
  }

  /** Python's `a or b` on two optional strings: `a` unless it is missing or empty. */
  function OrElse(a: Option<string>, b: Option<string>): Option<string> {
    if a.Some? && a.value != [] then a else b
  }

  /** The text strings under `n`, in document order. */
  function Strings(n: Node): seq<string> {
    if n.Text? then [n.text] else StringsOf(n.children)
  }

  function StringsOf(cs: seq<Node>): seq<string> {
    if cs == [] then [] else Strings(cs[0]) + StringsOf(cs[1..])
  }

  /** Each string stripped, the ones that strip to nothing dropped. */
  function StrippedVisible(ss: seq<string>): seq<string> {
    if ss == [] then []
    else Kept(ss[0]) + StrippedVisible(ss[1..])
  }

  /** `n.get_text(" ", strip=True)` */
  function GetText(n: Node): string {
    Join(StrippedVisible(Strings(n)), " ")
  }

  /** `get_text(" ", strip=True)` has no whitespace at either end, and is empty exactly when every
      string under the node is blank. */
  lemma GetTextSpec(n: Node)
    ensures Trimmed(GetText(n))
    ensures GetText(n) == [] <==> AllBlank(Strings(n))
  {
    StrippedVisibleEmpty(Strings(n));
    StrippedVisibleParts(Strings(n));
    JoinTrimmed(StrippedVisible(Strings(n)));
  }

  /** Every string is whitespace only. */
  predicate AllBlank(ss: seq<string>) {
    forall i :: 0 <= i < |ss| ==> AllSpace(ss[i])
  }

  lemma AllBlankCons(ss: seq<string>)
    requires ss != []
    ensures AllBlank(ss) <==> AllSpace(ss[0]) && AllBlank(ss[1..])
  {
    assert forall i :: 1 <= i < |ss| ==> ss[i] == ss[1..][i - 1];
  }

  lemma {:induction false} StrippedVisibleEmpty(ss: seq<string>)
    ensures StrippedVisible(ss) == [] <==> AllBlank(ss)
  {
    if ss != [] {
      StrippedVisibleEmpty(ss[1..]);
      StripEmpty(ss[0]);
      AllBlankCons(ss);
    }
  }

  /** Every string is non-empty and has no whitespace at its ends. */
  predicate AllParts(ps: seq<string>) {
    forall i :: 0 <= i < |ps| ==> ps[i] != [] && Trimmed(ps[i])
  }

  lemma AllPartsConcat(a: seq<string>, b: seq<string>)
    requires AllParts(a) && AllParts(b)
    ensures AllParts(a + b)
  {
    forall i | 0 <= i < |a + b| ensures (a + b)[i] != [] && Trimmed((a + b)[i]) {
      if i >= |a| {
        assert (a + b)[i] == b[i - |a|];
      }
    }
  }

  /** The strings one string contributes. */
  function Kept(x: string): seq<string> {
    if Strip(x) != [] then [Strip(x)] else []
  }

  lemma KeptParts(x: string)
    ensures AllParts(Kept(x))
  {
  }

  /** The kept strings are non-empty and have no whitespace at their ends. */
  lemma {:induction false} StrippedVisibleParts(ss: seq<string>)
    ensures AllParts(StrippedVisible(ss))
  {
    if ss != [] {
      StrippedVisibleParts(ss[1..]);
      KeptParts(ss[0]);
      AllPartsConcat(Kept(ss[0]), StrippedVisible(ss[1..]));
    }
  }

  /** Joining non-empty trimmed strings with a space gives a trimmed string, empty only for no parts. */
  lemma {:induction false} JoinTrimmed(ps: seq<string>)
    requires forall i :: 0 <= i < |ps| ==> ps[i] != [] && Trimmed(ps[i])
    ensures Trimmed(Join(ps, " ")) && (Join(ps, " ") == [] <==> ps == [])
    ensures ps != [] ==> Join(ps, " ")[0] == ps[0][0]
  {
    if |ps| > 1 {
      JoinTrimmed(ps[1..]);
      assert Join(ps, " ") == ps[0] + " " + Join(ps[1..], " ");
    }
  }

  /** CSS selectors of the forms `name`, `.class` and `#id`. */
  datatype Selector = ByName(name: string) | ByClass(cls: string) | ById(id: string)

  /** Whether a tag matches a selector; a class attribute holds whitespace-separated classes. */
  predicate Matches(n: Node, sel: Selector) {
    n.Tag? &&
    match sel
    case ByName(name) => n.name == name
    case ByClass(cls) => "class" in n.attrs && cls in Words(n.attrs["class"])
    case ById(id) => "id" in n.attrs && n.attrs["id"] == id
  }

  predicate MatchesAny(n: Node, sels: seq<Selector>) {
    exists k :: 0 <= k < |sels| && Matches(n, sels[k])
  }

  /** `xs[k]` matches one of `sels` and nothing before it does. */
  predicate FirstMatchAt(xs: seq<Node>, sels: seq<Selector>, k: int) {
    0 <= k < |xs| && MatchesAny(xs[k], sels) && forall j :: 0 <= j < k ==> !MatchesAny(xs[j], sels)
  }

  /** The first element of `xs` matching one of `sels`: the one at the earliest index that matches
      any selector, whichever selector it is. */
  function FirstMatching(xs: seq<Node>, sels: seq<Selector>): (r: Option<Node>)
    ensures r.Some? ==> exists k :: FirstMatchAt(xs, sels, k) && xs[k] == r.value
    ensures r.None? <==> forall i :: 0 <= i < |xs| ==> !MatchesAny(xs[i], sels)
  {
    if xs == [] then None
    else if MatchesAny(xs[0], sels) then
      assert FirstMatchAt(xs, sels, 0);
      Some(xs[0])
    else
      var r := FirstMatching(xs[1..], sels);
      assert forall i :: 1 <= i < |xs| ==> xs[i] == xs[1..][i - 1];
      assert r.Some? ==> exists k :: FirstMatchAt(xs, sels, k) && xs[k] == r.value by {
        if r.Some? {
          var k :| FirstMatchAt(xs[1..], sels, k) && xs[1..][k] == r.value;
          assert FirstMatchAt(xs, sels, k + 1);
        }
      }
      r
  }

  /** `n.select_one("s1, s2, ...")`: the first descendant in document order matching any of them. */
  function SelectOne(n: Node, sels: seq<Selector>): Option<Node> {
    FirstMatching(Descendants(n), sels)
  }

  /** `for el in n.select(sel): el.decompose()`: every element matching `sel` removed, with all
      that is inside it. */
  function Prune(n: Node, sel: Selector): Node {
    if n.Text? then n else Tag(n.name, n.attrs, PruneAll(n.children, sel))
  }

  function PruneAll(cs: seq<Node>, sel: Selector): seq<Node> {
    if cs == [] then []
    else (if Matches(cs[0], sel) then [] else [Prune(cs[0], sel)]) + PruneAll(cs[1..], sel)
  }

  /** No descendant of `n` matches `sel`. */
  predicate FreeOf(n: Node, sel: Selector) {
    n.Text? || FreeOfAll(n.children, sel)
  }

  predicate FreeOfAll(cs: seq<Node>, sel: Selector) {
    forall i :: 0 <= i < |cs| ==> !Matches(cs[i], sel) && FreeOf(cs[i], sel)
  }

  /** No element of `xs` matches `sel`. */
  predicate NoneMatch(xs: seq<Node>, sel: Selector) {
    forall i :: 0 <= i < |xs| ==> !Matches(xs[i], sel)
  }

  lemma NoneMatchConcat(a: seq<Node>, b: seq<Node>, sel: Selector)
    ensures NoneMatch(a + b, sel) <==> NoneMatch(a, sel) && NoneMatch(b, sel)
  {
    if NoneMatch(a, sel) && NoneMatch(b, sel) {
      forall i | 0 <= i < |a + b| ensures !Matches((a + b)[i], sel) {
        if i >= |a| { assert (a + b)[i] == b[i - |a|]; }
      }
    }
    if NoneMatch(a + b, sel) {
      forall i | 0 <= i < |a| ensures !Matches(a[i], sel) {
        assert (a + b)[i] == a[i];
      }
      forall i | 0 <= i < |b| ensures !Matches(b[i], sel) {
        assert (a + b)[|a| + i] == b[i];
      }
    }
  }

  lemma FreeOfAllCons(cs: seq<Node>, sel: Selector)
    requires cs != []
    ensures FreeOfAll(cs, sel) <==> !Matches(cs[0], sel) && FreeOf(cs[0], sel) && FreeOfAll(cs[1..], sel)
  {
    assert forall i :: 1 <= i < |cs| ==> cs[i] == cs[1..][i - 1];
  }

  /** `FreeOf` says what it should: no descendant matches. */
  lemma {:induction false} FreeOfDescendants(n: Node, sel: Selector)
    ensures FreeOf(n, sel) <==> NoneMatch(Descendants(n), sel)
  {
    if n.Tag? {
      FreeOfAllSubtrees(n.children, sel);
    }
  }

  lemma {:induction false} FreeOfAllSubtrees(cs: seq<Node>, sel: Selector)
    ensures FreeOfAll(cs, sel) <==> NoneMatch(SubtreesOf(cs), sel)
    decreases cs, 0
  {
    if cs != [] {
      var c, tail := cs[0], cs[1..];
      FreeOfDescendants(c, sel);
      FreeOfAllSubtrees(tail, sel);
      FreeOfAllCons(cs, sel);
      assert SubtreesOf(cs) == ([c] + Descendants(c)) + SubtreesOf(tail);
      NoneMatchConcat([c] + Descendants(c), SubtreesOf(tail), sel);
      NoneMatchConcat([c], Descendants(c), sel);
      assert NoneMatch([c], sel) <==> !Matches(c, sel) by {
        assert [c][0] == c;
      }
      assert NoneMatch(SubtreesOf(cs), sel) <==> !Matches(c, sel) && FreeOf(c, sel) && FreeOfAll(tail, sel);
    }
  }

  /** After pruning by `sel`, nothing under the node matches `sel`. */
  lemma {:induction false} PruneFrees(n: Node, sel: Selector)
    ensures FreeOf(Prune(n, sel), sel)
  {
    if n.Tag? {
      PruneAllFrees(n.children, sel);
    }
  }

  lemma {:induction false} PruneAllFrees(cs: seq<Node>, sel: Selector)
    ensures FreeOfAll(PruneAll(cs, sel), sel)
    decreases cs, 0
  {
    if cs != [] {
      PruneAllFrees(cs[1..], sel);
      if !Matches(cs[0], sel) {
        PruneFrees(cs[0], sel);
        var rest := PruneAll(cs[1..], sel);
        assert PruneAll(cs, sel) == [Prune(cs[0], sel)] + rest;
        assert forall i :: 1 <= i < |PruneAll(cs, sel)| ==> PruneAll(cs, sel)[i] == rest[i - 1];
      }
    }
  }

  /** Pruning only removes: what was free of `other` stays free of it. */
  lemma {:induction false} PruneKeepsFree(n: Node, sel: Selector, other: Selector)
    requires FreeOf(n, other)
    ensures FreeOf(Prune(n, sel), other)
  {
    if n.Tag? {
      PruneAllKeepsFree(n.children, sel, other);
    }
  }

  lemma {:induction false} PruneAllKeepsFree(cs: seq<Node>, sel: Selector, other: Selector)
    requires FreeOfAll(cs, other)
    ensures FreeOfAll(PruneAll(cs, sel), other)
    decreases cs, 0
  {
    if cs != [] {
      assert forall i :: 1 <= i < |cs| ==> cs[i] == cs[1..][i - 1];
      PruneAllKeepsFree(cs[1..], sel, other);
      if !Matches(cs[0], sel) {
        PruneKeepsFree(cs[0], sel, other);
        var rest := PruneAll(cs[1..], sel);
        assert Prune(cs[0], sel).Tag? ==> Prune(cs[0], sel).name == cs[0].name && Prune(cs[0], sel).attrs == cs[0].attrs;
        assert PruneAll(cs, sel) == [Prune(cs[0], sel)] + rest;
        assert forall i :: 1 <= i < |PruneAll(cs, sel)| ==> PruneAll(cs, sel)[i] == rest[i - 1];
      }
    }
  }

  /** The tree with the first descendant tag named `name` (in document order) decomposed,
      and whether there was one. */
  datatype Removal = Removal(node: Node, removed: bool)
  datatype RemovalAll = RemovalAll(nodes: seq<Node>, removed: bool)

  function RemoveFirst(n: Node, name: string): Removal {
    if n.Text? then Removal(n, false)
    else
      var r := RemoveFirstAll(n.children, name);
      Removal(Tag(n.name, n.attrs, r.nodes), r.removed)
  }

  function RemoveFirstAll(cs: seq<Node>, name: string): RemovalAll {
    if cs == [] then RemovalAll([], false)
    else if IsTagNamed(cs[0], {name}) then RemovalAll(cs[1..], true)
    else
      var r := RemoveFirst(cs[0], name);
      if r.removed then RemovalAll([r.node] + cs[1..], true)
      else
        var rest := RemoveFirstAll(cs[1..], name);
        RemovalAll([cs[0]] + rest.nodes, rest.removed)
  }

  /** `find(name).decompose()`: something is removed exactly when `find` finds a tag, and then
      exactly that tag's subtree goes; otherwise the tree is unchanged. */
  lemma {:induction false} RemoveFirstSpec(n: Node, name: string)
    ensures RemoveFirst(n, name).removed <==> Find(n, name).Some?
    ensures !RemoveFirst(n, name).removed ==> RemoveFirst(n, name).node == n
    ensures RemoveFirst(n, name).removed ==> Size(RemoveFirst(n, name).node) + Size(Find(n, name).value) == Size(n)
  {
    if n.Tag? {
      RemoveFirstAllSpec(n.children, name);
    }
  }

  lemma {:induction false} RemoveFirstAllSpec(cs: seq<Node>, name: string)
    ensures var r := RemoveFirstAll(cs, name); var found := Named(SubtreesOf(cs), {name});
      && (r.removed <==> found != [])
      && (!r.removed ==> r.nodes == cs)
      && (r.removed ==> SizeOf(r.nodes) + Size(found[0]) == SizeOf(cs))
    decreases cs, 0
  {
    if cs != [] {
      var c, tail := cs[0], cs[1..];
      NamedConcat([c] + Descendants(c), SubtreesOf(tail), {name});
      NamedConcat([c], Descendants(c), {name});
      if IsTagNamed(c, {name}) {
      } else {
        RemoveFirstSpec(c, name);
        RemoveFirstAllSpec(tail, name);
        SizeOfCons(RemoveFirst(c, name).node, tail);
        if !RemoveFirst(c, name).removed {
          SizeOfCons(c, RemoveFirstAll(tail, name).nodes);
          if !RemoveFirstAll(tail, name).removed {
            HeadTail(cs);
          }
        }
      }
    }
  }

  lemma SizeOfCons(c: Node, cs: seq<Node>)
    ensures SizeOf([c] + cs) == Size(c) + SizeOf(cs)
  {
    assert ([c] + cs)[1..] == cs;
  }

  lemma {:induction false} NamedConcat(a: seq<Node>, b: seq<Node>, names: set<string>)
    ensures Named(a + b, names) == Named(a, names) + Named(b, names)
  {
    if a != [] {
      NamedConcat(a[1..], b, names);
      assert (a + b)[1..] == a[1..] + b;
    } else {
      assert a + b == b;
    }
  }

  /** A node with its children dropped: what one position of a pre-order walk shows. */
  function Label(n: Node): Node {
    if n.Text? then n else Tag(n.name, n.attrs, [])
  }

  /** The labels of `xs`, in order. */
  function Labels(xs: seq<Node>): seq<Node> {
    if xs == [] then [] else [Label(xs[0])] + Labels(xs[1..])
  }

  lemma {:induction false} LabelsConcat(a: seq<Node>, b: seq<Node>)
    ensures Labels(a + b) == Labels(a) + Labels(b)
  {
    if a != [] {
      LabelsConcat(a[1..], b);
      assert (a + b)[1..] == a[1..] + b;
    } else {
      assert a + b == b;
    }
  }

  /** A label has the name and attributes of its node, so it keeps what `Named` sees of it. */
  lemma {:induction false} NamedLabels(xs: seq<Node>, names: set<string>)
    ensures Named(Labels(xs), names) == [] <==> Named(xs, names) == []
  {
    if xs != [] {
      NamedLabels(xs[1..], names);
    }
  }

  /** The pre-order walk of the tree rooted at `n`. */
  function Walk(n: Node): seq<Node> {
    Labels([n] + Descendants(n))
  }

  /** `after` is `before` with the walk of `h` cut out, and no tag named `name` comes before the
      cut. */
  ghost predicate Cut(before: seq<Node>, h: Node, after: seq<Node>, name: string) {
    CutOut(before, Walk(h), after, name)
  }

  ghost predicate CutOut(before: seq<Node>, w: seq<Node>, after: seq<Node>, name: string) {
    exists pre, post :: before == pre + w + post && after == pre + post && Named(pre, {name}) == []
  }

  /** A cut stays a cut with the same context on both sides, when the left context has no tag
      named `name`. */
  lemma CutExtend(a: seq<Node>, before: seq<Node>, after: seq<Node>, b: seq<Node>, w: seq<Node>, name: string)
    requires CutOut(before, w, after, name) && Named(a, {name}) == []
    ensures CutOut(a + before + b, w, a + after + b, name)
  {
    var pre, post :| before == pre + w + post && after == pre + post && Named(pre, {name}) == [];
    NamedConcat(a, pre, {name});
    var pre', post' := a + pre, post + b;
    AppendAssoc(a, pre + w, post);
    AppendAssoc(a, pre, w);
    AppendAssoc(pre' + w, post, b);
    AppendAssoc(a, pre, post);
    AppendAssoc(pre', post, b);
    assert a + before + b == pre' + w + post';
    assert a + after + b == pre' + post';
    assert Named(pre', {name}) == [];
  }

  lemma LabelsSubtrees(cs: seq<Node>)
    requires cs != []
    ensures Labels(SubtreesOf(cs)) == [Label(cs[0])] + Labels(Descendants(cs[0])) + Labels(SubtreesOf(cs[1..]))
  {
    LabelsConcat([cs[0]] + Descendants(cs[0]), SubtreesOf(cs[1..]));
    LabelsConcat([cs[0]], Descendants(cs[0]));
  }

  /** `find(name).decompose()` in document order: the walk of the new tree is the old walk with
      the found tag's own walk cut out, and no tag named `name` comes before the cut; the root
      keeps its name and attributes. */
  lemma {:induction false} RemoveFirstOrder(n: Node, name: string)
    ensures Label(RemoveFirst(n, name).node) == Label(n)
    ensures RemoveFirst(n, name).removed ==>
      (Find(n, name).Some? && Cut(Labels(Descendants(n)), Find(n, name).value, Labels(Descendants(RemoveFirst(n, name).node)), name))
  {
    RemoveFirstSpec(n, name);
    if n.Tag? {
      RemoveFirstAllOrder(n.children, name);
    }
  }

  lemma {:induction false} RemoveFirstAllOrder(cs: seq<Node>, name: string)
    ensures var r := RemoveFirstAll(cs, name); var found := Named(SubtreesOf(cs), {name});
      r.removed ==> (found != [] && Cut(Labels(SubtreesOf(cs)), found[0], Labels(SubtreesOf(r.nodes)), name))
    decreases cs, 0
  {
    RemoveFirstAllSpec(cs, name);
    if cs != [] {
      var c, tail := cs[0], cs[1..];
      var r := RemoveFirstAll(cs, name);
      var found := Named(SubtreesOf(cs), {name});
      NamedConcat([c] + Descendants(c), SubtreesOf(tail), {name});
      NamedConcat([c], Descendants(c), {name});
      LabelsSubtrees(cs);
      if IsTagNamed(c, {name}) {
        LabelsConcat([c], Descendants(c));
        assert Labels(SubtreesOf(cs)) == [] + Walk(c) + Labels(SubtreesOf(tail));
        assert CutOut(Labels(SubtreesOf(cs)), Walk(c), Labels(SubtreesOf(tail)), name);
      } else {
        var rc := RemoveFirst(c, name);
        RemoveFirstOrder(c, name);
        NamedConcat([Label(c)], [], {name});
        if rc.removed {
          assert found[0] == Find(c, name).value;
          assert r.nodes == [rc.node] + tail;
          LabelsSubtrees(r.nodes);
          CutExtend([Label(c)], Labels(Descendants(c)), Labels(Descendants(rc.node)), Labels(SubtreesOf(tail)), Walk(found[0]), name);
        } else if r.removed {
          var rest := RemoveFirstAll(tail, name);
          RemoveFirstAllOrder(tail, name);
          assert r.nodes == [c] + rest.nodes;
          LabelsSubtrees(r.nodes);
          LabelsConcat([c], Descendants(c));
          NamedLabels([c] + Descendants(c), {name});
          RemoveFirstSpec(c, name);
          assert Named([c] + Descendants(c), {name}) == [];
          assert found[0] == Named(SubtreesOf(tail), {name})[0];
          CutExtend(Walk(c), Labels(SubtreesOf(tail)), Labels(SubtreesOf(rest.nodes)), [], Walk(found[0]), name);
          assert Walk(c) == [Label(c)] + Labels(Descendants(c));
        }
      }
    }
  }

  /** `find(name).decompose()` only removes: what was free of `sel` stays free of it. */
  lemma {:induction false} RemoveFirstKeepsFree(n: Node, name: string, sel: Selector)
    requires FreeOf(n, sel)
    ensures FreeOf(RemoveFirst(n, name).node, sel)
  {
    if n.Tag? {
      RemoveFirstAllKeepsFree(n.children, name, sel);
    }
  }

  lemma {:induction false} RemoveFirstAllKeepsFree(cs: seq<Node>, name: string, sel: Selector)
    requires FreeOfAll(cs, sel)
    ensures FreeOfAll(RemoveFirstAll(cs, name).nodes, sel)
    decreases cs, 0
  {
    if cs != [] {
      var c, tail := cs[0], cs[1..];
      FreeOfAllCons(cs, sel);
      RemoveFirstAllKeepsFree(tail, name, sel);
      if !IsTagNamed(c, {name}) {
        var rc := RemoveFirst(c, name);
        RemoveFirstKeepsFree(c, name, sel);
        assert rc.node.Tag? ==> rc.node.name == c.name && rc.node.attrs == c.attrs;
        var nodes := RemoveFirstAll(cs, name).nodes;
        if rc.removed {
          assert nodes == [rc.node] + tail;
          assert forall i :: 1 <= i < |nodes| ==> nodes[i] == tail[i - 1];
        } else {
          var rest := RemoveFirstAll(tail, name).nodes;
          assert nodes == [c] + rest;
          assert forall i :: 1 <= i < |nodes| ==> nodes[i] == rest[i - 1];
        }
      }
    }
  }

  /** Freedom from `sel` passes down to every descendant. */
  lemma {:induction false} FreeOfDescendant(n: Node, m: Node, sel: Selector)
    requires FreeOf(n, sel) && m in Descendants(n)
    ensures FreeOf(m, sel)
  {
    FreeOfAllDescendant(n.children, m, sel);
  }

  lemma {:induction false} FreeOfAllDescendant(cs: seq<Node>, m: Node, sel: Selector)
    requires FreeOfAll(cs, sel) && m in SubtreesOf(cs)
    ensures FreeOf(m, sel)
    decreases cs, 0
  {
    FreeOfAllCons(cs, sel);
    if m in Descendants(cs[0]) {
      FreeOfDescendant(cs[0], m, sel);
    } else if m in SubtreesOf(cs[1..]) {
      FreeOfAllDescendant(cs[1..], m, sel);
    }
  }

  /** What `Named` picks comes from the sequence it picks from. */
  lemma {:induction false} NamedIn(xs: seq<Node>, names: set<string>, x: Node)
    requires x in Named(xs, names)
    ensures x in xs
  {
    if x != xs[0] {
      NamedIn(xs[1..], names, x);
    }
  }
}
