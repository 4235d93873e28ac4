/**
 * `clean_final_text` (src/boe_sumario_text_json.py:60-66): NFKC normalisation,
 * `[ \t]+` -> one space, `\n{3,}` -> two newlines, then `strip()`.
 */
module Normalizer {
  import opened PyStr
  import opened Seqs

  /** NFKC on one character: the compatibility mappings of the no-break and typographic
      spaces (U+00A0, U+2000..U+200A, U+202F, U+205F, U+3000) to U+0020 and of the
      fullwidth forms U+FF01..U+FF5E to ASCII; every other character is taken to be
      normalised already. */
  function NfkcChar(c: char): char {
    if c == '\U{00A0}' || ('\U{2000}' <= c <= '\U{200A}') || c == '\U{202F}' || c == '\U{205F}' || c == '\U{3000}' then ' '
    else if '\U{FF01}' <= c <= '\U{FF5E}' then (c as int - 0xFEE0) as char
    else c
  }

  /** `unicodedata.normalize("NFKC", s)` on the mappings `NfkcChar` covers. */
  function Nfkc(s: string): (r: string)
    ensures |r| == |s|
    ensures forall i :: 0 <= i < |s| ==> r[i] == NfkcChar(s[i])
  {
    seq(|s|, i requires 0 <= i < |s| => NfkcChar(s[i]))
  }

  /** Every character is its own NFKC image. */
  predicate NfkcStable(s: string) {
    forall i :: 0 <= i < |s| ==> NfkcChar(s[i]) == s[i]
  }

  /** NFKC output is stable, and a character is whitespace exactly when its image is. */
  lemma NfkcFacts(s: string)
    ensures NfkcStable(Nfkc(s))
    ensures AllSpace(Nfkc(s)) <==> AllSpace(s)
  {
    var r := Nfkc(s);
    if AllSpace(r) {
      forall i | 0 <= i < |s| ensures IsSpace(s[i]) { assert IsSpace(r[i]); }
    }
  }

  lemma NfkcOfStable(s: string)
    requires NfkcStable(s)
    ensures Nfkc(s) == s
  {
  }

  predicate IsBlank(c: char) { c == ' ' || c == '\t' }

  predicate NoTab(s: string) {
    forall i :: 0 <= i < |s| ==> s[i] != '\t'
  }

  predicate NoDoubleSpace(s: string) {
    forall i | 0 <= i < |s| :: !DoubleSpaceAt(s, i)
  }

  /** Three newlines start at position `i`. */
  predicate TripleNewlineAt(s: string, i: int) {
    0 <= i < |s| - 2 && s[i] == '\n' && s[i + 1] == '\n' && s[i + 2] == '\n'
  }

  predicate NoTripleNewline(s: string) {
    forall i | 0 <= i < |s| :: !TripleNewlineAt(s, i)
  }

  /** What `clean_final_text` guarantees of its result. */
  predicate IsClean(s: string) {
    Trimmed(s) && NoTab(s) && NoDoubleSpace(s) && NoTripleNewline(s) && NfkcStable(s)
  }

  /** Length of the leading run of spaces and tabs. */
  function BlankRun(s: string): (n: nat)
    ensures n <= |s|
    ensures forall i :: 0 <= i < n ==> IsBlank(s[i])
    ensures n < |s| ==> !IsBlank(s[n])
  {
    if s != [] && IsBlank(s[0]) then 1 + BlankRun(s[1..]) else 0
  }

  /** `re.sub(r'[ \t]+', ' ', s)`: every maximal run of spaces and tabs becomes one space. */
  function CollapseBlanks(s: string): (r: string)
    ensures r == [] <==> s == []
    ensures r != [] ==> r[0] == (if IsBlank(s[0]) then ' ' else s[0])
    decreases |s|
  {
    if s == [] then []
    else if IsBlank(s[0]) then [' '] + CollapseBlanks(s[BlankRun(s)..])
    else [s[0]] + CollapseBlanks(s[1..])
  }

  /** Length of the leading run of newlines. */
  function NewlineRun(s: string): (n: nat)
    ensures n <= |s|
    ensures forall i :: 0 <= i < n ==> s[i] == '\n'
    ensures n < |s| ==> s[n] != '\n'
  {
    if s != [] && s[0] == '\n' then 1 + NewlineRun(s[1..]) else 0
  }

  /** `re.sub(r'\n{3,}', '\n\n', s)`: every run of three or more newlines becomes two. */
  function CollapseNewlines(s: string): (r: string)
    ensures r == [] <==> s == []
    ensures r != [] ==> r[0] == s[0]
    decreases |s|
  {
    if s == [] then []
    else
      var k := NewlineRun(s);
      if k >= 3 then "\n\n" + CollapseNewlines(s[k..])
      else if k > 0 then s[..k] + CollapseNewlines(s[k..])
      else [s[0]] + CollapseNewlines(s[1..])
  }

  /** `clean_final_text(text)`. */
  function CleanFinalText(text: string): string {
    if text == [] then []
    else Strip(CollapseNewlines(CollapseBlanks(Nfkc(text))))
  }

  /** `clean_final_text` returns clean text: stripped, no tabs, no two spaces or three newlines in
      a row, NFKC-stable; it is empty exactly when the input is all whitespace. */
  lemma CleanFinalTextSpec(text: string)
    ensures text == [] ==> CleanFinalText(text) == []
    ensures IsClean(CleanFinalText(text))
    ensures CleanFinalText(text) == [] <==> AllSpace(text)
  {
    if text != [] {
      CleanPasses(text);
    }
  }

  lemma CleanPasses(text: string)
    ensures IsClean(Strip(CollapseNewlines(CollapseBlanks(Nfkc(text)))))
    ensures Strip(CollapseNewlines(CollapseBlanks(Nfkc(text)))) == [] <==> AllSpace(text)
  {
    var t1 := Nfkc(text);
    var t2 := CollapseBlanks(t1);
    var t3 := CollapseNewlines(t2);
    NfkcFacts(text);
    BlanksShape(t1);
    BlanksKeep(t1);
    NewlinesShape(t2);
    NewlinesKeep(t2);
    StripSlice(t3);
    StripEmpty(t3);
  }

  /** The result of `CollapseBlanks` has no tab and no two spaces in a row. */
  lemma {:induction false} BlanksShape(s: string)
    ensures NoTab(CollapseBlanks(s)) && NoDoubleSpace(CollapseBlanks(s))
    decreases |s|
  {
    if s != [] {
      if IsBlank(s[0]) {
        var k := BlankRun(s);
        BlanksShape(s[k..]);
        ConsShape(' ', CollapseBlanks(s[k..]));
      } else {
        BlanksShape(s[1..]);
        ConsShape(s[0], CollapseBlanks(s[1..]));
      }
    }
  }

  /** `CollapseBlanks` keeps NFKC stability, and whitespace-only input gives whitespace-only output and back. */
  lemma {:induction false} BlanksKeep(s: string)
    ensures NfkcStable(s) ==> NfkcStable(CollapseBlanks(s))
    ensures AllSpace(CollapseBlanks(s)) <==> AllSpace(s)
    decreases |s|
  {
    if s != [] {
      var k := if IsBlank(s[0]) then BlankRun(s) else 1;
      var c := if IsBlank(s[0]) then ' ' else s[0];
      BlanksKeep(s[k..]);
      assert s == s[..k] + s[k..];
      assert AllSpace(s[..k]) <==> IsSpace(c);
      assert NfkcStable(s) ==> NfkcStable(s[k..]) && NfkcChar(c) == c;
      CharClasses([c], CollapseBlanks(s[k..]));
      CharClasses(s[..k], s[k..]);
    }
  }

  /** The result of `CollapseNewlines` has no three newlines in a row, and the pass adds no tab or double space. */
  lemma {:induction false} NewlinesShape(s: string)
    ensures NoTripleNewline(CollapseNewlines(s))
    ensures NoTab(s) ==> NoTab(CollapseNewlines(s))
    ensures NoDoubleSpace(s) ==> NoDoubleSpace(CollapseNewlines(s))
    decreases |s|
  {
    if s != [] {
      var k := NewlineRun(s);
      if k > 0 {
        var head := if k >= 3 then "\n\n" else s[..k];
        var rest := CollapseNewlines(s[k..]);
        NewlinesShape(s[k..]);
        SuffixKeeps(s, k);
        assert forall i :: 0 <= i < |head| ==> head[i] == '\n';
        NewlineBlock(head, rest);
        assert CollapseNewlines(s) == head + rest;
      } else {
        var rest := CollapseNewlines(s[1..]);
        NewlinesShape(s[1..]);
        SuffixKeeps(s, 1);
        assert NoDoubleSpace(s) && s[0] == ' ' && rest != [] ==> rest[0] != ' ' by {
          if NoDoubleSpace(s) && s[0] == ' ' && rest != [] {
            assert rest[0] == s[1];
            assert !DoubleSpaceAt(s, 0);
          }
        }
        ConsShape(s[0], rest);
        assert NoTripleNewline([s[0]] + rest);
      }
    }
  }

  /** `CollapseNewlines` keeps NFKC stability, and whitespace-only input gives whitespace-only output and back. */
  lemma {:induction false} NewlinesKeep(s: string)
    ensures NfkcStable(s) ==> NfkcStable(CollapseNewlines(s))
    ensures AllSpace(CollapseNewlines(s)) <==> AllSpace(s)
    decreases |s|
  {
    if s != [] {
      var k' := NewlinesStep(s);
      var head := CollapseNewlines(s)[..|CollapseNewlines(s)| - |CollapseNewlines(s[k'..])|];
      NewlinesKeep(s[k'..]);
      CharClasses(head, CollapseNewlines(s[k'..]));
      CharClasses(s[..k'], s[k'..]);
      assert s == s[..k'] + s[k'..];
    }
  }

  /** One step of `CollapseNewlines`: the prefix it emits for the first `k` characters
      consists of those characters or of two of them. */
  lemma NewlinesStep(s: string) returns (k: nat)
    requires s != []
    ensures 0 < k <= |s|
    ensures var r := CollapseNewlines(s); var rest := CollapseNewlines(s[k..]);
      |rest| <= |r| && r == r[..|r| - |rest|] + rest
      && (NfkcStable(s[..k]) ==> NfkcStable(r[..|r| - |rest|]))
      && (AllSpace(r[..|r| - |rest|]) <==> AllSpace(s[..k]))
  {
    var n := NewlineRun(s);
    k := if n > 0 then n else 1;
    var r := CollapseNewlines(s);
    var rest := CollapseNewlines(s[k..]);
    var head := if n >= 3 then "\n\n" else s[..k];
    assert r == head + rest;
    assert r[..|r| - |rest|] == head;
    if n >= 3 {
      assert s[0] == '\n';
      assert NfkcStable(head) && AllSpace(head) && AllSpace(s[..k]);
    }
  }

  /** Both character-class predicates split over concatenation. */
  lemma CharClasses(a: string, b: string)
    ensures NfkcStable(a + b) <==> NfkcStable(a) && NfkcStable(b)
    ensures AllSpace(a + b) <==> AllSpace(a) && AllSpace(b)
  {
    var ab := a + b;
    assert forall i :: 0 <= i < |b| ==> ab[|a| + i] == b[i];
    assert forall i :: 0 <= i < |a| ==> ab[i] == a[i];
    assert forall i :: |a| <= i < |ab| ==> ab[i] == b[i - |a|];
  }

  lemma ConsShape(c: char, r: string)
    ensures c != '\t' && NoTab(r) ==> NoTab([c] + r)
    ensures NoDoubleSpace(r) && (c == ' ' && r != [] ==> r[0] != ' ') ==> NoDoubleSpace([c] + r)
    ensures c != '\n' && NoTripleNewline(r) ==> NoTripleNewline([c] + r)
  {
    var t := [c] + r;
    assert forall i :: 0 < i < |t| ==> t[i] == r[i - 1];
    if NoDoubleSpace(r) && (c == ' ' && r != [] ==> r[0] != ' ') {
      forall i | 0 <= i < |t| ensures !DoubleSpaceAt(t, i) {
        if i > 0 { assert !DoubleSpaceAt(r, i - 1); }
      }
    }
    if c != '\n' && NoTripleNewline(r) {
      forall i | 0 <= i < |t| ensures !TripleNewlineAt(t, i) {
        if i > 0 { assert !TripleNewlineAt(r, i - 1); }
      }
    }
  }

  lemma NewlineBlock(head: string, rest: string)
    requires 0 < |head| <= 2 && forall i :: 0 <= i < |head| ==> head[i] == '\n'
    requires rest != [] ==> rest[0] != '\n'
    requires NoTripleNewline(rest)
    ensures NoTripleNewline(head + rest)
    ensures NoTab(rest) ==> NoTab(head + rest)
    ensures NoDoubleSpace(rest) ==> NoDoubleSpace(head + rest)
  {
    var r := head + rest;
    var h := |head|;
    assert forall i :: h <= i < |r| ==> r[i] == rest[i - h];
    forall i | 0 <= i < |r| ensures !TripleNewlineAt(r, i) {
      if i >= h { assert !TripleNewlineAt(rest, i - h); }
      else { assert h < |r| ==> r[h] == rest[0]; }
    }
    if NoDoubleSpace(rest) {
      forall i | 0 <= i < |r| ensures !DoubleSpaceAt(r, i) {
        if i >= h { assert !DoubleSpaceAt(rest, i - h); }
      }
    }
  }

  /** `Strip(s)` is a slice of `s`, so slice-closed properties carry over. */
  lemma StripSlice(s: string)
    ensures NoTab(s) ==> NoTab(Strip(s))
    ensures NoDoubleSpace(s) ==> NoDoubleSpace(Strip(s))
    ensures NoTripleNewline(s) ==> NoTripleNewline(Strip(s))
    ensures NfkcStable(s) ==> NfkcStable(Strip(s))
  {
    var a := StripIsSlice(s);
    SliceKeeps(s, a, a + |Strip(s)|);
  }

  lemma StripIsSlice(s: string) returns (a: nat)
    ensures a + |Strip(s)| <= |s| && Strip(s) == s[a..a + |Strip(s)|]
  {
    var l := LStrip(s);
    var r := RStrip(l);
    a := |s| - |l|;
    assert l == s[a..];
    assert r == l[..|r|];
    assert s[a..][..|r|] == s[a..a + |r|];
    assert Strip(s) == r;
  }

  lemma SuffixKeeps(s: string, a: nat)
    requires a <= |s|
    ensures NoTab(s) ==> NoTab(s[a..])
    ensures NoDoubleSpace(s) ==> NoDoubleSpace(s[a..])
    ensures NoTripleNewline(s) ==> NoTripleNewline(s[a..])
    ensures NfkcStable(s) ==> NfkcStable(s[a..])
  {
    SliceKeeps(s, a, |s|);
    assert s[a..|s|] == s[a..];
  }

  lemma SliceKeeps(s: string, a: nat, b: nat)
    requires a <= b <= |s|
    ensures NoTab(s) ==> NoTab(s[a..b])
    ensures NoDoubleSpace(s) ==> NoDoubleSpace(s[a..b])
    ensures NoTripleNewline(s) ==> NoTripleNewline(s[a..b])
    ensures NfkcStable(s) ==> NfkcStable(s[a..b])
  {
    var t := s[a..b];
    assert forall i :: 0 <= i < |t| ==> t[i] == s[a + i];
    if NoDoubleSpace(s) {
      forall i | 0 <= i < |t| ensures !DoubleSpaceAt(t, i) { assert !DoubleSpaceAt(s, a + i); }
    }
    if NoTripleNewline(s) {
      forall i | 0 <= i < |t| ensures !TripleNewlineAt(t, i) { assert !TripleNewlineAt(s, a + i); }
    }
  }

  /** Text that is already clean is left unchanged; together with the contract of
      `CleanFinalText` this makes the clean strings exactly its fixed points. */
  lemma CleanFixedPoint(s: string)
    ensures CleanFinalText(s) == s <==> IsClean(s)
  {
    CleanFinalTextSpec(s);
    if IsClean(s) && s != [] {
      NfkcOfStable(s);
      BlanksIdentity(s);
      NewlinesIdentity(s);
      StripTrimmed(s);
    }
  }

  /** `clean_final_text` is idempotent. */
  lemma CleanIdempotent(s: string)
    ensures CleanFinalText(CleanFinalText(s)) == CleanFinalText(s)
  {
    CleanFinalTextSpec(s);
    CleanFixedPoint(CleanFinalText(s));
  }

  lemma {:induction false} BlanksIdentity(s: string)
    requires NoTab(s) && NoDoubleSpace(s)
    ensures CollapseBlanks(s) == s
    decreases |s|
  {
    if s != [] {
      SuffixKeeps(s, 1);
      BlanksIdentity(s[1..]);
      if IsBlank(s[0]) {
        assert !DoubleSpaceAt(s, 0);
        assert |s| > 1 ==> s[1] != ' ' && s[1] != '\t';
        assert BlankRun(s) == 1;
      }
      HeadTail(s);
    }
  }

  lemma {:induction false} NewlinesIdentity(s: string)
    requires NoTripleNewline(s)
    ensures CollapseNewlines(s) == s
    decreases |s|
  {
    if s != [] {
      var k := NewlineRun(s);
      var k' := if k > 0 then k else 1;
      assert !TripleNewlineAt(s, 0);
      assert k < 3;
      SuffixKeeps(s, k');
      NewlinesIdentity(s[k'..]);
      if k > 0 {
        assert CollapseNewlines(s) == s[..k] + CollapseNewlines(s[k..]);
      } else {
        assert CollapseNewlines(s) == [s[0]] + CollapseNewlines(s[1..]);
        assert s[..1] == [s[0]];
      }
      assert s == s[..k'] + s[k'..];
    }
  }
}
