/**
 * The parts of Python's `str` that the pipeline relies on, over `seq<char>`:
 * `isspace`, `strip`/`lstrip`/`rstrip` without arguments, `s.split()` and
 * `" ".join(...)`, `startswith`, the substring test `kw in t` and `lower()`.
 */
module PyStr {
  import opened Seqs

  /** Python's `str.isspace()` for one character (the set `split()` and `strip()` use). */
  predicate IsSpace(c: char) {
    || c == ' ' || ('\t' <= c <= '\r') || ('\U{001C}' <= c <= '\U{001F}')
    || c == '\U{0085}' || c == '\U{00A0}' || c == '\U{1680}'
    || ('\U{2000}' <= c <= '\U{200A}') || c == '\U{2028}' || c == '\U{2029}'
    || c == '\U{202F}' || c == '\U{205F}' || c == '\U{3000}'
  }

  /** No whitespace at either end. */
  predicate Trimmed(s: string) {
    s == [] || (!IsSpace(s[0]) && !IsSpace(s[|s| - 1]))
  }

  /** Every character is whitespace (so `s.strip() == ""`). */
  predicate AllSpace(s: string) {
    forall i :: 0 <= i < |s| ==> IsSpace(s[i])
  }

  /** `s.lstrip()` */
  function LStrip(s: string): (r: string)
    ensures |r| <= |s| && r == s[|s| - |r|..]
    ensures AllSpace(s[..|s| - |r|])
    ensures r == [] || !IsSpace(r[0])
  {
    if s != [] && IsSpace(s[0]) then
      var r := LStrip(s[1..]);
      assert s[..|s| - |r|] == [s[0]] + s[1..][..|s| - 1 - |r|];
      r
    else s
  }

  /** `s.rstrip()` */
  function RStrip(s: string): (r: string)
    ensures |r| <= |s| && r == s[..|r|]
    ensures AllSpace(s[|r|..])
    ensures r == [] || !IsSpace(r[|r| - 1])
  {
    if s != [] && IsSpace(s[|s| - 1]) then
      var r := RStrip(s[..|s| - 1]);
      assert s[|r|..] == s[..|s| - 1][|r|..] + [s[|s| - 1]];
      r
    else s
  }

  /** `s.strip()` */
  function Strip(s: string): (r: string)
    ensures Trimmed(r)
    ensures |r| <= |s|
  {
    var l := LStrip(s);
    var r := RStrip(l);
    assert r != [] ==> r[0] == l[0];
    r
  }

  /** `s.strip()` is `s` with its leading and trailing whitespace removed, and nothing else: what
      is left has no whitespace at its ends, and what went was whitespace on either side of it. */
  lemma StripSpec(s: string)
    ensures Trimmed(Strip(s))
    ensures exists a, b :: s == a + Strip(s) + b && AllSpace(a) && AllSpace(b)
  {
    StripParts(s, LStrip(s), Strip(s));
  }

  /** Whitespace taken off the front and then off the back lies at the two ends. */
  lemma StripParts(s: string, l: string, r: string)
    requires |l| <= |s| && l == s[|s| - |l|..] && AllSpace(s[..|s| - |l|])
    requires |r| <= |l| && r == l[..|r|] && AllSpace(l[|r|..])
    ensures exists a, b :: s == a + r + b && AllSpace(a) && AllSpace(b)
  {
    var front, back := s[..|s| - |l|], l[|r|..];
    assert l == r + back;
    assert s == front + l;
    assert s == front + r + back;
  }

  /** `s.strip()` is empty exactly when `s` is all whitespace. */
  lemma StripEmpty(s: string)
    ensures Strip(s) == [] <==> AllSpace(s)
  {
    var l := LStrip(s);
    var r := RStrip(l);
    if r == [] {
      assert AllSpace(l) by { assert l[|r|..] == l; }
      assert l == [];
      assert s[..|s|] == s;
    }
  }

  /** A string with no whitespace at its ends is its own strip. */
  lemma StripTrimmed(s: string)
    requires Trimmed(s)
    ensures Strip(s) == s
  {
  }

  /** Stripping is idempotent. */
  lemma StripIdempotent(s: string)
    ensures Strip(Strip(s)) == Strip(s)
  {
  }

  /** Length of the leading run of non-whitespace characters. */
  function WordLength(s: string): (n: nat)
    ensures n <= |s|
    ensures forall i :: 0 <= i < n ==> !IsSpace(s[i])
    ensures n < |s| ==> IsSpace(s[n])
  {
    if s != [] && !IsSpace(s[0]) then 1 + WordLength(s[1..]) else 0
  }

  /** A non-empty run of non-whitespace characters. */
  predicate IsWord(w: string) {
    w != [] && forall i :: 0 <= i < |w| ==> !IsSpace(w[i])
  }

  /** `s.split()`: the maximal runs of non-whitespace characters, in order. */
  function Words(s: string): (ws: seq<string>)
    ensures forall k :: 0 <= k < |ws| ==> IsWord(ws[k])
    decreases |s|
  {
    var t := LStrip(s);
    if t == [] then []
    else
      var n := WordLength(t);
      assert n > 0 by { assert !IsSpace(t[0]); }
      AllConcat([t[..n]], Words(t[n..]), IsWord);
      [t[..n]] + Words(t[n..])
  }

  /** `s.split()` is empty exactly when `s` is all whitespace. */
  lemma WordsEmpty(s: string)
    ensures Words(s) == [] <==> AllSpace(s)
  {
    var t := LStrip(s);
    if t == [] {
      assert s[..|s|] == s;
    } else {
      assert !IsSpace(s[|s| - |t|]);
    }
  }

  /** `" ".join(s.split())`: the words of `s` separated by single spaces. */
  function CollapseWs(s: string): string {
    Join(Words(s), " ")
  }

  /** `" ".join(s.split())` is collapsed, and empty exactly when `s` is all whitespace. */
  lemma CollapseWsSpec(s: string)
    ensures Collapsed(CollapseWs(s))
    ensures CollapseWs(s) == [] <==> AllSpace(s)
  {
    JoinWordsCollapsed(Words(s));
    WordsEmpty(s);
  }

  /** Trimmed, with no whitespace character but the ASCII space, and no two spaces in a row. */
  predicate Collapsed(s: string) {
    && Trimmed(s)
    && (forall i :: 0 <= i < |s| && IsSpace(s[i]) ==> s[i] == ' ')
    && (forall i | 0 <= i < |s| :: !DoubleSpaceAt(s, i))
  }

  /** Two spaces start at position `i`. */
  predicate DoubleSpaceAt(s: string, i: int) {
    0 <= i < |s| - 1 && s[i] == ' ' && s[i + 1] == ' '
  }

  /** `sep.join(parts)` */
  function Join(parts: seq<string>, sep: string): string {
    if parts == [] then []
    else if |parts| == 1 then parts[0]
    else parts[0] + sep + Join(parts[1..], sep)
  }

  /** Joining words with single spaces gives a collapsed string, empty only for no words. */
  lemma {:induction false} JoinWordsCollapsed(ws: seq<string>)
    requires forall k :: 0 <= k < |ws| ==> IsWord(ws[k])
    ensures Collapsed(Join(ws, " "))
    ensures Join(ws, " ") == [] <==> ws == []
    ensures ws != [] ==> Join(ws, " ")[0] == ws[0][0]
  {
    if |ws| > 1 {
      var w, tail := ws[0], Join(ws[1..], " ");
      JoinWordsCollapsed(ws[1..]);
      var r := w + " " + tail;
      assert IsWord(w);
      assert forall i :: 0 <= i < |w| ==> r[i] == w[i];
      assert r[|w|] == ' ';
      assert forall i :: |w| < i < |r| ==> r[i] == tail[i - |w| - 1];
      assert tail[0] == ws[1][0] && IsWord(ws[1]);
      forall i | 0 <= i < |r| ensures !DoubleSpaceAt(r, i) {
        if i > |w| { assert !DoubleSpaceAt(tail, i - |w| - 1); }
      }
    }
  }

  /** Splitting undoes joining words with single spaces. */
  lemma {:induction false} WordsOfJoin(ws: seq<string>)
    requires forall k :: 0 <= k < |ws| ==> IsWord(ws[k])
    ensures Words(Join(ws, " ")) == ws
  {
    if |ws| == 1 {
      WordsSingle(ws[0]);
    } else if |ws| > 1 {
      var tail := Join(ws[1..], " ");
      assert Join(ws, " ") == ws[0] + " " + tail;
      JoinWordsCollapsed(ws[1..]);
      assert IsWord(ws[0]) && IsWord(ws[1]);
      assert tail != [] && !IsSpace(tail[0]);
      WordsOfJoin(ws[1..]);
      WordsCons(ws[0], tail);
      HeadTail(ws);
    }
  }

  lemma WordsSingle(w: string)
    requires IsWord(w)
    ensures Words(w) == [w]
  {
    WordAll(w);
    assert w[|w|..] == [];
    assert w[..|w|] == w;
  }

  lemma WordsCons(w: string, tail: string)
    requires IsWord(w) && tail != [] && !IsSpace(tail[0])
    ensures Words(w + " " + tail) == [w] + Words(tail)
  {
    var r := w + " " + tail;
    assert r == w + (" " + tail);
    WordPrefix(w, " " + tail);
    WordsVisibleStart(r);
    assert r[|w|..] == " " + tail;
    WordsLeadingSpace(" " + tail);
    assert (" " + tail)[1..] == tail;
  }

  lemma WordsVisibleStart(r: string)
    requires r != [] && !IsSpace(r[0])
    ensures Words(r) == [r[..WordLength(r)]] + Words(r[WordLength(r)..])
  {
    assert LStrip(r) == r;
  }

  lemma WordsLeadingSpace(x: string)
    requires x != [] && IsSpace(x[0])
    ensures Words(x) == Words(x[1..])
  {
    assert LStrip(x) == LStrip(x[1..]);
  }

  lemma WordAll(w: string)
    requires IsWord(w)
    ensures WordLength(w) == |w|
    decreases |w|
  {
    if |w| > 1 { WordAll(w[1..]); }
  }

  lemma WordPrefix(w: string, rest: string)
    requires IsWord(w) && rest != [] && IsSpace(rest[0])
    ensures WordLength(w + rest) == |w| && (w + rest)[..|w|] == w
    decreases |w|
  {
    if |w| > 1 {
      WordPrefix(w[1..], rest);
      assert (w + rest)[1..] == w[1..] + rest;
    } else {
      assert (w + rest)[1..] == rest;
    }
  }

  /** `" ".join(s.split())` is idempotent. */
  lemma CollapseWsIdempotent(s: string)
    ensures CollapseWs(CollapseWs(s)) == CollapseWs(s)
  {
    WordsOfJoin(Words(s));
  }

  /** `s.startswith(p)` */
  predicate StartsWith(s: string, p: string) {
    |p| <= |s| && s[..|p|] == p
  }

  /** `kw` occurs in `t` at position `i`. */
  predicate OccursAt(t: string, kw: string, i: int) {
    0 <= i <= |t| - |kw| && t[i..i + |kw|] == kw
  }

  /** Python's `kw in t` on strings. */
  predicate Contains(t: string, kw: string)
    decreases |t|
  {
    StartsWith(t, kw) || (t != [] && Contains(t[1..], kw))
  }

  /** `Contains` is the substring relation. */
  lemma {:induction false} ContainsAt(t: string, kw: string)
    ensures Contains(t, kw) <==> exists i :: OccursAt(t, kw, i)
    decreases |t|
  {
    if t != [] {
      ContainsAt(t[1..], kw);
      if StartsWith(t, kw) { assert OccursAt(t, kw, 0); }
      if OccursAt(t, kw, 0) { assert t[..|kw|] == t[0..|kw|]; }
      if exists i :: OccursAt(t, kw, i) {
        var i :| OccursAt(t, kw, i);
        if i > 0 {
          assert t[1..][i - 1..i - 1 + |kw|] == t[i..i + |kw|];
          assert OccursAt(t[1..], kw, i - 1);
        }
      }
      if Contains(t[1..], kw) {
        var i :| OccursAt(t[1..], kw, i);
        assert t[i + 1..i + 1 + |kw|] == t[1..][i..i + |kw|];
        assert OccursAt(t, kw, i + 1);
      }
    } else {
      if StartsWith(t, kw) { assert OccursAt(t, kw, 0); }
    }
  }

  /** The capitals `LowerChar` maps to small letters: ASCII and Latin-1 (U+00C0..U+00DE except the
      multiplication sign). */
  predicate IsUpper(c: char) {
    'A' <= c <= 'Z' || ('\U{00C0}' <= c <= '\U{00DE}' && c != '\U{00D7}')
  }

  /** `c.lower()` for the characters BOE titles use: ASCII and Latin-1 capitals
      (U+00C0..U+00DE except the multiplication sign); any other character is unchanged. */
  function LowerChar(c: char): char {
    if IsUpper(c) then
      (c as int + 32) as char
    else c
  }

  /** No character of `s` is a capital. */
  predicate NoUpper(s: string) {
    forall i :: 0 <= i < |s| ==> !IsUpper(s[i])
  }

  /** `s.lower()` on the characters `LowerChar` covers. */
  function Lower(s: string): (r: string)
    ensures |r| == |s|
    ensures forall i :: 0 <= i < |s| ==> r[i] == LowerChar(s[i])
  {
    seq(|s|, i requires 0 <= i < |s| => LowerChar(s[i]))
  }

  /** `s.lower()` leaves no capital, keeps every other character where it is, is the identity on
      a text without capitals, and so is idempotent. */
  lemma LowerSpec(s: string)
    ensures |Lower(s)| == |s| && NoUpper(Lower(s))
    ensures forall i :: 0 <= i < |s| && !IsUpper(s[i]) ==> Lower(s)[i] == s[i]
    ensures NoUpper(s) ==> Lower(s) == s
    ensures Lower(Lower(s)) == Lower(s)
  {
  }
}
