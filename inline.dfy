/**
 * `attach_inline_text` (src/boe_sumario_text_json.py:214-274): for each record of the frame,
 * fetch the item's XML document and extract its text; when that gives nothing, fetch the HTML
 * page instead; store the (possibly truncated) text in the `texto_limpio` column, and stop
 * once `max_texts` records have a text.
 */
module Inline {
  import opened Wrappers
  import opened PyStr
  import opened Normalizer
  import opened Fetcher
  import opened Dom
  import opened Extract
  import opened Sumario
  import opened Base

  /** `url.startswith(("http://", "https://"))` */
  predicate IsHttp(url: string) {
    StartsWith(url, "http://") || StartsWith(url, "https://")
  }

  /** The text of the XML document at `url`: `""` when the URL is not an http(s) link, when
      `robust_get` gives up, or when the document does not parse. */
  function XmlBody(env: Env, url: string): string {
    if !IsHttp(url) then []
    else
      match Retry(env.net(url), NonEmptyContent, DefaultTries).result
      case None => []
      case Some(content) =>
        match env.parseXml(content)
        case None => []
        case Some(doc) => XmlPlain(doc)
  }

  /** The text of the HTML page at `url`, with the item's title as the known title. */
  function HtmlBody(env: Env, url: string, titulo: string): string {
    if !IsHttp(url) then []
    else
      match Retry(env.net(url), NonEmptyContent, DefaultTries).result
      case None => []
      case Some(content) =>
        match env.parseHtml(content)
        case None => []
        case Some(doc) => HtmlPlain(doc, Some(titulo))
  }

  /** `body_plain` for one row: the XML text, or else the HTML text. */
  function BodyPlain(env: Env, r: Row): string {
    var x := XmlBody(env, r.urlXml);
    if x != [] then x else HtmlBody(env, r.urlHtml, r.titulo)
  }

  /** The text is clean whichever document it came from; the XML document wins when it has a
      text, and the HTML page gives it otherwise; links that are not http(s) are never followed. */
  lemma BodyPlainSpec(env: Env, r: Row)
    ensures IsClean(BodyPlain(env, r))
    ensures XmlBody(env, r.urlXml) != [] ==> BodyPlain(env, r) == XmlBody(env, r.urlXml)
    ensures XmlBody(env, r.urlXml) == [] ==> BodyPlain(env, r) == HtmlBody(env, r.urlHtml, r.titulo)
    ensures !IsHttp(r.urlXml) ==> XmlBody(env, r.urlXml) == []
    ensures !IsHttp(r.urlHtml) ==> HtmlBody(env, r.urlHtml, r.titulo) == []
    ensures !IsHttp(r.urlXml) && !IsHttp(r.urlHtml) ==> BodyPlain(env, r) == []
  {
    var x := Retry(env.net(r.urlXml), NonEmptyContent, DefaultTries).result;
    if IsHttp(r.urlXml) && x.Some? && env.parseXml(x.value).Some? {
      XmlPlainSpec(env.parseXml(x.value).value);
    }
    var h := Retry(env.net(r.urlHtml), NonEmptyContent, DefaultTries).result;
    if IsHttp(r.urlHtml) && h.Some? && env.parseHtml(h.value).Some? {
      HtmlPlainSpec(env.parseHtml(h.value).value, Some(r.titulo));
    }
  }

  /** The fetches of one loop iteration: the XML document first, the HTML page only when that
      gives no text, and neither when its link is not http(s). Besides the text, the numbers of
      requests made for each document, at most `DefaultTries` each. */
  method FetchBody(env: Env, r: Row) returns (bodyPlain: string, xmlRequests: nat, htmlRequests: nat)
    ensures bodyPlain == BodyPlain(env, r)
    ensures xmlRequests == (if IsHttp(r.urlXml) then Retry(env.net(r.urlXml), NonEmptyContent, DefaultTries).requests else 0)
    ensures htmlRequests ==
      (if XmlBody(env, r.urlXml) == [] && IsHttp(r.urlHtml)
       then Retry(env.net(r.urlHtml), NonEmptyContent, DefaultTries).requests else 0)
    ensures !IsHttp(r.urlXml) ==> xmlRequests == 0
    ensures !IsHttp(r.urlHtml) || XmlBody(env, r.urlXml) != [] ==> htmlRequests == 0
    ensures xmlRequests <= DefaultTries && htmlRequests <= DefaultTries
  {
    bodyPlain, xmlRequests, htmlRequests := "", 0, 0;
    if IsHttp(r.urlXml) {
      var rx, run := RobustGetContent(env.net(r.urlXml));
      RetrySpec(env.net(r.urlXml), NonEmptyContent, DefaultTries);
      xmlRequests := run.requests;
      if rx.Some? {
        var doc := env.parseXml(rx.value);
        if doc.Some? {
          bodyPlain := ExtractPlainFromXml(doc.value);
        }
      }
    }
    if bodyPlain == [] && IsHttp(r.urlHtml) {
      var rh, run := RobustGetContent(env.net(r.urlHtml));
      RetrySpec(env.net(r.urlHtml), NonEmptyContent, DefaultTries);
      htmlRequests := run.requests;
      if rh.Some? {
        var doc := env.parseHtml(rh.value);
        if doc.Some? {
          bodyPlain := ExtractPlainFromHtml(doc.value, Some(r.titulo));
        }
      }
    }
  }

  /** Python's `s[:n]`: always a prefix of `s`; a non-negative `n` keeps the first `n` characters
      (all of them when there are fewer), a negative `n` drops the last `-n` (all of them when
      there are fewer). */
  function PyPrefix(s: string, n: int): (r: string)
    ensures |r| <= |s| && r == s[..|r|]
    ensures n >= 0 ==> |r| == (if n <= |s| then n else |s|)
    ensures n < 0 ==> |s| - |r| == (if -n <= |s| then -n else |s|)
  {
    if n >= 0 then (if n <= |s| then s[..n] else s)
    else if |s| + n < 0 then []
    else s[..|s| + n]
  }

  /** `if truncate_text and len(body_plain) > truncate_text: body_plain = body_plain[:truncate_text].rstrip() + "…"` */
  function Truncate(body: string, truncateText: Option<int>): string {
    if truncateText.Some? && truncateText.value != 0 && |body| > truncateText.value then
      RStrip(PyPrefix(body, truncateText.value)) + "…"
    else body
  }

  /** A text longer than a positive bound is cut to at most the bound, its trailing whitespace
      dropped, and marked with the ellipsis; any other text is kept whole. A negative bound
      always cuts, that many characters from the end. */
  lemma TruncateSpec(body: string, truncateText: Option<int>)
    ensures var t := Truncate(body, truncateText);
      && (!(truncateText.Some? && truncateText.value != 0 && |body| > truncateText.value) ==> t == body)
      && (truncateText.Some? && truncateText.value != 0 && |body| > truncateText.value ==>
            && t != [] && t[|t| - 1] == '…'
            && StartsWith(body, t[..|t| - 1])
            && (t[..|t| - 1] == [] || !IsSpace(t[|t| - 2])))
      && (truncateText.Some? && 0 < truncateText.value < |body| ==> |t| <= truncateText.value + 1)
      && (truncateText.Some? && truncateText.value < 0 ==> |t| <= |body| + truncateText.value + 1 || |t| == 1)
  {
    if truncateText.Some? && truncateText.value != 0 && |body| > truncateText.value {
      var p := PyPrefix(body, truncateText.value);
      var r := RStrip(p);
      var t := r + "…";
      assert t[..|t| - 1] == r;
      assert body[..|r|] == p[..|r|];
    }
  }

  /** When the cut does not end in whitespace, the truncated text is exactly the first `n`
      characters and the ellipsis: `n + 1` characters. */
  lemma TruncateExact(body: string, n: int)
    requires 0 < n < |body| && !IsSpace(body[n - 1])
    ensures Truncate(body, Some(n)) == body[..n] + "…"
    ensures |Truncate(body, Some(n))| == n + 1
  {
    var p := PyPrefix(body, n);
    assert p[|p| - 1] == body[n - 1];
  }

  /** `df.at[idx, "texto_limpio"] = text` */
  function SetText(r: Record, text: string): Record {
    Record(r.row, r.tematica, r.mes, r.trimestre, Some(text))
  }

  /** The frame has no `texto_limpio` column. */
  predicate NoTextColumn(rs: seq<Record>) {
    forall i :: 0 <= i < |rs| ==> rs[i].textoLimpio.None?
  }

  /** `if "texto_limpio" not in df.columns: df["texto_limpio"] = ""` */
  function WithTextColumn(rs: seq<Record>): (out: seq<Record>)
    ensures |out| == |rs|
  {
    if NoTextColumn(rs) then seq(|rs|, i requires 0 <= i < |rs| => SetText(rs[i], "")) else rs
  }

  /** `body_plain` for every record of `rs`. */
  function Bodies(env: Env, rs: seq<Record>): (bs: seq<string>)
    ensures |bs| == |rs|
  {
    seq(|rs|, i requires 0 <= i < |rs| => BodyPlain(env, rs[i].row))
  }

  /** How many of the texts are non-empty. */
  function CountTexts(bs: seq<string>): nat {
    if bs == [] then 0
    else CountTexts(bs[..|bs| - 1]) + (if bs[|bs| - 1] != [] then 1 else 0)
  }

  lemma {:induction false} CountTextsMonotone(bs: seq<string>, i: nat, j: nat)
    requires i <= j <= |bs|
    ensures CountTexts(bs[..i]) <= CountTexts(bs[..j])
    decreases j - i
  {
    if i < j {
      CountTextsMonotone(bs, i, j - 1);
      assert bs[..j][..j - 1] == bs[..j - 1];
    }
  }

  /** `max_texts` is falsy: `None` or `0`. */
  predicate Unlimited(maxTexts: Option<int>) {
    maxTexts.None? || maxTexts.value == 0
  }

  /** `if max_texts and processed >= max_texts: break` */
  predicate Reached(maxTexts: Option<int>, processed: int) {
    !Unlimited(maxTexts) && processed >= maxTexts.value
  }

  /** Record `i` gets its text: its text `bs[i]` is not empty, and fewer than `max_texts` earlier
      records got theirs. */
  predicate Selected(bs: seq<string>, maxTexts: Option<int>, i: int)
    requires 0 <= i < |bs|
  {
    bs[i] != [] && !Reached(maxTexts, CountTexts(bs[..i]))
  }

  /** The frame the loop leaves, from the frame `col` that has the text column and the texts
      `bs` of its records. */
  function AttachedCol(col: seq<Record>, bs: seq<string>, maxTexts: Option<int>, truncateText: Option<int>): (out: seq<Record>)
    requires |bs| == |col|
    ensures |out| == |col|
  {
    seq(|col|, i requires 0 <= i < |col| =>
      if Selected(bs, maxTexts, i) then SetText(col[i], Truncate(bs[i], truncateText)) else col[i])
  }

  /** The frame `attach_inline_text` returns. */
  function Attached(env: Env, base: seq<Record>, maxTexts: Option<int>, truncateText: Option<int>): seq<Record> {
    var col := WithTextColumn(base);
    AttachedCol(col, Bodies(env, col), maxTexts, truncateText)
  }

  /** How many of `n` non-empty texts are stored under `max_texts`. */
  function Capped(n: nat, maxTexts: Option<int>): nat {
    if Unlimited(maxTexts) then n
    else if maxTexts.value < 0 then 0
    else if n < maxTexts.value then n else maxTexts.value
  }

  /** How many records `attach_inline_text` gives a text. */
  function ProcessedCount(env: Env, base: seq<Record>, maxTexts: Option<int>): nat {
    var col := WithTextColumn(base);
    Capped(CountTexts(Bodies(env, col)), maxTexts)
  }

  /** What the loop keeps after `idx` records: those are done as `AttachedCol` says, the rest
      untouched, and `processed` counts the texts stored so far. */
  predicate LoopInv(col: seq<Record>, bs: seq<string>, maxTexts: Option<int>, truncateText: Option<int>,
                    df: seq<Record>, idx: int, processed: int)
    requires |bs| == |col|
  {
    && 0 <= idx <= |col| == |df|
    && processed == CountTexts(bs[..idx])
    && (Unlimited(maxTexts) || maxTexts.value < 0 || processed <= maxTexts.value)
    && (forall j :: 0 <= j < idx ==> df[j] == AttachedCol(col, bs, maxTexts, truncateText)[j])
    && (forall j :: 0 <= j < idx ==> !Reached(maxTexts, CountTexts(bs[..j])))
    && (forall j :: idx <= j < |df| ==> df[j] == col[j])
  }

  /** A record without text: the loop goes on to the next one. */
  lemma LoopSkip(col: seq<Record>, bs: seq<string>, maxTexts: Option<int>, truncateText: Option<int>,
                 df: seq<Record>, idx: int, processed: int)
    requires |bs| == |col| && LoopInv(col, bs, maxTexts, truncateText, df, idx, processed)
    requires idx < |col| && !Reached(maxTexts, processed) && bs[idx] == []
    ensures LoopInv(col, bs, maxTexts, truncateText, df, idx + 1, processed)
  {
    assert bs[..idx + 1][..idx] == bs[..idx];
    var want := AttachedCol(col, bs, maxTexts, truncateText);
    assert df[idx] == want[idx];
  }

  /** A record with text: its cell is set and `processed` goes up. */
  lemma LoopStore(col: seq<Record>, bs: seq<string>, maxTexts: Option<int>, truncateText: Option<int>,
                  df: seq<Record>, idx: int, processed: int)
    requires |bs| == |col| && LoopInv(col, bs, maxTexts, truncateText, df, idx, processed)
    requires idx < |col| && !Reached(maxTexts, processed) && bs[idx] != []
    ensures LoopInv(col, bs, maxTexts, truncateText, df[idx := SetText(df[idx], Truncate(bs[idx], truncateText))],
                    idx + 1, processed + 1)
  {
    assert bs[..idx + 1][..idx] == bs[..idx];
    var want := AttachedCol(col, bs, maxTexts, truncateText);
    var df' := df[idx := SetText(df[idx], Truncate(bs[idx], truncateText))];
    assert Selected(bs, maxTexts, idx);
    assert df'[idx] == want[idx];
    forall j | 0 <= j < idx ensures df'[j] == want[j] {
      assert df'[j] == df[j];
    }
  }

  lemma LoopDone(col: seq<Record>, bs: seq<string>, maxTexts: Option<int>, truncateText: Option<int>,
                 df: seq<Record>, idx: int, processed: int)
    requires |bs| == |col| && LoopInv(col, bs, maxTexts, truncateText, df, idx, processed)
    requires idx == |col| || Reached(maxTexts, processed)
    ensures df == AttachedCol(col, bs, maxTexts, truncateText)
    ensures processed == Capped(CountTexts(bs), maxTexts)
    ensures idx < |col| ==> Reached(maxTexts, CountTexts(bs[..idx]))
  {
    var want := AttachedCol(col, bs, maxTexts, truncateText);
    forall j | idx <= j < |df| ensures df[j] == want[j] {
      CountTextsMonotone(bs, idx, j);
    }
    if idx == |col| {
      assert bs[..idx] == bs;
    } else {
      CountTextsMonotone(bs, idx, |col|);
      assert bs[..|col|] == bs;
    }
  }

  /** The `for idx, row in df.iterrows()` loop over the frame with the text column. */
  method AttachLoop(env: Env, col: seq<Record>, maxTexts: Option<int>, truncateText: Option<int>)
    returns (df: seq<Record>, processed: nat, pauses: nat)
    ensures var bs := Bodies(env, col);
      && df == AttachedCol(col, bs, maxTexts, truncateText)
      && processed == Capped(CountTexts(bs), maxTexts)
      && pauses <= |col|
      && (forall j :: 0 <= j < pauses ==> !Reached(maxTexts, CountTexts(bs[..j])))
      && (pauses < |col| ==> Reached(maxTexts, CountTexts(bs[..pauses])))
  {
    ghost var bs := Bodies(env, col);
    df := col;
    processed, pauses := 0, 0;
    var idx := 0;
    while idx < |df|
      invariant LoopInv(col, bs, maxTexts, truncateText, df, idx, processed)
      invariant pauses == idx
    {
      if Reached(maxTexts, processed) {
        break;
      }
      var bodyPlain, _, _ := FetchBody(env, df[idx].row);
      assert bs[idx] == bodyPlain by {
        assert df[idx] == col[idx];
      }
      if bodyPlain == [] {
        LoopSkip(col, bs, maxTexts, truncateText, df, idx, processed);
        pauses, idx := pauses + 1, idx + 1;
        continue;
      }
      LoopStore(col, bs, maxTexts, truncateText, df, idx, processed);
      if truncateText.Some? && truncateText.value != 0 && |bodyPlain| > truncateText.value {
        bodyPlain := RStrip(PyPrefix(bodyPlain, truncateText.value)) + "…";
      }
      df := df[idx := SetText(df[idx], bodyPlain)];
      processed := processed + 1;
      pauses, idx := pauses + 1, idx + 1;
    }
    LoopDone(col, bs, maxTexts, truncateText, df, idx, processed);
  }

  /** `attach_inline_text`; `pauses` counts the `time.sleep(sleep)` calls, one per record the
      loop reaches. */
  method AttachInlineText(env: Env, base: seq<Record>, maxTexts: Option<int>, truncateText: Option<int>)
    returns (df: seq<Record>, processed: nat, pauses: nat)
    ensures df == Attached(env, base, maxTexts, truncateText)
    ensures processed == ProcessedCount(env, base, maxTexts)
    ensures var bs := Bodies(env, WithTextColumn(base));
      && pauses <= |base|
      && (forall j :: 0 <= j < pauses ==> !Reached(maxTexts, CountTexts(bs[..j])))
      && (pauses < |base| ==> Reached(maxTexts, CountTexts(bs[..pauses])))
  {
    df := base;
    if NoTextColumn(df) {
      df := seq(|df|, i requires 0 <= i < |df| => SetText(df[i], ""));
    }
    df, processed, pauses := AttachLoop(env, df, maxTexts, truncateText);
  }

  /** How many of the first `n` records get their text. */
  function SelectedUpTo(bs: seq<string>, maxTexts: Option<int>, n: nat): nat
    requires n <= |bs|
  {
    if n == 0 then 0 else SelectedUpTo(bs, maxTexts, n - 1) + (if Selected(bs, maxTexts, n - 1) then 1 else 0)
  }

  /** The records that get a text are as many as the non-empty texts, capped by `max_texts`. */
  lemma {:induction false} SelectedUpToSpec(bs: seq<string>, maxTexts: Option<int>, n: nat)
    requires n <= |bs|
    ensures SelectedUpTo(bs, maxTexts, n) == Capped(CountTexts(bs[..n]), maxTexts)
  {
    if n > 0 {
      SelectedUpToSpec(bs, maxTexts, n - 1);
      assert bs[..n][..n - 1] == bs[..n - 1];
    }
  }

  /** `attach_inline_text` changes only the text column, and there only the cells of the
      records it selects, each to the (truncated) text of its documents, never empty. Without a
      truncation bound the stored text is clean. */
  lemma AttachedSpec(env: Env, base: seq<Record>, maxTexts: Option<int>, truncateText: Option<int>)
    ensures var out := Attached(env, base, maxTexts, truncateText);
      var bs := Bodies(env, WithTextColumn(base));
      && |out| == |base|
      && (forall i :: 0 <= i < |base| ==>
            && out[i].row == base[i].row && out[i].tematica == base[i].tematica
            && out[i].mes == base[i].mes && out[i].trimestre == base[i].trimestre)
      && (forall i :: 0 <= i < |base| && Selected(bs, maxTexts, i) ==>
            && out[i].textoLimpio == Some(Truncate(BodyPlain(env, base[i].row), truncateText))
            && out[i].textoLimpio.value != []
            && (truncateText.None? ==> IsClean(out[i].textoLimpio.value)))
      && (forall i :: 0 <= i < |base| && !Selected(bs, maxTexts, i) ==>
            out[i].textoLimpio == if NoTextColumn(base) then Some("") else base[i].textoLimpio)
  {
    var col := WithTextColumn(base);
    var bs := Bodies(env, col);
    var out := Attached(env, base, maxTexts, truncateText);
    forall i | 0 <= i < |base| && Selected(bs, maxTexts, i)
      ensures out[i].textoLimpio.value != [] && (truncateText.None? ==> IsClean(out[i].textoLimpio.value))
    {
      TruncateSpec(bs[i], truncateText);
      BodyPlainSpec(env, base[i].row);
    }
  }

  /** `processed` is the number of records given a text; it is at most `max_texts` when that is
      positive, and a negative `max_texts` stops the loop before the first record. */
  lemma ProcessedSpec(env: Env, base: seq<Record>, maxTexts: Option<int>, truncateText: Option<int>)
    ensures var bs := Bodies(env, WithTextColumn(base));
      && ProcessedCount(env, base, maxTexts) == SelectedUpTo(bs, maxTexts, |bs|)
      && ProcessedCount(env, base, maxTexts) <= |base|
      && (!Unlimited(maxTexts) && maxTexts.value > 0 ==> ProcessedCount(env, base, maxTexts) <= maxTexts.value)
      && (!Unlimited(maxTexts) && maxTexts.value < 0 ==>
            Attached(env, base, maxTexts, truncateText) == WithTextColumn(base))
  {
    var bs := Bodies(env, WithTextColumn(base));
    SelectedUpToSpec(bs, maxTexts, |bs|);
    assert bs[..|bs|] == bs;
    CountTextsAtMost(bs);
  }

  lemma {:induction false} CountTextsAtMost(bs: seq<string>)
    ensures CountTexts(bs) <= |bs|
  {
    if bs != [] {
      CountTextsAtMost(bs[..|bs| - 1]);
    }
  }

  /** With `max_texts` falsy, every record whose documents give a text gets it. */
  lemma UnlimitedSelectsAll(env: Env, base: seq<Record>, maxTexts: Option<int>)
    requires Unlimited(maxTexts)
    ensures var bs := Bodies(env, WithTextColumn(base));
      forall i :: 0 <= i < |base| ==> (Selected(bs, maxTexts, i) <==> BodyPlain(env, base[i].row) != [])
  {
  }
}
