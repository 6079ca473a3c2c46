/** The three metadata lookups of main.py. `template` and `title` are
    unanchored searches for `key:\s*['"]([^'"]+)['"]`; `draft` is an
    unanchored, case-insensitive search for `draft:\s*true`. Each is only
    tried when the metadata is present and non-empty (`if metadata:`). */
module Metadata {
  import opened Text

  const TEMPLATE_KEY := "template:"
  const TITLE_KEY := "title:"
  const DEFAULT_TEMPLATE := "default"

  predicate IsQuote(c: char) {
    !InClass(c, NoQuote)
  }

  /** What `[^'"]+` accepts. */
  predicate IsQuotedValue(v: string) {
    v != [] && AllIn(v, NoQuote)
  }

  /** `t` is a whole match of `key\s*['"]([^'"]+)['"]` whose group is `v`.
      The two quotes need not be the same character. */
  predicate QuotedMatch(t: string, key: string, v: string) {
    && |key| + |v| + 2 <= |t|
    && t[..|key|] == key
    && (forall k {:trigger IsSpace(t[k])} :: |key| <= k < |t| - |v| - 2 ==> IsSpace(t[k]))
    && IsQuote(t[|t| - |v| - 2])
    && t[|t| - |v| - 1..|t| - 1] == v
    && IsQuote(t[|t| - 1])
    && IsQuotedValue(v)
  }

  /** The captured value and the index just past the match. */
  datatype Capture = Capture(value: string, end: nat)

  /** The match of the pattern that starts at index `p` of `s`, if any. */
  function QuotedAt(s: string, key: string, p: nat): (r: Option<Capture>)
    requires p <= |s|
    ensures r.Some? ==> p < r.value.end <= |s| && IsQuotedValue(r.value.value)
  {
    if !OccursAt(s, key, p) then None
    else
      var a := p + |key| + Span(s, p + |key|, Space);
      if a == |s| || !IsQuote(s[a]) then None
      else
        var e := a + 1 + Span(s, a + 1, NoQuote);
        if e == a + 1 || e == |s| then None
        else
          SpanRun(s, a + 1, NoQuote);
          RunSlice(s, a + 1, e - a - 1, NoQuote);
          Some(Capture(s[a + 1..e], e + 1))
  }

  /** What `QuotedAt` finds is a whole match of the pattern. */
  lemma QuotedAtMatches(s: string, key: string, p: nat)
    requires p <= |s| && QuotedAt(s, key, p).Some?
    ensures QuotedMatch(s[p..QuotedAt(s, key, p).value.end], key, QuotedAt(s, key, p).value.value)
  {
    var a := p + |key| + Span(s, p + |key|, Space);
    var e := a + 1 + Span(s, a + 1, NoQuote);
    SpanRun(s, p + |key|, Space);
    SpanRun(s, a + 1, NoQuote);
    assert QuotedAt(s, key, p) == Some(Capture(s[a + 1..e], e + 1));
    PartsMatch(s, key, p, a, e);
  }

  /** A stretch of `s` laid out as the pattern's parts is a match. */
  lemma PartsMatch(s: string, key: string, p: nat, a: nat, e: nat)
    requires OccursAt(s, key, p) && p + |key| <= a && a + 1 < e < |s|
    requires forall j {:trigger InClass(s[j], Space)} :: p + |key| <= j < a ==> InClass(s[j], Space)
    requires IsQuote(s[a]) && IsQuote(s[e])
    requires forall j {:trigger InClass(s[j], NoQuote)} :: a + 1 <= j < e ==> InClass(s[j], NoQuote)
    ensures QuotedMatch(s[p..e + 1], key, s[a + 1..e])
  {
    var b := p + |key|;
    var v := s[a + 1..e];
    var ws := s[b..a];
    assert forall k :: 0 <= k < |ws| ==> IsSpace(ws[k]) by {
      forall k | 0 <= k < |ws| ensures IsSpace(ws[k]) {
        assert ws[k] == s[b + k] && InClass(s[b + k], Space);
      }
    }
    assert IsQuotedValue(v) by {
      forall k | 0 <= k < |v| ensures InClass(v[k], NoQuote) {
        assert v[k] == s[a + 1 + k] && InClass(s[a + 1 + k], NoQuote);
      }
    }
    assert s[p..e + 1] == key + ws + [s[a]] + v + [s[e]] by {
      assert s[p..b] == key;
      assert s[p..e + 1] == s[p..b] + s[b..a] + s[a..a + 1] + s[a + 1..e] + s[e..e + 1];
    }
    QuotedTextMatches(key, ws, s[a], v, s[e]);
  }

  lemma QuotedTextMatches(key: string, ws: string, q1: char, v: string, q2: char)
    requires forall k :: 0 <= k < |ws| ==> IsSpace(ws[k])
    requires IsQuote(q1) && IsQuote(q2) && IsQuotedValue(v)
    ensures QuotedMatch(key + ws + [q1] + v + [q2], key, v)
  {
    var t := key + ws + [q1] + v + [q2];
    assert t[..|key|] == key;
    assert t[|t| - |v| - 1..|t| - 1] == v;
    forall k | |key| <= k < |t| - |v| - 2 ensures IsSpace(t[k]) {
      assert t[k] == ws[k - |key|];
    }
  }

  lemma QuotedAtUnfold(s: string, key: string, p: nat, w: nat, a: nat, n: nat, e: nat)
    requires p <= |s| && OccursAt(s, key, p)
    requires p + |key| <= |s| && Span(s, p + |key|, Space) == w && a == p + |key| + w
    requires a < |s| && IsQuote(s[a])
    requires Span(s, a + 1, NoQuote) == n && e == a + 1 + n
    requires 0 < n && e < |s|
    ensures QuotedAt(s, key, p) == Some(Capture(s[a + 1..e], e + 1))
  {
  }

  /** A match laid into `s` at `p`, read back as the pattern's parts. */
  lemma MatchParts(s: string, key: string, p: nat, t: string, v: string)
    requires p + |t| <= |s| && s[p..p + |t|] == t
    requires QuotedMatch(t, key, v)
    ensures var a := p + |t| - |v| - 2;
            && OccursAt(s, key, p)
            && (forall j {:trigger InClass(s[j], Space)} :: p + |key| <= j < a ==> InClass(s[j], Space))
            && IsQuote(s[a]) && IsQuote(s[a + 1 + |v|])
            && (forall j {:trigger InClass(s[j], NoQuote)} :: a + 1 <= j < a + 1 + |v| ==> InClass(s[j], NoQuote))
            && s[a + 1..a + 1 + |v|] == v
  {
    var a := p + |t| - |v| - 2;
    var e := a + 1 + |v|;
    assert s[p..p + |key|] == t[..|key|];
    forall j | p + |key| <= j < a ensures InClass(s[j], Space) {
      assert s[j] == t[j - p];
    }
    assert s[a] == t[a - p] && s[e] == t[e - p];
    forall j | a + 1 <= j < e ensures InClass(s[j], NoQuote) {
      assert s[j] == t[j - p] == v[j - a - 1];
    }
    SliceOfSlice(s, p, p + |t|, a + 1 - p, e - p);
  }

  /** Every text that matches the pattern is found by `QuotedAt`, with the
      same capture and the same end. */
  lemma QuotedAtFinds(s: string, key: string, p: nat, t: string, v: string)
    requires p + |t| <= |s| && s[p..p + |t|] == t
    requires QuotedMatch(t, key, v)
    ensures QuotedAt(s, key, p) == Some(Capture(v, p + |t|))
  {
    var a := p + |t| - |v| - 2;
    var e := a + 1 + |v|;
    MatchParts(s, key, p, t, v);
    SpanExact(s, p + |key|, a - p - |key|, Space);
    SpanExact(s, a + 1, |v|, NoQuote);
    QuotedAtUnfold(s, key, p, a - p - |key|, a, |v|, e);
  }

  /** The leftmost index at or after `p` where the pattern matches. */
  function FirstQuoted(s: string, key: string, p: nat): (r: Option<nat>)
    requires p <= |s|
    ensures r.Some? ==> p <= r.value <= |s| && QuotedAt(s, key, r.value).Some?
    ensures r.Some? ==> forall q :: p <= q < r.value ==> QuotedAt(s, key, q).None?
    ensures r.None? ==> forall q :: p <= q <= |s| ==> QuotedAt(s, key, q).None?
    decreases |s| - p
  {
    if QuotedAt(s, key, p).Some? then Some(p)
    else if p == |s| then None
    else FirstQuoted(s, key, p + 1)
  }

  /** `FirstQuoted` passes over the indices where the key is absent. */
  lemma {:induction false} FirstQuotedSkips(s: string, key: string, p: nat, q: nat)
    requires p <= q <= |s| && QuotedAt(s, key, q).Some?
    requires forall i :: p <= i < q ==> !OccursAt(s, key, i)
    ensures FirstQuoted(s, key, p) == Some(q)
    decreases q - p
  {
    if p < q {
      FirstQuotedSkips(s, key, p + 1, q);
    }
  }

  /** `re.search` for `key:\s*['"]([^'"]+)['"]` behind `if metadata:`: the
      group of the leftmost match, or nothing. */
  function Lookup(meta: Option<string>, key: string): (r: Option<string>)
    ensures meta.None? || meta.value == [] ==> r.None?
    ensures r.Some? ==> IsQuotedValue(r.value)
    ensures r.Some? ==> meta.Some? && exists q :: && 0 <= q <= |meta.value|
                                                 && QuotedAt(meta.value, key, q).Some?
                                                 && QuotedAt(meta.value, key, q).value.value == r.value
                                                 && forall q' :: 0 <= q' < q ==> QuotedAt(meta.value, key, q').None?
    ensures r.None? && meta.Some? ==> forall q :: 0 <= q <= |meta.value| ==> QuotedAt(meta.value, key, q).None?
  {
    if meta.None? || meta.value == [] then None
    else
      match FirstQuoted(meta.value, key, 0)
      case Some(q) => Some(QuotedAt(meta.value, key, q).value.value)
      case None => None
  }

  /** `extract_template`: the quoted `template:` value, else `'default'`. */
  function ExtractTemplate(meta: Option<string>): (r: string)
    ensures IsQuotedValue(r)
    ensures Lookup(meta, TEMPLATE_KEY).None? ==> r == DEFAULT_TEMPLATE
    ensures Lookup(meta, TEMPLATE_KEY).Some? ==> r == Lookup(meta, TEMPLATE_KEY).value
  {
    Lookup(meta, TEMPLATE_KEY).GetOr(DEFAULT_TEMPLATE)
  }

  /** `extract_title`: the quoted `title:` value, else the empty string. */
  function ExtractTitle(meta: Option<string>): (r: string)
    ensures r == [] || IsQuotedValue(r)
    ensures r == [] <==> Lookup(meta, TITLE_KEY).None?
    ensures Lookup(meta, TITLE_KEY).Some? ==> r == Lookup(meta, TITLE_KEY).value
  {
    Lookup(meta, TITLE_KEY).GetOr("")
  }

  /** ASCII lower-casing; for the letters of `draft:` and `true`, Python's
      IGNORECASE folds exactly the ASCII case pairs. */
  function Lower(c: char): char {
    if 'A' <= c <= 'Z' then (c as int + 32) as char else c
  }

  predicate EqualsIgnoreCase(a: string, b: string) {
    |a| == |b| && forall k :: 0 <= k < |a| ==> Lower(a[k]) == Lower(b[k])
  }

  /** `t` is a whole match of `draft:\s*true` under IGNORECASE. */
  predicate DraftMatch(t: string) {
    && 10 <= |t|
    && EqualsIgnoreCase(t[..6], "draft:")
    && (forall k {:trigger IsSpace(t[k])} :: 6 <= k < |t| - 4 ==> IsSpace(t[k]))
    && EqualsIgnoreCase(t[|t| - 4..], "true")
  }

  /** The pattern matches starting at index `p`. */
  predicate DraftAt(s: string, p: nat)
    requires p <= |s|
  {
    && p + 6 <= |s|
    && EqualsIgnoreCase(s[p..p + 6], "draft:")
    && var a := p + 6 + Span(s, p + 6, Space);
       a + 4 <= |s| && EqualsIgnoreCase(s[a..a + 4], "true")
  }

  /** Where `DraftAt` holds, a text matching the pattern starts. */
  lemma DraftAtMatches(s: string, p: nat) returns (e: nat)
    requires p <= |s| && DraftAt(s, p)
    ensures p <= e <= |s| && DraftMatch(s[p..e])
  {
    var a := p + 6 + Span(s, p + 6, Space);
    SpanRun(s, p + 6, Space);
    e := a + 4;
    var t := s[p..e];
    assert t[..6] == s[p..p + 6];
    assert t[|t| - 4..] == s[a..a + 4];
    forall k | 6 <= k < |t| - 4 ensures IsSpace(t[k]) {
      assert t[k] == s[p + k] && InClass(s[p + k], Space);
    }
  }

  /** Wherever a text matching the pattern starts, `DraftAt` holds. */
  lemma MatchIsDraftAt(s: string, p: nat, e: nat)
    requires p <= e <= |s| && DraftMatch(s[p..e])
    ensures DraftAt(s, p)
  {
    var t := s[p..e];
    assert s[p..p + 6] == t[..6];
    assert s[e - 4] == t[|t| - 4];
    assert Lower(s[e - 4]) == 't';
    forall k | p + 6 <= k < e - 4
      ensures IsSpace(s[k])
    {
      assert s[k] == t[k - p];
    }
    SpanExact(s, p + 6, e - 4 - p - 6, Space);
    assert s[e - 4..e] == t[|t| - 4..];
  }

  /** Some match starts at or after `p`. */
  function DraftFrom(s: string, p: nat): (r: bool)
    requires p <= |s|
    ensures r <==> exists q :: p <= q <= |s| && DraftAt(s, q)
    decreases |s| - p
  {
    if DraftAt(s, p) then true
    else if p == |s| then false
    else DraftFrom(s, p + 1)
  }

  /** `is_draft`, read as a truth value: `metadata and re.search(...)`. */
  function IsDraft(meta: Option<string>): (r: bool)
    ensures r ==> meta.Some? && meta.value != []
    ensures r <==> meta.Some? && exists q :: 0 <= q <= |meta.value| && DraftAt(meta.value, q)
  {
    meta.Some? && meta.value != [] && DraftFrom(meta.value, 0)
  }

  /** Mixed quotes are accepted and the first `template:` wins. */
  lemma TemplateExample()
    ensures ExtractTemplate(Some("template: 'post\"\ntemplate: 'page'")) == "post"
  {
    var s := "template: 'post\"\ntemplate: 'page'";
    var t := "template: 'post\"";
    assert s[0..|t|] == t;
    QuotedAtFinds(s, TEMPLATE_KEY, 0, t, "post");
  }

  /** The search is unanchored: `title:` inside `subtitle:` matches first. */
  lemma SubtitleShadowsTitle()
    ensures ExtractTitle(Some("subtitle: 'S'")) == "S"
  {
    var s := "subtitle: 'S'";
    var t := "title: 'S'";
    assert s[3..] == t;
    QuotedAtFinds(s, TITLE_KEY, 3, t, "S");
    NotAt(s, TITLE_KEY, 0);
    NotAt(s, TITLE_KEY, 1);
    NotAt(s, TITLE_KEY, 2);
    FirstQuotedSkips(s, TITLE_KEY, 0, 3);
  }

  /** An empty quoted value is no match: the default stays. */
  lemma EmptyValueIsDefault()
    ensures ExtractTemplate(Some("template: ''")) == DEFAULT_TEMPLATE
  {
    var s := "template: ''";
    assert QuotedAt(s, TEMPLATE_KEY, 0).None? by {
      SpanExact(s, 9, 1, Space);
      SpanExact(s, 11, 0, NoQuote);
    }
    forall q | 1 <= q <= |s| ensures QuotedAt(s, TEMPLATE_KEY, q).None? {
      assert s[1] != 't' && s[2] != 't' && s[3] != 't';
      assert q + |TEMPLATE_KEY| <= |s| ==> s[q..q + |TEMPLATE_KEY|][0] == s[q];
    }
  }

  lemma DraftExample()
    ensures IsDraft(Some("title: 'x'\nDraft:  TRUE"))
  {
    var s := "title: 'x'\nDraft:  TRUE";
    SpanExact(s, 17, 2, Space);
    assert DraftAt(s, 11);
  }
}
