/** `generate_toc` of main.py. The heading pass is `re.sub` with MULTILINE of
    `^(#{1,6})\s*(.*)`: a heading starts at a line start, takes at most six
    `#`, then all whitespace (which may run across newlines), then the rest
    of that line. Each match is numbered in document order from 0, becomes
    `<hL id="heading-k">text</hL>` and adds an entry to the table of
    contents, which is then emitted as nested `<ol>` lists. */
module Toc {
  import opened Text

  /** One table-of-contents entry: `(heading_level, heading_text, anchor_name)`. */
  datatype Entry = Entry(level: nat, text: string, anchor: string)

  function Anchor(k: nat): string {
    "heading-" + NatToString(k)
  }

  /** A heading match at the start of the remaining text: the level, the
      stripped text and the length of the match. */
  datatype Heading = Heading(level: nat, text: string, len: nat)

  /** The match of the heading pattern at the start of `s`; `atLineStart`
      says whether `^` can match there. The pattern leaves no choice:
      `#{1,6}` takes up to six `#`, `\s*` all the whitespace after them and
      `(.*)` everything up to the next newline. */
  function HeadingAt(s: string, atLineStart: bool): (r: Option<Heading>)
    ensures r.None? <==> !atLineStart || s == [] || s[0] != '#'
    ensures r.Some? ==> 1 <= r.value.level <= 6 && 0 < r.value.len <= |s|
  {
    if !atLineStart || s == [] || s[0] != '#' then None
    else
      var n := Span(s, 0, Hash);
      var level := if n < 6 then n else 6;
      var a := level + Span(s, level, Space);
      var m := FindChar(s, '\n', a);
      Some(Heading(level, Strip(s[a..m]), m))
  }

  lemma HeadingAtUnfold(s: string, n: nat, level: nat, a: nat, m: nat)
    requires s != [] && s[0] == '#' && Span(s, 0, Hash) == n && level == (if n < 6 then n else 6)
    requires level <= a <= |s| && Span(s, level, Space) == a - level && FindChar(s, '\n', a) == m
    ensures HeadingAt(s, true) == Some(Heading(level, Strip(s[a..m]), m))
  {
  }

  /** A heading's text is stripped and lies within one line. */
  lemma HeadingTextShape(s: string, atLineStart: bool)
    requires HeadingAt(s, atLineStart).Some?
    ensures IsStripped(HeadingAt(s, atLineStart).value.text)
    ensures NoNewline(HeadingAt(s, atLineStart).value.text)
  {
    var n := Span(s, 0, Hash);
    var level := if n < 6 then n else 6;
    var a := level + Span(s, level, Space);
    var m := FindChar(s, '\n', a);
    var line := s[a..m];
    var h := HeadingAt(s, atLineStart).value;
    assert h.text == Strip(line);
    forall i | 0 <= i < |line| ensures InClass(line[i], Except('\n')) {
      assert line[i] == s[a + i];
    }
    StripLine(line);
    assert NoNewline(h.text) && IsStripped(h.text);
  }

  lemma StripLine(t: string)
    requires NoNewline(t)
    ensures NoNewline(Strip(t))
  {
    var r := Strip(t);
    var b := Span(t, 0, Space);
    forall i | 0 <= i < |r| ensures InClass(r[i], Except('\n')) {
      assert r[i] == t[b + i];
    }
  }

  predicate NoNewline(t: string) {
    AllIn(t, Except('\n'))
  }

  /** `s` starts with a whole match of the heading pattern: `level` hashes
      (no more unless six), whitespace up to `a`, then the line up to `m`.
      Each part is as long as the greedy pattern makes it. */
  predicate IsHeadingMatch(s: string, level: nat, a: nat, m: nat) {
    && 1 <= level <= 6 && level <= a <= m <= |s|
    && (forall i :: 0 <= i < level ==> s[i] == '#')
    && (level < 6 && level < |s| ==> s[level] != '#')
    && (forall i {:trigger IsSpace(s[i])} :: level <= i < a ==> IsSpace(s[i]))
    && (a == |s| || !IsSpace(s[a]))
    && (forall i :: a <= i < m ==> s[i] != '\n')
    && (m == |s| || s[m] == '\n')
  }

  /** What `HeadingAt` finds is a whole match, its text the stripped line. */
  lemma HeadingAtSound(s: string) returns (a: nat)
    requires HeadingAt(s, true).Some?
    ensures IsHeadingMatch(s, HeadingAt(s, true).value.level, a, HeadingAt(s, true).value.len)
    ensures HeadingAt(s, true).value.text == Strip(s[a..HeadingAt(s, true).value.len])
  {
    var n := Span(s, 0, Hash);
    var level := if n < 6 then n else 6;
    a := level + Span(s, level, Space);
    var m := FindChar(s, '\n', a);
    SpansMatch(s, n, level, a, m);
    HeadingAtUnfold(s, n, level, a, m);
  }

  /** The runs `HeadingAt` measures form a whole match. */
  lemma SpansMatch(s: string, n: nat, level: nat, a: nat, m: nat)
    requires s != [] && s[0] == '#' && n == Span(s, 0, Hash) && level == (if n < 6 then n else 6)
    requires level <= |s| && a == level + Span(s, level, Space)
    requires a <= |s| && m == FindChar(s, '\n', a)
    ensures IsHeadingMatch(s, level, a, m)
  {
    SpanRun(s, 0, Hash);
    assert 1 <= n by { assert InClass(s[0], Hash); }
    SpanRun(s, level, Space);
    forall i | 0 <= i < level ensures s[i] == '#' {
      assert InClass(s[i], Hash);
    }
    forall i | level <= i < a ensures IsSpace(s[i]) {
      assert InClass(s[i], Space);
    }
    assert level < 6 && level < |s| ==> s[level] != '#' by {
      if level < 6 && level < |s| {
        assert !InClass(s[n], Hash);
      }
    }
    assert a == |s| || !IsSpace(s[a]) by {
      if a < |s| {
        assert !InClass(s[a], Space);
      }
    }
  }

  /** Every whole match is found by `HeadingAt`, with that level, text and
      length. */
  lemma HeadingAtComplete(s: string, level: nat, a: nat, m: nat)
    requires IsHeadingMatch(s, level, a, m)
    ensures HeadingAt(s, true) == Some(Heading(level, Strip(s[a..m]), m))
  {
    var n := Span(s, 0, Hash);
    SpanRun(s, 0, Hash);
    forall i | 0 <= i < level ensures InClass(s[i], Hash) {
      assert s[i] == '#';
    }
    if level < 6 {
      SpanExact(s, 0, level, Hash);
    }
    forall i | level <= i < a ensures InClass(s[i], Space) {
      assert IsSpace(s[i]);
    }
    SpanExact(s, level, a - level, Space);
    FindCharIs(s, '\n', a, m);
    HeadingAtUnfold(s, n, level, a, m);
  }

  /** One step of the heading pass: a character copied, or a matched
      heading with the entry it produced. */
  datatype Piece = Char(c: char) | Head(src: string, entry: Entry)

  /** The heading pass over the remaining text `s`, with `k` the next
      anchor number. After a character the next index is a line start
      exactly when that character is a newline; the same holds after a
      match, for its last character. */
  function Scan(s: string, atLineStart: bool, k: nat): (r: seq<Piece>)
    // every piece consumes at least one character
    ensures |r| <= |s|
    ensures s != [] ==> r != []
    decreases |s|
  {
    if s == [] then []
    else
      match HeadingAt(s, atLineStart)
      case Some(h) =>
        [Head(s[..h.len], Entry(h.level, h.text, Anchor(k)))] + Scan(s[h.len..], s[h.len - 1] == '\n', k + 1)
      case None =>
        [Char(s[0])] + Scan(s[1..], s[0] == '\n', k)
  }

  /** The text the pieces were read from. */
  function Source(ps: seq<Piece>): string {
    if ps == [] then []
    else PieceSource(ps[0]) + Source(ps[1..])
  }

  /** The entries of the pieces, in document order: the `toc` list. */
  function Entries(ps: seq<Piece>): seq<Entry> {
    if ps == [] then []
    else (match ps[0] case Char(_) => [] case Head(_, e) => [e]) + Entries(ps[1..])
  }

  /** `<hL id="anchor">text</hL>`. */
  function HeadingTag(e: Entry): (r: string)
    // the opening tag names the level and carries the anchor as its id;
    // the closing tag names the same level
    ensures StartsWith(r, "<h" + NatToString(e.level) + " id=\"" + e.anchor + "\">")
    ensures EndsWith(r, "</h" + NatToString(e.level) + ">")
    // and between them lies exactly the heading text
    ensures var open := "<h" + NatToString(e.level) + " id=\"" + e.anchor + "\">";
            var close := "</h" + NatToString(e.level) + ">";
            |open| + |close| <= |r| && r[|open|..|r| - |close|] == e.text
  {
    var l := NatToString(e.level);
    "<h" + l + " id=\"" + e.anchor + "\">" + e.text + "</h" + l + ">"
  }

  /** The rewritten document. */
  function Rewrite(ps: seq<Piece>): (r: string)
    // where no heading matched, the text is copied
    ensures (forall i :: 0 <= i < |ps| ==> ps[i].Char?) ==> r == Source(ps)
  {
    if ps == [] then []
    else (match ps[0] case Char(c) => [c] case Head(_, e) => HeadingTag(e)) + Rewrite(ps[1..])
  }

  /** The pass loses nothing: the pieces spell out the input. */
  lemma {:induction false} ScanSource(s: string, atLineStart: bool, k: nat)
    ensures Source(Scan(s, atLineStart, k)) == s
    decreases |s|
  {
    if s != [] {
      var ps := Scan(s, atLineStart, k);
      match HeadingAt(s, atLineStart)
      case Some(h) =>
        var rest := Scan(s[h.len..], s[h.len - 1] == '\n', k + 1);
        ScanSource(s[h.len..], s[h.len - 1] == '\n', k + 1);
        assert ps == [Head(s[..h.len], Entry(h.level, h.text, Anchor(k)))] + rest;
        SourceCons(Head(s[..h.len], Entry(h.level, h.text, Anchor(k))), rest);
        assert s == s[..h.len] + s[h.len..];
      case None =>
        var rest := Scan(s[1..], s[0] == '\n', k);
        ScanSource(s[1..], s[0] == '\n', k);
        assert ps == [Char(s[0])] + rest;
        SourceCons(Char(s[0]), rest);
        assert s == [s[0]] + s[1..];
    }
  }

  function PieceSource(p: Piece): string {
    match p
    case Char(c) => [c]
    case Head(src, _) => src
  }

  lemma SourceCons(p: Piece, ps: seq<Piece>)
    ensures Source([p] + ps) == PieceSource(p) + Source(ps)
  {
    assert ([p] + ps)[1..] == ps;
  }

  /** The entries carry the anchors `heading-k`, `heading-(k+1)`, ... */
  predicate Numbered(es: seq<Entry>, k: nat) {
    forall i :: 0 <= i < |es| ==> es[i].anchor == Anchor(k + i)
  }

  lemma ConsNumbered(e: Entry, es: seq<Entry>, k: nat)
    requires e.anchor == Anchor(k) && Numbered(es, k + 1)
    ensures Numbered([e] + es, k)
  {
    forall i | 0 <= i < |es| + 1 ensures ([e] + es)[i].anchor == Anchor(k + i) {
      if i > 0 {
        assert ([e] + es)[i] == es[i - 1];
      }
    }
  }

  /** Headings are numbered consecutively from `k`, in document order. */
  lemma {:induction false} ScanAnchors(s: string, atLineStart: bool, k: nat)
    ensures Numbered(Entries(Scan(s, atLineStart, k)), k)
    decreases |s|
  {
    if s != [] {
      var ps := Scan(s, atLineStart, k);
      match HeadingAt(s, atLineStart)
      case Some(h) =>
        var rest := Scan(s[h.len..], s[h.len - 1] == '\n', k + 1);
        ScanAnchors(s[h.len..], s[h.len - 1] == '\n', k + 1);
        assert ps[1..] == rest;
        ConsNumbered(Entry(h.level, h.text, Anchor(k)), Entries(rest), k);
      case None =>
        ScanAnchors(s[1..], s[0] == '\n', k);
        assert ps[1..] == Scan(s[1..], s[0] == '\n', k);
        assert Entries(ps) == [] + Entries(ps[1..]);
    }
  }

  /** What a heading entry looks like: a level `#{1,6}` allows, and text
      that is stripped and within one line. */
  predicate WellFormed(e: Entry) {
    1 <= e.level <= 6 && IsStripped(e.text) && NoNewline(e.text)
  }

  predicate AllWellFormed(es: seq<Entry>) {
    forall i :: 0 <= i < |es| ==> WellFormed(es[i])
  }

  lemma ConsWellFormed(e: Entry, es: seq<Entry>)
    requires WellFormed(e) && AllWellFormed(es)
    ensures AllWellFormed([e] + es)
  {
    forall i | 0 <= i < |es| + 1 ensures WellFormed(([e] + es)[i]) {
      if i > 0 {
        assert ([e] + es)[i] == es[i - 1];
      }
    }
  }

  /** Every entry has level 1..6 and stripped, single-line text. */
  lemma {:induction false} ScanWellFormed(s: string, atLineStart: bool, k: nat)
    ensures AllWellFormed(Entries(Scan(s, atLineStart, k)))
    decreases |s|
  {
    if s != [] {
      var ps := Scan(s, atLineStart, k);
      match HeadingAt(s, atLineStart)
      case Some(h) =>
        var rest := Scan(s[h.len..], s[h.len - 1] == '\n', k + 1);
        ScanWellFormed(s[h.len..], s[h.len - 1] == '\n', k + 1);
        HeadingTextShape(s, atLineStart);
        assert ps[1..] == rest;
        ConsWellFormed(Entry(h.level, h.text, Anchor(k)), Entries(rest));
      case None =>
        ScanWellFormed(s[1..], s[0] == '\n', k);
        assert ps[1..] == Scan(s[1..], s[0] == '\n', k);
        assert Entries(ps) == [] + Entries(ps[1..]);
    }
  }

  /** Distinct headings get distinct anchors. */
  lemma AnchorsDistinct(s: string, i: nat, j: nat)
    requires var es := Entries(Scan(s, true, 0)); i < j < |es|
    ensures var es := Entries(Scan(s, true, 0)); es[i].anchor != es[j].anchor
  {
    var es := Entries(Scan(s, true, 0));
    ScanAnchors(s, true, 0);
    assert es[i].anchor == Anchor(i) && es[j].anchor == Anchor(j);
    NatToStringInjective(i, j);
    assert Anchor(i)[8..] == NatToString(i);
    assert Anchor(j)[8..] == NatToString(j);
  }

  /** The table of contents as a token sequence: `<ol>`, `</ol>` and one
      `<li>` per entry. */
  datatype Token = Open | Close | Item(anchor: string, text: string)

  function Times(t: Token, n: nat): (r: seq<Token>)
    ensures |r| == n && forall i :: 0 <= i < n ==> r[i] == t
  {
    if n == 0 then [] else Times(t, n - 1) + [t]
  }

  /** The tokens one loop iteration emits at nesting level `current`:
      open or close lists until the entry's level is reached, then the item. */
  function Step(current: nat, e: Entry): seq<Token> {
    Lists(current, e.level) + [Item(e.anchor, e.text)]
  }

  /** `current_level` after the entries: the last level, or the initial 1. */
  function LevelAfter(es: seq<Entry>): nat {
    if es == [] then 1 else es[|es| - 1].level
  }

  /** The tokens the loop emits for `es`. */
  function Body(es: seq<Entry>): seq<Token>
    decreases |es|
  {
    if es == [] then []
    else
      var init := es[..|es| - 1];
      Body(init) + Step(LevelAfter(init), es[|es| - 1])
  }

  /** The opening `<ol>`, the loop's tokens and the single closing `</ol>`. */
  function TocTokens(es: seq<Entry>): seq<Token> {
    [Open] + Body(es) + [Close]
  }

  function TokenHtml(t: Token): string {
    match t
    case Open => OL
    case Close => OL_END
    case Item(a, x) => ItemHtml(a, x)
  }

  /** `<li><a href="#anchor">text</a></li>` and a newline. */
  function ItemHtml(anchor: string, text: string): string {
    "<li><a href=\"#" + anchor + "\">" + text + "</a></li>\n"
  }

  /** The lists opened or closed to get from `current` to `level`. */
  function ListsHtml(current: nat, level: nat): string {
    if level > current then Repeat(OL, level - current)
    else if level < current then Repeat(OL_END, current - level)
    else ""
  }

  function Serialize(ts: seq<Token>): string
    decreases |ts|
  {
    if ts == [] then [] else Serialize(ts[..|ts| - 1]) + TokenHtml(ts[|ts| - 1])
  }

  const OL := "<ol>\n"
  const OL_END := "</ol>\n"
  const TOC_OPEN := "<div class=\"toc\">\n"
  const TOC_CLOSE := "</div>\n"
  const EMPTY_TOC := "<div class=\"toc\">\n<ol>\n</ol>\n</div>\n"

  /** The ToC markup for the entries. */
  function TocHtml(es: seq<Entry>): string {
    TOC_OPEN + Serialize(TocTokens(es)) + TOC_CLOSE
  }

  /** Lists opened minus lists closed. */
  function Depth(ts: seq<Token>): int
    decreases |ts|
  {
    if ts == [] then 0
    else
      var d := match ts[|ts| - 1] case Open => 1 case Close => -1 case Item(_, _) => 0;
      Depth(ts[..|ts| - 1]) + d
  }

  function ItemCount(ts: seq<Token>): nat
    decreases |ts|
  {
    if ts == [] then 0 else ItemCount(ts[..|ts| - 1]) + (if ts[|ts| - 1].Item? then 1 else 0)
  }

  lemma {:induction false} DepthAppend(a: seq<Token>, b: seq<Token>)
    ensures Depth(a + b) == Depth(a) + Depth(b)
    ensures ItemCount(a + b) == ItemCount(a) + ItemCount(b)
    decreases |b|
  {
    if b != [] {
      var b' := b[..|b| - 1];
      DepthAppend(a, b');
      assert (a + b)[..|a + b| - 1] == a + b';
    } else {
      assert a + b == a;
    }
  }

  lemma {:induction false} DepthTimes(t: Token, n: nat)
    requires !t.Item?
    ensures t.Open? ==> Depth(Times(t, n)) == n
    ensures t.Close? ==> Depth(Times(t, n)) + n == 0
    ensures ItemCount(Times(t, n)) == 0
    decreases n
  {
    if n > 0 {
      var ts := Times(t, n);
      var p := Times(t, n - 1);
      DepthTimes(t, n - 1);
      assert ts == p + [t];
      assert ts[..n - 1] == p;
      assert Depth(ts) == Depth(p) + (if t.Open? then 1 else -1);
      assert ItemCount(ts) == ItemCount(p);
    }
  }

  /** Before its item, a step has moved the depth from `current` to the
      entry's level; the item is its only item and comes last. */
  lemma StepDepth(current: nat, e: Entry)
    ensures var st := Step(current, e);
            && st != [] && st[|st| - 1] == Item(e.anchor, e.text)
            && Depth(st[..|st| - 1]) == e.level - current
            && ItemCount(st[..|st| - 1]) == 0
            && Depth(st) == e.level - current && ItemCount(st) == 1
  {
    var st := Step(current, e);
    var pre := st[..|st| - 1];
    if e.level > current {
      DepthTimes(Open, e.level - current);
    } else if e.level < current {
      DepthTimes(Close, current - e.level);
    }
    assert pre + [st[|st| - 1]] == st;
    DepthAppend(pre, [st[|st| - 1]]);
    assert Depth([st[|st| - 1]]) == 0 by { assert [st[|st| - 1]][..0] == []; }
    assert ItemCount([st[|st| - 1]]) == 1 by { assert [st[|st| - 1]][..0] == []; }
  }

  /** After the loop the depth is `current_level`, and there is one item
      per entry. */
  lemma {:induction false} BodyDepth(es: seq<Entry>)
    ensures Depth([Open] + Body(es)) == LevelAfter(es)
    ensures ItemCount(Body(es)) == |es|
    decreases |es|
  {
    if es == [] {
      assert [Open] + Body(es) == [Open];
      assert [Open][..0] == [];
    } else {
      BodyDepth(es[..|es| - 1]);
      BodyDepthStep(es, es[..|es| - 1], Body(es[..|es| - 1]));
    }
  }

  /** One more entry: its step moves the depth to its level and adds one item. */
  lemma BodyDepthStep(es: seq<Entry>, init: seq<Entry>, b: seq<Token>)
    requires es != [] && init == es[..|es| - 1] && b == Body(init)
    requires Depth([Open] + b) == LevelAfter(init) && ItemCount(b) == |init|
    ensures Depth([Open] + Body(es)) == LevelAfter(es)
    ensures ItemCount(Body(es)) == |es|
  {
    var st := Step(LevelAfter(init), es[|es| - 1]);
    StepDepth(LevelAfter(init), es[|es| - 1]);
    assert Body(es) == b + st;
    AppendAssoc([Open], b, st);
    DepthAppend([Open] + b, st);
    DepthAppend(b, st);
  }

  /** The whole list is closed exactly when there are no entries or the
      last entry is at level 1; otherwise `level - 1` lists stay open. */
  lemma TocBalance(es: seq<Entry>)
    ensures Depth(TocTokens(es)) == LevelAfter(es) - 1
    ensures Depth(TocTokens(es)) == 0 <==> es == [] || es[|es| - 1].level == 1
  {
    BodyDepth(es);
    DepthAppend([Open] + Body(es), [Close]);
    assert [Close][..0] == [];
  }

  /** The loop's tokens for a prefix of the entries are a prefix of its
      tokens for all of them. */
  lemma {:induction false} BodyPrefix(es: seq<Entry>, j: nat)
    requires j <= |es|
    ensures Body(es[..j]) <= Body(es)
    decreases |es| - j
  {
    if j < |es| {
      BodyPrefix(es, j + 1);
      var pre := es[..j + 1];
      assert pre[..|pre| - 1] == es[..j];
      assert pre[|pre| - 1] == es[j];
      var st := Step(LevelAfter(es[..j]), es[j]);
      assert Body(pre) == Body(es[..j]) + st;
      PrefixOfAppend(Body(es[..j]), st);
      PrefixTrans(Body(es[..j]), Body(pre), Body(es));
    } else {
      assert es[..j] == es;
    }
  }

  lemma PrefixOfAppend(a: seq<Token>, b: seq<Token>)
    ensures a <= a + b
  {
    assert (a + b)[..|a|] == a;
  }

  lemma PrefixTrans(a: seq<Token>, b: seq<Token>, c: seq<Token>)
    requires a <= b && b <= c
    ensures a <= c
  {
  }


  /** Where the `j`-th entry's item sits in the token sequence. */
  function ItemIndex(es: seq<Entry>, j: nat): nat
    requires j < |es|
  {
    |Body(es[..j + 1])|
  }

  /** Each entry's `<li>` is written when exactly as many lists are open as
      its level says, and it is the entry's own item: the `j`-th. */
  lemma ItemAtLevel(es: seq<Entry>, j: nat)
    requires j < |es|
    ensures ItemIndex(es, j) < |TocTokens(es)|
    ensures TocTokens(es)[ItemIndex(es, j)] == Item(es[j].anchor, es[j].text)
    ensures Depth(TocTokens(es)[..ItemIndex(es, j)]) == es[j].level
    ensures ItemCount(TocTokens(es)[..ItemIndex(es, j)]) == j
  {
    var b := Body(es[..j]);
    var st := Step(LevelAfter(es[..j]), es[j]);
    ItemLayout(es, j, b, st);
    HeadDepth(es, j, b, st);
  }

  /** The tokens before the `j`-th item: the opening list, the earlier
      entries' tokens and the lists of the `j`-th step. */
  lemma ItemLayout(es: seq<Entry>, j: nat, b: seq<Token>, st: seq<Token>)
    requires j < |es| && b == Body(es[..j]) && st == Step(LevelAfter(es[..j]), es[j])
    ensures st != [] && st[|st| - 1] == Item(es[j].anchor, es[j].text)
    ensures ItemIndex(es, j) == |[Open] + b| + |st| - 1 < |TocTokens(es)|
    ensures TocTokens(es)[ItemIndex(es, j)] == st[|st| - 1]
    ensures TocTokens(es)[..ItemIndex(es, j)] == ([Open] + b) + st[..|st| - 1]
  {
    var pre := es[..j + 1];
    assert pre[..|pre| - 1] == es[..j];
    assert Body(pre) == b + st;
    BodyPrefix(es, j + 1);
    TocPrefix(es, b, st);
    StepDepth(LevelAfter(es[..j]), es[j]);
    PrefixAt(TocTokens(es), [Open] + b, st);
  }

  /** Before the `j`-th item the depth is its level and `j` items precede. */
  lemma HeadDepth(es: seq<Entry>, j: nat, b: seq<Token>, st: seq<Token>)
    requires j < |es| && b == Body(es[..j]) && st == Step(LevelAfter(es[..j]), es[j])
    ensures st != []
    ensures Depth(([Open] + b) + st[..|st| - 1]) == es[j].level
    ensures ItemCount(([Open] + b) + st[..|st| - 1]) == j
  {
    StepDepth(LevelAfter(es[..j]), es[j]);
    BodyDepth(es[..j]);
    DepthAppend([Open] + b, st[..|st| - 1]);
    DepthAppend([Open], b);
    assert ItemCount([Open]) == 0 by { assert [Open][..0] == []; }
  }

  lemma TocPrefix(es: seq<Entry>, b: seq<Token>, st: seq<Token>)
    requires b + st <= Body(es)
    ensures ([Open] + b) + st <= TocTokens(es)
  {
    assert ([Open] + b) + st == [Open] + (b + st);
  }

  /** The token sequence read off at a prefix of the loop's tokens. */
  lemma PrefixAt(ts: seq<Token>, u: seq<Token>, st: seq<Token>)
    requires st != [] && u + st <= ts
    ensures ts[|u| + |st| - 1] == st[|st| - 1]
    ensures ts[..|u| + |st| - 1] == u + st[..|st| - 1]
  {
    assert (u + st)[|u| + |st| - 1] == st[|st| - 1];
  }

  lemma {:induction false} SerializeAppend(a: seq<Token>, b: seq<Token>)
    ensures Serialize(a + b) == Serialize(a) + Serialize(b)
    decreases |b|
  {
    if b == [] {
      assert a + b == a;
    } else {
      var b', last := b[..|b| - 1], b[|b| - 1];
      SerializeAppend(a, b');
      assert (a + b)[..|a + b| - 1] == a + b';
      assert (a + b)[|a + b| - 1] == last;
      assert Serialize(a + b) == Serialize(a + b') + TokenHtml(last);
      assert Serialize(b) == Serialize(b') + TokenHtml(last);
      AppendAssoc(Serialize(a), Serialize(b'), TokenHtml(last));
    }
  }

  lemma {:induction false} SerializeTimes(t: Token, n: nat)
    ensures Serialize(Times(t, n)) == Repeat(TokenHtml(t), n)
    decreases n
  {
    if n > 0 {
      SerializeTimes(t, n - 1);
      assert Times(t, n)[..n - 1] == Times(t, n - 1);
    }
  }

  /** The lists opened or closed before an entry. */
  function Lists(current: nat, level: nat): seq<Token> {
    if level > current then Times(Open, level - current)
    else if level < current then Times(Close, current - level)
    else []
  }

  lemma ListsHtmlIs(current: nat, level: nat)
    ensures Serialize(Lists(current, level)) == ListsHtml(current, level)
  {
    if level > current {
      assert Lists(current, level) == Times(Open, level - current);
      assert ListsHtml(current, level) == Repeat(OL, level - current);
      SerializeTimes(Open, level - current);
    } else if level < current {
      assert Lists(current, level) == Times(Close, current - level);
      assert ListsHtml(current, level) == Repeat(OL_END, current - level);
      SerializeTimes(Close, current - level);
    } else {
      assert Lists(current, level) == [];
    }
  }

  lemma ItemHtmlIs(a: string, x: string)
    ensures Serialize([Item(a, x)]) == ItemHtml(a, x)
  {
    assert [Item(a, x)][..0] == [];
  }

  /** The text of one loop iteration. */
  lemma StepHtml(current: nat, e: Entry)
    ensures Serialize(Step(current, e)) == ListsHtml(current, e.level) + ItemHtml(e.anchor, e.text)
  {
    var lists := Lists(current, e.level);
    assert Step(current, e) == lists + [Item(e.anchor, e.text)];
    SerializeAppend(lists, [Item(e.anchor, e.text)]);
    ListsHtmlIs(current, e.level);
    ItemHtmlIs(e.anchor, e.text);
  }

  lemma LoopStep(toc: seq<Entry>, i: nat)
    requires i < |toc|
    ensures Serialize([Open] + Body(toc[..i + 1]))
            == Serialize([Open] + Body(toc[..i])) + Serialize(Step(LevelAfter(toc[..i]), toc[i]))
  {
    var pre := toc[..i + 1];
    assert pre[..|pre| - 1] == toc[..i];
    var st := Step(LevelAfter(toc[..i]), toc[i]);
    assert [Open] + Body(pre) == ([Open] + Body(toc[..i])) + st;
    SerializeAppend([Open] + Body(toc[..i]), st);
  }

  lemma EmptyToc()
    ensures TocHtml([]) == EMPTY_TOC
  {
    assert TocTokens([]) == [Open, Close];
    assert [Open, Close][..1] == [Open] && [Open][..0] == [];
  }

  /** The ToC loop of `generate_toc`, as written: `current_level` starts at
      1, lists are opened or closed up to each entry's level, and one
      `</ol>` ends the output. */
  method RenderToc(toc: seq<Entry>) returns (html: string)
    ensures html == TocHtml(toc)
    ensures toc == [] ==> html == EMPTY_TOC
  {
    html := TOC_OPEN + OL;
    var current: nat := 1;
    LoopInit(toc);
    for i := 0 to |toc|
      invariant current == LevelAfter(toc[..i])
      invariant html == TOC_OPEN + Serialize([Open] + Body(toc[..i]))
    {
      var e := toc[i];
      ghost var before := html;
      if e.level > current {
        html := html + Repeat(OL, e.level - current);
      } else if e.level < current {
        html := html + Repeat(OL_END, current - e.level);
      }
      assert html == before + ListsHtml(current, e.level);
      html := html + ItemHtml(e.anchor, e.text);
      LoopBody(toc, i, before, current);
      current := e.level;
    }
    LoopEnd(toc, html);
    html := html + OL_END + TOC_CLOSE;
    if toc == [] {
      EmptyToc();
    }
  }

  lemma LoopInit(toc: seq<Entry>)
    ensures TOC_OPEN + OL == TOC_OPEN + Serialize([Open] + Body(toc[..0]))
  {
    assert toc[..0] == [];
    assert [Open] + Body([]) == [Open];
    assert [Open][..0] == [];
  }

  lemma LoopBody(toc: seq<Entry>, i: nat, before: string, current: nat)
    requires i < |toc| && current == LevelAfter(toc[..i])
    requires before == TOC_OPEN + Serialize([Open] + Body(toc[..i]))
    ensures before + ListsHtml(current, toc[i].level) + ItemHtml(toc[i].anchor, toc[i].text)
            == TOC_OPEN + Serialize([Open] + Body(toc[..i + 1]))
  {
    StepHtml(current, toc[i]);
    LoopStep(toc, i);
    var x := Serialize([Open] + Body(toc[..i]));
    var l, t := ListsHtml(current, toc[i].level), ItemHtml(toc[i].anchor, toc[i].text);
    calc {
      before + l + t;
      (TOC_OPEN + x) + l + t;
      { AppendAssoc(TOC_OPEN + x, l, t); AppendAssoc(TOC_OPEN, x, l + t); AppendAssoc(x, l, t); }
      TOC_OPEN + (x + (l + t));
    }
  }

  lemma LoopEnd(toc: seq<Entry>, html: string)
    requires html == TOC_OPEN + Serialize([Open] + Body(toc[..|toc|]))
    ensures html + OL_END + TOC_CLOSE == TocHtml(toc)
  {
    assert toc[..|toc|] == toc;
    var ts := [Open] + Body(toc);
    assert TocTokens(toc) == ts + [Close];
    SerializeAppend(ts, [Close]);
    assert Serialize([Close]) == OL_END by { assert [Close][..0] == []; }
    AppendAssoc(TOC_OPEN, Serialize(ts), OL_END);
  }

  /** The result of `generate_toc`: the ToC markup and the rewritten text. */
  datatype TocResult = TocResult(toc: string, content: string)

  /** `generate_toc`: one heading pass, then the ToC loop (`RenderToc`)
      over its entries. */
  function GenerateToc(content: string): (r: TocResult)
    // the pass reads the whole text, and the pieces it cuts it into give
    // both results
    ensures var ps := Scan(content, true, 0);
            && Source(ps) == content
            && r.content == Rewrite(ps)
            && r.toc == TocHtml(Entries(ps))
    // entries are numbered `heading-0`, `heading-1`, ... and well formed
    ensures Numbered(Entries(Scan(content, true, 0)), 0)
    ensures AllWellFormed(Entries(Scan(content, true, 0)))
    // text without `#` has no headings: it is kept and the ToC is empty
    ensures NoHash(content) ==> r == TocResult(EMPTY_TOC, content)
  {
    var ps := Scan(content, true, 0);
    ScanSource(content, true, 0);
    ScanAnchors(content, true, 0);
    ScanWellFormed(content, true, 0);
    var r := TocResult(TocHtml(Entries(ps)), Rewrite(ps));
    if NoHash(content) then
      ScanNoHeading(content, true, 0);
      EmptyToc();
      r
    else r
  }

  predicate NoHash(s: string) {
    AllIn(s, Except('#'))
  }

  /** Without a `#` nothing matches: no entries, and the text is copied. */
  lemma {:induction false} ScanNoHeading(s: string, atLineStart: bool, k: nat)
    requires NoHash(s)
    ensures Entries(Scan(s, atLineStart, k)) == []
    ensures Rewrite(Scan(s, atLineStart, k)) == s
    decreases |s|
  {
    if s != [] {
      var ps := Scan(s, atLineStart, k);
      var rest := Scan(s[1..], s[0] == '\n', k);
      assert ps == [Char(s[0])] + rest;
      assert ps[1..] == rest;
      ScanNoHeading(s[1..], s[0] == '\n', k);
      assert s == [s[0]] + s[1..];
    }
  }

  /** Text without `#` is copied by the pass and leaves it at a line start
      exactly when it ends with a newline. */
  lemma {:induction false} ScanSkip(u: string, t: string, atLineStart: bool, k: nat)
    requires u != [] && NoHash(u)
    ensures Entries(Scan(u + t, atLineStart, k)) == Entries(Scan(t, u[|u| - 1] == '\n', k))
    decreases |u|
  {
    var s := u + t;
    assert s[0] == u[0];
    var rest := Scan(s[1..], u[0] == '\n', k);
    assert Scan(s, atLineStart, k) == [Char(u[0])] + rest;
    assert ([Char(u[0])] + rest)[1..] == rest;
    if |u| == 1 {
      assert s[1..] == t;
    } else {
      assert s[1..] == u[1..] + t;
      ScanSkip(u[1..], t, u[0] == '\n', k);
      assert u[1..][|u| - 2] == u[|u| - 1];
    }
  }

  /** Text without `#` is copied into the rewritten document, and the pass
      goes on after it at a line start exactly when it ends with a newline. */
  lemma {:induction false} RewriteSkip(u: string, t: string, atLineStart: bool, k: nat)
    requires u != [] && NoHash(u)
    ensures Rewrite(Scan(u + t, atLineStart, k)) == u + Rewrite(Scan(t, u[|u| - 1] == '\n', k))
    decreases |u|
  {
    var s := u + t;
    assert s[0] == u[0];
    var rest := Scan(s[1..], u[0] == '\n', k);
    assert Scan(s, atLineStart, k) == [Char(u[0])] + rest;
    assert ([Char(u[0])] + rest)[1..] == rest;
    assert Rewrite(Scan(s, atLineStart, k)) == [u[0]] + Rewrite(rest);
    var w := Rewrite(Scan(t, u[|u| - 1] == '\n', k));
    if |u| == 1 {
      assert s[1..] == t;
      assert u == [u[0]];
    } else {
      var u' := u[1..];
      assert s[1..] == u' + t;
      assert NoHash(u') by {
        forall i | 0 <= i < |u'| ensures InClass(u'[i], Except('#')) {
          assert u'[i] == u[i + 1];
        }
      }
      RewriteSkip(u', t, u[0] == '\n', k);
      assert u'[|u'| - 1] == u[|u| - 1];
      assert Rewrite(rest) == u' + w;
      ConsAppend(u, w);
    }
  }

  /** A heading at the start of a line becomes its tag, numbered with the
      current counter, and the pass goes on after the match with the next
      number. */
  lemma RewriteHeading(s: string, k: nat, h: Heading)
    requires HeadingAt(s, true) == Some(h)
    ensures Rewrite(Scan(s, true, k))
         == HeadingTag(Entry(h.level, h.text, Anchor(k))) + Rewrite(Scan(s[h.len..], s[h.len - 1] == '\n', k + 1))
  {
    assert Scan(s, true, k)[1..] == Scan(s[h.len..], s[h.len - 1] == '\n', k + 1);
  }

  /** The first heading of a document at level 1 with text `x` becomes
      `<h1 id="heading-0">x</h1>`. */
  lemma HeadingTagExample()
    ensures HeadingTag(Entry(1, "x", Anchor(0))) == "<h1 id=\"heading-0\">x</h1>"
  {
    var l := NatToString(1);
    assert l == "1";
    var a := Anchor(0);
    assert a == "heading-0" by { assert NatToString(0) == "0"; }
    assert HeadingTag(Entry(1, "x", a)) == "<h" + l + " id=\"" + a + "\">" + "x" + "</h" + l + ">";
  }

  /** A heading at the start of the text is the first entry of the pass. */
  lemma ScanHeading(t: string, k: nat, h: Heading)
    requires HeadingAt(t, true) == Some(h)
    ensures var es := Entries(Scan(t, true, k));
            es != [] && es[0] == Entry(h.level, h.text, Anchor(k))
  {
    var ps := Scan(t, true, k);
    assert ps[0] == Head(t[..h.len], Entry(h.level, h.text, Anchor(k)));
  }

  /** A line of hashes, whitespace and stripped one-line text, ended by a
      newline, is a heading with exactly that text. */
  lemma LineHeading(hashes: string, ws: string, text: string, rest: string)
    requires 1 <= |hashes| <= 6 && forall i :: 0 <= i < |hashes| ==> hashes[i] == '#'
    requires forall i :: 0 <= i < |ws| ==> IsSpace(ws[i])
    requires text != [] && IsStripped(text) && NoNewline(text)
    requires |hashes| < 6 ==> (ws + text)[0] != '#'
    ensures HeadingAt(hashes + ws + text + "\n" + rest, true)
         == Some(Heading(|hashes|, text, |hashes| + |ws| + |text|))
  {
    var s := hashes + ws + text + "\n" + rest;
    var a := |hashes| + |ws|;
    var m := a + |text|;
    LineMatch(hashes, ws, text, rest);
    FiveParts(hashes, ws, text, "\n", rest);
    MatchedText(s, |hashes|, a, m, text);
  }

  /** A whole match whose line is already stripped has that line as text. */
  lemma MatchedText(s: string, level: nat, a: nat, m: nat, text: string)
    requires IsHeadingMatch(s, level, a, m) && s[a..m] == text && IsStripped(text)
    ensures HeadingAt(s, true) == Some(Heading(level, text, m))
  {
    HeadingAtComplete(s, level, a, m);
    StripFixed(text);
  }

  lemma LineMatch(hashes: string, ws: string, text: string, rest: string)
    requires 1 <= |hashes| <= 6 && forall i :: 0 <= i < |hashes| ==> hashes[i] == '#'
    requires forall i :: 0 <= i < |ws| ==> IsSpace(ws[i])
    requires text != [] && NoNewline(text) && !IsSpace(text[0])
    requires |hashes| < 6 ==> (ws + text)[0] != '#'
    ensures IsHeadingMatch(hashes + ws + text + "\n" + rest, |hashes|, |hashes| + |ws|, |hashes| + |ws| + |text|)
  {
    var s := hashes + ws + text + "\n" + rest;
    var level := |hashes|;
    var a := level + |ws|;
    var m := a + |text|;
    forall i | 0 <= i < level ensures s[i] == '#' {
      assert s[i] == hashes[i];
    }
    forall i | level <= i < a ensures IsSpace(s[i]) {
      assert s[i] == ws[i - level];
    }
    forall i | a <= i < m ensures s[i] != '\n' {
      assert s[i] == text[i - a];
    }
    assert s[a] == text[0];
    assert s[m] == '\n';
    if level < 6 {
      assert s[level] == (ws + text)[0];
    }
  }

  /** Seven `#` give a level-6 heading whose text keeps the seventh. */
  lemma SevenHashesExample(rest: string)
    ensures HeadingAt("#######x\n" + rest, true) == Some(Heading(6, "#x", 8))
  {
    LineHeading("######", "", "#x", rest);
    assert "######" + "" + "#x" + "\n" + rest == "#######x\n" + rest;
  }

  /** `\s*` may match nothing, so a hashtag at a line start is a heading. */
  lemma HashtagExample(rest: string)
    ensures HeadingAt("#tag\n" + rest, true) == Some(Heading(1, "tag", 4))
  {
    LineHeading("#", "", "tag", rest);
    assert "#" + "" + "tag" + "\n" + rest == "#tag\n" + rest;
  }

  /** `\s*` runs across blank lines: the text comes from a later line. */
  lemma BlankLinesExample(rest: string)
    ensures HeadingAt("#\n\nfoo\n" + rest, true) == Some(Heading(1, "foo", 6))
  {
    LineHeading("#", "\n\n", "foo", rest);
    assert "#" + "\n\n" + "foo" + "\n" + rest == "#\n\nfoo\n" + rest;
  }

  /** A lone heading at level 3 opens two lists beyond the initial one
      before its item, and they stay open. */
  lemma DeepFirstExample(x: string, a: string)
    ensures TocTokens([Entry(3, x, a)]) == [Open, Open, Open, Item(a, x), Close]
  {
    var es := [Entry(3, x, a)];
    assert es[..0] == [];
    assert Body(es) == Step(1, es[0]);
    assert Times(Open, 2) == [Open, Open];
  }

  /** A later heading at level 1 closes those lists again: the ToC is
      balanced. */
  lemma DeepThenShallowExample(x: string, a: string, y: string, b: string)
    ensures Depth(TocTokens([Entry(3, x, a), Entry(1, y, b)])) == 0
  {
    var es := [Entry(3, x, a), Entry(1, y, b)];
    TocBalance(es);
    assert es[|es| - 1].level == 1;
  }
}
