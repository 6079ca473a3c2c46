/** The code-block pass of main.py's `process_markdown_file`: `re.sub` with
    DOTALL of the pattern ```` ```(\w+)?\n(.*?)``` ```` by a `<pre><code>`
    element whose content is HTML-escaped by three `str.replace` calls,
    `&` first, then `<`, then `>`. */
module CodeBlocks {
  import opened Text

  const FENCE := "```"
  const PRE := "<pre><code>"
  const PRE_CLASS := "<pre><code class=\"language-"
  const POST := "</code></pre>"

  /** What `\w+` accepts, or the empty string when the group is absent. */
  predicate IsWord(t: string) {
    AllIn(t, Word)
  }

  /** A fenced block as it appears in the markdown. */
  function Fenced(lang: string, code: string): string {
    FENCE + lang + "\n" + code + FENCE
  }

  /** The language tag (empty when absent), the lazily captured content and
      the length of the match. */
  datatype Block = Block(lang: string, code: string, len: nat)

  /** The match of the pattern at the start of `s`, if any. `(\w+)?\n`
      leaves no choice: the tag is the whole word run after the fence and
      a newline must follow it; the content stops at the earliest fence. */
  function BlockAt(s: string): (r: Option<Block>)
    ensures r.Some? ==> 6 + |r.value.lang| <= r.value.len <= |s|
  {
    if !StartsWith(s, FENCE) then None
    else
      var w := Span(s, 3, Word);
      if 3 + w == |s| || s[3 + w] != '\n' then None
      else
        match FindFrom(s, FENCE, 4 + w)
        case None => None
        case Some(c) => Some(Block(s[3..3 + w], s[4 + w..c], c + 3))
  }

  /** What `BlockAt` finds is a fenced block: a word tag and content free
      of fences. */
  lemma BlockAtMatches(s: string)
    requires BlockAt(s).Some?
    ensures var b := BlockAt(s).value;
            && s[..b.len] == Fenced(b.lang, b.code)
            && IsWord(b.lang)
            && Absent(b.code, FENCE)
  {
    var b := BlockAt(s).value;
    var w := Span(s, 3, Word);
    SpanRun(s, 3, Word);
    var c := b.len - 3;
    assert b.lang == s[3..3 + w] && b.code == s[4 + w..c];
    assert OccursAt(s, FENCE, c);
    forall k | 0 <= k < w ensures IsWordChar(b.lang[k]) {
      assert b.lang[k] == s[3 + k] && InClass(s[3 + k], Word);
    }
    forall j | 0 <= j <= |b.code| ensures !OccursAt(b.code, FENCE, j) {
      OccursInSlice(s, FENCE, 4 + w, c, j);
    }
    FencedShape(s, w, c);
  }

  /** The text from an opening fence to a closing one is a fenced block. */
  lemma FencedShape(s: string, w: nat, c: nat)
    requires StartsWith(s, FENCE) && 4 + w <= c && c + 3 <= |s|
    requires s[3 + w] == '\n' && s[c..c + 3] == FENCE
    ensures s[..c + 3] == Fenced(s[3..3 + w], s[4 + w..c])
  {
    PrefixJoin(s, 3, 3 + w);
    PrefixJoin(s, 3 + w, 4 + w);
    PrefixJoin(s, 4 + w, c);
    PrefixJoin(s, c, c + 3);
    assert s[3 + w..4 + w] == "\n";
  }

  /** Every fenced block whose content has no fence before the closing one
      is matched with exactly that tag and content, whatever follows. */
  lemma BlockAtFinds(lang: string, code: string, rest: string)
    requires IsWord(lang)
    requires forall j :: 0 <= j < |code| ==> !OccursAt(code + FENCE, FENCE, j)
    ensures BlockAt(Fenced(lang, code) + rest) == Some(Block(lang, code, |Fenced(lang, code)|))
  {
    var s := Fenced(lang, code) + rest;
    var n := 4 + |lang|;
    FencedSlices(lang, code, rest, s);
    LangSpan(s, lang);
    FencedClose(s, code, n);
    CodeSlice(s, code, n);
    BlockAtUnfold(s, |lang|, n + |code|);
  }

  /** The facts the scan reads off a fenced block: its tag... */
  lemma LangSpan(s: string, lang: string)
    requires IsWord(lang)
    requires 3 + |lang| < |s| && s[3..3 + |lang|] == lang && s[3 + |lang|] == '\n'
    ensures Span(s, 3, Word) == |lang|
  {
    forall k | 3 <= k < 3 + |lang| ensures InClass(s[k], Word) {
      assert s[k] == s[3..3 + |lang|][k - 3];
    }
    SpanExact(s, 3, |lang|, Word);
  }

  /** ...its content... */
  lemma CodeSlice(s: string, code: string, n: nat)
    requires n + |code| + 3 <= |s| && s[n..n + |code| + 3] == code + FENCE
    ensures s[n..n + |code|] == code
  {
    SliceOfSlice(s, n, n + |code| + 3, 0, |code|);
    assert (code + FENCE)[..|code|] == code;
  }

  /** Where each part of a fenced block sits. */
  lemma FencedSlices(lang: string, code: string, rest: string, s: string)
    requires s == Fenced(lang, code) + rest
    ensures |Fenced(lang, code)| == 4 + |lang| + |code| + 3 && 4 + |lang| + |code| + 3 <= |s|
    ensures s[..3] == FENCE && StartsWith(s, FENCE)
    ensures s[3..3 + |lang|] == lang
    ensures s[3 + |lang|] == '\n'
    ensures s[4 + |lang|..4 + |lang| + |code| + 3] == code + FENCE
  {
    FiveParts(FENCE, lang, "\n", code + FENCE, rest);
    assert s == FENCE + lang + "\n" + (code + FENCE) + rest;
    assert s[3 + |lang|] == s[3 + |lang|..4 + |lang|][0];
  }

  /** ...and its closing fence, the first one after the content. */
  lemma FencedClose(s: string, code: string, n: nat)
    requires n + |code| + 3 <= |s| && s[n..n + |code| + 3] == code + FENCE
    requires forall j :: 0 <= j < |code| ==> !OccursAt(code + FENCE, FENCE, j)
    ensures FindFrom(s, FENCE, n) == Some(n + |code|)
  {
    forall j | n <= j < n + |code| ensures !OccursAt(s, FENCE, j) {
      OccursShift(s, code + FENCE, n, FENCE, j - n);
    }
    OccursShift(s, code + FENCE, n, FENCE, |code|);
    assert OccursAt(code + FENCE, FENCE, |code|);
    FindFromIs(s, FENCE, n, n + |code|);
  }

  lemma BlockAtUnfold(s: string, w: nat, c: nat)
    requires StartsWith(s, FENCE) && 3 + w < |s| && Span(s, 3, Word) == w && s[3 + w] == '\n'
    requires FindFrom(s, FENCE, 4 + w) == Some(c)
    ensures BlockAt(s) == Some(Block(s[3..3 + w], s[4 + w..c], c + 3))
  {
  }

  /** The escape of one character by the three replacements together. */
  function EscapeChar(c: char): string {
    if c == '&' then "&amp;" else if c == '<' then "&lt;" else if c == '>' then "&gt;" else [c]
  }

  /** Reference escape: each character escaped on its own. */
  function EscapeHtml(s: string): (r: string)
    ensures forall k :: 0 <= k < |r| ==> r[k] != '<' && r[k] != '>'
    ensures |s| <= |r|
  {
    if s == [] then [] else EscapeChar(s[0]) + EscapeHtml(s[1..])
  }

  /** The escape as main.py writes it: three `str.replace` calls, `&` first. */
  function ReplaceChain(s: string): (r: string)
    // code with nothing to escape is kept
    ensures Absent(s, "&") && Absent(s, "<") && Absent(s, ">") ==> r == s
  {
    ReplaceAll(ReplaceAll(ReplaceAll(s, "&", "&amp;"), "<", "&lt;"), ">", "&gt;")
  }

  /** Because `&` goes first, the entities the later passes insert are never
      escaped again: the chain escapes each character exactly once. */
  lemma {:induction false} ReplaceChainIsEscape(s: string)
    ensures ReplaceChain(s) == EscapeHtml(s)
    decreases |s|
  {
    if s != [] {
      var x := [s[0]];
      assert s == x + s[1..];
      ReplaceChainAppend(x, s[1..]);
      ReplaceChainChar(s[0]);
      ReplaceChainIsEscape(s[1..]);
    }
  }

  lemma ReplaceChainAppend(a: string, b: string)
    ensures ReplaceChain(a + b) == ReplaceChain(a) + ReplaceChain(b)
  {
    ReplaceCharAppend(a, b, '&', "&amp;");
    var a1, b1 := ReplaceAll(a, "&", "&amp;"), ReplaceAll(b, "&", "&amp;");
    ReplaceCharAppend(a1, b1, '<', "&lt;");
    var a2, b2 := ReplaceAll(a1, "<", "&lt;"), ReplaceAll(b1, "<", "&lt;");
    ReplaceCharAppend(a2, b2, '>', "&gt;");
  }

  lemma ReplaceChainChar(c: char)
    ensures ReplaceChain([c]) == EscapeChar(c)
  {
    ReplaceOne(c, '&', "&amp;");
    var s1 := ReplaceAll([c], "&", "&amp;");
    if c == '&' {
      AbsentChar(s1, '<');
      AbsentChar(s1, '>');
    } else {
      ReplaceOne(c, '<', "&lt;");
      var s2 := ReplaceAll(s1, "<", "&lt;");
      if c == '<' {
        AbsentChar(s2, '>');
      } else {
        ReplaceOne(c, '>', "&gt;");
      }
    }
  }

  /** Reads the three entities back; every other character is kept. */
  function Unescape(s: string): (r: string)
    ensures |r| <= |s|
    decreases |s|
  {
    if s == [] then []
    else if StartsWith(s, "&amp;") then "&" + Unescape(s[5..])
    else if StartsWith(s, "&lt;") then "<" + Unescape(s[4..])
    else if StartsWith(s, "&gt;") then ">" + Unescape(s[4..])
    else [s[0]] + Unescape(s[1..])
  }

  /** Code without `&`, `<` or `>` is its own escape. */
  lemma {:induction false} EscapeKeeps(s: string)
    requires forall k :: 0 <= k < |s| ==> s[k] != '&' && s[k] != '<' && s[k] != '>'
    ensures EscapeHtml(s) == s
    decreases |s|
  {
    if s != [] {
      EscapeKeeps(s[1..]);
      assert s == [s[0]] + s[1..];
    }
  }

  /** Escaping loses nothing: the original code is recovered. */
  lemma {:induction false} UnescapeEscape(s: string)
    ensures Unescape(EscapeHtml(s)) == s
    decreases |s|
  {
    if s != [] {
      UnescapeStep(s[0], EscapeHtml(s[1..]));
      UnescapeEscape(s[1..]);
      assert s == [s[0]] + s[1..];
    }
  }

  lemma UnescapeStep(c: char, rest: string)
    ensures Unescape(EscapeChar(c) + rest) == [c] + Unescape(rest)
  {
    var t := EscapeChar(c) + rest;
    if c == '&' {
      assert t[..5] == "&amp;" && t[5..] == rest;
    } else if c == '<' {
      assert !StartsWith(t, "&amp;") by { assert t[1] == 'l'; }
      assert t[..4] == "&lt;" && t[4..] == rest;
    } else if c == '>' {
      assert !StartsWith(t, "&amp;") && !StartsWith(t, "&lt;") by { assert t[1] == 'g'; }
      assert t[..4] == "&gt;" && t[4..] == rest;
    } else {
      assert t[0] == c && t[1..] == rest;
      assert t != [] && !StartsWith(t, "&amp;") && !StartsWith(t, "&lt;") && !StartsWith(t, "&gt;") by {
        assert c != '&';
      }
    }
  }

  /** The opening tag: with a class naming the language exactly when a tag
      was captured (an absent group reads as `''`, which is falsy). */
  function OpenTag(lang: string): (r: string)
    ensures lang != [] <==> StartsWith(r, PRE_CLASS)
    ensures StartsWith(r, "<pre><code") && EndsWith(r, ">")
  {
    if lang != [] then PRE_CLASS + lang + "\">" else PRE
  }

  /** `code_block_replacement` for one match: the escaped content between
      the opening and closing tags. */
  function BlockHtml(lang: string, code: string): (r: string)
    ensures lang != [] <==> StartsWith(r, PRE_CLASS)
    ensures |OpenTag(lang)| + |POST| <= |r| && EndsWith(r, POST)
    // the content between the tags has no raw `<` or `>`, and reads back
    // as exactly the captured code
    ensures var content := r[|OpenTag(lang)|..|r| - |POST|];
            && (forall k :: 0 <= k < |content| ==> content[k] != '<' && content[k] != '>')
            && Unescape(content) == code
  {
    var e := EscapeHtml(code);
    var r := OpenTag(lang) + e + POST;
    assert lang == [] ==> r[10] == '>' != PRE_CLASS[10];
    assert lang != [] ==> r[..|PRE_CLASS|] == PRE_CLASS;
    assert r[|r| - |POST|..] == POST;
    assert r[|OpenTag(lang)|..|r| - |POST|] == e;
    UnescapeEscape(code);
    r
  }

  /** The element is what main.py builds with its three replacements. */
  lemma BlockHtmlIsSource(lang: string, code: string)
    ensures BlockHtml(lang, code) == OpenTag(lang) + ReplaceChain(code) + POST
  {
    ReplaceChainIsEscape(code);
  }

  /** The whole code-block pass: `re.sub` over the document. */
  function EscapeCodeBlocks(s: string): (r: string)
    // a document without a fence comes back unchanged
    ensures Absent(s, FENCE) ==> r == s
    decreases |s|
  {
    if s == [] then []
    else
      match BlockAt(s)
      case Some(b) =>
        assert OccursAt(s, FENCE, 0);
        BlockHtml(b.lang, b.code) + EscapeCodeBlocks(s[b.len..])
      case None =>
        assert Absent(s, FENCE) ==> Absent(s[1..], FENCE) by {
          if Absent(s, FENCE) { AbsentInSuffix(s, FENCE, 1); }
        }
        [s[0]] + EscapeCodeBlocks(s[1..])
  }

  /** A fenced block is replaced in place and the scan resumes after it. */
  lemma EscapeStep(lang: string, code: string, rest: string)
    requires IsWord(lang)
    requires forall j :: 0 <= j < |code| ==> !OccursAt(code + FENCE, FENCE, j)
    ensures EscapeCodeBlocks(Fenced(lang, code) + rest) == BlockHtml(lang, code) + EscapeCodeBlocks(rest)
  {
    var f := Fenced(lang, code);
    BlockAtFinds(lang, code, rest);
    assert (f + rest)[|f|..] == rest;
  }

  /** A character that cannot open a fence is copied. */
  lemma EscapeCopies(s: string)
    requires s != [] && s[0] != '`'
    ensures EscapeCodeBlocks(s) == [s[0]] + EscapeCodeBlocks(s[1..])
  {
    assert !StartsWith(s, FENCE) by {
      if |s| >= 3 {
        assert s[..3][0] == s[0];
      }
    }
    assert BlockAt(s).None?;
  }

  /** Text before the next backtick is copied unchanged. */
  lemma {:induction false} EscapePlain(u: string, rest: string)
    requires forall k :: 0 <= k < |u| ==> u[k] != '`'
    ensures EscapeCodeBlocks(u + rest) == u + EscapeCodeBlocks(rest)
    decreases |u|
  {
    if u == [] {
      assert u + rest == rest;
    } else {
      var s := u + rest;
      assert s[0] == u[0] && s[1..] == u[1..] + rest;
      EscapeCopies(s);
      EscapePlain(u[1..], rest);
      calc {
        EscapeCodeBlocks(s);
        [u[0]] + EscapeCodeBlocks(u[1..] + rest);
        [u[0]] + (u[1..] + EscapeCodeBlocks(rest));
        { ConsAppend(u, EscapeCodeBlocks(rest)); }
        u + EscapeCodeBlocks(rest);
      }
    }
  }

  /** An untagged block: the content is everything up to the fence. */
  lemma UntaggedExample(rest: string)
    ensures BlockAt("```\n<b>```" + rest) == Some(Block("", "<b>", 10))
  {
    assert Fenced("", "<b>") == "```\n<b>```";
    NotAt("<b>" + FENCE, FENCE, 0);
    NotAt("<b>" + FENCE, FENCE, 1);
    NotAt("<b>" + FENCE, FENCE, 2);
    BlockAtFinds("", "<b>", rest);
  }

  /** Its content is escaped character by character. */
  lemma EscapeExample()
    ensures EscapeHtml("<b>") == "&lt;b&gt;"
  {
  }

  /** A tagged block: the newline before the closing fence stays inside the
      code. */
  lemma TaggedExample(rest: string)
    ensures BlockAt("```py\nx\n```" + rest) == Some(Block("py", "x\n", 11))
  {
    assert Fenced("py", "x\n") == "```py\nx\n```";
    NotAt("x\n" + FENCE, FENCE, 0);
    NotAt("x\n" + FENCE, FENCE, 1);
    BlockAtFinds("py", "x\n", rest);
  }

  /** Text that is already escaped is escaped again. */
  lemma DoubleEscapeExample()
    ensures EscapeHtml("&lt;") == "&amp;lt;"
  {
  }

  /** A tag that is not followed by a newline is no block. */
  lemma NoNewlineExample(rest: string)
    ensures BlockAt("```py x```" + rest).None?
  {
    var s := "```py x```" + rest;
    assert s[3] == 'p' && s[4] == 'y' && s[5] == ' ';
    SpanExact(s, 3, 2, Word);
  }
}
