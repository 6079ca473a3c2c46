/** The frontmatter split of main.py: the pattern `^---\n(.*?)\n---\n(.*)$`
    searched with DOTALL and without MULTILINE. `^` can then only match at
    index 0, the lazy group stops at the earliest closing delimiter, and the
    greedy `(.*)$` takes the whole remainder. */
module Frontmatter {
  import opened Text

  const OPEN := "---\n"
  const CLOSE := "\n---\n"

  /** The metadata text, when a block was found, and the markdown body. */
  datatype Split = Split(meta: Option<string>, body: string)

  /** `content` opens a frontmatter block and a closing delimiter follows. */
  ghost predicate HasBlock(content: string) {
    StartsWith(content, OPEN) && exists j :: |OPEN| <= j && OccursAt(content, CLOSE, j)
  }

  function Parse(content: string): (r: Split)
    // a found block reassembles into the document
    ensures r.meta.Some? ==> content == OPEN + r.meta.value + CLOSE + r.body
    // and its closing delimiter is the earliest one after the opening line
    ensures r.meta.Some? ==>
              forall j :: |OPEN| <= j < |OPEN| + |r.meta.value| ==> !OccursAt(content, CLOSE, j)
    // no block exactly when the opening line or every closing line is missing
    ensures r.meta.None? <==> !HasBlock(content)
    // and then the document is the body, unchanged
    ensures r.meta.None? ==> r.body == content
  {
    if StartsWith(content, OPEN) then
      match FindFrom(content, CLOSE, |OPEN|)
      case Some(j) =>
        var meta := content[|OPEN|..j];
        var body := content[j + |CLOSE|..];
        Reassemble(content, |OPEN|, j, j + |CLOSE|);
        Split(Some(meta), body)
      case None => Split(None, content)
    else Split(None, content)
  }

  /** Every document assembled from a metadata text with no earlier closing
      delimiter splits back into exactly that metadata and body. */
  lemma ParseAssembled(meta: string, body: string)
    requires forall j :: 0 <= j < |meta| ==> !OccursAt(meta + CLOSE, CLOSE, j)
    ensures Parse(OPEN + meta + CLOSE + body) == Split(Some(meta), body)
  {
    var content := OPEN + meta + CLOSE + body;
    var n := |OPEN|;
    assert OccursAt(content, CLOSE, n + |meta|) by {
      assert content[n + |meta|..n + |meta| + |CLOSE|] == CLOSE;
    }
    forall j | n <= j < n + |meta|
      ensures !OccursAt(content, CLOSE, j)
    {
      assert content[j..j + |CLOSE|] == (meta + CLOSE)[j - n..j - n + |CLOSE|];
      assert !OccursAt(meta + CLOSE, CLOSE, j - n);
    }
    var r := Parse(content);
    assert r.meta.Some? by {
      assert StartsWith(content, OPEN);
    }
    var m := r.meta.value;
    assert OccursAt(content, CLOSE, n + |m|) by {
      assert content[n + |m|..n + |m| + |CLOSE|] == CLOSE;
    }
    assert |m| == |meta|;
    assert m == content[n..n + |m|] == meta;
    assert r.body == content[n + |m| + |CLOSE|..] == body;
  }

  /** A second closing delimiter stays in the body: the lazy group takes
      the shortest metadata. */
  lemma EarliestDelimiterWins()
    ensures Parse("---\na\n---\nb\n---\nc") == Split(Some("a"), "b\n---\nc")
  {
    assert !OccursAt("a" + CLOSE, CLOSE, 0) by {
      assert ("a" + CLOSE)[0] == 'a';
    }
    assert OPEN + "a" + CLOSE + "b\n---\nc" == "---\na\n---\nb\n---\nc";
    ParseAssembled("a", "b\n---\nc");
  }

  /** An opening line that is not at index 0 is not a block. */
  lemma NotAtStart()
    ensures Parse("\n---\nx\n---\ny") == Split(None, "\n---\nx\n---\ny")
  {
    var content := "\n---\nx\n---\ny";
    assert content[..|OPEN|] != OPEN by {
      assert content[0] != OPEN[0];
    }
  }

  /** An empty metadata block is found; it is the empty string, not absent. */
  lemma EmptyMetadata()
    ensures Parse("---\n\n---\nbody") == Split(Some(""), "body")
  {
    assert OPEN + "" + CLOSE + "body" == "---\n\n---\nbody";
    ParseAssembled("", "body");
  }
}
