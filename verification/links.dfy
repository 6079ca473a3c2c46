/** `convert_md_links_to_html` of main.py: `re.sub` of the pattern
    `\[([^\]]+)\]\(([^)]+)\.md\)` by `[\1](\2.html)`. The scan is re.sub's:
    at each index try a match; on success emit the replacement and resume
    after the match, otherwise copy one character and move on. */
module Links {
  import opened Text

  const MD := ".md"
  const HTML := ".html"
  /** The tail every rewritten link ends with. */
  const MD_CLOSE := ".md)"

  /** A non-empty run free of `stop`: what `[^\]]+` (stop `]`) and `[^)]+`
      (stop `)`) accept. */
  predicate IsRun(t: string, stop: char) {
    t != [] && AllIn(t, Except(stop))
  }

  /** The link text and target accepted by the pattern. */
  predicate IsLinkParts(text: string, target: string) {
    IsRun(text, ']') && IsRun(target, ')')
  }

  function MdLink(text: string, target: string): string {
    "[" + text + "](" + target + MD + ")"
  }

  function HtmlLink(text: string, target: string): string {
    "[" + text + "](" + target + HTML + ")"
  }

  /** The two groups of a match and its length. */
  datatype Link = Link(text: string, target: string, len: nat)

  /** The match of the pattern at the start of `s`, if any. The groups are
      determined: `[^\]]+` must stop at the first `]`, and `[^)]+\.md\)`
      must end at the first `)` after `(`. */
  function LinkAt(s: string): (r: Option<Link>)
    ensures r.Some? ==> r.value.len <= |s| && s[..r.value.len] == MdLink(r.value.text, r.value.target)
    ensures r.Some? ==> IsLinkParts(r.value.text, r.value.target)
  {
    if s == [] || s[0] != '[' then None
    else
      var k := FindChar(s, ']', 1);
      if k == 1 || k + 1 >= |s| || s[k + 1] != '(' then None
      else
        var e := FindChar(s, ')', k + 2);
        if e == |s| || e < k + 6 || s[e - 3..e] != MD then None
        else
          var text, target := s[1..k], s[k + 2..e - 3];
          LinkShape(s, k, e);
          Some(Link(text, target, e + 1))
  }

  /** The text up to a `)` is the link its brackets and `.md` delimit. */
  lemma LinkShape(s: string, k: nat, e: nat)
    requires 1 <= k && k + 2 <= e - 3 && e < |s|
    requires s[0] == '[' && s[k] == ']' && s[k + 1] == '(' && s[e - 3..e] == MD && s[e] == ')'
    ensures s[..e + 1] == MdLink(s[1..k], s[k + 2..e - 3])
  {
    PrefixJoin(s, 1, k);
    PrefixJoin(s, k, k + 2);
    PrefixJoin(s, k + 2, e - 3);
    PrefixJoin(s, e - 3, e);
    PrefixJoin(s, e, e + 1);
    assert s[..1] == "[";
    assert s[k..k + 2] == "](";
    assert s[e..e + 1] == ")";
  }

  /** Every `[T](P.md)` with parts the pattern accepts is matched, with
      exactly those groups, whatever follows it. */
  lemma LinkAtFinds(text: string, target: string, rest: string)
    requires IsLinkParts(text, target)
    ensures LinkAt(MdLink(text, target) + rest) == Some(Link(text, target, |MdLink(text, target)|))
  {
    var s := MdLink(text, target) + rest;
    var k := |text| + 1;
    var e := k + 2 + |target| + 3;
    assert s == "[" + text + "](" + target + MD + ")" + rest;
    FindCharIs(s, ']', 1, k);
    assert s[k + 1] == '(';
    FindCharIs(s, ')', k + 2, e);
    assert s[e - 3..e] == MD;
    assert s[1..k] == text && s[k + 2..e - 3] == target;
  }

  function RewriteLinks(s: string): (r: string)
    // text without any `.md)` comes back unchanged
    ensures Absent(s, MD_CLOSE) ==> r == s
    decreases |s|
  {
    if s == [] then []
    else
      match LinkAt(s)
      case Some(l) =>
        assert !Absent(s, MD_CLOSE) by {
          assert s[..l.len][l.len - 4..] == MD_CLOSE;
          assert OccursAt(s, MD_CLOSE, l.len - 4);
        }
        HtmlLink(l.text, l.target) + RewriteLinks(s[l.len..])
      case None =>
        assert Absent(s, MD_CLOSE) ==> Absent(s[1..], MD_CLOSE) by {
          if Absent(s, MD_CLOSE) { AbsentInSuffix(s, MD_CLOSE, 1); }
        }
        [s[0]] + RewriteLinks(s[1..])
  }

  /** A link is rewritten in place, its text and target kept verbatim, and
      the scan resumes right after it. */
  lemma RewriteStep(text: string, target: string, rest: string)
    requires IsLinkParts(text, target)
    ensures RewriteLinks(MdLink(text, target) + rest) == HtmlLink(text, target) + RewriteLinks(rest)
  {
    var m := MdLink(text, target);
    LinkAtFinds(text, target, rest);
    assert (m + rest)[|m|..] == rest;
  }

  /** A character that cannot open a link is copied. */
  lemma RewriteCopies(s: string)
    requires s != [] && s[0] != '['
    ensures RewriteLinks(s) == [s[0]] + RewriteLinks(s[1..])
  {
  }

  /** Characters before the next `[` are copied unchanged. */
  lemma {:induction false} RewritePlain(u: string, rest: string)
    requires forall k :: 0 <= k < |u| ==> u[k] != '['
    ensures RewriteLinks(u + rest) == u + RewriteLinks(rest)
    decreases |u|
  {
    if u == [] {
      assert u + rest == rest;
    } else {
      var s := u + rest;
      assert s[0] == u[0] && s[1..] == u[1..] + rest;
      RewriteCopies(s);
      RewritePlain(u[1..], rest);
      calc {
        RewriteLinks(s);
        [u[0]] + RewriteLinks(u[1..] + rest);
        [u[0]] + (u[1..] + RewriteLinks(rest));
        { ConsAppend(u, RewriteLinks(rest)); }
        u + RewriteLinks(rest);
      }
    }
  }

  lemma HomeExample(rest: string)
    ensures RewriteLinks("[Home](index.md)" + rest) == "[Home](index.html)" + RewriteLinks(rest)
  {
    assert MdLink("Home", "index") == "[Home](index.md)";
    assert HtmlLink("Home", "index") == "[Home](index.html)";
    RewriteStep("Home", "index", rest);
  }

  /** A remote address ending in `.md` is rewritten too. */
  lemma RemoteExample(rest: string)
    ensures RewriteLinks("[R](http://h/a.md)" + rest) == "[R](http://h/a.html)" + RewriteLinks(rest)
  {
    var t := "http://h/a";
    assert IsLinkParts("R", t) by {
      forall k | 0 <= k < |t| ensures t[k] != ')' {
      }
    }
    assert MdLink("R", t) == "[R](http://h/a.md)";
    assert HtmlLink("R", t) == "[R](http://h/a.html)";
    RewriteStep("R", t, rest);
  }

  /** A fragment after `.md` is no match: the target must end in `.md`
      right before the first `)`. */
  lemma FragmentExample(rest: string)
    ensures LinkAt("[a](b.md#top)" + rest).None?
  {
    var s := "[a](b.md#top)" + rest;
    FindCharIs(s, ']', 1, 2);
    FindCharIs(s, ')', 4, 12);
    assert s[9..12] == "top";
  }
}
