/** `process_markdown_file`, `load_template` and `handle_file_conversion` of
    main.py, without the file system. The markdown library is a parameter
    `render`, and the template directory is the set of file names in it. */
module Pipeline {
  import opened Text
  import Frontmatter
  import Metadata
  import Links
  import CodeBlocks
  import Toc

  /** The page body shown instead of a draft's content. */
  const DRAFT_HTML := "<h1>This page is a draft</h1><p>This content is currently unavailable.</p>"
  const TEMPLATE_EXT := ".html"
  const DEFAULT_TEMPLATE_FILE := "default.html"

  /** The folder of CSS and JavaScript files every page is given. */
  const SCRIPT_FOLDER := "scripts"

  /** What `template.render` receives, with the name of the template. */
  datatype Page = Page(content: string, toc: string, title: string, template: string, scripts: string)

  /** The body as the ToC pass sees it: links rewritten first, then code
      blocks escaped. */
  function Prepare(body: string): (r: string)
    // text with neither a `.md)` nor a fence passes unchanged
    ensures Absent(body, Links.MD_CLOSE) && Absent(body, CodeBlocks.FENCE) ==> r == body
  {
    CodeBlocks.EscapeCodeBlocks(Links.RewriteLinks(body))
  }

  /** `process_markdown_file` up to `template.render`. */
  function ProcessMarkdown(md: string, render: string -> string): (p: Page)
    // title and template come from the frontmatter, drafts or not
    ensures var split := Frontmatter.Parse(md);
            && p.title == Metadata.ExtractTitle(split.meta)
            && p.template == Metadata.ExtractTemplate(split.meta)
    // every page is given the same scripts folder
    ensures p.scripts == SCRIPT_FOLDER
    // a draft shows the placeholder and no ToC, whatever its body
    ensures Metadata.IsDraft(Frontmatter.Parse(md).meta) ==> p.content == DRAFT_HTML && p.toc == []
    // otherwise the body goes through links, code blocks, the ToC pass and
    // markdown, in that order; the frontmatter never reaches them
    ensures !Metadata.IsDraft(Frontmatter.Parse(md).meta) ==>
              && p.toc == Toc.GenerateToc(Prepare(Frontmatter.Parse(md).body)).toc
              && p.content == render(Toc.GenerateToc(Prepare(Frontmatter.Parse(md).body)).content)
  {
    var split := Frontmatter.Parse(md);
    var title := Metadata.ExtractTitle(split.meta);
    var template := Metadata.ExtractTemplate(split.meta);
    if Metadata.IsDraft(split.meta) then
      Page(DRAFT_HTML, [], title, template, SCRIPT_FOLDER)
    else
      var t := Toc.GenerateToc(Prepare(split.body));
      Page(render(t.content), t.toc, title, template, SCRIPT_FOLDER)
  }

  /** Two drafts with the same frontmatter give the same page: the body is
      never looked at. */
  lemma DraftIgnoresBody(meta: string, b1: string, b2: string, render: string -> string)
    requires forall j :: 0 <= j < |meta| ==> !OccursAt(meta + Frontmatter.CLOSE, Frontmatter.CLOSE, j)
    requires Metadata.IsDraft(Some(meta))
    ensures ProcessMarkdown(Frontmatter.OPEN + meta + Frontmatter.CLOSE + b1, render)
         == ProcessMarkdown(Frontmatter.OPEN + meta + Frontmatter.CLOSE + b2, render)
  {
    Frontmatter.ParseAssembled(meta, b1);
    Frontmatter.ParseAssembled(meta, b2);
  }

  /** A document without a frontmatter block is rendered whole, with no
      title and the default template. */
  lemma NoFrontmatter(md: string, render: string -> string)
    requires !Frontmatter.HasBlock(md)
    ensures var p := ProcessMarkdown(md, render);
            && p.title == [] && p.template == Metadata.DEFAULT_TEMPLATE
            && p.toc == Toc.GenerateToc(Prepare(md)).toc
            && p.content == render(Toc.GenerateToc(Prepare(md)).content)
  {
  }

  /** A body with no link, fence or `#` reaches markdown unchanged, under
      an empty ToC. */
  lemma PlainBody(md: string, render: string -> string)
    requires !Metadata.IsDraft(Frontmatter.Parse(md).meta)
    requires var body := Frontmatter.Parse(md).body;
             Absent(body, Links.MD_CLOSE) && Absent(body, CodeBlocks.FENCE) && Toc.NoHash(body)
    ensures var p := ProcessMarkdown(md, render);
            p.content == render(Frontmatter.Parse(md).body) && p.toc == Toc.EMPTY_TOC
  {
  }

  /** `load_template`: the named template if its file exists, otherwise
      `default.html`. */
  function ResolveTemplate(name: string, available: set<string>): (r: string)
    // the named file when it exists, and the fallback otherwise
    ensures r == name + TEMPLATE_EXT <==> name + TEMPLATE_EXT in available || name + TEMPLATE_EXT == DEFAULT_TEMPLATE_FILE
    ensures r in available || r == DEFAULT_TEMPLATE_FILE
  {
    if name + TEMPLATE_EXT in available then name + TEMPLATE_EXT else DEFAULT_TEMPLATE_FILE
  }

  /** A page without a `template:` value is rendered with `default.html`. */
  lemma DefaultTemplate(md: string, render: string -> string, available: set<string>)
    requires Metadata.Lookup(Frontmatter.Parse(md).meta, Metadata.TEMPLATE_KEY).None?
    ensures ResolveTemplate(ProcessMarkdown(md, render).template, available) == DEFAULT_TEMPLATE_FILE
  {
    var name := ProcessMarkdown(md, render).template;
    assert name == Metadata.ExtractTemplate(Frontmatter.Parse(md).meta);
    assert name == Metadata.DEFAULT_TEMPLATE;
    DefaultFileName();
  }

  /** The fallback file is the file the default template name resolves to. */
  lemma DefaultFileName()
    ensures Metadata.DEFAULT_TEMPLATE + TEMPLATE_EXT == DEFAULT_TEMPLATE_FILE
  {
  }

  /** The output path `handle_file_conversion` computes, as written: every
      `.md` anywhere in the path becomes `.html`, directories included. */
  function OutputPathAsWritten(output: string): (r: string)
    // a path without `.md` is kept
    ensures Absent(output, Links.MD) ==> r == output
  {
    ReplaceAll(output, Links.MD, Links.HTML)
  }

  /** A directory named `a.md` is renamed too, so the page is written into
      `a.html/`, which the walk never created, instead of `a.md/`. */
  lemma DirectoryRenamed(rest: string)
    ensures OutputPathAsWritten("a.md/" + rest) == "a.html/" + OutputPathAsWritten(rest)
  {
    var s := "a.md/" + rest;
    assert !OccursAt(s, Links.MD, 0) by { assert s[0] == 'a'; }
    assert s[1..] == ".md/" + rest;
    assert OccursAt(s[1..], Links.MD, 0) by { assert s[1..][..3] == Links.MD; }
    assert s[1..][3..] == "/" + rest;
    assert !OccursAt("/" + rest, Links.MD, 0) by { assert ("/" + rest)[0] == '/'; }
    assert ("/" + rest)[1..] == rest;
    var r := OutputPathAsWritten(rest);
    assert OutputPathAsWritten("/" + rest) == "/" + r;
    assert OutputPathAsWritten(s[1..]) == Links.HTML + ("/" + r);
    assert OutputPathAsWritten(s) == "a" + (Links.HTML + ("/" + r));
  }

  /** Every `.md` is replaced: the first one met becomes `.html`, the text
      before it is kept and the replacement goes on after it. */
  lemma AsWrittenReplacesFirst(u: string, v: string)
    requires forall j :: 0 <= j < |u| ==> !OccursAt(u + Links.MD + v, Links.MD, j)
    ensures OutputPathAsWritten(u + Links.MD + v) == u + Links.HTML + OutputPathAsWritten(v)
  {
    ReplacePrefix(u, Links.MD, Links.HTML, v);
  }

  /** No `.md` is left anywhere in the path as written, not even one formed
      across a replacement. */
  lemma {:induction false} AsWrittenLeavesNoMd(p: string)
    ensures Absent(OutputPathAsWritten(p), Links.MD)
    decreases |p|
  {
    var r := OutputPathAsWritten(p);
    if p == [] {
    } else if OccursAt(p, Links.MD, 0) {
      var r' := OutputPathAsWritten(p[3..]);
      AsWrittenLeavesNoMd(p[3..]);
      assert r == Links.HTML + r';
      forall j | 0 <= j <= |r| ensures !OccursAt(r, Links.MD, j) {
        if j == 0 {
          assert r[1] == 'h';
        } else if j < 5 {
          NotAt(r, Links.MD, j);
        } else {
          assert r[5..] == r';
          OccursInSuffix(r, Links.MD, 5, j - 5);
        }
      }
    } else {
      var r' := OutputPathAsWritten(p[1..]);
      AsWrittenLeavesNoMd(p[1..]);
      assert r == [p[0]] + r';
      forall j | 0 <= j <= |r| ensures !OccursAt(r, Links.MD, j) {
        if j == 0 {
          if OccursAt(r, Links.MD, 0) {
            assert r[1] == 'm' && r[2] == 'd';
            AsWrittenHead(p[1..]);
            AsWrittenHead(p[2..]);
            assert false;
          }
        } else {
          assert r[1..] == r';
          OccursInSuffix(r, Links.MD, 1, j - 1);
        }
      }
    }
  }

  /** A path as written that starts with anything but `.` starts with the
      same character as the original path, copied. */
  lemma AsWrittenHead(p: string)
    ensures var r := OutputPathAsWritten(p);
            r != [] && r[0] != '.' ==>
              && p != [] && p[0] == r[0]
              && r[1..] == OutputPathAsWritten(p[1..])
  {
    var r := OutputPathAsWritten(p);
    if p != [] && OccursAt(p, Links.MD, 0) {
      assert r[0] == '.';
    }
  }

  /** So for `a.md/b.md` the two paths differ: as written the third
      character is the `h` of `.html`... */
  lemma WrittenRenamesDirectory()
    ensures var r := OutputPathAsWritten("a.md/" + "b.md"); |r| > 2 && r[2] == 'h'
  {
    DirectoryRenamed("b.md");
    var w := OutputPathAsWritten("b.md");
    assert ("a.html/" + w)[2] == "a.html/"[2];
  }

  /** ...while as intended the directory keeps its `m`. */
  lemma IntendedKeepsDirectory()
    ensures var r := OutputPath("a.md/" + "b.md"); |r| > 2 && r[2] == 'm'
  {
    var x := "a.md/" + "b.md";
    assert x[6..] == "b.md"[1..];
    var intended := OutputPath(x);
    assert intended[..|intended| - |Links.HTML|] == x[..6];
    assert intended[2] == x[..6][2];
  }

  lemma PathsDiffer()
    ensures OutputPathAsWritten("a.md/b.md") != OutputPath("a.md/b.md")
  {
    assert "a.md/" + "b.md" == "a.md/b.md";
    WrittenRenamesDirectory();
    IntendedKeepsDirectory();
  }

  /** The output path as intended: only the trailing `.md` of the file name
      becomes `.html`. */
  function OutputPath(output: string): (r: string)
    // the extension is swapped and everything before it kept
    ensures EndsWith(output, Links.MD) ==>
              && EndsWith(r, Links.HTML)
              && r[..|r| - |Links.HTML|] == output[..|output| - |Links.MD|]
    ensures !EndsWith(output, Links.MD) ==> r == output
  {
    if EndsWith(output, Links.MD) then output[..|output| - |Links.MD|] + Links.HTML else output
  }

  /** Where the path has no other `.md`, the two agree. */
  lemma {:induction false} OutputPathAgrees(stem: string)
    requires Absent(stem, Links.MD)
    ensures OutputPathAsWritten(stem + Links.MD) == OutputPath(stem + Links.MD) == stem + Links.HTML
    decreases |stem|
  {
    var s := stem + Links.MD;
    assert EndsWith(s, Links.MD) by { assert s[|s| - 3..] == Links.MD; }
    assert s[..|s| - |Links.MD|] == stem;
    assert OutputPath(s) == stem + Links.HTML;
    if stem == [] {
      assert s == Links.MD;
      assert OccursAt(s, Links.MD, 0);
      assert s[3..] == [];
    } else {
      assert !OccursAt(s, Links.MD, 0) by {
        if |stem| >= 3 {
          assert s[..3] == stem[..3];
          assert !OccursAt(stem, Links.MD, 0);
        } else {
          assert s[|stem|] == '.';
        }
      }
      AbsentInSuffix(stem, Links.MD, 1);
      assert s[1..] == stem[1..] + Links.MD;
      OutputPathAgrees(stem[1..]);
      assert OutputPathAsWritten(s) == [s[0]] + OutputPathAsWritten(s[1..]);
      assert s[0] == stem[0];
      ConsAppend(stem, Links.HTML);
    }
  }

  /** What `handle_file_conversion` does with one file. */
  datatype Action = Convert(input: string, output: string) | Copy(input: string, output: string)

  /** `handle_file_conversion` as written: a page's output path has every
      `.md` replaced. */
  function HandleFile(input: string, output: string): (a: Action)
    // markdown is converted, everything else copied to the same path
    ensures a.Convert? <==> EndsWith(input, Links.MD)
    ensures a.input == input
    ensures a.Copy? ==> a.output == output
    // a page's path keeps no `.md` anywhere, directories included
    ensures a.Convert? ==> Absent(a.output, Links.MD)
    // and where the extension was the only `.md`, it lands beside where the
    // source would have been copied
    ensures a.Convert? && EndsWith(output, Links.MD) && Absent(output[..|output| - |Links.MD|], Links.MD) ==>
              a.output == output[..|output| - |Links.MD|] + Links.HTML
  {
    if EndsWith(input, Links.MD) then
      AsWrittenLeavesNoMd(output);
      AsWrittenSwapsExtension(output);
      Convert(input, OutputPathAsWritten(output))
    else Copy(input, output)
  }

  /** A path whose only `.md` is its extension has just that swapped. */
  lemma AsWrittenSwapsExtension(output: string)
    ensures EndsWith(output, Links.MD) && Absent(output[..|output| - |Links.MD|], Links.MD) ==>
              OutputPathAsWritten(output) == output[..|output| - |Links.MD|] + Links.HTML
  {
    if EndsWith(output, Links.MD) && Absent(output[..|output| - |Links.MD|], Links.MD) {
      var stem := output[..|output| - |Links.MD|];
      assert output == stem + Links.MD;
      OutputPathAgrees(stem);
    }
  }

  /** `handle_file_conversion` as intended: only the extension is swapped. */
  function HandleFileIntended(input: string, output: string): (a: Action)
    ensures a.Convert? <==> EndsWith(input, Links.MD)
    ensures a.input == input
    ensures a.Copy? ==> a.output == output
    // a page lands beside where its source would have been copied
    ensures a.Convert? && EndsWith(output, Links.MD) ==>
              && EndsWith(a.output, Links.HTML)
              && a.output[..|a.output| - |Links.HTML|] == output[..|output| - |Links.MD|]
  {
    if EndsWith(input, Links.MD) then Convert(input, OutputPath(output)) else Copy(input, output)
  }

  /** The two agree on every path whose only `.md` is the extension... */
  lemma HandleFileAgrees(input: string, stem: string)
    requires Absent(stem, Links.MD)
    ensures HandleFile(input, stem + Links.MD) == HandleFileIntended(input, stem + Links.MD)
  {
    OutputPathAgrees(stem);
  }

  /** ...and differ for a page inside a directory named `a.md`. */
  lemma HandleFilesDiffer()
    ensures HandleFile("a.md/b.md", "a.md/b.md") != HandleFileIntended("a.md/b.md", "a.md/b.md")
  {
    var x := "a.md/b.md";
    assert EndsWith(x, Links.MD) by { assert x[6..] == Links.MD; }
    PathsDiffer();
  }

  /** A code block without a language, links or characters to escape comes
      out of the first two passes as its content between the plain tags. */
  lemma PrepareBlock(code: string, rest: string)
    requires forall j :: 0 <= j < |code| ==> !OccursAt(code + CodeBlocks.FENCE, CodeBlocks.FENCE, j)
    requires forall k :: 0 <= k < |code| ==> code[k] != '[' && code[k] != '&' && code[k] != '<' && code[k] != '>'
    ensures Prepare(CodeBlocks.Fenced("", code) + rest) == CodeBlocks.PRE + code + CodeBlocks.POST + Prepare(rest)
  {
    var f := CodeBlocks.Fenced("", code);
    forall k | 0 <= k < |f| ensures f[k] != '[' {
      if 4 <= k < 4 + |code| {
        assert f[k] == code[k - 4];
      }
    }
    Links.RewritePlain(f, rest);
    CodeBlocks.EscapeStep("", code, Links.RewriteLinks(rest));
    CodeBlocks.BlockHtmlIsSource("", code);
    CodeBlocks.ReplaceChainIsEscape(code);
    CodeBlocks.EscapeKeeps(code);
  }

  /** The code block of the example below: no fence inside it. */
  lemma CommentBlockFenceFree()
    ensures var code := "a\n" + "# x\n";
            forall j :: 0 <= j < |code| ==> !OccursAt(code + CodeBlocks.FENCE, CodeBlocks.FENCE, j)
  {
    var code := "a\n" + "# x\n";
    forall j | 0 <= j < |code| ensures !OccursAt(code + CodeBlocks.FENCE, CodeBlocks.FENCE, j) {
      assert (code + CodeBlocks.FENCE)[j] == code[j];
      NotAt(code + CodeBlocks.FENCE, CodeBlocks.FENCE, j);
    }
  }

  /** The example below after the link and code-block passes: the comment
      line follows the first code line, at a line start. */
  lemma CommentBlockPrepared(rest: string)
    ensures Prepare("```\na\n# x\n```" + rest)
              == (CodeBlocks.PRE + "a\n") + ("# x\n" + (CodeBlocks.POST + Prepare(rest)))
  {
    var a, b := "a\n", "# x\n";
    assert "```\na\n# x\n```" == CodeBlocks.Fenced("", a + b);
    CommentBlockFenceFree();
    PrepareBlock(a + b, rest);
    var tail := CodeBlocks.POST + Prepare(rest);
    AppendAssoc(CodeBlocks.PRE + (a + b), CodeBlocks.POST, Prepare(rest));
    AppendAssoc(CodeBlocks.PRE, a, b);
    AppendAssoc(CodeBlocks.PRE + a, b, tail);
  }

  /** A `# x` line matches as a level-1 heading whatever follows it. */
  lemma CommentLineHeading(rest: string)
    ensures Toc.HeadingAt("# x\n" + rest, true) == Some(Toc.Heading(1, "x", 3))
  {
    Toc.LineHeading("#", " ", "x", rest);
    assert "#" + " " + "x" + "\n" + rest == "# x\n" + rest;
  }

  /** Scanning past the opening tag and the first code line reaches it. */
  lemma CommentLineScanned(tail: string)
    ensures var es := Toc.Entries(Toc.Scan((CodeBlocks.PRE + "a\n") + ("# x\n" + tail), true, 0));
            es != [] && es[0] == Toc.Entry(1, "x", Toc.Anchor(0))
  {
    var u := CodeBlocks.PRE + "a\n";
    var t := "# x\n" + tail;
    Toc.ScanSkip(u, t, true, 0);
    CommentLineHeading(tail);
    Toc.ScanHeading(t, 0, Toc.Heading(1, "x", 3));
  }

  /** The `# x` line is rewritten into its heading tag; the newline after
      it is copied and the pass goes on at a line start. */
  lemma CommentHeadingRewritten(tail: string)
    ensures Toc.Rewrite(Toc.Scan("# x\n" + tail, true, 0))
         == Toc.HeadingTag(Toc.Entry(1, "x", Toc.Anchor(0))) + ("\n" + Toc.Rewrite(Toc.Scan(tail, true, 1)))
  {
    var nl := "\n" + tail;
    var t := "# x" + nl;
    assert "# x\n" + tail == t by {
      assert "# x\n" == "# x" + "\n";
      AppendAssoc("# x", "\n", tail);
    }
    CommentLineHeading(tail);
    Toc.RewriteHeading(t, 0, Toc.Heading(1, "x", 3));
    assert t[3..] == nl && t[2] == 'x';
    Toc.RewriteSkip("\n", tail, false, 1);
    assert "\n"[0] == '\n';
  }

  /** ...and rewritten into its heading tag, inside the code. */
  lemma CommentLineRewritten(tail: string)
    ensures Toc.Rewrite(Toc.Scan((CodeBlocks.PRE + "a\n") + ("# x\n" + tail), true, 0))
         == (CodeBlocks.PRE + "a\n")
            + (Toc.HeadingTag(Toc.Entry(1, "x", Toc.Anchor(0))) + ("\n" + Toc.Rewrite(Toc.Scan(tail, true, 1))))
  {
    Toc.RewriteSkip(CodeBlocks.PRE + "a\n", "# x\n" + tail, true, 0);
    CommentHeadingRewritten(tail);
  }

  /** ...and code blocks are escaped before the ToC pass, so a `# comment`
      line inside a code block (after its first line) is at a line start
      and becomes the first ToC entry; in the page it turns into a heading
      tag inside the code. */
  lemma CommentLineInCode(rest: string)
    ensures var es := Toc.Entries(Toc.Scan(Prepare("```\na\n# x\n```" + rest), true, 0));
            es != [] && es[0] == Toc.Entry(1, "x", Toc.Anchor(0))
    ensures Toc.GenerateToc(Prepare("```\na\n# x\n```" + rest)).content
         == (CodeBlocks.PRE + "a\n")
            + ("<h1 id=\"heading-0\">x</h1>" + ("\n" + Toc.Rewrite(Toc.Scan(CodeBlocks.POST + Prepare(rest), true, 1))))
  {
    CommentBlockPrepared(rest);
    CommentLineScanned(CodeBlocks.POST + Prepare(rest));
    CommentLineRewritten(CodeBlocks.POST + Prepare(rest));
    Toc.HeadingTagExample();
  }
}
