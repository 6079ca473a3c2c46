# A model of a markdown-to-HTML static site generator

The generator (`main.py`) walks a folder of files. Markdown files become
HTML pages, and every other file is copied. A markdown page goes through
these steps:

1. its YAML-like frontmatter is split off;
2. a title, a template name and a draft flag are read from it with
   regular expressions;
3. a draft shows a fixed placeholder;
4. otherwise the body has its `.md` links rewritten to `.html` and its
   fenced code blocks HTML-escaped;
5. every markdown heading gets a numbered anchor, and a nested table of
   contents (ToC) is built from them;
6. the result goes to the `markdown` library and then into a Jinja2
   template.

This project models each of those regular-expression passes as a pure
Dafny function. The scan follows `re.search` / `re.sub`: the leftmost match
is taken, matches do not overlap, and characters that match nothing are
copied. The match functions, the escaping, the ToC loop and the frontmatter
split are proved against independent descriptions of their results:
soundness and completeness of each match function, escaping as a
per-character map that reads back, the loop as a token-level reference, and
the frontmatter round trip. The whole-text passes (link rewriting,
code-block escaping, the heading pass) and the page pipeline are described
by step lemmas: what one match, or one copied character, contributes to
the output, together with worked examples.

Modules, one file each:

- `Text` (`text.dfy`): string helpers.
  - Python's `\s` is the exact set of Unicode whitespace that Python's
    `str.isspace` accepts.
  - `\w` is ASCII only.
  - Also here: `str.strip`, leftmost search, `str.replace`, and decimal
    rendering of anchor numbers.
- `Frontmatter` (`frontmatter.dfy`): `parse_frontmatter`.
- `Metadata` (`metadata.dfy`): `extract_template`, `extract_title` and
  `is_draft`.
- `Links` (`links.dfy`): `convert_md_links_to_html`.
- `CodeBlocks` (`codeblocks.dfy`): the code-block `re.sub` inside
  `process_markdown_file`, including the chain of `.replace` calls that
  escapes the code.
- `Toc` (`toc.dfy`): `generate_toc`, in two parts.
  - The heading pass is a scan that cuts the text into pieces. Each piece
    is a copied character or a matched heading with its ToC entry.
  - The ToC loop is a method. It is proved equal to a serialization of
    `<ol>` open/close/item tokens, whose nesting depth is proved to follow
    the heading levels.
- `Pipeline` (`pipeline.dfy`): `process_markdown_file` up to rendering,
  `load_template`, and `handle_file_conversion`.

## Model

| member | source | states |
|---|---|---|
| Text.Strip | main.py:83 | the heading text is stripped: no leading or trailing Python whitespace remains, and it is the input with exactly its outer whitespace runs removed |
| Text.StripIdempotent | main.py:83 | stripping twice is the same as stripping once |
| Text.ReplaceAll | main.py:139 | `str.replace` leaves text without the searched substring unchanged |
| Text.ReplacePrefix | main.py:168 | `str.replace` copies the text before the first occurrence, replaces that occurrence and goes on after it |
| Text.NatToString | main.py:84 | the anchor counter renders as a non-empty run of decimal digits with no leading zero |
| Text.ReplaceCharAppend | main.py:139 | replacing one character distributes over concatenation, which is what lets the three `.replace` calls be reasoned about character by character |
| Text.NatToStringInjective | main.py:84 | different anchor counters render as different decimal strings |
| Text.ParseNatToString | main.py:84 | the decimal rendering of the anchor counter reads back as the same number |
| Frontmatter.Parse | main.py:42-49 | a found block reassembles into the document as `---\n` + metadata + `\n---\n` + body; its closing delimiter is the earliest one (the lazy group); a block is found exactly when the document starts with `---\n` and a closing `\n---\n` follows; with no block the body is the whole document |
| Frontmatter.ParseAssembled | main.py:43-48 | every document built from metadata with no earlier closing delimiter splits back into exactly that metadata and body |
| Frontmatter.EarliestDelimiterWins | main.py:43 | a second `\n---\n` stays in the body |
| Frontmatter.NotAtStart | main.py:43-44 | without MULTILINE `^` only matches at index 0, so a block after a blank first line is not frontmatter |
| Frontmatter.EmptyMetadata | main.py:43-47 | an empty block yields empty metadata, not no metadata |
| Metadata.QuotedAt | main.py:54-55 | a match found at an index ends within the text, and its captured value is non-empty and holds no quote |
| Metadata.QuotedAtMatches | main.py:54-55 | when the key-quote-value-quote pattern is found at an index, the text there really is such a match with that value |
| Metadata.QuotedAtFinds | main.py:54-55 | every match of that pattern at an index is found there with its value, so the lookup is complete |
| Metadata.FirstQuoted | main.py:55 | the search returns the leftmost index where the pattern matches; no earlier index matches, and no match means none anywhere |
| Metadata.FirstQuotedSkips | main.py:55 | if the key does not occur before a matching index, the search returns exactly that index |
| Metadata.Lookup | main.py:53-57 | no value for absent or empty metadata; a found value is a non-empty quote-free run taken from a real match; no value means no index matches |
| Metadata.ExtractTemplate | main.py:52-58 | the template is the first matched `template:` value, or `default` when there is none |
| Metadata.ExtractTitle | main.py:61-67 | the title is empty exactly when no `title:` value matches, and otherwise is that value |
| Metadata.DraftAtMatches | main.py:71-72 | where the draft test holds, a text matching `draft:\s*true` under IGNORECASE starts |
| Metadata.MatchIsDraftAt | main.py:71-72 | wherever such a text starts, the draft test holds there |
| Metadata.DraftFrom | main.py:72 | the search succeeds exactly when some index at or after the start matches |
| Metadata.IsDraft | main.py:70-72 | a page is a draft exactly when the metadata is present and some index matches `draft:\s*true` ignoring case; this needs non-empty metadata |
| Metadata.TemplateExample | main.py:54-57 | mismatched quotes are accepted and the first `template:` wins over a later one |
| Metadata.SubtitleShadowsTitle | main.py:63-64 | the unanchored search finds `title:` inside `subtitle:` |
| Metadata.EmptyValueIsDefault | main.py:54-58 | an empty quoted value does not match `[^'"]+`, so the template is `default` |
| Metadata.DraftExample | main.py:71-72 | `Draft:  TRUE` on a later line marks a draft |
| Links.LinkAt | main.py:38 | a match at the start of the text is a prefix of the form `[text](target.md)` whose text has no `]` and whose target has no `)` |
| Links.LinkAtFinds | main.py:38 | every such prefix is matched, with exactly those groups and that length |
| Links.RewriteLinks | main.py:37-39 | text without `.md)` passes unchanged |
| Links.RewriteStep | main.py:39 | a link at the scan position is replaced by `[text](target.html)` and the scan resumes after it |
| Links.RewriteCopies | main.py:39 | a character that cannot start a link is copied |
| Links.RewritePlain | main.py:39 | a run without `[` is copied whole |
| Links.HomeExample | main.py:38-39 | `[Home](index.md)` becomes `[Home](index.html)` |
| Links.RemoteExample | main.py:38-39 | a remote URL ending in `.md` is rewritten too |
| Links.FragmentExample | main.py:38 | `[a](b.md#top)` is not a match, because `.md` must be followed by `)` |
| CodeBlocks.BlockAt | main.py:136 | a match at the start of the text covers at least the two fences and the language tag |
| CodeBlocks.BlockAtMatches | main.py:136 | a match is a prefix of the form fence, `\w*` tag, newline, code, fence, where the tag is a word run and the code holds no fence |
| CodeBlocks.BlockAtFinds | main.py:136 | every such prefix is matched with exactly that tag and that code, so the lazy `.*?` stops at the first closing fence |
| CodeBlocks.EscapeHtml | main.py:139 | escaped code contains no `<` or `>` and is no shorter than the code |
| CodeBlocks.ReplaceChain | main.py:139 | code with no `&`, `<` or `>` is left unchanged by the three replacements |
| CodeBlocks.EscapeKeeps | main.py:139 | escaping leaves code with no `&`, `<` or `>` unchanged |
| CodeBlocks.OpenTag | main.py:140-143 | the opening tag is `<pre><code ...>`, and it carries a `language-` class exactly when a language was captured |
| CodeBlocks.ReplaceChainIsEscape | main.py:139 | the three chained `.replace` calls (`&` first) equal per-character escaping |
| CodeBlocks.ReplaceChainAppend | main.py:139 | the replace chain distributes over concatenation |
| CodeBlocks.UnescapeEscape | main.py:139 | escaping loses nothing: unescaping the escaped code gives back the code |
| CodeBlocks.BlockHtml | main.py:137-143 | the `class="language-..."` attribute is present exactly when the tag is non-empty; the element ends with the closing tags; its content has no `<` or `>` and unescapes to the code |
| CodeBlocks.BlockHtmlIsSource | main.py:139-143 | the block HTML is the opening tag, the code after the chained `.replace` calls, and the closing tags |
| CodeBlocks.EscapeCodeBlocks | main.py:144 | text without a fence passes unchanged |
| CodeBlocks.EscapeStep | main.py:144 | a block at the scan position is replaced by its HTML and the scan resumes after it |
| CodeBlocks.EscapeCopies | main.py:144 | a character that cannot start a fence is copied |
| CodeBlocks.EscapePlain | main.py:144 | a run without a backtick is copied whole |
| CodeBlocks.UntaggedExample | main.py:136-138 | an untagged block is matched with an empty language |
| CodeBlocks.EscapeExample | main.py:139 | `<b>` escapes to `&lt;b&gt;` |
| CodeBlocks.TaggedExample | main.py:136 | the code keeps its trailing newline before the closing fence |
| CodeBlocks.DoubleEscapeExample | main.py:139 | an existing entity is escaped again |
| CodeBlocks.NoNewlineExample | main.py:136 | a tag followed by a space instead of a newline is not a block |
| Toc.HeadingAt | main.py:77 | a heading starts exactly at a line start with a `#`; its level is between 1 and 6 and it consumes at least one character |
| Toc.HeadingTextShape | main.py:77-83 | heading text is stripped and lies within one line |
| Toc.HeadingAtSound | main.py:77-83 | a found heading is a real match: 1-6 hashes (the maximum), `\s*` whitespace, then the rest of the line; its text is that rest, stripped |
| Toc.HeadingAtComplete | main.py:77-83 | every such match is found, with that level, text and length |
| Toc.Scan | main.py:80-92 | the heading pass yields at most one piece per character of the text, and at least one for non-empty text |
| Toc.HeadingTag | main.py:89 | the replacement opens `<hN id="heading-K">` and closes `</hN>` with the heading's level and anchor, and holds exactly the stripped heading text between them |
| Toc.HeadingTagExample | main.py:84-89 | the first heading, at level 1 with text `x`, becomes `<h1 id="heading-0">x</h1>` |
| Toc.Rewrite | main.py:89-92 | where no heading matched, the pieces read back as the text itself |
| Toc.ScanSkip | main.py:80-92 | a stretch of text without `#` contributes no entries; the scan resumes after it at a line start exactly when the stretch ends in a newline |
| Toc.ScanHeading | main.py:80-92 | a heading at the start of a line is the first entry, numbered with the current counter |
| Toc.RewriteHeading | main.py:80-92 | in the rewritten content, a heading at the start of a line becomes its tag, numbered with the current counter, and the rest of the text is rewritten after the match with the next number |
| Toc.RewriteSkip | main.py:92 | a stretch of text without `#` is copied into the rewritten content, and the pass resumes after it at a line start exactly when the stretch ends in a newline |
| Toc.ScanSource | main.py:92 | the pieces of the heading pass read back as the whole text, so nothing is lost or duplicated |
| Toc.ScanAnchors | main.py:78-85 | entries are numbered `heading-0`, `heading-1`, ... in order |
| Toc.AnchorsDistinct | main.py:84-85 | no two entries share an anchor |
| Toc.ScanWellFormed | main.py:82-87 | every entry has a level from 1 to 6 and stripped one-line text |
| Toc.ScanNoHeading | main.py:92 | text without `#` produces no entries and is copied unchanged |
| Toc.Times | main.py:99-101 | a repeated token list has the requested length and only that token |
| Toc.DepthAppend | main.py:97-104 | list depth and item count add over concatenation |
| Toc.BodyDepth | main.py:96-103 | after the loop the open-list depth is the level of the last heading, or 1 with none, and there is one item per entry |
| Toc.TocBalance | main.py:95-104 | the emitted ToC is balanced exactly when there are no headings or the last heading has level 1; otherwise `level - 1` lists stay open |
| Toc.BodyPrefix | main.py:97-103 | the loop only appends: the output for a prefix of the headings is a prefix of the output |
| Toc.ItemAtLevel | main.py:97-103 | the item of the j-th heading appears after j items and nested at exactly that heading's level |
| Toc.ListsHtmlIs | main.py:98-101 | the opening and closing `<ol>` runs emitted per heading serialize the token step |
| Toc.SerializeAppend | main.py:97-104 | serialization distributes over concatenation |
| Toc.EmptyToc | main.py:95-104 | with no headings the ToC is the empty list inside the `toc` div |
| Toc.RenderToc | main.py:94-104 | the loop as written, with its `current_level` variable starting at 1, builds exactly the serialized token reference |
| Toc.GenerateToc | main.py:75-106 | the pass reads the whole text; the rewritten content and the ToC both come from the same pieces; entries are numbered from 0 and well formed; text without `#` is kept under an empty ToC |
| Toc.LineMatch | main.py:77 | hashes, then whitespace, then text with no newline that does not start with whitespace, then a newline: together these form a whole greedy match of the heading pattern |
| Toc.LineHeading | main.py:77-83 | such a line, with stripped text, is a heading of that level whose text is exactly that text |
| Toc.MatchedText | main.py:77-83 | a whole match whose line is already stripped yields a heading with exactly that line as its text |
| Toc.HashtagExample | main.py:77 | `\s*` may match nothing, so `#tag` at a line start is a heading |
| Toc.SevenHashesExample | main.py:77 | seven hashes give a level-6 heading whose text begins with the seventh |
| Toc.BlankLinesExample | main.py:77 | `\s*` crosses newlines: `#` alone on a line takes its text from a later line |
| Toc.DeepFirstExample | main.py:96-99 | a lone heading at level 3 opens two lists beyond the initial one before its item, and they stay open |
| Toc.DeepThenShallowExample | main.py:96-104 | a later heading at level 1 closes those lists again, so the ToC is balanced |
| Pipeline.Prepare | main.py:133-144 | a body with neither `.md)` nor a fence reaches the ToC pass unchanged |
| Pipeline.ProcessMarkdown | main.py:122-159 | title and template always come from the frontmatter, and every page gets the `scripts` folder; a draft shows the placeholder with an empty ToC; otherwise the body is rewritten (links, then code blocks, then the ToC pass, then markdown), and the frontmatter never reaches those steps |
| Pipeline.DraftIgnoresBody | main.py:128-131 | two drafts with the same frontmatter render the same page, whatever their bodies |
| Pipeline.NoFrontmatter | main.py:122-153 | a document without frontmatter is processed whole, with an empty title and the default template |
| Pipeline.PlainBody | main.py:132-150 | a body with no link, fence or `#` reaches markdown unchanged, under an empty ToC |
| Pipeline.ResolveTemplate | main.py:109-114 | the named template file is used exactly when it exists (or is `default.html` itself); the result is always an existing file or `default.html` |
| Pipeline.DefaultTemplate | main.py:52-58 | a page with no `template:` value is rendered with `default.html` |
| Pipeline.DefaultFileName | main.py:110-113 | the file the default template name resolves to is the fallback file `default.html` |
| Pipeline.OutputPathAsWritten | main.py:168 | a path without `.md` is kept |
| Pipeline.AsWrittenReplacesFirst | main.py:168 | the path as written keeps the text before the first `.md`, puts `.html` in its place and goes on replacing after it |
| Pipeline.AsWrittenLeavesNoMd | main.py:168 | no `.md` is left anywhere in the path as written |
| Pipeline.AsWrittenSwapsExtension | main.py:168 | when the only `.md` is the extension, the path as written swaps just that extension for `.html` |
| Pipeline.DirectoryRenamed | main.py:168 | a directory named `a.md` in the output path is renamed to `a.html` |
| Pipeline.WrittenRenamesDirectory | main.py:168 | as written, the output path for `a.md/b.md` has the `h` of `.html` in the directory name |
| Pipeline.IntendedKeepsDirectory | main.py:167-168 | as intended, the output path for `a.md/b.md` keeps the directory `a.md` |
| Pipeline.PathsDiffer | main.py:168 | for `a.md/b.md` the path as written differs from the intended one |
| Pipeline.OutputPath | main.py:167-168 | the trailing `.md` becomes `.html` and everything before it is kept; other paths are unchanged |
| Pipeline.OutputPathAgrees | main.py:167-168 | when the only `.md` is the extension, the path as written and the intended one agree |
| Pipeline.HandleFile | main.py:166-171 | a file is converted exactly when its name ends in `.md`, and otherwise copied to the same path; a page's output path keeps no `.md` anywhere, and where the extension was its only `.md` the page lands beside where its source would have been copied |
| Pipeline.HandleFileIntended | main.py:166-171 | with only the extension swapped, every page lands beside where its source would have been copied, with `.html` in place of `.md` |
| Pipeline.HandleFileAgrees | main.py:166-171 | the two choose the same action whenever the extension is the only `.md` in the path |
| Pipeline.HandleFilesDiffer | main.py:166-171 | for a page `b.md` inside a directory `a.md` they choose different output paths |
| Pipeline.PrepareBlock | main.py:133-144 | a code block with no language, no `[` and nothing to escape reaches the ToC pass as its content between `<pre><code>` and `</code></pre>` |
| Pipeline.CommentBlockPrepared | main.py:133-144 | the fenced block `a`, `# x` reaches the ToC pass with `# x` at the start of a line |
| Pipeline.CommentLineHeading | main.py:77 | a `# x` line is a level-1 heading with text `x`, whatever follows it |
| Pipeline.CommentLineScanned | main.py:80-92 | after the opening tag and the first code line, the `# x` line is the first ToC entry |
| Pipeline.CommentHeadingRewritten | main.py:80-92 | a `# x` line is rewritten to its heading tag, its newline is copied, and the pass goes on at a line start with the next number |
| Pipeline.CommentLineRewritten | main.py:80-92 | after the opening tag and the first code line, the `# x` line is rewritten to its heading tag |
| Pipeline.CommentLineInCode | main.py:77-147 | since code blocks are escaped before the ToC pass, a `# x` line inside a fenced code block becomes the first ToC entry, `heading-0` at level 1, and the text handed to markdown holds `<h1 id="heading-0">x</h1>` inside the `<pre><code>` element |

## Left out

- `markdown.markdown` (main.py:150) is a function parameter `render`. Its behaviour is not modelled.
- The Jinja2 environment and `template.render` are not modelled (main.py:26, 34, 156, 159). The model stops at the `Page` record of what would be rendered: content, ToC, title, template name and the `scripts` folder bound as `scripts_folder`.
- Pipeline.ResolveTemplate: `get_template` failing is modelled as the file being absent from a set of names. Other Jinja2 errors are not modelled, nor is a missing `default.html` (which raises), nor the error message `print` writes.
- File reading and writing, `os.walk`, `os.makedirs`, `shutil.copy2`, `shutil.rmtree`, `process_folder` and `run_ssg` (main.py:118-119, 162-163, 171, 173-194) are left out. They are I/O. `handle_file_conversion` is modelled as the `Action` it chooses, with the output path it computes as written (Pipeline.HandleFile).
- Text.IsWordChar: Python's `\w` also accepts non-ASCII letters and digits. The model accepts only ASCII `[A-Za-z0-9_]`, so a non-ASCII language tag is not modelled.
- Metadata.IsDraft: `is_draft` returns the metadata string, `None`, or a match object. The model keeps only their truth value, which is all `process_markdown_file` uses.
- Only the seven regular expressions of the program are modelled, each as a dedicated scanner. No general `re` engine is modelled.
- Toc.RenderToc: `current_level` starts at 1, so a first heading at level L > 1 opens L - 1 extra lists before its item (Toc.DeepFirstExample). They stay open unless a later heading is shallower (Toc.TocBalance, Toc.DeepThenShallowExample). The model follows the code and does not make nesting relative to the first heading.
- Toc.TocBalance: lists left open when the last heading is deeper than level 1 are stated, not fixed. The program emits that HTML as it is.
- Text encoding (`encoding='utf-8'`) is left out. Strings are sequences of code points.

## Findings

| source | as written | input that shows it | evidently intended | confidence | as-written member | corrected member |
|---|---|---|---|---|---|---|
| main.py:168 | `output_path.replace('.md', '.html')` replaces every `.md` in the path, directory names included | a page `b.md` inside a directory `a.md`: the output becomes `a.html/b.html`, but only `a.md/` was created for it | replace only the trailing `.md` extension of the file name | medium, not executed | Pipeline.HandleFile, Pipeline.OutputPathAsWritten, Pipeline.DirectoryRenamed, Pipeline.PathsDiffer, Pipeline.HandleFilesDiffer | Pipeline.HandleFileIntended, Pipeline.OutputPath, Pipeline.OutputPathAgrees, Pipeline.HandleFileAgrees |
