# HTML-to-Jekyll page converter, modelled in Dafny

`convert-to-jekyll.py` turns the static HTML pages of a bilingual web site
(`en/` and `fr/`) into Jekyll pages. For each page it:

- takes out the title, description and keywords;
- takes out the main content, trying four page layouts in turn;
- takes out the page-specific "publication unhide" scripts;
- rewrites relative image, asset and page paths in the content;
- puts a YAML front matter in front of it, with a permalink built from the
  input file name;
- writes the result beside the page as `<stem>-jekyll.html`.

The model has five modules:

- **`Text`** (`text.dfy`): the Python `str` operations the converter relies
  on. These are whitespace as `str.isspace` sees it, `strip`, `find`,
  `split`, `join` and the single-pass `replace`.
- **`Patterns`** (`patterns.dfy`): the regular-expression searches, each
  stated as a search for literal delimiters.
  - `Search` is `re.search`: the match with the leftmost start.
  - `FindAll` is `re.findall`: successive non-overlapping matches.
  - The module comment explains why a delimiter search gives Python's answer
    for each pattern: lazy `.*?`, greedy `\s*`, `[^>]*>`, and `.` without
    DOTALL.
- **`Extract`** (`extract.dfy`): `extract_metadata`, `extract_content` and
  `extract_custom_scripts`.
- **`Convert`** (`convert.dfy`): `convert_file`, in two forms.
  - `Convert` is the conversion as a function of the page text, the input
    and output paths and the language.
  - `ConvertFile` is the method that computes it the way the source does. It
    rebinds the content through the replacements and the link rewrite, and
    grows the front matter one script line at a time.
  - The module also holds `fix_page_link` and the `re.sub` it is passed to.
- **`Batch`** (`batch.dfy`): `main`. It covers the choice of pages in a
  directory listing, the output name, and the walk over the English and then
  the French listing.

Behaviour of the source that the model keeps:

- `if not content` treats an empty extracted content like a missing one, so
  nothing is written for either.
- `fix_page_link` returns the whole match for a value it does not rewrite.
  That is the attribute exactly as it was.
- `str.replace` does not rescan the text it has produced, so the path fix is
  not idempotent. `Convert.FixAssetPathsSinglePass` shows this on
  `..../assets/`.
- `Path.stem` cuts at the last dot only when that dot is neither the first
  nor the last character. The model follows this rule as Python 3.13 and
  earlier define it; later versions treat names with a leading or trailing
  dot differently. A file named just `.html` is therefore converted
  to `.html-jekyll.html` (`Batch.OutputNameOfPage`). So is a file named
  `.html.html`, and whichever of the two comes later in the listing
  overwrites the other's output (`Batch.OutputNamesCollide`). Two different
  pages whose names are longer than `.html` never share an output name
  (`Batch.OutputNameInjective`).
- Only `en/index-jekyll.html` is skipped. Any other `*-jekyll.html` already
  in a directory is converted again.

## Model

| member | source | states |
|---|---|---|
| Text.Strip | convert-to-jekyll.py:15-17 | `str.strip`: the result has no whitespace at either end; it is a slice of the input with only whitespace outside it; it holds only characters of the input |
| Text.SplitOn | convert-to-jekyll.py:133 | `str.split(sep)`: there is at least one piece and no piece contains the separator |
| Text.JoinSplit | convert-to-jekyll.py:133 | joining the pieces of a split with the same separator gives the text back |
| Text.JoinWithEnds | convert-to-jekyll.py:67 | a joined text starts with its first part and ends with its last |
| Text.Replace | convert-to-jekyll.py:92-97 | `str.replace`: a text without the target is returned unchanged |
| Text.ReplaceSwapsOccurrences | convert-to-jekyll.py:92-97 | replace cuts the text at the occurrences of the target found left to right, and puts the replacement in place of each; the text between occurrences is kept |
| Text.Find | convert-to-jekyll.py:92-97 | the first index at or after the start where the literal occurs; `None` exactly when there is none |
| Text.FindAgrees | convert-to-jekyll.py:92-97 | the first occurrence depends only on the text up to its end |
| Patterns.Delimited | convert-to-jekyll.py:11 | a lazy `(.*?)` group between two literals starts right after the opening literal and ends at the first closing literal; no match exactly when the opening literal is absent or no closing literal follows it |
| Patterns.QuotedOnLine | convert-to-jekyll.py:12-13 | without DOTALL, `content="(.*?)"` ends at the first quote and its group holds neither a quote nor a newline; no match exactly when the opening literal is absent or every quote after it has a newline before it |
| Patterns.FindSectionBeforeFooter | convert-to-jekyll.py:34 | the first section close tag followed by optional whitespace and the Footer comment |
| Patterns.MainSectionBody | convert-to-jekyll.py:34-41 | found exactly when the Main comment is at the start and, after the whitespace that follows it, the main section's opening tag; the body starts right after that tag |
| Patterns.TitleAt | convert-to-jekyll.py:11 | the title pattern at a start: the lazy group between the title tags, with `Delimited`'s rule and its no-match condition |
| Patterns.DescriptionAt | convert-to-jekyll.py:12 | the description pattern at a start: the text up to the first quote, on one line; no match exactly when the meta prefix is absent or every quote after it has a newline before it |
| Patterns.KeywordsAt | convert-to-jekyll.py:13 | the keywords pattern at a start: the text up to the first quote, on one line; no match exactly when the meta prefix is absent or every quote after it has a newline before it |
| Patterns.MainAfterHeaderAt | convert-to-jekyll.py:27 | a section close at the start, whitespace, the Main comment, then the first main-content tag after it; the group runs to the first main close tag; no match when any of these is missing |
| Patterns.SectionToClosingAt | convert-to-jekyll.py:34 | the group starts at the main section's body and ends at the first section close followed by whitespace and the Footer comment; no match when there is no section body or no such close after it |
| Patterns.SectionToFooterAt | convert-to-jekyll.py:41 | the group starts at the main section's body and ends at the first Footer comment; no match when there is no section body or no Footer comment after it |
| Patterns.BareMainAt | convert-to-jekyll.py:49 | `<main` at the start, then the first `>`; the group runs from there to the first main close tag; no match when any of these is missing |
| Patterns.UnhideScriptAt | convert-to-jekyll.py:63 | a script match starts at the unhide comment and ends at the first script close tag after it; no match exactly when the comment is absent or no close tag follows it |
| Patterns.MatchAt | convert-to-jekyll.py:11-63 | a match's group lies inside the text, no earlier than the match start, and the match is not empty |
| Patterns.FirstMatch | convert-to-jekyll.py:11-28 | the leftmost start in a range at which a matcher matches; `None` exactly when none does |
| Patterns.Search | convert-to-jekyll.py:11-50 | `re.search`: a match at the reported start, none at any earlier start; `None` exactly when the pattern matches at no start |
| Patterns.AllMatches | convert-to-jekyll.py:64 | successive matches, each searched for from the end of the previous one: the first is the first match, and they are in order, non-overlapping and each a real match |
| Patterns.FindAll | convert-to-jekyll.py:64 | `re.findall`: empty exactly when `re.search` fails; the first is the search result; the matches are in order and do not overlap |
| Patterns.AllMatchesSuccessive | convert-to-jekyll.py:64 | no match is skipped: each one after the first is the first match from the end of the one before, and there is none from the end of the last |
| Patterns.FindAllSuccessive | convert-to-jekyll.py:64 | `re.findall` skips nothing: each match after the first is what `re.search` finds from the end of the one before, and `re.search` finds nothing after the last |
| Extract.ExtractMetadata | convert-to-jekyll.py:9-19 | a missing title gives "Korol Group", and a missing description or keywords gives ""; each found value is the stripped group; description and keywords hold no newline and no quote |
| Extract.OneLineAttribute | convert-to-jekyll.py:12-17 | a description or keywords value holds no newline and no quote |
| Extract.FirstMatching | convert-to-jekyll.py:27-55 | the result is stripped; it is `None` exactly when every pattern fails |
| Extract.FirstMatchingPriority | convert-to-jekyll.py:27-53 | when a pattern matches and all earlier ones fail, its stripped group is the result |
| Extract.ExtractContent | convert-to-jekyll.py:21-55 | the content is stripped; it is `None` exactly when all four layouts fail |
| Extract.ContentPriority | convert-to-jekyll.py:27-53 | the layouts are tried in the order main-after-header, section with closing tag, section to footer, bare main; a later one is used only when every earlier one fails |
| Extract.ExtractCustomScripts | convert-to-jekyll.py:57-69 | `None` exactly when no script block matches; otherwise the texts of all the `re.findall` matches joined with newlines, which starts with the unhide comment and ends with a script close tag |
| Extract.JoinedScriptsShape | convert-to-jekyll.py:63-67 | the newline-joined blocks start with the first block's comment and end with the last block's close tag |
| Extract.ScriptBlockShape | convert-to-jekyll.py:63-64 | every block found runs from the unhide comment to a script close tag |
| Extract.ScriptBlockFirstClose | convert-to-jekyll.py:63-64 | every block found ends at the first script close tag after its unhide comment |
| Convert.FixPageLink | convert-to-jekyll.py:104-112 | a relative `.html` value becomes `href="/<lang>/<value>"`; the attribute is emitted unchanged exactly when the value is not a relative `.html` link (absolute, anchor, external, mail, or another file) |
| Convert.FinalValue | convert-to-jekyll.py:104-112 | the value `fix_page_link` writes is never a relative page link, and holds no quote when neither the value nor the language does |
| Convert.RewriteHrefs | convert-to-jekyll.py:114 | a text without `href="` is returned unchanged |
| Convert.RewriteHrefsIdempotent | convert-to-jekyll.py:104-114 | rewriting the links of rewritten content changes nothing, for a language code without a quote |
| Convert.SubIdempotent | convert-to-jekyll.py:114 | a substitution that writes only attributes it then keeps is idempotent |
| Convert.SubFirstLink | convert-to-jekyll.py:114 | the first `href` attribute is replaced, and the substitution goes on after its closing quote |
| Convert.SubKeepsFixedLink | convert-to-jekyll.py:114 | an attribute whose value the substitution keeps stays as it is, and the substitution goes on after it |
| Convert.FixAssetPaths | convert-to-jekyll.py:91-97 | a content without any of the four relative path forms is unchanged |
| Convert.FixAssetPathsSinglePass | convert-to-jekyll.py:97 | each replacement is a single pass: `..../assets/` becomes `../assets/`, which still holds the relative form |
| Convert.FieldLinesInOrder | convert-to-jekyll.py:121-127 | six field lines with the keys layout, title, description, keywords, lang and permalink, in that order; the last is the permalink |
| Convert.BlockAppend | convert-to-jekyll.py:133-134 | one more script line appends that line, indented and ended by a newline |
| Convert.ScriptLinesKept | convert-to-jekyll.py:131-134 | one output line per script line, each the line after two spaces; joined again, the script lines give the scripts back |
| Convert.SplitIndentedBlock | convert-to-jekyll.py:133-134 | the indented block splits into the indented lines and an empty last piece |
| Convert.FrontMatter | convert-to-jekyll.py:121-137 | the front matter begins with `---\n` and ends with `---\n\n` |
| Convert.Convert | convert-to-jekyll.py:79-147 | nothing is written exactly when the content is missing or empty; otherwise the output path is written |
| Convert.ConvertLayout | convert-to-jekyll.py:137-140 | the text written is the front matter followed by the rewritten content; it begins with the opening fence, the front matter ends with the closing fence, and the content follows it unchanged |
| Convert.ConvertUsesOnlyInputName | convert-to-jekyll.py:116-127 | the text written depends on the input path only through its file name, and not on the output path |
| Convert.AppendBlock | convert-to-jekyll.py:131-134 | the loop appends every line, indented and ended by a newline, in order |
| Convert.RewriteContentSteps | convert-to-jekyll.py:91-114 | the content rebound through the four replacements and the link rewrite is `RewriteContent` |
| Convert.BuildFrontMatter | convert-to-jekyll.py:120-137 | the front matter grown line by line is `FrontMatter` |
| Convert.ConvertFile | convert-to-jekyll.py:71-147 | `convert_file` computes `Convert` |
| Batch.Code | convert-to-jekyll.py:160-166 | the language code: "en" exactly for the English directory; two characters, no quote |
| Batch.Stem | convert-to-jekyll.py:159-165 | `Path.stem`: a prefix of the name; when shorter, it stops at the last dot, which is neither first nor last; the whole name exactly when it ends with a dot or has no inner dot |
| Batch.OutputName | convert-to-jekyll.py:159-165 | the output name ends with `-jekyll.html` |
| Batch.OutputNameOfPage | convert-to-jekyll.py:159-165 | for `<name>.html` the output name is `<name>-jekyll.html`; a file called just `.html` gives `.html-jekyll.html` |
| Batch.OutputNotInput | convert-to-jekyll.py:159-165 | a page's output name is never its own name |
| Batch.OutputNameInjective | convert-to-jekyll.py:159-165 | two page names longer than `.html` with the same output name are the same name |
| Batch.OutputNamesCollide | convert-to-jekyll.py:159-165 | `.html` and `.html.html` both get the output name `.html-jekyll.html` |
| Batch.ConvertPage | convert-to-jekyll.py:159-166 | a converted page is written beside it, under its output name |
| Batch.WrittenBy | convert-to-jekyll.py:155-160 | at most one file per page of the listing |
| Batch.WrittenBySnoc | convert-to-jekyll.py:155-160 | one more page adds its file when it is selected and converts |
| Batch.WrittenByComplete | convert-to-jekyll.py:155-160 | every selected page that converts has its file written |
| Batch.WrittenBySound | convert-to-jekyll.py:155-160 | every file written comes from a selected page |
| Batch.WritesExactly | convert-to-jekyll.py:155-166 | a file is written exactly when it comes from a `*.html` page, other than `en/index-jekyll.html`, that converts; it sits beside the page under the output name |
| Batch.NotWrittenUnder | convert-to-jekyll.py:155-166 | no file of a run is written under the output name of a `*.html` page the run does not select, when that page's stem is not `.html` |
| Batch.SkippedExampleNotConverted | convert-to-jekyll.py:155-159 | the English run writes nothing under the output name of `index-jekyll.html` |
| Batch.ConvertDirectory | convert-to-jekyll.py:155-166 | the loop over a listing writes `Writes`, in listing order |
| Batch.ConvertAll | convert-to-jekyll.py:149-166 | `main`: the English files, then the French ones |

## Left out

- File reading and writing, `print` and the Boolean result of `convert_file`. Instead, a page is its text, and `convert_file`'s result is an optional `FileWrite`: `None` for `False`, and the file written for `True`.
- `Path.glob('*.html')`. The listing is a parameter: a sequence of file names and their texts, in the order the directory yields them. A name is selected when it ends in `.html`. The model does not say whether a file written during the walk shows up later in the same walk. Directories whose names end in `.html` are not modelled either.
- `Path(__file__).parent` is a parameter of `ConvertAll`. A path is a directory and a file name, with no normalisation.
- The regular-expression engine. Each pattern is stated as the delimiter search that the comment of `Patterns` argues is equivalent. That argument is not a Dafny proof.
- YAML escaping: quotes in a title or description are copied as they are, so no claim is made that the front matter is valid YAML.
- Convert.RewriteHrefsIdempotent: requires a language code without a quote character. Both codes used, "en" and "fr", have none (`Batch.Code`).
- Convert.RewriteHrefs: its contract covers only a text without `href="`. What happens to each attribute is stated by `FixPageLink` and by the idempotence lemma.
- Unicode: strings are sequences of code points, as Python's are; no normalisation is involved.
