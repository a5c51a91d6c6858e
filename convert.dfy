/**
 * Converting one page: asset-path and link rewriting of the extracted content,
 * and the YAML front matter put in front of it. `Convert` is the whole
 * conversion as a function of the page text, the input and output paths and
 * the language; `ConvertFile` computes it step by step, rebinding the content
 * and growing the front matter line by line.
 */
module Convert {
  import opened Text
  import opened Patterns
  import opened Extract

  /** A file: its directory and its name (the last path component). */
  datatype FilePath = FilePath(dir: string, name: string)

  /** What the conversion writes, and where. */
  datatype FileWrite = FileWrite(path: FilePath, text: string)

  // ---------------------------------------------------------------------------
  // Link rewriting

  const HrefOpen := "href=\""

  /** Absolute paths, anchors, external and mail links are left alone. */
  predicate IsKeptLink(page: string) {
    || StartsWith(page, "http://")
    || StartsWith(page, "https://")
    || StartsWith(page, "/")
    || StartsWith(page, "#")
    || StartsWith(page, "mailto:")
  }

  /** A relative link to an HTML page: the only kind that is rewritten. */
  predicate IsRelativePage(page: string) {
    !IsKeptLink(page) && EndsWith(page, ".html")
  }

  /** The attribute `href="value"`. */
  function HrefAttribute(value: string): string {
    HrefOpen + value + "\""
  }

  /** The replacement for one `href` attribute with value `page`: a relative
      HTML link becomes the absolute `/<lang>/<page>`, and every other
      attribute is emitted exactly as it was. */
  function FixPageLink(page: string, lang: string): (r: string)
    ensures IsRelativePage(page) ==> r == HrefAttribute("/" + lang + "/" + page)
    ensures r == HrefAttribute(page) <==> !IsRelativePage(page)
  {
    if IsKeptLink(page) then HrefAttribute(page)
    else if EndsWith(page, ".html") then HrefAttribute("/" + lang + "/" + page)
    else HrefAttribute(page)
  }

  /** `re.sub` over the pattern `href="([^"]*)"`: every attribute, left to
      right, is replaced by `fix` applied to its value. A match needs a closing
      quote; once the first `href="` has none, no later one has either, and the
      rest is left as it is. */
  function SubHrefs(s: string, fix: string -> string): string
    decreases |s|
  {
    var p := Find(s, 0, HrefOpen);
    if p.None? then s
    else
      var k := p.value + |HrefOpen|;
      var q := Find(s, k, "\"");
      if q.None? then s
      else s[..p.value] + fix(s[k..q.value]) + SubHrefs(s[q.value + 1..], fix)
  }

  /** The callback that rewrites links into the pages of `lang`. */
  function LinkFixer(lang: string): string -> string {
    page => FixPageLink(page, lang)
  }

  /** Every `href` attribute of `s` replaced by `FixPageLink`. */
  function RewriteHrefs(s: string, lang: string): (r: string)
    ensures !Occurs(s, HrefOpen) ==> r == s
  {
    var p := Find(s, 0, HrefOpen);
    assert p.Some? ==> Occurs(s, HrefOpen);
    SubHrefs(s, LinkFixer(lang))
  }

  /** One step of the substitution: the text before the first attribute, its
      replacement, then the substitution of what follows its closing quote. */
  lemma SubStep(s: string, fix: string -> string)
    requires Find(s, 0, HrefOpen).Some?
    requires Find(s, Find(s, 0, HrefOpen).value + |HrefOpen|, "\"").Some?
    ensures
      var p := Find(s, 0, HrefOpen).value;
      var k := p + |HrefOpen|;
      var q := Find(s, k, "\"").value;
      SubHrefs(s, fix) == s[..p] + fix(s[k..q]) + SubHrefs(s[q + 1..], fix)
  {
  }

  /** `Find` gives `q` when `lit` occurs at `q` and nowhere between `from` and `q`. */
  lemma FindIs(s: string, from: nat, lit: string, q: nat)
    requires from <= q && StartsAt(s, q, lit)
    requires forall k :: from <= k < q ==> !StartsAt(s, k, lit)
    ensures Find(s, from, lit) == Some(q)
  {
  }

  /** A text without a quote character has no occurrence of a quote. */
  lemma NoQuoteIn(t: string, from: nat, n: nat)
    requires from + n <= |t|
    requires forall k :: from <= k < from + n ==> t[k] != '"'
    ensures forall k :: from <= k < from + n ==> !StartsAt(t, k, "\"")
  {
    forall k | from <= k < from + n ensures !StartsAt(t, k, "\"") {
      assert k + 1 <= |t| ==> t[k..k + 1] == [t[k]];
    }
  }

  /** After the rewrite every link is in its final form: rewriting again
      changes nothing (for a language code without a quote character). */
  lemma RewriteHrefsIdempotent(s: string, lang: string)
    requires '"' !in lang
    ensures RewriteHrefs(RewriteHrefs(s, lang), lang) == RewriteHrefs(s, lang)
  {
    var fix := LinkFixer(lang);
    var final := (page: string) => FinalValue(page, lang);
    forall page: string
      ensures fix(page) == HrefAttribute(final(page))
      ensures '"' !in page ==> '"' !in final(page)
      ensures fix(final(page)) == HrefAttribute(final(page))
    {
    }
    SubIdempotent(s, fix, final);
  }

  /** A substitution whose every replacement is an attribute with a final
      value, one that the substitution keeps as it is, is idempotent. */
  lemma {:induction false} SubIdempotent(s: string, fix: string -> string, final: string -> string)
    requires forall page {:trigger fix(page)} :: fix(page) == HrefAttribute(final(page))
    requires forall page {:trigger final(page)} :: '"' !in page ==> '"' !in final(page)
    requires forall page {:trigger fix(final(page))} :: fix(final(page)) == HrefAttribute(final(page))
    ensures SubHrefs(SubHrefs(s, fix), fix) == SubHrefs(s, fix)
    decreases |s|
  {
    var p := Find(s, 0, HrefOpen);
    if p.None? {
      assert SubHrefs(s, fix) == s;
      assert SubHrefs(SubHrefs(s, fix), fix) == SubHrefs(s, fix);
    } else {
      var k := p.value + |HrefOpen|;
      var q := Find(s, k, "\"");
      if q.None? {
        assert SubHrefs(s, fix) == s;
        assert SubHrefs(SubHrefs(s, fix), fix) == SubHrefs(s, fix);
      } else {
        var page := s[k..q.value];
        NoQuoteBetween(s, k, q.value);
        var v := final(page);
        var pre := s[..p.value];
        var t := s[q.value + 1..];
        var rest := SubHrefs(t, fix);
        SubFirstLink(s, fix, p.value, q.value, v);
        SubKeepsFixedLink(pre, v, rest, fix);
        SubIdempotent(t, fix, final);
        assert SubHrefs(SubHrefs(s, fix), fix) == pre + HrefAttribute(v) + rest;
        assert SubHrefs(SubHrefs(s, fix), fix) == SubHrefs(s, fix);
      }
    }
  }

  /** The substitution replaces the first attribute, the one at `p` whose
      value ends before the quote at `q`, by the attribute with value `v`. */
  lemma SubFirstLink(s: string, fix: string -> string, p: nat, q: nat, v: string)
    requires Find(s, 0, HrefOpen) == Some(p)
    requires Find(s, p + |HrefOpen|, "\"") == Some(q)
    requires fix(s[p + |HrefOpen|..q]) == HrefAttribute(v)
    ensures SubHrefs(s, fix) == s[..p] + HrefAttribute(v) + SubHrefs(s[q + 1..], fix)
    ensures Find(s[..p] + HrefOpen, 0, HrefOpen) == Some(p)
  {
    var pre := s[..p];
    var k := p + |HrefOpen|;
    SubStep(s, fix);
    PrefixThrough(s, p, HrefOpen);
    assert (pre + HrefOpen)[..k] == pre + HrefOpen;
    FindAgrees(s, pre + HrefOpen, 0, HrefOpen, p);
  }

  /** The value `FixPageLink` writes for `page`; a value it writes is final:
      `FixPageLink` keeps it. */
  function FinalValue(page: string, lang: string): (v: string)
    ensures FixPageLink(page, lang) == HrefAttribute(v)
    ensures !IsRelativePage(v)
    ensures '"' !in page && '"' !in lang ==> '"' !in v
  {
    if IsRelativePage(page) then
      var v := "/" + lang + "/" + page;
      assert StartsWith(v, "/");
      v
    else page
  }

  /** An attribute placed at the first `href="` whose value `fix` keeps is
      kept, and the substitution goes on after it. */
  lemma SubKeepsFixedLink(pre: string, v: string, rest: string, fix: string -> string)
    requires Find(pre + HrefOpen, 0, HrefOpen) == Some(|pre|)
    requires '"' !in v && fix(v) == HrefAttribute(v)
    ensures SubHrefs(pre + HrefAttribute(v) + rest, fix) == pre + HrefAttribute(v) + SubHrefs(rest, fix)
  {
    var out := pre + HrefAttribute(v) + rest;
    var k := |pre| + |HrefOpen|;
    assert (pre + HrefOpen)[..k] == out[..k];
    FindAgrees(pre + HrefOpen, out, 0, HrefOpen, |pre|);
    var q := k + |v|;
    assert out[k..q] == v;
    forall j | k <= j < q ensures out[j] != '"' {
      assert out[j] == v[j - k];
    }
    NoQuoteIn(out, k, |v|);
    assert out[q..q + 1] == "\"";
    FindIs(out, k, "\"", q);
    SubStep(out, fix);
    assert out[..|pre|] == pre;
    assert out[q + 1..] == rest;
  }

  /** The text between `k` and the first quote found from `k` holds no quote. */
  lemma NoQuoteBetween(s: string, k: nat, q: nat)
    requires Find(s, k, "\"") == Some(q)
    ensures '"' !in s[k..q]
  {
    forall j | k <= j < q ensures s[j] != '"' {
      assert !StartsAt(s, j, "\"");
      assert s[j..j + 1] == [s[j]];
    }
  }

  // ---------------------------------------------------------------------------
  // Asset paths

  const ImageSrcFrom := "src=\"../images/"
  const ImageSrcTo := "src=\"/images/"
  const ImageHrefFrom := "href=\"../images/"
  const ImageHrefTo := "href=\"/images/"
  const SrcsetFrom := "srcset=\"images/"
  const SrcsetTo := "srcset=\"/images/"
  const AssetsFrom := "../assets/"
  const AssetsTo := "/assets/"

  /** The four path replacements, applied in order, each a single
      left-to-right pass. A text with none of the four relative forms is left
      unchanged. */
  function FixAssetPaths(content: string): (r: string)
    ensures
      && !Occurs(content, ImageSrcFrom)
      && !Occurs(content, ImageHrefFrom)
      && !Occurs(content, SrcsetFrom)
      && !Occurs(content, AssetsFrom)
      ==> r == content
  {
    var c1 := Replace(content, ImageSrcFrom, ImageSrcTo);
    var c2 := Replace(c1, ImageHrefFrom, ImageHrefTo);
    var c3 := Replace(c2, SrcsetFrom, SrcsetTo);
    Replace(c3, AssetsFrom, AssetsTo)
  }

  /** Each replacement is a single pass: text that a replacement completes
      into a new relative form is not looked at again, so the fix is not
      idempotent. */
  lemma FixAssetPathsSinglePass()
    ensures FixAssetPaths("..../assets/") == "../assets/"
    ensures Occurs(FixAssetPaths("..../assets/"), AssetsFrom)
  {
    var s := "..../assets/";
    ShorterNeverOccurs(s, ImageSrcFrom);
    ShorterNeverOccurs(s, ImageHrefFrom);
    ShorterNeverOccurs(s, SrcsetFrom);
    AssetsReplacedOnce();
    assert StartsAt("../assets/", 0, AssetsFrom);
  }

  lemma AssetsReplacedOnce()
    ensures Replace("..../assets/", AssetsFrom, AssetsTo) == "../assets/"
  {
    var s := "..../assets/";
    assert s[0..10][2] != AssetsFrom[2] && s[1..11][2] != AssetsFrom[2];
    assert s[2..12] == AssetsFrom;
    FindIs(s, 0, AssetsFrom, 2);
    assert Replace(s, AssetsFrom, AssetsTo) == ".." + AssetsTo + Replace([], AssetsFrom, AssetsTo);
  }

  lemma ShorterNeverOccurs(s: string, lit: string)
    requires |s| < |lit|
    ensures !Occurs(s, lit)
  {
  }

  /** Everything done to the extracted content before it is written. */
  function RewriteContent(content: string, lang: string): string {
    RewriteHrefs(FixAssetPaths(content), lang)
  }

  // ---------------------------------------------------------------------------
  // Front matter

  const Fence := "---\n"
  const ClosingFence := "---\n\n"
  const ScriptsKey := "custom_scripts: |\n"
  const ScriptIndent := "  "

  /** The keys of the front matter, in the order they are written. */
  const FieldKeys: seq<string> := ["layout", "title", "description", "keywords", "lang", "permalink"]

  /** The front-matter lines, without their newlines. */
  function FieldLines(meta: Metadata, lang: string, permalink: string): seq<string> {
    [ "layout: default",
      "title: \"" + meta.title + "\"",
      "description: \"" + meta.description + "\"",
      "keywords: \"" + meta.keywords + "\"",
      "lang: " + lang,
      "permalink: " + permalink ]
  }

  /** Each field line starts with its key, in the order of `FieldKeys`. */
  lemma FieldLinesInOrder(meta: Metadata, lang: string, permalink: string)
    ensures |FieldLines(meta, lang, permalink)| == |FieldKeys|
    ensures forall i :: 0 <= i < |FieldKeys| ==>
      StartsWith(FieldLines(meta, lang, permalink)[i], FieldKeys[i] + ": ")
    ensures FieldLines(meta, lang, permalink)[5] == "permalink: " + permalink
  {
    var ls := FieldLines(meta, lang, permalink);
    forall i | 0 <= i < |FieldKeys| ensures StartsWith(ls[i], FieldKeys[i] + ": ") {
      var key := FieldKeys[i] + ": ";
      assert ls[i][..|key|] == key;
    }
  }

  /** The lines, each after `indent` and followed by a newline. */
  function Block(lines: seq<string>, indent: string): string
    decreases |lines|
  {
    if lines == [] then "" else indent + lines[0] + "\n" + Block(lines[1..], indent)
  }

  /** Adding a line at the end of a block appends its indented line. */
  lemma {:induction false} BlockAppend(lines: seq<string>, line: string, indent: string)
    ensures Block(lines + [line], indent) == Block(lines, indent) + indent + line + "\n"
    decreases |lines|
  {
    if lines != [] {
      assert (lines + [line])[1..] == lines[1..] + [line];
      BlockAppend(lines[1..], line, indent);
    }
  }

  /** The custom-scripts entry: the key line, then every script line indented. */
  function ScriptsSection(scripts: Option<string>): string {
    if scripts.Some? && scripts.value != "" then
      ScriptsKey + Block(SplitOn(scripts.value, "\n"), ScriptIndent)
    else ""
  }

  /** The indented block has one line per script line, each that line after two
      spaces, then nothing after its last newline; and the script lines joined
      again give the scripts back. */
  lemma ScriptLinesKept(scripts: string)
    ensures var lines := SplitOn(scripts, "\n");
      var out := SplitOn(Block(lines, ScriptIndent), "\n");
      && JoinWith(lines, "\n") == scripts
      && |out| == |lines| + 1
      && out[|lines|] == ""
      && forall i :: 0 <= i < |lines| ==> out[i] == ScriptIndent + lines[i]
  {
    JoinSplit(scripts, "\n");
    SplitIndentedBlock(SplitOn(scripts, "\n"));
  }

  lemma {:induction false} SplitIndentedBlock(lines: seq<string>)
    requires forall i :: 0 <= i < |lines| ==> !Occurs(lines[i], "\n")
    ensures var out := SplitOn(Block(lines, ScriptIndent), "\n");
      && |out| == |lines| + 1
      && out[|lines|] == ""
      && forall i :: 0 <= i < |lines| ==> out[i] == ScriptIndent + lines[i]
    decreases |lines|
  {
    if lines == [] {
      assert Find(Block(lines, ScriptIndent), 0, "\n") == None;
    } else {
      SplitBlockStep(lines);
      SplitIndentedBlock(lines[1..]);
      var out := SplitOn(Block(lines, ScriptIndent), "\n");
      var rest := SplitOn(Block(lines[1..], ScriptIndent), "\n");
      forall i | 1 <= i < |lines| ensures out[i] == ScriptIndent + lines[i] {
        assert out[i] == rest[i - 1] && lines[1..][i - 1] == lines[i];
      }
    }
  }

  /** Splitting a block cuts off its first line, indented, and the rest of the
      block. */
  lemma SplitBlockStep(lines: seq<string>)
    requires lines != [] && !Occurs(lines[0], "\n")
    ensures SplitOn(Block(lines, ScriptIndent), "\n")
      == [ScriptIndent + lines[0]] + SplitOn(Block(lines[1..], ScriptIndent), "\n")
  {
    var b := Block(lines, ScriptIndent);
    var head := ScriptIndent + lines[0];
    var tail := Block(lines[1..], ScriptIndent);
    assert b == head + "\n" + tail;
    NewlineFree(lines[0]);
    assert '\n' !in head;
    FirstNewline(head, tail);
    assert b[..|head|] == head;
    assert b[|head| + 1..] == tail;
  }

  /** A text in which no newline occurs holds no newline character. */
  lemma NewlineFree(t: string)
    requires !Occurs(t, "\n")
    ensures '\n' !in t
  {
    forall j | 0 <= j < |t| ensures t[j] != '\n' {
      assert t[j..j + 1] == [t[j]];
      assert !StartsAt(t, j, "\n");
    }
  }

  /** The first newline of a line, a newline and a rest is the one after the line. */
  lemma FirstNewline(head: string, tail: string)
    requires '\n' !in head
    ensures Find(head + "\n" + tail, 0, "\n") == Some(|head|)
  {
    var b := head + "\n" + tail;
    forall k | 0 <= k < |head| ensures !StartsAt(b, k, "\n") {
      assert b[k..k + 1] == [head[k]];
    }
    assert b[|head|..|head| + 1] == "\n";
    FindIs(b, 0, "\n", |head|);
  }

  /** The front matter: the opening fence, the field lines, the optional
      custom-scripts entry and the closing fence with a blank line. */
  function FrontMatter(meta: Metadata, lang: string, permalink: string, scripts: Option<string>): (r: string)
    ensures StartsWith(r, Fence) && EndsWith(r, ClosingFence)
  {
    var middle := Block(FieldLines(meta, lang, permalink), "") + ScriptsSection(scripts);
    ConcatEnds(Fence, middle + ClosingFence);
    ConcatEnds(Fence + middle, ClosingFence);
    assert Fence + (middle + ClosingFence) == Fence + middle + ClosingFence;
    Fence + middle + ClosingFence
  }

  lemma FrontMatterParts(meta: Metadata, lang: string, permalink: string, scripts: Option<string>)
    ensures FrontMatter(meta, lang, permalink, scripts)
      == Fence + Block(FieldLines(meta, lang, permalink), "") + ScriptsSection(scripts) + ClosingFence
  {
  }

  lemma ConcatEnds(a: string, b: string)
    ensures StartsWith(a + b, a) && EndsWith(a + b, b)
  {
    assert (a + b)[..|a|] == a;
    assert (a + b)[|a|..] == b;
  }

  // ---------------------------------------------------------------------------
  // The conversion

  /** The permalink: the language, then the name of the input file. */
  function Permalink(lang: string, input: FilePath): string {
    "/" + lang + "/" + input.name
  }

  /** Converting a page: nothing is written when no content was extracted (an
      empty content counts as none); otherwise the output path receives the
      front matter followed by the rewritten content. */
  function Convert(html: string, input: FilePath, output: FilePath, lang: string): (r: Option<FileWrite>)
    ensures r.None? <==> ExtractContent(html).None? || ExtractContent(html).value == ""
    ensures r.Some? ==> r.value.path == output
  {
    var content := ExtractContent(html);
    if content.None? || content.value == "" then None
    else
      var meta := ExtractMetadata(html);
      var front := FrontMatter(meta, lang, Permalink(lang, input), ExtractCustomScripts(html));
      Some(FileWrite(output, front + RewriteContent(content.value, lang)))
  }

  /** The written text is the front matter and then the rewritten content: the
      front matter opens with a fence line and closes with a fence line and a
      blank line, and the content follows it unchanged. */
  lemma ConvertLayout(html: string, input: FilePath, output: FilePath, lang: string)
    requires Convert(html, input, output, lang).Some?
    ensures var text := Convert(html, input, output, lang).value.text;
      var front := FrontMatter(ExtractMetadata(html), lang, Permalink(lang, input), ExtractCustomScripts(html));
      var body := RewriteContent(ExtractContent(html).value, lang);
      && text == front + body
      && StartsWith(text, Fence)
      && EndsWith(text[..|front|], ClosingFence)
      && text[|front|..] == body
  {
    var text := Convert(html, input, output, lang).value.text;
    var front := FrontMatter(ExtractMetadata(html), lang, Permalink(lang, input), ExtractCustomScripts(html));
    var body := RewriteContent(ExtractContent(html).value, lang);
    assert text == front + body;
    ConcatEnds(front, body);
    StartsWithTrans(text, front, Fence);
    assert text[..|front|] == front;
  }

  /** The written text depends on the input path only through its file name,
      and not at all on the output path. */
  lemma ConvertUsesOnlyInputName(html: string, in1: FilePath, in2: FilePath, out1: FilePath, out2: FilePath, lang: string)
    requires in1.name == in2.name
    ensures Convert(html, in1, out1, lang).Some? == Convert(html, in2, out2, lang).Some?
    ensures Convert(html, in1, out1, lang).Some? ==>
      Convert(html, in1, out1, lang).value.text == Convert(html, in2, out2, lang).value.text
  {
  }

  /** `text` followed by the lines, each after `indent` and ended by a newline,
      appended one at a time. */
  method AppendBlock(text: string, lines: seq<string>, indent: string) returns (out: string)
    ensures out == text + Block(lines, indent)
  {
    out := text;
    for i := 0 to |lines|
      invariant out == text + Block(lines[..i], indent)
    {
      BlockAppend(lines[..i], lines[i], indent);
      assert lines[..i + 1] == lines[..i] + [lines[i]];
      out := out + indent + lines[i] + "\n";
    }
    assert lines[..|lines|] == lines;
  }

  /** The content rebound through the four path replacements and then the
      link rewrite, in that order. */
  method RewriteContentSteps(extracted: string, lang: string) returns (content: string)
    ensures content == RewriteContent(extracted, lang)
  {
    content := extracted;
    content := Replace(content, ImageSrcFrom, ImageSrcTo);
    content := Replace(content, ImageHrefFrom, ImageHrefTo);
    content := Replace(content, SrcsetFrom, SrcsetTo);
    content := Replace(content, AssetsFrom, AssetsTo);
    content := RewriteHrefs(content, lang);
  }

  /** The front matter grown as a string: the fence and the field lines, then,
      when there are custom scripts, their key line and one indented line per
      script line, then the closing fence. */
  method BuildFrontMatter(meta: Metadata, lang: string, permalink: string, scripts: Option<string>) returns (front: string)
    ensures front == FrontMatter(meta, lang, permalink, scripts)
  {
    front := Fence + Block(FieldLines(meta, lang, permalink), "");
    ghost var fields := front;
    if scripts.Some? && scripts.value != "" {
      var lines := SplitOn(scripts.value, "\n");
      front := AppendBlock(front + ScriptsKey, lines, ScriptIndent);
      assert ScriptsSection(scripts) == ScriptsKey + Block(lines, ScriptIndent);
      assert front == fields + ScriptsSection(scripts);
    } else {
      assert ScriptsSection(scripts) == "";
      assert front == fields + ScriptsSection(scripts);
    }
    front := front + ClosingFence;
    FrontMatterParts(meta, lang, permalink, scripts);
  }

  /** `convert_file`: the same conversion, with the content rebound through the
      rewrites and the front matter grown one script line at a time. */
  method ConvertFile(html: string, input: FilePath, output: FilePath, lang: string) returns (r: Option<FileWrite>)
    ensures r == Convert(html, input, output, lang)
  {
    var meta := ExtractMetadata(html);
    var extracted := ExtractContent(html);
    if extracted.None? || extracted.value == "" {
      return None;
    }
    var scripts := ExtractCustomScripts(html);
    var content := RewriteContentSteps(extracted.value, lang);
    var permalink := "/" + lang + "/" + input.name;
    var front := BuildFrontMatter(meta, lang, permalink, scripts);
    r := Some(FileWrite(output, front + content));
  }
}
