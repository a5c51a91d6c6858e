/**
 * The batch run over the two language directories: which pages are converted,
 * under which output name, and the files written. A directory listing is a
 * sequence of pages (a file name and the text read from it), in the order the
 * listing yields them.
 */
module Batch {
  import opened Text
  import opened Extract
  import opened Convert

  /** The two language directories. */
  datatype Lang = En | Fr

  /** The language code: the directory name and the code written into pages. */
  function Code(lang: Lang): (r: string)
    ensures r == "en" <==> lang == En
    ensures |r| == 2 && '"' !in r
  {
    match lang
    case En => "en"
    case Fr => "fr"
  }

  /** A file of a listing: its name and its text. */
  datatype Page = Page(name: string, html: string)

  /** The English example page that is already in the output form; it is never
      taken as an input. */
  const SkippedExample := "index-jekyll.html"

  const HtmlSuffix := ".html"
  const OutputSuffix := "-jekyll.html"

  /** `s.rfind(c)`: the last index holding `c`. */
  function LastIndexOf(s: string, c: char): (r: Option<nat>)
    ensures r.Some? ==> r.value < |s| && s[r.value] == c && forall k :: r.value < k < |s| ==> s[k] != c
    ensures r.None? ==> forall k :: 0 <= k < |s| ==> s[k] != c
    decreases |s|
  {
    if s == [] then None
    else if s[|s| - 1] == c then Some(|s| - 1)
    else
      var r := LastIndexOf(s[..|s| - 1], c);
      assert forall k :: 0 <= k < |s| - 1 ==> s[..|s| - 1][k] == s[k];
      r
  }

  /** `Path(name).stem`: the name without its suffix, where the suffix starts
      at the last dot, provided that dot is neither the first nor the last
      character. */
  function Stem(name: string): (r: string)
    ensures |r| <= |name| && r == name[..|r|]
    ensures |r| < |name| ==>
      && 0 < |r| < |name| - 1
      && name[|r|] == '.'
      && forall k :: |r| < k < |name| ==> name[k] != '.'
    ensures |r| == |name| <==>
      || (|name| > 0 && name[|name| - 1] == '.')
      || forall k :: 0 < k < |name| - 1 ==> name[k] != '.'
  {
    var i := LastIndexOf(name, '.');
    if i.Some? && 0 < i.value < |name| - 1 then name[..i.value] else name
  }

  /** The name of the converted page: the stem with the Jekyll suffix. */
  function OutputName(name: string): (r: string)
    ensures EndsWith(r, OutputSuffix)
  {
    var r := Stem(name) + OutputSuffix;
    assert r[|r| - |OutputSuffix|..] == OutputSuffix;
    r
  }

  /** For an ordinary page name the output name replaces `.html` by
      `-jekyll.html`; a file called just `.html` has no stem to cut, and its
      output name keeps it whole. */
  lemma OutputNameOfPage(name: string)
    requires EndsWith(name, HtmlSuffix)
    ensures |name| > |HtmlSuffix| ==> OutputName(name) == name[..|name| - |HtmlSuffix|] + OutputSuffix
    ensures |name| == |HtmlSuffix| ==> OutputName(name) == HtmlSuffix + OutputSuffix
  {
    var n := |name|;
    var dot := n - |HtmlSuffix|;
    assert name[dot..] == HtmlSuffix;
    assert name[dot] == '.';
    forall k | dot < k < n ensures name[k] != '.' {
      assert name[k] == HtmlSuffix[k - dot];
    }
    var i := LastIndexOf(name, '.');
    assert i == Some(dot);
    if n == |HtmlSuffix| {
      assert name == HtmlSuffix;
    }
  }

  /** A conversion never writes over the page it reads. */
  lemma OutputNotInput(name: string)
    ensures OutputName(name) != name
  {
  }

  /** `main`'s choice of pages: the `*.html` files of the listing, except the
      English example page. */
  predicate Selected(lang: Lang, name: string) {
    EndsWith(name, HtmlSuffix) && !(lang == En && name == SkippedExample)
  }

  /** The file one selected page writes, if its conversion succeeds. */
  function ConvertPage(dir: string, lang: Lang, page: Page): (r: Option<FileWrite>)
    ensures r.Some? ==> r.value.path == FilePath(dir, OutputName(page.name))
  {
    Convert.Convert(page.html, FilePath(dir, page.name), FilePath(dir, OutputName(page.name)), Code(lang))
  }

  /** `ConvertPage` for the pages of one directory. */
  function PageConverter(dir: string, lang: Lang): Page -> Option<FileWrite> {
    page => ConvertPage(dir, lang, page)
  }

  /** The files written when the listing is walked in order and every selected
      page is handed to `convert`: one for each page it converts. */
  function WrittenBy(lang: Lang, pages: seq<Page>, convert: Page -> Option<FileWrite>): (r: seq<FileWrite>)
    ensures |r| <= |pages|
    decreases |pages|
  {
    if pages == [] then []
    else
      var last := pages[|pages| - 1];
      var before := WrittenBy(lang, pages[..|pages| - 1], convert);
      var out := convert(last);
      if Selected(lang, last.name) && out.Some? then before + [out.value] else before
  }

  /** The files written for the listing of directory `dir`. */
  function Writes(dir: string, lang: Lang, pages: seq<Page>): seq<FileWrite> {
    WrittenBy(lang, pages, PageConverter(dir, lang))
  }

  /** The files written for one more page of the listing. */
  lemma WrittenBySnoc(lang: Lang, pages: seq<Page>, n: nat, convert: Page -> Option<FileWrite>)
    requires n < |pages|
    ensures var out := convert(pages[n]);
      WrittenBy(lang, pages[..n + 1], convert)
      == WrittenBy(lang, pages[..n], convert) + if Selected(lang, pages[n].name) && out.Some? then [out.value] else []
  {
    assert pages[..n + 1][..n] == pages[..n];
  }

  /** Every selected page that `convert` converts has its file written. */
  lemma {:induction false} WrittenByComplete(lang: Lang, pages: seq<Page>, i: nat, convert: Page -> Option<FileWrite>)
    requires i < |pages| && Selected(lang, pages[i].name) && convert(pages[i]).Some?
    ensures convert(pages[i]).value in WrittenBy(lang, pages, convert)
    decreases |pages|
  {
    var init := pages[..|pages| - 1];
    WrittenBySnoc(lang, pages, |pages| - 1, convert);
    assert pages[..|pages|] == pages;
    if i < |pages| - 1 {
      assert init[i] == pages[i];
      WrittenByComplete(lang, init, i, convert);
    }
  }

  /** Every written file is what `convert` made of a selected page. */
  lemma {:induction false} WrittenBySound(lang: Lang, pages: seq<Page>, w: FileWrite, convert: Page -> Option<FileWrite>)
    requires w in WrittenBy(lang, pages, convert)
    ensures exists i :: 0 <= i < |pages| && Selected(lang, pages[i].name) && convert(pages[i]) == Some(w)
    decreases |pages|
  {
    var init := pages[..|pages| - 1];
    WrittenBySnoc(lang, pages, |pages| - 1, convert);
    assert pages[..|pages|] == pages;
    if w in WrittenBy(lang, init, convert) {
      WrittenBySound(lang, init, w, convert);
      var i :| 0 <= i < |init| && Selected(lang, init[i].name) && convert(init[i]) == Some(w);
      assert init[i] == pages[i];
    }
  }

  /** A file is written for a page of the listing exactly when the page is
      selected and converts; it sits beside the page under the output name. */
  lemma WritesExactly(dir: string, lang: Lang, pages: seq<Page>, w: FileWrite)
    ensures w in Writes(dir, lang, pages) <==>
      exists i :: 0 <= i < |pages| && Selected(lang, pages[i].name) && ConvertPage(dir, lang, pages[i]) == Some(w)
    ensures w in Writes(dir, lang, pages) ==>
      exists i :: 0 <= i < |pages| && Selected(lang, pages[i].name) && w.path == FilePath(dir, OutputName(pages[i].name))
  {
    var convert := PageConverter(dir, lang);
    if w in Writes(dir, lang, pages) {
      WrittenBySound(lang, pages, w, convert);
      var i :| 0 <= i < |pages| && Selected(lang, pages[i].name) && convert(pages[i]) == Some(w);
      assert ConvertPage(dir, lang, pages[i]) == Some(w);
    }
    if exists i :: 0 <= i < |pages| && Selected(lang, pages[i].name) && ConvertPage(dir, lang, pages[i]) == Some(w) {
      var i :| 0 <= i < |pages| && Selected(lang, pages[i].name) && ConvertPage(dir, lang, pages[i]) == Some(w);
      assert convert(pages[i]) == Some(w);
      WrittenByComplete(lang, pages, i, convert);
    }
  }

  /** Two page names longer than the suffix with the same output name are the
      same name. */
  lemma OutputNameInjective(a: string, b: string)
    requires EndsWith(a, HtmlSuffix) && EndsWith(b, HtmlSuffix)
    requires |a| > |HtmlSuffix| && |b| > |HtmlSuffix|
    requires OutputName(a) == OutputName(b)
    ensures a == b
  {
    OutputNameOfPage(a);
    OutputNameOfPage(b);
    var o := OutputName(a);
    var sa := a[..|a| - |HtmlSuffix|];
    var sb := b[..|b| - |HtmlSuffix|];
    assert sa == o[..|o| - |OutputSuffix|] == sb;
    assert a == sa + HtmlSuffix && b == sb + HtmlSuffix;
  }

  /** A page called just `.html` and a page called `.html.html` have the same
      output name, so the second conversion overwrites the first. */
  lemma OutputNamesCollide()
    ensures OutputName(".html") == OutputName(".html.html") == ".html-jekyll.html"
  {
    OutputNameOfPage(".html");
    OutputNameOfPage(".html.html");
  }

  /** No file is written under the output name of a `*.html` page name that
      is not selected. */
  lemma NotWrittenUnder(dir: string, lang: Lang, pages: seq<Page>, w: FileWrite, name: string)
    requires w in Writes(dir, lang, pages)
    requires EndsWith(name, HtmlSuffix) && !Selected(lang, name)
    requires |name| > |HtmlSuffix| && name[..|name| - |HtmlSuffix|] != HtmlSuffix
    ensures w.path != FilePath(dir, OutputName(name))
  {
    WritesExactly(dir, lang, pages, w);
    var i :| 0 <= i < |pages| && Selected(lang, pages[i].name) && w.path == FilePath(dir, OutputName(pages[i].name));
    var page := pages[i].name;
    if w.path == FilePath(dir, OutputName(name)) {
      OutputNameOfPage(name);
      OutputNameOfPage(page);
      if |page| > |HtmlSuffix| {
        OutputNameInjective(page, name);
      } else {
        assert false;
      }
    }
  }

  /** The English example page is never converted: no file of the English
      run is written under its output name. */
  lemma SkippedExampleNotConverted(dir: string, pages: seq<Page>, w: FileWrite)
    requires w in Writes(dir, En, pages)
    ensures w.path != FilePath(dir, OutputName(SkippedExample))
  {
    SkippedExampleShape(SkippedExample);
    NotWrittenUnder(dir, En, pages, w, SkippedExample);
  }

  /** The example page is an ordinary `.html` name with a stem of its own. */
  lemma SkippedExampleShape(name: string)
    requires name == SkippedExample
    ensures EndsWith(name, HtmlSuffix) && |name| > |HtmlSuffix| && name[..|name| - |HtmlSuffix|] != HtmlSuffix
  {
    assert name[|name| - |HtmlSuffix|..] == HtmlSuffix;
    assert name[..|name| - |HtmlSuffix|] == "index-jekyll" != HtmlSuffix;
  }

  /** The pages of one directory, converted one at a time in listing order. */
  method ConvertDirectory(dir: string, lang: Lang, pages: seq<Page>) returns (written: seq<FileWrite>)
    ensures written == Writes(dir, lang, pages)
  {
    written := [];
    for n := 0 to |pages|
      invariant written == Writes(dir, lang, pages[..n])
    {
      var page := pages[n];
      WrittenBySnoc(lang, pages, n, PageConverter(dir, lang));
      if EndsWith(page.name, HtmlSuffix) {
        if lang == En && page.name == SkippedExample {
          continue;
        }
        var out := ConvertFile(page.html, FilePath(dir, page.name), FilePath(dir, OutputName(page.name)), Code(lang));
        if out.Some? {
          written := written + [out.value];
        }
      }
    }
    assert pages[..|pages|] == pages;
  }

  /** `main`: the English directory, then the French one. */
  method ConvertAll(base: string, enPages: seq<Page>, frPages: seq<Page>) returns (written: seq<FileWrite>)
    ensures written == Writes(base + "/en", En, enPages) + Writes(base + "/fr", Fr, frPages)
  {
    var en := ConvertDirectory(base + "/en", En, enPages);
    var fr := ConvertDirectory(base + "/fr", Fr, frPages);
    written := en + fr;
  }
}
