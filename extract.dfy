/**
 * What the converter takes out of an HTML page: the title, description and
 * keywords (with defaults), the main content (four layouts tried in a fixed
 * order) and the page-specific publication scripts.
 */
module Extract {
  import opened Text
  import opened Patterns

  /** The title used when a page has no title element. */
  const DefaultTitle := "Korol Group"

  datatype Metadata = Metadata(title: string, description: string, keywords: string)

  /** The stripped group of the first match of `pat`, or `default` when there is none. */
  function StrippedGroupOr(pat: Pattern, html: string, default: string): string
  {
    var m := Search(pat, html, 0);
    if m.Some? then Strip(GroupText(html, m.value)) else default
  }

  /** The page's title, description and keywords: each is the whitespace-stripped
      group of the first match, and a missing one falls back to a fixed default.
      Description and keywords never span a line and never hold a quote. */
  function ExtractMetadata(html: string): (r: Metadata)
    ensures Search(TitleElement, html, 0).None? ==> r.title == DefaultTitle
    ensures Search(DescriptionMeta, html, 0).None? ==> r.description == ""
    ensures Search(KeywordsMeta, html, 0).None? ==> r.keywords == ""
    ensures Search(TitleElement, html, 0).Some? ==>
      r.title == Strip(GroupText(html, Search(TitleElement, html, 0).value))
    ensures Search(DescriptionMeta, html, 0).Some? ==>
      r.description == Strip(GroupText(html, Search(DescriptionMeta, html, 0).value))
    ensures Search(KeywordsMeta, html, 0).Some? ==>
      r.keywords == Strip(GroupText(html, Search(KeywordsMeta, html, 0).value))
    ensures IsStripped(r.title) && IsStripped(r.description) && IsStripped(r.keywords)
    ensures '\n' !in r.description && '"' !in r.description
    ensures '\n' !in r.keywords && '"' !in r.keywords
  {
    OneLineAttribute(DescriptionMeta, html);
    OneLineAttribute(KeywordsMeta, html);
    Metadata(
      StrippedGroupOr(TitleElement, html, DefaultTitle),
      StrippedGroupOr(DescriptionMeta, html, ""),
      StrippedGroupOr(KeywordsMeta, html, ""))
  }

  /** A meta attribute value is taken from one line and stops at the first quote. */
  lemma OneLineAttribute(pat: Pattern, html: string)
    requires pat == DescriptionMeta || pat == KeywordsMeta
    ensures var v := StrippedGroupOr(pat, html, ""); '\n' !in v && '"' !in v
  {
    var m := Search(pat, html, 0);
    if m.Some? {
      var g := GroupText(html, m.value);
      assert '\n' !in g && '"' !in g by {
        if pat == DescriptionMeta {
          assert QuotedOnLine(html, m.value.at, DescriptionOpen) == Some(m.value.group);
        } else {
          assert QuotedOnLine(html, m.value.at, KeywordsOpen) == Some(m.value.group);
        }
      }
    }
  }

  /** The content layouts, in the order they are tried. */
  const ContentPatterns: seq<Pattern> := [MainAfterHeader, SectionToClosing, SectionToFooter, BareMain]

  /** The stripped group of the first pattern of `pats` that matches `html`:
      a pattern is used only when every one before it fails, and the result is
      `None` only when all of them fail. */
  function FirstMatching(pats: seq<Pattern>, html: string): (r: Option<string>)
    ensures r.Some? ==> IsStripped(r.value)
    ensures r.None? <==> forall i :: 0 <= i < |pats| ==> Search(pats[i], html, 0).None?
    decreases |pats|
  {
    if pats == [] then None
    else
      var m := Search(pats[0], html, 0);
      if m.Some? then Some(Strip(GroupText(html, m.value)))
      else
        var r := FirstMatching(pats[1..], html);
        assert forall i :: 1 <= i < |pats| ==> pats[i] == pats[1..][i - 1];
        r
  }

  /** Priority: when `pats[i]` matches and every pattern before it fails, the
      result is the stripped group of `pats[i]`. */
  lemma {:induction false} FirstMatchingPriority(pats: seq<Pattern>, html: string, i: nat)
    requires i < |pats|
    requires Search(pats[i], html, 0).Some?
    requires forall j :: 0 <= j < i ==> Search(pats[j], html, 0).None?
    ensures FirstMatching(pats, html) == Some(Strip(GroupText(html, Search(pats[i], html, 0).value)))
    decreases i
  {
    if i > 0 {
      assert Search(pats[0], html, 0).None?;
      var rest := pats[1..];
      assert rest[i - 1] == pats[i];
      forall j | 0 <= j < i - 1 ensures Search(rest[j], html, 0).None? {
        assert rest[j] == pats[j + 1];
      }
      FirstMatchingPriority(rest, html, i - 1);
    }
  }

  /** The main content: the first of the four layouts, in the order of
      `ContentPatterns`, that matches. */
  function ExtractContent(html: string): (r: Option<string>)
    ensures r.Some? ==> IsStripped(r.value)
    ensures r.None? <==> forall i :: 0 <= i < |ContentPatterns| ==> Search(ContentPatterns[i], html, 0).None?
  {
    FirstMatching(ContentPatterns, html)
  }

  /** The layouts are tried in the order main-after-header, section with its
      closing tag, section up to the footer, bare main element: a layout's
      content is used only when every earlier layout fails. */
  lemma ContentPriority(html: string, i: nat)
    requires i < |ContentPatterns|
    requires Search(ContentPatterns[i], html, 0).Some?
    requires forall j :: 0 <= j < i ==> Search(ContentPatterns[j], html, 0).None?
    ensures ExtractContent(html) == Some(Strip(GroupText(html, Search(ContentPatterns[i], html, 0).value)))
  {
    FirstMatchingPriority(ContentPatterns, html, i);
  }

  /** The texts of the given slices of `html`. */
  function Slices(html: string, spans: seq<Span>): (r: seq<string>)
    requires forall i :: 0 <= i < |spans| ==> spans[i].start <= spans[i].end <= |html|
    ensures |r| == |spans|
    ensures forall i :: 0 <= i < |spans| ==> r[i] == html[spans[i].start..spans[i].end]
  {
    seq(|spans|, i requires 0 <= i < |spans| => html[spans[i].start..spans[i].end])
  }

  /** Every publication-unhide script block, joined with newlines; `None` when
      the page has none. The blocks are all the matches of the script pattern,
      found in turn (`FindAllSuccessive`); the joined text starts with the
      unhide comment and ends with a script close tag. */
  function ExtractCustomScripts(html: string): (r: Option<string>)
    ensures r.None? <==> Search(UnhideScript, html, 0).None?
    ensures r.Some? ==> r.value == JoinWith(Slices(html, FindAll(UnhideScript, html, 0)), "\n")
    ensures r.Some? ==> StartsWith(r.value, UnhideMarker) && EndsWith(r.value, ScriptClose)
  {
    var spans := FindAll(UnhideScript, html, 0);
    if |spans| == 0 then None
    else
      JoinedScriptsShape(html, spans);
      Some(JoinWith(Slices(html, spans), "\n"))
  }

  /** The joined blocks start with the first block's unhide comment and end
      with the last block's script close tag. */
  lemma JoinedScriptsShape(html: string, spans: seq<Span>)
    requires spans == FindAll(UnhideScript, html, 0) && |spans| > 0
    ensures StartsWith(JoinWith(Slices(html, spans), "\n"), UnhideMarker)
    ensures EndsWith(JoinWith(Slices(html, spans), "\n"), ScriptClose)
  {
    ScriptBlockShape(html, spans, 0);
    ScriptBlockShape(html, spans, |spans| - 1);
    JoinedEnds(Slices(html, spans));
  }

  /** Blocks that open with the unhide comment and close with a script close
      tag still do so once joined with newlines. */
  lemma JoinedEnds(blocks: seq<string>)
    requires |blocks| > 0
    requires StartsWith(blocks[0], UnhideMarker) && EndsWith(blocks[|blocks| - 1], ScriptClose)
    ensures StartsWith(JoinWith(blocks, "\n"), UnhideMarker)
    ensures EndsWith(JoinWith(blocks, "\n"), ScriptClose)
  {
    var joined := JoinWith(blocks, "\n");
    JoinWithEnds(blocks, "\n");
    StartsWithTrans(joined, blocks[0], UnhideMarker);
    EndsWithTrans(joined, blocks[|blocks| - 1], ScriptClose);
  }

  /** A script match runs from the unhide comment to a script close tag. */
  lemma ScriptBlockShape(html: string, spans: seq<Span>, i: nat)
    requires spans == FindAll(UnhideScript, html, 0) && i < |spans|
    ensures spans[i].start <= spans[i].end <= |html|
    ensures StartsWith(html[spans[i].start..spans[i].end], UnhideMarker)
    ensures EndsWith(html[spans[i].start..spans[i].end], ScriptClose)
  {
    var sp := spans[i];
    var at: nat :| MatchAt(UnhideScript, html, at) == Some(sp);
    assert UnhideScriptAt(html, at) == Some(sp);
  }

  /** A script match stops at the first script close tag after the unhide
      comment: there is none earlier inside it. */
  lemma ScriptBlockFirstClose(html: string, spans: seq<Span>, i: nat)
    requires spans == FindAll(UnhideScript, html, 0) && i < |spans|
    ensures forall k :: spans[i].start + |UnhideMarker| <= k < spans[i].end - |ScriptClose| ==>
      !StartsAt(html, k, ScriptClose)
  {
    var sp := spans[i];
    var at: nat :| MatchAt(UnhideScript, html, at) == Some(sp);
    assert UnhideScriptAt(html, at) == Some(sp);
  }
}
