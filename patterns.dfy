/**
 * The regular-expression searches of the converter, each stated as a search for
 * literal delimiters. `MatchAt` says whether a pattern matches at one start
 * index and which slice its capturing group (for the script pattern: the whole
 * match) covers; `Search` is `re.search` (leftmost start) and `FindAll` is
 * `re.findall` (successive non-overlapping matches, left to right).
 *
 * Why a delimiter search gives Python's answer: a lazy `.*?` (with DOTALL) that
 * is followed by a literal stops at the first occurrence of that literal; a
 * greedy `\s*` followed by `<` takes the whole run of whitespace, since no
 * whitespace character is `<`; `[^>]*>` ends at the first `>`; and without
 * DOTALL a lazy `.*?"` ends at the first quote, and fails at that start when a
 * newline comes before it.
 */
module Patterns {
  import opened Text

  const TitleOpen := "<title>"
  const TitleClose := "</title>"
  const DescriptionOpen := "<meta name=\"description\" content=\""
  const KeywordsOpen := "<meta name=\"keywords\" content=\""
  const SectionClose := "</section>"
  const MainComment := "<!-- Main -->"
  const FooterComment := "<!-- Footer -->"
  const MainContentOpen := "<main id=\"main-content\">"
  const MainTagStart := "<main"
  const MainClose := "</main>"
  const SectionMainOpen := "<section id=\"main\">"
  const UnhideMarker := "<!-- Publication unhide functionality -->"
  const ScriptClose := "</script>"

  /** The patterns the converter searches for. */
  datatype Pattern =
    | TitleElement      // the text of a title element
    | DescriptionMeta   // the content attribute of the description meta tag, on one line
    | KeywordsMeta      // the content attribute of the keywords meta tag, on one line
    | MainAfterHeader   // header section close, Main comment, then the main-content element
    | SectionToClosing  // Main comment, main section, up to a section close followed by the Footer comment
    | SectionToFooter   // Main comment, main section, up to the Footer comment
    | BareMain          // any element whose tag starts with "main", up to the main close tag
    | UnhideScript      // from the unhide-functionality comment to the next script close tag

  /** The slice `s[start..end]`. */
  datatype Span = Span(start: nat, end: nat)

  /** A match: where it starts and the slice its group covers. */
  datatype Hit = Hit(at: nat, group: Span)

  /** A section close tag at `q`, then optional whitespace, then the Footer comment. */
  predicate SectionBeforeFooterAt(s: string, q: nat) {
    StartsAt(s, q, SectionClose) && StartsAt(s, SkipSpace(s, q + |SectionClose|), FooterComment)
  }

  /** The first index at or after `from` where `SectionBeforeFooterAt` holds. */
  function FindSectionBeforeFooter(s: string, from: nat): (r: Option<nat>)
    ensures r.Some? ==>
      && from <= r.value
      && SectionBeforeFooterAt(s, r.value)
      && forall k :: from <= k < r.value ==> !SectionBeforeFooterAt(s, k)
    ensures r.None? ==> forall k :: from <= k ==> !SectionBeforeFooterAt(s, k)
    decreases |s| - from
  {
    if |s| < from + |SectionClose| then None
    else if SectionBeforeFooterAt(s, from) then Some(from)
    else FindSectionBeforeFooter(s, from + 1)
  }

  /** The lazy group of `open(.*?)close` for a match starting at `p`: `open`
      at `p`, then the shortest text up to `close`. There is no match exactly
      when `open` is not at `p` or `close` does not occur after it. */
  ghost predicate DelimitedRule(s: string, p: nat, open: string, close: string, r: Option<Span>) {
    && (r.Some? ==>
      && r.value.start == p + |open|
      && StartsAt(s, p, open)
      && r.value.start <= r.value.end
      && StartsAt(s, r.value.end, close)
      && forall k :: r.value.start <= k < r.value.end ==> !StartsAt(s, k, close))
    && (r.None? <==> !StartsAt(s, p, open) || !Occurs(s[p + |open|..], close))
  }

  /** `open` at `p`, then the shortest text up to `close`; the group is that text. */
  function Delimited(s: string, p: nat, open: string, close: string): (r: Option<Span>)
    requires |open| > 0
    ensures DelimitedRule(s, p, open, close, r)
  {
    if !StartsAt(s, p, open) then None
    else
      var rest := s[p + |open|..];
      match Find(s, p + |open|, close)
      case None =>
        assert !Occurs(rest, close) by {
          forall k: nat | k <= |rest| && StartsAt(rest, k, close)
            ensures false
          {
            assert s[p + |open| + k..p + |open| + k + |close|] == rest[k..k + |close|];
            assert StartsAt(s, p + |open| + k, close);
          }
        }
        None
      case Some(q) =>
        var k := q - (p + |open|);
        assert rest[k..k + |close|] == s[q..q + |close|];
        assert StartsAt(rest, k, close);
        Some(Span(p + |open|, q))
  }

  /** The group of `open(.*?)"` without DOTALL for a match starting at `p`:
      `open` at `p`, then the text up to the first quote, which holds no
      newline. There is no match exactly when `open` is not at `p` or every
      quote after it has a newline before it. */
  ghost predicate QuotedRule(s: string, p: nat, open: string, r: Option<Span>) {
    && (r.Some? ==>
      && StartsAt(s, p, open)
      && p + |open| == r.value.start <= r.value.end < |s|
      && s[r.value.end] == '"'
      && '"' !in s[r.value.start..r.value.end]
      && '\n' !in s[r.value.start..r.value.end])
    && (r.None? <==>
      || !StartsAt(s, p, open)
      || forall q :: p + |open| <= q < |s| && s[q] == '"' ==> '\n' in s[p + |open|..q])
  }

  /** `open` at `p`, then the text on the same line up to the next quote. */
  function QuotedOnLine(s: string, p: nat, open: string): (r: Option<Span>)
    requires |open| > 0
    ensures QuotedRule(s, p, open, r)
  {
    if !StartsAt(s, p, open) then None
    else
      var k := p + |open|;
      match Find(s, k, "\"")
      case None =>
        forall q | k <= q < |s| ensures s[q] != '"' {
          assert !StartsAt(s, q, "\"");
          assert s[q..q + 1] == [s[q]];
        }
        None
      case Some(q) =>
        if '\n' in s[k..q] then
          var j :| k <= j < q && s[j] == '\n';
          forall q' | k <= q' < |s| && s[q'] == '"' ensures '\n' in s[k..q'] {
            assert s[q'..q' + 1] == "\"";
            assert StartsAt(s, q', "\"");
            assert s[k..q'][j - k] == '\n';
          }
          None
        else
          assert '"' !in s[k..q] by {
            forall j | k <= j < q ensures s[j] != '"' {
              assert !StartsAt(s, j, "\"");
              assert s[j..j + 1] == [s[j]];
            }
          }
          assert s[q..q + 1] == "\"";
          Some(Span(k, q))
  }

  /** The matcher of each pattern: whether it matches with its match starting
      at the given index, and the slice its group covers. */
  function Compiled(pat: Pattern): (string, nat) -> Option<Span> {
    match pat
    case TitleElement => TitleAt
    case DescriptionMeta => DescriptionAt
    case KeywordsMeta => KeywordsAt
    case MainAfterHeader => MainAfterHeaderAt
    case SectionToClosing => SectionToClosingAt
    case SectionToFooter => SectionToFooterAt
    case BareMain => BareMainAt
    case UnhideScript => UnhideScriptAt
  }

  /** Whether `pat` matches with its match starting at `p`, and the slice its
      group covers (for the script pattern: the whole match). */
  function MatchAt(pat: Pattern, s: string, p: nat): (r: Option<Span>)
    ensures r.Some? ==> p <= r.value.start <= r.value.end <= |s| && p < r.value.end
  {
    Compiled(pat)(s, p)
  }

  /** The text of the title element. */
  function TitleAt(s: string, p: nat): (r: Option<Span>)
    ensures r.Some? ==> p < r.value.start <= r.value.end <= |s|
    ensures DelimitedRule(s, p, TitleOpen, TitleClose, r)
  {
    Delimited(s, p, TitleOpen, TitleClose)
  }

  /** The content attribute of the description meta tag. */
  function DescriptionAt(s: string, p: nat): (r: Option<Span>)
    ensures r.Some? ==> p < r.value.start <= r.value.end <= |s|
    ensures QuotedRule(s, p, DescriptionOpen, r)
  {
    QuotedOnLine(s, p, DescriptionOpen)
  }

  /** The content attribute of the keywords meta tag. */
  function KeywordsAt(s: string, p: nat): (r: Option<Span>)
    ensures r.Some? ==> p < r.value.start <= r.value.end <= |s|
    ensures QuotedRule(s, p, KeywordsOpen, r)
  {
    QuotedOnLine(s, p, KeywordsOpen)
  }

  /** A header section close at `p`, optional whitespace, the Main comment,
      then the first main-content element after it, up to the next main close. */
  function MainAfterHeaderAt(s: string, p: nat): (r: Option<Span>)
    ensures r.Some? ==> p < r.value.start <= r.value.end <= |s|
    ensures var c := SkipSpace(s, p + |SectionClose|);
      var m := Find(s, c + |MainComment|, MainContentOpen);
      if StartsAt(s, p, SectionClose) && StartsAt(s, c, MainComment) && m.Some?
      then DelimitedRule(s, m.value, MainContentOpen, MainClose, r)
      else r.None?
  {
    if !StartsAt(s, p, SectionClose) then None
    else
      var c := SkipSpace(s, p + |SectionClose|);
      if !StartsAt(s, c, MainComment) then None
      else
        var m := Find(s, c + |MainComment|, MainContentOpen);
        if m.None? then None else Delimited(s, m.value, MainContentOpen, MainClose)
  }

  /** The main section's body, up to the first section close that the Footer
      comment follows. */
  function SectionToClosingAt(s: string, p: nat): (r: Option<Span>)
    ensures r.Some? ==> p < r.value.start <= r.value.end <= |s|
    ensures MainSectionBody(s, p).None? ==> r.None?
    ensures r.Some? ==>
      && MainSectionBody(s, p) == Some(r.value.start)
      && SectionBeforeFooterAt(s, r.value.end)
      && forall k :: r.value.start <= k < r.value.end ==> !SectionBeforeFooterAt(s, k)
    ensures r.None? && MainSectionBody(s, p).Some? ==>
      forall k :: MainSectionBody(s, p).value <= k ==> !SectionBeforeFooterAt(s, k)
  {
    var k := MainSectionBody(s, p);
    if k.None? then None
    else
      var q := FindSectionBeforeFooter(s, k.value);
      if q.None? then None else Some(Span(k.value, q.value))
  }

  /** The main section's body, up to the first Footer comment. */
  function SectionToFooterAt(s: string, p: nat): (r: Option<Span>)
    ensures r.Some? ==> p < r.value.start <= r.value.end <= |s|
    ensures MainSectionBody(s, p).None? ==> r.None?
    ensures r.Some? ==>
      && MainSectionBody(s, p) == Some(r.value.start)
      && StartsAt(s, r.value.end, FooterComment)
      && forall k :: r.value.start <= k < r.value.end ==> !StartsAt(s, k, FooterComment)
    ensures r.None? && MainSectionBody(s, p).Some? ==>
      forall k :: MainSectionBody(s, p).value <= k ==> !StartsAt(s, k, FooterComment)
  {
    var k := MainSectionBody(s, p);
    if k.None? then None
    else
      var q := Find(s, k.value, FooterComment);
      if q.None? then None else Some(Span(k.value, q.value))
  }

  /** An element whose tag starts with `main`: its text from the end of the
      opening tag up to the first main close tag. */
  function BareMainAt(s: string, p: nat): (r: Option<Span>)
    ensures r.Some? ==> p < r.value.start <= r.value.end <= |s|
    ensures var g := Find(s, p + |MainTagStart|, ">");
      if StartsAt(s, p, MainTagStart) && g.Some?
      then DelimitedRule(s, g.value, ">", MainClose, r)
      else r.None?
  {
    if !StartsAt(s, p, MainTagStart) then None
    else
      var g := Find(s, p + |MainTagStart|, ">");
      if g.None? then None else Delimited(s, g.value, ">", MainClose)
  }

  /** The unhide comment at `p` through the first script close tag after it;
      the whole match is reported. */
  function UnhideScriptAt(s: string, p: nat): (r: Option<Span>)
    ensures r.Some? ==>
      && r.value.start == p
      && p + |UnhideMarker| + |ScriptClose| <= r.value.end <= |s|
      && StartsWith(s[p..r.value.end], UnhideMarker)
      && EndsWith(s[p..r.value.end], ScriptClose)
      && forall k :: p + |UnhideMarker| <= k < r.value.end - |ScriptClose| ==> !StartsAt(s, k, ScriptClose)
    ensures r.None? <==> !StartsAt(s, p, UnhideMarker) || !Occurs(s[p + |UnhideMarker|..], ScriptClose)
  {
    var g := Delimited(s, p, UnhideMarker, ScriptClose);
    if g.None? then None
    else
      var e := g.value.end + |ScriptClose|;
      SliceStartsWith(s, p, e, UnhideMarker);
      SliceEndsWith(s, p, e, ScriptClose);
      Some(Span(p, e))
  }

  /** The Main comment at `p`, optional whitespace, then the main section's
      opening tag: the index just after that tag. */
  function MainSectionBody(s: string, p: nat): (r: Option<nat>)
    ensures r.Some? ==> p + |MainComment| + |SectionMainOpen| <= r.value <= |s|
    ensures r.Some? <==>
      StartsAt(s, p, MainComment) && StartsAt(s, SkipSpace(s, p + |MainComment|), SectionMainOpen)
    ensures r.Some? ==> r.value == SkipSpace(s, p + |MainComment|) + |SectionMainOpen|
  {
    if !StartsAt(s, p, MainComment) then None
    else
      var a := SkipSpace(s, p + |MainComment|);
      if StartsAt(s, a, SectionMainOpen) then Some(a + |SectionMainOpen|) else None
  }

  /** `MatchAt` for one pattern and one text, as a function of the start. */
  function Matcher(pat: Pattern, s: string): nat -> Option<Span> {
    (p: nat) => MatchAt(pat, s, p)
  }

  /** The first start in `from..n` at which `m` matches, and its group. */
  function FirstMatch(m: nat -> Option<Span>, n: nat, from: nat): (r: Option<Hit>)
    ensures r.Some? ==>
      && from <= r.value.at <= n
      && m(r.value.at) == Some(r.value.group)
      && forall k :: from <= k < r.value.at ==> m(k).None?
    ensures r.None? ==> forall k :: from <= k <= n ==> m(k).None?
    decreases n + 1 - from
  {
    if n < from then None
    else
      match m(from)
      case Some(g) => Some(Hit(from, g))
      case None => FirstMatch(m, n, from + 1)
  }

  /** `re.search`: the match with the leftmost start at or after `from`. */
  function Search(pat: Pattern, s: string, from: nat): (r: Option<Hit>)
    ensures r.Some? ==>
      && from <= r.value.at <= |s|
      && MatchAt(pat, s, r.value.at) == Some(r.value.group)
      && r.value.at <= r.value.group.start <= r.value.group.end <= |s|
      && r.value.at < r.value.group.end
      && forall k :: from <= k < r.value.at ==> MatchAt(pat, s, k).None?
    ensures r.None? ==> forall k :: from <= k <= |s| ==> MatchAt(pat, s, k).None?
  {
    var m := Matcher(pat, s);
    var r := FirstMatch(m, |s|, from);
    assert forall k: nat :: m(k) == MatchAt(pat, s, k);
    r
  }

  /** The text of a match's group. */
  function GroupText(s: string, h: Hit): string
    requires h.group.start <= h.group.end <= |s|
  {
    s[h.group.start..h.group.end]
  }

  /** A matcher over a text of length `n` whose groups lie in the text, at or
      after their start, and end after it. */
  ghost predicate Bounded(m: nat -> Option<Span>, n: nat) {
    forall k: nat :: m(k).Some? ==> k <= m(k).value.start <= m(k).value.end <= n && k < m(k).value.end
  }

  /** The successive matches of `m`, each searched for from the end of the
      previous one's group (`AllMatchesSuccessive` states that none is skipped). */
  function AllMatches(m: nat -> Option<Span>, n: nat, from: nat): (r: seq<Span>)
    requires Bounded(m, n)
    ensures |r| == 0 <==> FirstMatch(m, n, from).None?
    ensures |r| > 0 ==> r[0] == FirstMatch(m, n, from).value.group
    ensures forall i :: 0 <= i < |r| ==> from <= r[i].start <= r[i].end <= n
    ensures forall i :: 0 <= i < |r| - 1 ==> r[i].end <= r[i + 1].start
    ensures forall i :: 0 <= i < |r| ==> exists at: nat :: from <= at && m(at) == Some(r[i])
    decreases n + 1 - from
  {
    match FirstMatch(m, n, from)
    case None => []
    case Some(h) =>
      var rest := AllMatches(m, n, h.group.end);
      var r := [h.group] + rest;
      assert m(h.at) == Some(r[0]);
      assert forall i :: 1 <= i < |r| ==> r[i] == rest[i - 1];
      r
  }

  /** No match is skipped in `r`: each group after the first is the group of
      the first match from the end of the one before it, and there is no match
      from the end of the last one. */
  ghost predicate Successive(m: nat -> Option<Span>, n: nat, r: seq<Span>) {
    && (forall i :: 0 <= i < |r| - 1 ==>
          FirstMatch(m, n, r[i].end).Some? && FirstMatch(m, n, r[i].end).value.group == r[i + 1])
    && (|r| > 0 ==> FirstMatch(m, n, r[|r| - 1].end).None?)
  }

  /** A group put in front of a successive sequence keeps it successive when
      that sequence is what is found from the end of the group. */
  lemma SuccessiveCons(m: nat -> Option<Span>, n: nat, g: Span, rest: seq<Span>)
    requires Successive(m, n, rest)
    requires |rest| == 0 ==> FirstMatch(m, n, g.end).None?
    requires |rest| > 0 ==> FirstMatch(m, n, g.end).Some? && FirstMatch(m, n, g.end).value.group == rest[0]
    ensures Successive(m, n, [g] + rest)
  {
    var r := [g] + rest;
    forall i | 0 <= i < |r| - 1
      ensures FirstMatch(m, n, r[i].end).Some? && FirstMatch(m, n, r[i].end).value.group == r[i + 1]
    {
      if i > 0 {
        assert r[i] == rest[i - 1] && r[i + 1] == rest[i];
      }
    }
    if |rest| > 0 {
      assert r[|r| - 1] == rest[|rest| - 1];
    }
  }

  /** `AllMatches` skips no match. */
  lemma {:induction false} AllMatchesSuccessive(m: nat -> Option<Span>, n: nat, from: nat)
    requires Bounded(m, n)
    ensures Successive(m, n, AllMatches(m, n, from))
    decreases n + 1 - from
  {
    match FirstMatch(m, n, from)
    case None =>
    case Some(h) =>
      AllMatchesSuccessive(m, n, h.group.end);
      var rest := AllMatches(m, n, h.group.end);
      SuccessiveCons(m, n, h.group, rest);
      assert AllMatches(m, n, from) == [h.group] + rest;
  }

  /** `re.findall` for a pattern whose whole match is reported: the successive
      matches, each searched for from the end of the previous one
      (`FindAllSuccessive` states that none is skipped). */
  function FindAll(pat: Pattern, s: string, from: nat): (r: seq<Span>)
    ensures |r| == 0 <==> Search(pat, s, from).None?
    ensures |r| > 0 ==> r[0] == Search(pat, s, from).value.group
    ensures forall i :: 0 <= i < |r| ==> from <= r[i].start <= r[i].end <= |s|
    ensures forall i :: 0 <= i < |r| - 1 ==> r[i].end <= r[i + 1].start
    ensures forall i :: 0 <= i < |r| ==> exists at: nat :: from <= at && MatchAt(pat, s, at) == Some(r[i])
  {
    MatcherBounded(pat, s);
    AllMatches(Matcher(pat, s), |s|, from)
  }

  /** Each match in `r` after the first is what `re.search` finds from the end
      of the one before it, and `re.search` finds nothing from the end of the
      last one. */
  ghost predicate SearchedInTurn(pat: Pattern, s: string, r: seq<Span>) {
    && (forall i :: 0 <= i < |r| - 1 ==>
          Search(pat, s, r[i].end).Some? && Search(pat, s, r[i].end).value.group == r[i + 1])
    && (|r| > 0 ==> Search(pat, s, r[|r| - 1].end).None?)
  }

  /** `re.findall` skips no match. */
  lemma FindAllSuccessive(pat: Pattern, s: string, from: nat)
    ensures SearchedInTurn(pat, s, FindAll(pat, s, from))
  {
    MatcherBounded(pat, s);
    AllMatchesSuccessive(Matcher(pat, s), |s|, from);
    assert FindAll(pat, s, from) == AllMatches(Matcher(pat, s), |s|, from);
    SearchedInTurnByMatcher(pat, s, FindAll(pat, s, from));
  }

  /** Successive matches of a pattern's matcher are searched for in turn. */
  lemma SearchedInTurnByMatcher(pat: Pattern, s: string, r: seq<Span>)
    requires Successive(Matcher(pat, s), |s|, r)
    ensures SearchedInTurn(pat, s, r)
  {
    SearchByMatcher(pat, s);
  }

  /** The groups a pattern reports lie in the text, at or after their start. */
  lemma MatcherBounded(pat: Pattern, s: string)
    ensures Bounded(Matcher(pat, s), |s|)
  {
    assert forall k: nat :: Matcher(pat, s)(k) == MatchAt(pat, s, k);
  }

  /** `Search` is the first match of the pattern's matcher. */
  lemma SearchByMatcher(pat: Pattern, s: string)
    ensures forall k: nat :: Search(pat, s, k) == FirstMatch(Matcher(pat, s), |s|, k)
  {
  }
}
