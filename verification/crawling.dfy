/**
 * The crawler's selection logic. The section page is given as the `href`
 * attributes of its `ul.sa_list li a` anchors in document order (`None` for
 * an anchor without one); an article page as its three raw extracted texts.
 * `BASE_URL` and `BASE_URL_DETAIL` are parameters.
 */
module Crawling {
  import opened Wrappers
  import opened Text
  import opened Gateway

  /** The most headlines `ScrapeHeadlines` collects. */
  const MaxHeadlines: nat := 5

  const CommentMarker := "/comment/"
  const NoHeadlines := "no headlines found"
  const IndexPanic := "runtime error: index out of range [0] with length 0"
  const ExtractError := "failed to extract title, content, or date"

  /** `isValidNewsLink(link)`: a non-empty link to an article page that is not a comment page. */
  predicate IsValidNewsLink(link: string, detail: string)
  {
    |link| > 0 && IsSubstring(detail, link) && !IsSubstring(CommentMarker, link)
  }

  /** `contains(s, substr)`, which despite its name tests for a non-empty suffix. */
  function Contains(s: string, sub: string): (r: bool)
    ensures r <==> sub != [] && exists i :: 0 <= i <= |s| && s[i..] == sub
  {
    var r := |s| >= |sub| && |sub| > 0 && (|s| - |sub| >= 0 && s[|s| - |sub|..] == sub);
    assert r <== (sub != [] && exists i :: 0 <= i <= |s| && s[i..] == sub);
    r
  }

  /** A suffix is a substring, so `contains` never holds where `strings.Contains` fails. */
  lemma {:induction false} SuffixIsSubstring(s: string, sub: string)
    requires HasSuffix(s, sub)
    ensures IsSubstring(sub, s)
    decreases |s|
  {
    if |s| > |sub| {
      assert s[1..][|s| - 1 - |sub|..] == s[|s| - |sub|..];
      SuffixIsSubstring(s[1..], sub);
    } else {
      assert s[..|sub|] == s[|s| - |sub|..];
    }
  }

  /** `contains` implies `strings.Contains`. */
  lemma ContainsImpliesSubstring(s: string, sub: string)
    requires Contains(s, sub)
    ensures IsSubstring(sub, s)
  {
    SuffixIsSubstring(s, sub);
  }

  /** The converse fails: a substring in the middle is not found by `contains`. */
  lemma ContainsIsNotSubstringSearch()
    ensures IsSubstring("b", "abc") && !Contains("abc", "b")
  {
    assert "abc"[1..][..1] == "b";
  }

  /** `link` after the relative-path step, guarded against an empty `href`. */
  function Normalize(href: string, base: string): string
  {
    if |href| > 0 && href[0] == '/' then base + href else href
  }

  /**
   * Normalizing keeps the `href` whole at the end of the link and adds at
   * most `base` in front, which it adds to every path from the root.
   */
  lemma NormalizeShape(href: string, base: string)
    ensures var link := Normalize(href, base);
            && HasSuffix(link, href)
            && (link == href || link == base + href)
            && (HasPrefix(href, "/") ==> HasPrefix(link, base) && |link| == |base| + |href|)
  {
    if |href| > 0 && href[0] == '/' {
      var link := base + href;
      assert link[|base|..] == href && link[..|base|] == base;
    } else {
      assert href[|href| - |href|..] == href;
      assert !HasPrefix(href, "/") by {
        if |href| > 0 {
          assert href[..1][0] == href[0];
        }
      }
    }
  }

  /** The valid links of the anchors, normalized, in document order, repeats kept. */
  function Candidates(anchors: seq<Option<string>>, base: string, detail: string): seq<string>
    decreases |anchors|
  {
    if anchors == [] then []
    else
      var n := |anchors| - 1;
      Candidates(anchors[..n], base, detail) + Candidate(anchors[n], base, detail)
  }

  /** What one anchor contributes: its normalized link if it has an `href` and the link is valid. */
  function Candidate(anchor: Option<string>, base: string, detail: string): seq<string>
  {
    match anchor
    case None => []
    case Some(href) =>
      var link := Normalize(href, base);
      if IsValidNewsLink(link, detail) then [link] else []
  }

  /** The first occurrence of every element, in order. */
  function Dedup(xs: seq<string>): seq<string>
    decreases |xs|
  {
    if xs == [] then []
    else
      var n := |xs| - 1;
      Dedup(xs[..n]) + (if xs[n] in xs[..n] then [] else [xs[n]])
  }

  /** At most the first `n` elements. */
  function Take(xs: seq<string>, n: nat): (r: seq<string>)
    ensures |r| == if |xs| < n then |xs| else n
    ensures r <= xs
  {
    if |xs| <= n then xs else xs[..n]
  }

  /** The headlines `ScrapeHeadlines` selects, or its error. */
  function Headlines(anchors: seq<Option<string>>, base: string, detail: string): Result<seq<string>, string>
  {
    var links := Take(Dedup(Candidates(anchors, base, detail)), MaxHeadlines);
    if links == [] then Err(NoHeadlines) else Ok(links)
  }

  /** Every candidate is a valid link. */
  lemma {:induction false} CandidatesValid(anchors: seq<Option<string>>, base: string, detail: string)
    ensures forall link :: link in Candidates(anchors, base, detail) ==> IsValidNewsLink(link, detail)
    decreases |anchors|
  {
    if anchors != [] {
      CandidatesValid(anchors[..|anchors| - 1], base, detail);
    }
  }

  /** A relative `href` is taken as a path under `base`, an absolute one as it is; anchors without one give nothing. */
  lemma CandidateOfAnchor(anchor: Option<string>, base: string, detail: string)
    ensures anchor.None? ==> Candidate(anchor, base, detail) == []
    ensures anchor.Some? && |anchor.value| > 0 && anchor.value[0] == '/' ==>
              (Candidate(anchor, base, detail) == [base + anchor.value] <==> IsValidNewsLink(base + anchor.value, detail))
    ensures anchor.Some? && !(|anchor.value| > 0 && anchor.value[0] == '/') ==>
              (Candidate(anchor, base, detail) == [anchor.value] <==> IsValidNewsLink(anchor.value, detail))
  {
  }

  /** Deduplication keeps exactly the elements it is given. */
  lemma {:induction false} DedupMembers(xs: seq<string>)
    ensures forall x :: x in Dedup(xs) <==> x in xs
    decreases |xs|
  {
    if xs != [] {
      var n := |xs| - 1;
      DedupMembers(xs[..n]);
      assert xs == xs[..n] + [xs[n]];
    }
  }

  /** Deduplication leaves no element twice. */
  lemma {:induction false} DedupDistinct(xs: seq<string>)
    ensures forall j, k :: 0 <= j < k < |Dedup(xs)| ==> Dedup(xs)[j] != Dedup(xs)[k]
    decreases |xs|
  {
    if xs != [] {
      var n := |xs| - 1;
      DedupDistinct(xs[..n]);
      DedupMembers(xs[..n]);
      var prev, d := Dedup(xs[..n]), Dedup(xs);
      assert d == prev + (if xs[n] in xs[..n] then [] else [xs[n]]);
      forall j, k | 0 <= j < k < |d|
        ensures d[j] != d[k]
      {
        assert d[j] == prev[j];
        if k < |prev| {
          assert d[k] == prev[k];
        } else {
          assert xs[n] !in xs[..n] && d[k] == xs[n];
          assert prev[j] in prev;
        }
      }
    }
  }

  /** Deduplicating a prefix gives a prefix of the deduplicated whole. */
  lemma {:induction false} DedupPrefix(xs: seq<string>, i: nat)
    requires i <= |xs|
    ensures Dedup(xs[..i]) <= Dedup(xs)
    decreases |xs|
  {
    if i < |xs| {
      var n := |xs| - 1;
      assert xs[..n][..i] == xs[..i];
      DedupPrefix(xs[..n], i);
    } else {
      assert xs[..i] == xs;
    }
  }

  /** The candidates of a prefix of the anchors are a prefix of all candidates. */
  lemma {:induction false} CandidatesPrefix(anchors: seq<Option<string>>, i: nat, base: string, detail: string)
    requires i <= |anchors|
    ensures Candidates(anchors[..i], base, detail) <= Candidates(anchors, base, detail)
    decreases |anchors|
  {
    if i < |anchors| {
      var n := |anchors| - 1;
      assert anchors[..n][..i] == anchors[..i];
      CandidatesPrefix(anchors[..n], i, base, detail);
    } else {
      assert anchors[..i] == anchors;
    }
  }

  /** Once a prefix of the anchors yields five headlines, the rest cannot change them. */
  lemma SelectionSettled(anchors: seq<Option<string>>, i: nat, base: string, detail: string)
    requires i <= |anchors|
    requires |Dedup(Candidates(anchors[..i], base, detail))| >= MaxHeadlines
    ensures Take(Dedup(Candidates(anchors[..i], base, detail)), MaxHeadlines)
            == Take(Dedup(Candidates(anchors, base, detail)), MaxHeadlines)
  {
    CandidatesPrefix(anchors, i, base, detail);
    var c := Candidates(anchors, base, detail);
    var ci := Candidates(anchors[..i], base, detail);
    assert c[..|ci|] == ci;
    DedupPrefix(c, |ci|);
  }

  /** One anchor's effect on the selection: its normalized link is added when valid and not yet selected. */
  function Admit(links: seq<string>, anchor: Option<string>, base: string, detail: string): seq<string>
  {
    match anchor
    case None => links
    case Some(href) =>
      var link := Normalize(href, base);
      if IsValidNewsLink(link, detail) && link !in links then links + [link] else links
  }

  /** One anchor more: the selection of the anchors so far, with the next anchor admitted. */
  lemma SelectionStep(anchors: seq<Option<string>>, i: nat, base: string, detail: string)
    requires i < |anchors|
    ensures Dedup(Candidates(anchors[..i + 1], base, detail))
            == Admit(Dedup(Candidates(anchors[..i], base, detail)), anchors[i], base, detail)
  {
    var a := anchors[..i + 1];
    assert a[..i] == anchors[..i];
    var ci := Candidates(anchors[..i], base, detail);
    DedupMembers(ci);
    var c := Candidate(anchors[i], base, detail);
    assert Candidates(a, base, detail) == ci + c;
    if c != [] {
      assert (ci + c)[..|ci|] == ci;
    } else {
      assert ci + c == ci;
    }
  }

  /**
   * `ScrapeHeadlines`, with the relative-path step guarded against an empty
   * `href`. `examined` counts the anchors the loop looked at: it stops at
   * the first anchor met once five headlines are held.
   */
  method ScrapeHeadlines(anchors: seq<Option<string>>, base: string, detail: string)
    returns (r: Result<seq<string>, string>, examined: nat)
    ensures r == Headlines(anchors, base, detail)
    ensures examined <= |anchors|
    ensures examined < |anchors| ==> |Dedup(Candidates(anchors[..examined], base, detail))| == MaxHeadlines
    ensures forall j :: 0 <= j < examined ==> |Dedup(Candidates(anchors[..j], base, detail))| < MaxHeadlines
  {
    var links: seq<string> := [];
    var seen: set<string> := {};
    var i := 0;
    while i < |anchors|
      invariant i <= |anchors|
      invariant links == Dedup(Candidates(anchors[..i], base, detail))
      invariant |links| <= MaxHeadlines
      invariant forall x :: x in seen <==> x in links
      invariant forall j :: 0 <= j < i ==> |Dedup(Candidates(anchors[..j], base, detail))| < MaxHeadlines
    {
      if |links| >= MaxHeadlines {
        break;
      }
      ShortPrefixesExtend(anchors, i, base, detail);
      SelectionStep(anchors, i, base, detail);
      if anchors[i].Some? {
        var link := Normalize(anchors[i].value, base);
        if IsValidNewsLink(link, detail) && link !in seen {
          links := links + [link];
          seen := seen + {link};
        }
      }
      i := i + 1;
    }
    examined := i;
    if i < |anchors| {
      SelectionSettled(anchors, i, base, detail);
    } else {
      assert anchors[..i] == anchors;
    }
    if |links| == 0 {
      r := Err(NoHeadlines);
    } else {
      r := Ok(links);
    }
  }

  /** While the selection of the first `i` anchors is short, so is that of every shorter prefix. */
  lemma ShortPrefixesExtend(anchors: seq<Option<string>>, i: nat, base: string, detail: string)
    requires i < |anchors|
    requires forall j :: 0 <= j < i ==> |Dedup(Candidates(anchors[..j], base, detail))| < MaxHeadlines
    requires |Dedup(Candidates(anchors[..i], base, detail))| < MaxHeadlines
    ensures forall j :: 0 <= j < i + 1 ==> |Dedup(Candidates(anchors[..j], base, detail))| < MaxHeadlines
  {
  }

  /** The selected headlines: at most five, no repeats, all valid, and the first such in document order. */
  lemma HeadlinesProperties(anchors: seq<Option<string>>, base: string, detail: string)
    ensures var h := Headlines(anchors, base, detail);
            var d := Dedup(Candidates(anchors, base, detail));
            && (h.Err? <==> Candidates(anchors, base, detail) == [])
            && (h.Err? ==> h.error == NoHeadlines)
            && (h.Ok? ==>
                  && |h.value| == (if |d| < MaxHeadlines then |d| else MaxHeadlines)
                  && 0 < |h.value| <= MaxHeadlines
                  && (forall j, k :: 0 <= j < k < |h.value| ==> h.value[j] != h.value[k])
                  && (forall link :: link in h.value ==> link in Candidates(anchors, base, detail))
                  && (forall link :: link in h.value ==> IsValidNewsLink(link, detail))
                  && h.value <= Dedup(Candidates(anchors, base, detail)))
  {
    var c := Candidates(anchors, base, detail);
    DedupMembers(c);
    DedupDistinct(c);
    CandidatesValid(anchors, base, detail);
    if c != [] {
      assert c[0] in Dedup(c);
    }
  }

  /**
   * The loop as written: `link[0]` is read before any length test, so an
   * empty `href` met before five headlines are held makes the scan panic.
   */
  function ScanAsWritten(anchors: seq<Option<string>>, base: string, detail: string, links: seq<string>): Result<seq<string>, string>
    decreases |anchors|
  {
    if anchors == [] || |links| >= MaxHeadlines then Ok(links)
    else
      match anchors[0]
      case None => ScanAsWritten(anchors[1..], base, detail, links)
      case Some(href) =>
        if |href| == 0 then Err(IndexPanic)
        else
          var link := if href[0] == '/' then base + href else href;
          var next := if IsValidNewsLink(link, detail) && link !in links then links + [link] else links;
          ScanAsWritten(anchors[1..], base, detail, next)
  }

  /** `ScrapeHeadlines` as written. */
  function HeadlinesAsWritten(anchors: seq<Option<string>>, base: string, detail: string): Result<seq<string>, string>
  {
    match ScanAsWritten(anchors, base, detail, [])
    case Err(e) => Err(e)
    case Ok(links) => if links == [] then Err(NoHeadlines) else Ok(links)
  }

  /** An anchor with an empty `href` ahead of a good link: the code as written panics, the guarded version returns the link. */
  lemma EmptyHrefPanics()
    ensures HeadlinesAsWritten([Some(""), Some("/n/1")], "h:", "/n/") == Err(IndexPanic)
    ensures Headlines([Some(""), Some("/n/1")], "h:", "/n/") == Ok(["h:/n/1"])
  {
    var anchors: seq<Option<string>> := [Some(""), Some("/n/1")];
    assert ScanAsWritten(anchors, "h:", "/n/", []) == Err(IndexPanic);
    SampleSelection();
  }

  /** The guarded selection of the example above skips the empty `href` and keeps the link. */
  lemma SampleSelection()
    ensures Headlines([Some(""), Some("/n/1")], "h:", "/n/") == Ok(["h:/n/1"])
  {
    var anchors: seq<Option<string>> := [Some(""), Some("/n/1")];
    assert anchors[..1] == [Some("")];
    assert anchors[..1][..0] == [];
    SampleLinkValid();
    assert Normalize("/n/1", "h:") == "h:/n/1";
    assert Candidate(anchors[1], "h:", "/n/") == ["h:/n/1"];
    assert Candidates(anchors, "h:", "/n/") == ["h:/n/1"];
    assert Dedup(["h:/n/1"]) == ["h:/n/1"] by {
      assert ["h:/n/1"][..0] == [];
    }
  }

  /** The link of the example above is an article link. */
  lemma SampleLinkValid()
    ensures IsValidNewsLink("h:/n/1", "/n/")
  {
    assert IsSubstring("/n/", "h:/n/1") by {
      assert "h:/n/1"[1..][1..][..3] == "/n/";
    }
    ShortHasNoComment("h:/n/1");
  }

  /** A string shorter than `/comment/` does not contain it. */
  lemma {:induction false} ShortHasNoComment(s: string)
    requires |s| < |CommentMarker|
    ensures !IsSubstring(CommentMarker, s)
  {
    if s != [] {
      ShortHasNoComment(s[1..]);
    }
  }

  /** Without empty `href`s, the code as written selects exactly the guarded selection. */
  lemma AsWrittenAgrees(anchors: seq<Option<string>>, base: string, detail: string)
    requires forall k :: 0 <= k < |anchors| ==> anchors[k] != Some("")
    ensures HeadlinesAsWritten(anchors, base, detail) == Headlines(anchors, base, detail)
  {
    ScanAgrees(anchors, 0, base, detail);
    assert anchors[0..] == anchors;
  }

  /** On an anchor other than `Some("")`, one step of the scan as written admits the anchor like the guarded selection. */
  lemma AsWrittenStep(anchors: seq<Option<string>>, links: seq<string>, base: string, detail: string)
    requires anchors != [] && anchors[0] != Some("") && |links| < MaxHeadlines
    ensures ScanAsWritten(anchors, base, detail, links)
            == ScanAsWritten(anchors[1..], base, detail, Admit(links, anchors[0], base, detail))
  {
  }

  /** From any point of the scan on, as-written and guarded selections agree on anchors without empty `href`s. */
  lemma {:induction false} ScanAgrees(anchors: seq<Option<string>>, i: nat, base: string, detail: string)
    requires i <= |anchors|
    requires forall k :: i <= k < |anchors| ==> anchors[k] != Some("")
    ensures var links := Take(Dedup(Candidates(anchors[..i], base, detail)), MaxHeadlines);
            ScanAsWritten(anchors[i..], base, detail, links) == Ok(Take(Dedup(Candidates(anchors, base, detail)), MaxHeadlines))
    decreases |anchors| - i
  {
    var prev := Dedup(Candidates(anchors[..i], base, detail));
    if |prev| >= MaxHeadlines {
      SelectionSettled(anchors, i, base, detail);
    } else if i == |anchors| {
      assert anchors[..i] == anchors;
    } else {
      var rest := anchors[i..];
      assert rest[1..] == anchors[i + 1..];
      assert rest[0] == anchors[i];
      AsWrittenStep(rest, prev, base, detail);
      SelectionStep(anchors, i, base, detail);
      ScanAgrees(anchors, i + 1, base, detail);
    }
  }

  /** The three texts extracted from an article page, before trimming. */
  datatype RawArticle = RawArticle(title: string, content: string, date: string)

  /** `ScrapeArticle`: the fetch error, or the extraction error, or the trimmed article. */
  function ScrapeArticle(page: Result<RawArticle, string>): (r: Result<NewsArticle, string>)
    ensures page.Err? ==> r == Err(page.error)
    ensures page.Ok? ==>
      (r.Ok? <==> page.value.title != [] && page.value.content != [] && page.value.date != [])
    ensures page.Ok? && r.Err? ==> r.error == ExtractError
    ensures r.Ok? ==> IsTrimmed(r.value.title, page.value.title)
    ensures r.Ok? ==> IsTrimmed(r.value.content, page.value.content)
    ensures r.Ok? ==> IsTrimmed(r.value.date, page.value.date)
  {
    match page
    case Err(e) => Err(e)
    case Ok(raw) =>
      if raw.title == "" || raw.content == "" || raw.date == "" then Err(ExtractError)
      else Ok(NewsArticle(TrimSpace(raw.title), TrimSpace(raw.content), TrimSpace(raw.date)))
  }

  /** The emptiness test comes before trimming: a field of white space only passes it and comes out empty. */
  lemma BlankFieldPasses(raw: RawArticle)
    requires raw.title != [] && raw.content != [] && raw.date != []
    requires forall k :: 0 <= k < |raw.content| ==> IsSpace(raw.content[k])
    ensures ScrapeArticle(Ok(raw)).Ok? && ScrapeArticle(Ok(raw)).value.content == []
  {
    TrimSpaceAllSpace(raw.content);
  }
}
