/**
 * The convert-to-markdown service: it decodes one article, has the GPT
 * server clean its content (three prompts in a row) and its date (one
 * fixed prompt), and renders the result as Markdown.
 *
 * The GPT server is an oracle `gpt` from request to answer (`None` for any
 * failure of `FetchGPT`). The content and the date are cleaned by two
 * goroutines that write different fields of the article, so running one
 * after the other gives the same article.
 */
module Markdown {
  import opened Wrappers
  import opened Text
  import opened Gateway

  const TitleLabel := "# **제목: "
  const ContentLabel := "내용: "
  const DateLabel := "**날짜: "
  const Closing := "**"
  const Separator := "\n\n  "

  /** Characters the Markdown adds around the three fields. */
  const Overhead := |TitleLabel| + |Closing| + |Separator| + |ContentLabel| + |Separator| + |DateLabel| + |Closing|

  /** `ConvertToMarkdown(article)`, as text. */
  function ConvertToMarkdown(a: NewsArticle): (md: string)
    ensures |md| == Overhead + |a.title| + |a.content| + |a.date|
    ensures md != []
  {
    TitleLabel + a.title + Closing + Separator + ContentLabel + a.content + Separator + DateLabel + a.date + Closing
  }

  /** Where the content begins in the Markdown of `a`. */
  function ContentStart(a: NewsArticle): nat
  {
    |TitleLabel| + |a.title| + |Closing| + |Separator| + |ContentLabel|
  }

  /** The Markdown holds the title, then the content, then the date, each behind its label. */
  lemma MarkdownLayout(a: NewsArticle)
    ensures var md := ConvertToMarkdown(a);
            var c := ContentStart(a);
            && HasPrefix(md, TitleLabel)
            && md[|TitleLabel|..|TitleLabel| + |a.title|] == a.title
            && md[c - |ContentLabel| - |Separator| - |Closing|..c] == Closing + Separator + ContentLabel
            && md[c..c + |a.content|] == a.content
            && md[c + |a.content|..|md| - |Closing| - |a.date|] == Separator + DateLabel
            && md[|md| - |Closing| - |a.date|..|md| - |Closing|] == a.date
            && HasSuffix(md, Closing)
  {
    var md := ConvertToMarkdown(a);
    var c := ContentStart(a);
    var head := TitleLabel + a.title + Closing + Separator + ContentLabel;
    assert |head| == c;
    assert md == head + a.content + Separator + DateLabel + a.date + Closing;
    assert md[..|TitleLabel|] == TitleLabel;
  }

  /** Where the title ends: the first `*` after the title label. */
  lemma TitleEnd(a: NewsArticle)
    requires forall k :: 0 <= k < |a.title| ==> a.title[k] != '*'
    ensures var md := ConvertToMarkdown(a);
            && md[|TitleLabel| + |a.title|] == '*'
            && forall k :: |TitleLabel| <= k < |TitleLabel| + |a.title| ==> md[k] != '*'
  {
    MarkdownLayout(a);
    var md := ConvertToMarkdown(a);
    assert forall k :: |TitleLabel| <= k < |TitleLabel| + |a.title| ==> md[k] == a.title[k - |TitleLabel|];
  }

  /** Where the date begins: four characters past the last `*` before the closing `**`. */
  lemma DateStart(a: NewsArticle)
    requires forall k :: 0 <= k < |a.date| ==> a.date[k] != '*'
    ensures var md := ConvertToMarkdown(a);
            var e := |md| - |Closing|;
            && md[e - |a.date| - 5] == '*'
            && forall k :: e - |a.date| - 4 <= k < e ==> md[k] != '*'
  {
    MarkdownLayout(a);
    var md := ConvertToMarkdown(a);
    var e := |md| - |Closing|;
    var tag := Separator + DateLabel;
    assert md[e - |a.date| - |tag|..e - |a.date|] == tag;
    assert forall k :: e - |a.date| - 4 <= k < e - |a.date| ==> md[k] == tag[k - (e - |a.date| - |tag|)];
    assert forall k :: e - |a.date| <= k < e ==> md[k] == a.date[k - (e - |a.date|)];
  }

  /**
   * When neither title nor date contains `*`, the Markdown determines the
   * article: the three fields can be read back from it.
   */
  lemma MarkdownInjective(a: NewsArticle, b: NewsArticle)
    requires forall k :: 0 <= k < |a.title| ==> a.title[k] != '*'
    requires forall k :: 0 <= k < |b.title| ==> b.title[k] != '*'
    requires forall k :: 0 <= k < |a.date| ==> a.date[k] != '*'
    requires forall k :: 0 <= k < |b.date| ==> b.date[k] != '*'
    requires ConvertToMarkdown(a) == ConvertToMarkdown(b)
    ensures a == b
  {
    TitleEnd(a);
    TitleEnd(b);
    assert |a.title| == |b.title|;
    DateStart(a);
    DateStart(b);
    assert |a.date| == |b.date|;
    MarkdownLayout(a);
    MarkdownLayout(b);
  }

  /** The body `FetchGPT` posts to the GPT server. */
  datatype GptRequest = GptRequest(content: string, prompt: string)

  /** The GPT server as seen by `FetchGPT`: the cleaned text, or `None` on any error. */
  type Gpt = GptRequest -> Option<string>

  /** `PROMPT_CONTENT_1`, `PROMPT_CONTENT_2` and `PROMPT_CONTENT_3`, read from the environment. */
  datatype ContentPrompts = ContentPrompts(first: string, second: string, third: string)

  /** The fixed prompt for the date. */
  const DatePrompt := "다음 텍스트에서 날짜가 여러개 있으면 앞에 것만 선택해서 한 날짜만 남게 해주고, 'yyyy년 mm월 dd일 hh시 mm분' 포맷으로 수정해주세요. 예를 들어 '2025년 01월 04일 오후 3시 25분2025년 01월 04일 오후 4시 08분' 이런식으로 있다면 '2025년 01월 04일 오후 3시 25분'만 남게 해주세요."

  /** The three content requests, all of them on the content as received. */
  function ContentRequests(content: string, prompts: ContentPrompts): seq<GptRequest>
  {
    [GptRequest(content, prompts.first), GptRequest(content, prompts.second), GptRequest(content, prompts.third)]
  }

  /** The content goroutine's outcome: the third stage's answer, if no stage fails. */
  function CleanedContent(content: string, prompts: ContentPrompts, gpt: Gpt): Option<string>
  {
    match gpt(GptRequest(content, prompts.first))
    case None => None
    case Some(_) =>
      match gpt(GptRequest(content, prompts.second))
      case None => None
      case Some(_) => gpt(GptRequest(content, prompts.third))
  }

  /** The content stages succeed together or not at all, and only the last answer is kept. */
  lemma CleanedContentOutcome(content: string, prompts: ContentPrompts, gpt: Gpt)
    ensures var reqs := ContentRequests(content, prompts);
            && (CleanedContent(content, prompts, gpt).Some? <==> forall k :: 0 <= k < 3 ==> gpt(reqs[k]).Some?)
            && (CleanedContent(content, prompts, gpt).Some? ==> CleanedContent(content, prompts, gpt) == gpt(reqs[2]))
  {
    var reqs := ContentRequests(content, prompts);
    assert reqs[0] == GptRequest(content, prompts.first);
    assert reqs[1] == GptRequest(content, prompts.second);
    assert reqs[2] == GptRequest(content, prompts.third);
  }

  /** The answers of the first two stages are discarded: only whether they succeed matters. */
  lemma FirstAnswersDiscarded(content: string, prompts: ContentPrompts, gpt: Gpt, other: Gpt)
    requires var reqs := ContentRequests(content, prompts);
             && (forall k :: 0 <= k < 2 ==> gpt(reqs[k]).Some? == other(reqs[k]).Some?)
             && gpt(reqs[2]) == other(reqs[2])
    ensures CleanedContent(content, prompts, gpt) == CleanedContent(content, prompts, other)
  {
    var reqs := ContentRequests(content, prompts);
    assert reqs[0] == GptRequest(content, prompts.first);
    assert reqs[1] == GptRequest(content, prompts.second);
    assert reqs[2] == GptRequest(content, prompts.third);
  }

  /**
   * The content goroutine. `calls` lists the requests it sends: the stages in
   * order, each on the original content, up to the first one that fails.
   */
  method CleanContent(content: string, prompts: ContentPrompts, gpt: Gpt) returns (result: string, calls: seq<GptRequest>)
    ensures 1 <= |calls| <= 3 && calls == ContentRequests(content, prompts)[..|calls|]
    ensures forall k :: 0 <= k < |calls| - 1 ==> gpt(calls[k]).Some?
    ensures |calls| < 3 ==> gpt(calls[|calls| - 1]).None?
    ensures result == match CleanedContent(content, prompts, gpt) case Some(c) => c case None => content
  {
    var reqs := ContentRequests(content, prompts);
    result := content;
    calls := [reqs[0]];
    var cleaned := gpt(reqs[0]);
    if cleaned.None? {
      return;
    }
    calls := calls + [reqs[1]];
    cleaned := gpt(reqs[1]);
    if cleaned.None? {
      return;
    }
    calls := calls + [reqs[2]];
    cleaned := gpt(reqs[2]);
    if cleaned.None? {
      return;
    }
    result := cleaned.value;
  }

  /** The date goroutine: one request with the fixed prompt; the date is replaced only on success. */
  method CleanDate(date: string, gpt: Gpt) returns (result: string, call: GptRequest)
    ensures call == GptRequest(date, DatePrompt)
    ensures gpt(call).Some? ==> result == gpt(call).value
    ensures gpt(call).None? ==> result == date
  {
    call := GptRequest(date, DatePrompt);
    var cleaned := gpt(call);
    if cleaned.None? {
      result := date;
      return;
    }
    result := cleaned.value;
  }

  /** The article after both goroutines, as a function of the GPT server's answers. */
  function Cleaned(a: NewsArticle, prompts: ContentPrompts, gpt: Gpt): NewsArticle
  {
    NewsArticle(
      a.title,
      match CleanedContent(a.content, prompts, gpt) case Some(c) => c case None => a.content,
      match gpt(GptRequest(a.date, DatePrompt)) case Some(d) => d case None => a.date)
  }

  /** The title is never touched; content and date change only through successful answers. */
  lemma CleanedFields(a: NewsArticle, prompts: ContentPrompts, gpt: Gpt)
    ensures Cleaned(a, prompts, gpt).title == a.title
    ensures CleanedContent(a.content, prompts, gpt).None? ==> Cleaned(a, prompts, gpt).content == a.content
    ensures gpt(GptRequest(a.date, DatePrompt)).None? ==> Cleaned(a, prompts, gpt).date == a.date
    ensures (forall r :: gpt(r).None?) ==> Cleaned(a, prompts, gpt) == a
  {
  }

  const TextPlain: map<string, string> := map["Content-Type" := "text/plain"]

  /**
   * `Handler`. `parsed` is the article `json.Unmarshal` reads from the body,
   * or `None` when the body is not valid JSON for it; `calls` lists the
   * requests sent to the GPT server.
   */
  method Handler(parsed: Option<NewsArticle>, prompts: ContentPrompts, gpt: Gpt)
    returns (response: Response, calls: seq<GptRequest>)
    ensures parsed.None? ==> response == Reply(StatusBadRequest, "{\"error\": \"Invalid JSON input\"}") && calls == []
    ensures parsed.Some? ==>
              response == Response(StatusOK, ConvertToMarkdown(Cleaned(parsed.value, prompts, gpt)), TextPlain)
    ensures parsed.Some? ==> GptRequest(parsed.value.date, DatePrompt) in calls
    ensures parsed.Some? ==>
              forall r :: r in calls ==> r == GptRequest(parsed.value.date, DatePrompt) || r in ContentRequests(parsed.value.content, prompts)
  {
    if parsed.None? {
      response := Reply(StatusBadRequest, "{\"error\": \"Invalid JSON input\"}");
      calls := [];
      return;
    }
    var article := parsed.value;
    var content, contentCalls := CleanContent(article.content, prompts, gpt);
    article := article.(content := content);
    var date, dateCall := CleanDate(article.date, gpt);
    article := article.(date := date);
    calls := contentCalls + [dateCall];
    var markdown := ConvertToMarkdown(article);
    if |markdown| == 0 {
      assert false;
    }
    response := Response(StatusOK, markdown, TextPlain);
  }
}
