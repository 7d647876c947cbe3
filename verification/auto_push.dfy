/**
 * The auto-push orchestrator. For every category of its fixed section map
 * it asks the crawler for the section's articles; for every article it asks
 * the converter for Markdown, strips ANSI escape sequences from it and posts
 * it to the upload-to-s3 service with the header `{category}_{index}`; once
 * every category is done it triggers the publisher and answers 200.
 *
 * The crawler (`Scrape`) and the converter (`ConvertToMarkdown`) are remote
 * calls, given here as oracles. Categories and articles run concurrently in
 * the source; each task only appends its own uploads, so the model runs them
 * one after the other and claims nothing about the order across categories.
 */
module AutoPush {
  import opened Wrappers
  import opened Text
  import opened Gateway
  import Ansi
  import StoreUpload

  /** The category-to-section map the handler iterates. */
  const SectionUrls: map<string, string> := map[
    "politics" := "https://news.naver.com/section/100",
    "economy" := "https://news.naver.com/section/101",
    "society" := "https://news.naver.com/section/102",
    "it" := "https://news.naver.com/section/105",
    "world" := "https://news.naver.com/section/104"]

  /** `Scrape(url)`: the crawler's articles for a section, or `None` on any failure. */
  type Scraper = string -> Option<seq<NewsArticle>>

  /** `ConvertToMarkdown(article)`: the converter's Markdown bytes, or `None` on any failure. */
  type Converter = NewsArticle -> Option<Bytes>

  /** The POST to upload-to-s3: the `x-category-sniij` header value and the body. */
  datatype UploadRequest = UploadRequest(categoryHeader: string, body: Bytes)

  /** The header value `category + "_" + strconv.Itoa(i)`. */
  function UploadHeader(category: string, i: nat): string
  {
    category + "_" + NatToString(i)
  }

  /** The last `_` of a header value separates the category from the index. */
  lemma UploadHeaderSplit(category: string, i: nat)
    ensures var h := UploadHeader(category, i);
            && |category| < |h| && h[|category|] == '_'
            && (forall k :: |category| < k < |h| ==> h[k] != '_')
            && h[..|category|] == category
  {
    var h := UploadHeader(category, i);
    var d := NatToString(i);
    assert forall k :: |category| < k < |h| ==> h[k] == d[k - |category| - 1];
  }

  /** A header value names one category and one index. */
  lemma UploadHeaderInjective(c1: string, i1: nat, c2: string, i2: nat)
    requires UploadHeader(c1, i1) == UploadHeader(c2, i2)
    ensures c1 == c2 && i1 == i2
  {
    UploadHeaderSplit(c1, i1);
    UploadHeaderSplit(c2, i2);
    assert |c1| == |c2|;
    var h := UploadHeader(c1, i1);
    assert NatToString(i1) == h[|c1| + 1..] == NatToString(i2);
    NatToStringInjective(i1, i2);
  }

  /** On one day, two articles that differ in category or index land on different objects. */
  lemma StoredKeysDistinct(date: string, c1: string, i1: nat, c2: string, i2: nat)
    requires StoreUpload.ObjectKey(date, UploadHeader(c1, i1)) == StoreUpload.ObjectKey(date, UploadHeader(c2, i2))
    ensures c1 == c2 && i1 == i2
  {
    StoreUpload.ObjectKeyInjective(date, UploadHeader(c1, i1), UploadHeader(c2, i2));
    UploadHeaderInjective(c1, i1, c2, i2);
  }

  /** `UploadToS3(markdown, category, i)`: the request it sends. */
  function UploadToS3(markdown: Bytes, category: string, i: nat): UploadRequest
  {
    UploadRequest(UploadHeader(category, i), Ansi.CleanAnsi(markdown))
  }

  /** One article's task: convert, then upload; a failed conversion uploads nothing. */
  function ArticleStep(article: NewsArticle, category: string, i: nat, convert: Converter): Option<UploadRequest>
  {
    match convert(article)
    case None => None
    case Some(markdown) => Some(UploadToS3(markdown, category, i))
  }

  /** The uploads of a category's articles, in article order. */
  function ArticleUploads(articles: seq<NewsArticle>, category: string, convert: Converter): seq<UploadRequest>
    decreases |articles|
  {
    if articles == [] then []
    else
      var i := |articles| - 1;
      ArticleUploads(articles[..i], category, convert)
        + Sent(ArticleStep(articles[i], category, i, convert))
  }

  /** The upload an article's task sends, if any, as a sequence of zero or one. */
  function Sent(step: Option<UploadRequest>): seq<UploadRequest>
  {
    match step
    case None => []
    case Some(u) => [u]
  }

  /** `processArticles(url, category)`: nothing when scraping fails, else one upload per converted article. */
  function CategoryUploads(url: string, category: string, scrape: Scraper, convert: Converter): seq<UploadRequest>
  {
    match scrape(url)
    case None => []
    case Some(articles) => ArticleUploads(articles, category, convert)
  }

  /** An upload is sent exactly for each article whose conversion succeeded, with that article's index. */
  lemma ArticleUploadsMembers(articles: seq<NewsArticle>, category: string, convert: Converter, u: UploadRequest)
    ensures u in ArticleUploads(articles, category, convert)
            <==> exists i :: 0 <= i < |articles| && ArticleStep(articles[i], category, i, convert) == Some(u)
  {
    if u in ArticleUploads(articles, category, convert) {
      ArticleUploadsSound(articles, category, convert, u);
    }
    if exists i :: 0 <= i < |articles| && ArticleStep(articles[i], category, i, convert) == Some(u) {
      var i :| 0 <= i < |articles| && ArticleStep(articles[i], category, i, convert) == Some(u);
      ArticleUploadsComplete(articles, category, convert, i);
    }
  }

  /** Every upload comes from some article's successful conversion. */
  lemma {:induction false} ArticleUploadsSound(articles: seq<NewsArticle>, category: string, convert: Converter, u: UploadRequest)
    requires u in ArticleUploads(articles, category, convert)
    ensures exists i :: 0 <= i < |articles| && ArticleStep(articles[i], category, i, convert) == Some(u)
    decreases |articles|
  {
    var n := |articles| - 1;
    var prefix := articles[..n];
    var last := ArticleStep(articles[n], category, n, convert);
    assert ArticleUploads(articles, category, convert) == ArticleUploads(prefix, category, convert) + Sent(last);
    if u in ArticleUploads(prefix, category, convert) {
      ArticleUploadsSound(prefix, category, convert, u);
      var i :| 0 <= i < n && ArticleStep(prefix[i], category, i, convert) == Some(u);
      assert prefix[i] == articles[i];
    } else {
      assert last == Some(u);
    }
  }

  /** Every article whose conversion succeeds has its upload sent. */
  lemma {:induction false} ArticleUploadsComplete(articles: seq<NewsArticle>, category: string, convert: Converter, i: nat)
    requires i < |articles| && ArticleStep(articles[i], category, i, convert).Some?
    ensures ArticleStep(articles[i], category, i, convert).value in ArticleUploads(articles, category, convert)
    decreases |articles|
  {
    var n := |articles| - 1;
    var prefix := articles[..n];
    var u := ArticleStep(articles[i], category, i, convert).value;
    var prev := ArticleUploads(prefix, category, convert);
    var last := Sent(ArticleStep(articles[n], category, n, convert));
    assert ArticleUploads(articles, category, convert) == prev + last;
    if i < n {
      assert prefix[i] == articles[i];
      ArticleUploadsComplete(prefix, category, convert, i);
      assert u in prev;
    } else {
      assert last == [u];
    }
  }

  /** No two uploads of one category carry the same header, so no two overwrite each other. */
  lemma {:induction false} ArticleUploadsHeadersDistinct(articles: seq<NewsArticle>, category: string, convert: Converter)
    ensures var us := ArticleUploads(articles, category, convert);
            forall j, k :: 0 <= j < k < |us| ==> us[j].categoryHeader != us[k].categoryHeader
    decreases |articles|
  {
    if articles != [] {
      var n := |articles| - 1;
      var prev := ArticleUploads(articles[..n], category, convert);
      ArticleUploadsHeadersDistinct(articles[..n], category, convert);
      forall j | 0 <= j < |prev|
        ensures prev[j].categoryHeader != UploadHeader(category, n)
      {
        ArticleUploadsMembers(articles[..n], category, convert, prev[j]);
        var i :| 0 <= i < n && ArticleStep(articles[..n][i], category, i, convert) == Some(prev[j]);
        if prev[j].categoryHeader == UploadHeader(category, n) {
          UploadHeaderInjective(category, i, category, n);
        }
      }
    }
  }

  /** An article whose conversion fails has no upload under its header. */
  lemma FailedConversionNotUploaded(articles: seq<NewsArticle>, category: string, convert: Converter, i: nat)
    requires i < |articles| && convert(articles[i]).None?
    ensures forall u :: u in ArticleUploads(articles, category, convert) ==> u.categoryHeader != UploadHeader(category, i)
  {
    forall u | u in ArticleUploads(articles, category, convert)
      ensures u.categoryHeader != UploadHeader(category, i)
    {
      ArticleUploadsMembers(articles, category, convert, u);
      var j :| 0 <= j < |articles| && ArticleStep(articles[j], category, j, convert) == Some(u);
      if u.categoryHeader == UploadHeader(category, i) {
        UploadHeaderInjective(category, j, category, i);
      }
    }
  }

  /** The uploads of one article more. */
  lemma ArticleUploadsStep(articles: seq<NewsArticle>, category: string, convert: Converter, i: nat)
    requires i < |articles|
    ensures ArticleUploads(articles[..i + 1], category, convert)
            == ArticleUploads(articles[..i], category, convert) + Sent(ArticleStep(articles[i], category, i, convert))
  {
    assert articles[..i + 1][..i] == articles[..i];
  }

  /** `processArticles(url, category)`, with the per-article goroutines run in index order. */
  method ProcessArticles(url: string, category: string, scrape: Scraper, convert: Converter)
    returns (uploads: seq<UploadRequest>)
    ensures uploads == CategoryUploads(url, category, scrape, convert)
  {
    uploads := [];
    var scraped := scrape(url);
    if scraped.None? {
      return;
    }
    var articles := scraped.value;
    for i := 0 to |articles|
      invariant uploads == ArticleUploads(articles[..i], category, convert)
    {
      ArticleUploadsStep(articles, category, convert, i);
      var markdown := convert(articles[i]);
      if markdown.Some? {
        uploads := uploads + [UploadToS3(markdown.value, category, i)];
      }
    }
    assert articles[..|articles|] == articles;
  }

  /**
   * The fan-out over every category of `categories`, in some order. Every
   * category's uploads are sent and nothing else is.
   */
  method FanOut(categories: map<string, string>, scrape: Scraper, convert: Converter)
    returns (uploads: seq<UploadRequest>)
    ensures forall c, u :: c in categories && u in CategoryUploads(categories[c], c, scrape, convert) ==> u in uploads
    ensures forall u :: u in uploads ==>
              exists c :: c in categories && u in CategoryUploads(categories[c], c, scrape, convert)
  {
    uploads := [];
    var pending := categories.Keys;
    while pending != {}
      invariant pending <= categories.Keys
      invariant forall c, u :: c in categories && c !in pending && u in CategoryUploads(categories[c], c, scrape, convert)
                  ==> u in uploads
      invariant forall u :: u in uploads ==>
                  exists c :: c in categories && u in CategoryUploads(categories[c], c, scrape, convert)
      decreases pending
    {
      var category :| category in pending;
      var sent := ProcessArticles(categories[category], category, scrape, convert);
      uploads := uploads + sent;
      pending := pending - {category};
    }
  }

  /**
   * `Handler`: fan out over the fixed section map, then trigger the publisher
   * (whose answer is only logged), and answer 200 whatever failed inside.
   */
  method Handler(scrape: Scraper, convert: Converter) returns (response: Response, uploads: seq<UploadRequest>)
    ensures response.statusCode == StatusOK
    ensures forall c, u :: c in SectionUrls && u in CategoryUploads(SectionUrls[c], c, scrape, convert) ==> u in uploads
    ensures forall u :: u in uploads ==>
              exists c :: c in SectionUrls && u in CategoryUploads(SectionUrls[c], c, scrape, convert)
  {
    uploads := FanOut(SectionUrls, scrape, convert);
    response := Response(StatusOK, "", map[]);
  }
}
