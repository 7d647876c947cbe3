# Daily news pipeline — a Dafny model

This project models the logic of a small news pipeline. It is built from five Lambda services:

- **crawling** picks the top headline links of a news section page and extracts each article's title, content and date.
- **convert-to-markdown** asks a GPT service to clean an article's content and date, then renders the article as Markdown.
- **auto-push** fans out over five news categories. For every article it converts it, strips ANSI escape sequences and posts it to upload-to-s3 under the header `{category}_{index}`.
- **upload-to-s3** decodes the body (base64 when the gateway says so), refuses empty bodies and stores the bytes at `news/{date}/{date}_{category}.md`.
- **upload-to-github** lists the day's objects, downloads them, re-roots `news/{date}/{name}` to `{date}/{name}` and publishes every file in a single commit. It reads the branch head, reads its tree, creates a tree, creates a commit, and moves the branch without forcing.

Every remote service is a parameter of the model:

| service | modelled as |
|---|---|
| HTTP fetches, the crawler and converter calls | functions to `Option` |
| the GPT server | a function from request to optional answer |
| the object-store listing | a sequence of page outcomes |
| downloads | a map from key to bytes; an absent key is a failed download |
| S3 put errors | an `Option<string>` |
| Git host failures | a map from each failing call to the host's error text |
| another writer pushing to the branch | an optional commit message |

The Git repository itself is a `GitHost` object whose methods change its branch head, commits and trees. A push by another writer is one more method of it.

Modules:

| module | contents |
|---|---|
| `Wrappers` | `Option`, `Result` |
| `Gateway` | `NewsArticle` and the gateway response |
| `Text` | prefixes, substrings, `strconv.Itoa`, `strings.TrimSpace` |
| `Base64` | the standard padded alphabet of section 4 of RFC 4648, as Go's `StdEncoding.DecodeString` reads it |
| `StoreUpload` | upload-to-s3 |
| `Ansi` | `cleanANSI` |
| `AutoPush` | auto-push |
| `Crawling` | crawling |
| `Markdown` | convert-to-markdown |
| `Publisher` | upload-to-github |

## Model

| member | source | states |
|---|---|---|
| Text.TrimPrefix | upload-to-github/main.go:236 | the prefix and the result put back together give the input when the prefix is present; otherwise the input is returned |
| Text.NatToString | auto-push/main.go:234 | `strconv.Itoa` of a non-negative index: decimal digits whose value is the index, with no leading zero, a single digit exactly below 10 |
| Text.NatToStringOfDecimal | auto-push/main.go:234 | every digit string without a leading zero is the spelling of its own value, so spelling and value are inverse |
| Text.NatToStringInjective | auto-push/main.go:234 | different indices have different decimal spellings |
| Text.TrimLeftSpace | crawling/main.go:138-140 | the result is a suffix of the input, only white space was removed, and it does not start with white space |
| Text.TrimRightSpace | crawling/main.go:138-140 | the result is a prefix of the input, only white space was removed, and it does not end with white space |
| Text.TrimSpace | crawling/main.go:138-140 | the result is a trim of the input: a contiguous slice with only white space around it in the input, itself neither starting nor ending with white space |
| Text.TrimmedIsTrimSpace | crawling/main.go:138-140 | there is only one such trim: any string that is a trim of the input in that sense is the result of `strings.TrimSpace` |
| Text.TrimSpaceAllSpace | crawling/main.go:133-140 | a string of white space only trims to the empty string |
| Base64.DecodeChar | upload-to-s3/main.go:59 | an alphabet byte decodes to a 6-bit value; padding and line breaks are not alphabet bytes |
| Base64.EncodeChar | upload-to-s3/main.go:59 | every 6-bit value has an alphabet byte that decodes back to it |
| Base64.StripNewlines | upload-to-s3/main.go:59 | the decoder's input with CR and LF skipped: no longer than the input and free of line breaks |
| Base64.StripNewlinesAppend | upload-to-s3/main.go:59 | line breaks are removed piecewise: stripping a concatenation is the concatenation of the stripped parts |
| Base64.StripNewlinesByte | upload-to-s3/main.go:59 | a single byte is dropped exactly when it is CR or LF, and kept as it is otherwise |
| Base64.StripNewlinesMembers | upload-to-s3/main.go:59 | every byte of the input other than CR and LF is kept, and no other byte appears |
| Base64.DecodeSkipsLineBreak | upload-to-s3/main.go:59 | a CR or LF anywhere in the input does not change what it decodes to |
| Base64.EncodeQuantum | upload-to-s3/main.go:59 | one to three bytes become four characters without line breaks |
| Base64.Encode | upload-to-s3/main.go:58-59 | what a client sends when it marks the body as base64: no line breaks |
| Base64.StripNewlinesNoOp | upload-to-s3/main.go:59 | input without line breaks is read unchanged |
| Base64.TripleRoundTrip | upload-to-s3/main.go:59 | the three bytes of a quantum are recovered from its four 6-bit values |
| Base64.FullQuantum | upload-to-s3/main.go:59 | a full quantum decodes to its three bytes ahead of the decoding of what follows |
| Base64.PaddedQuantum | upload-to-s3/main.go:59 | a padded last quantum decodes to its one or two bytes |
| Base64.DecodeEncode | upload-to-s3/main.go:58-59 | decoding undoes encoding for every byte string |
| Base64.DecodedLength | upload-to-s3/main.go:59 | once line breaks are removed, input that decodes is a whole number of quanta, each giving one to three bytes |
| StoreUpload.ObjectKey | upload-to-s3/main.go:90 | the key starts with `news/{date}/` and ends with `.md` |
| StoreUpload.ObjectKeyInjective | upload-to-s3/main.go:90 | on one date, distinct category values give distinct keys |
| StoreUpload.LambdaHandler | upload-to-s3/main.go:47-107 | a missing header aborts; otherwise a put is attempted exactly when the decoded body is non-empty, with the derived key and the decoded bytes; no put means 400; after a put, 200 with a reply naming the key exactly when the store succeeds, and otherwise 500 with the store's error text |
| StoreUpload.PlainBodyStoredVerbatim | upload-to-s3/main.go:67-106 | a body not marked as base64 is stored byte for byte and the reply names the key |
| StoreUpload.Base64BodyRoundTrip | upload-to-s3/main.go:58-93 | non-empty bytes sent base64-encoded are the bytes stored |
| StoreUpload.CorruptBase64Refused | upload-to-s3/main.go:58-66 | a body that does not decode gets 400 "Invalid Base64 encoded request body" and nothing is stored |
| StoreUpload.EmptyBodyRefused | upload-to-s3/main.go:71-77 | an empty body, before or after decoding, gets 400 "Request body is empty" and nothing is stored |
| Ansi.ParamRun | auto-push/main.go:212 | the length of the longest leading run of `[0-9;]` |
| Ansi.MatchLength | auto-push/main.go:212 | the length of the escape sequence that starts the input, or 0 |
| Ansi.CleanAnsi | auto-push/main.go:210-214 | the output is never longer than the input |
| Ansi.MatchLengthSound | auto-push/main.go:212 | every skipped span is a word of `\x1B\[[0-9;]*[a-zA-Z]` |
| Ansi.MatchLengthComplete | auto-push/main.go:212 | a word of the pattern at the front is exactly the span skipped, so the match at a position is unique |
| Ansi.DropsLeadingSequence | auto-push/main.go:213 | an escape sequence at the front is removed and nothing else changes |
| Ansi.KeepsUnmatchedByte | auto-push/main.go:213 | a byte that starts no escape sequence is kept |
| Ansi.NoEscPrefixKept | auto-push/main.go:212-213 | a prefix without ESC passes through unchanged |
| Ansi.NoEscUnchanged | auto-push/main.go:212-213 | input without ESC is returned unchanged |
| Ansi.UnterminatedKept | auto-push/main.go:212 | ESC `[` and a parameter run that no letter closes are kept verbatim |
| Ansi.UnterminatedNoMatch | auto-push/main.go:212 | no escape sequence starts at such an unterminated run |
| Ansi.CleanAnsiSubsequence | auto-push/main.go:212-213 | the output is a subsequence of the input: bytes are only removed, in order |
| AutoPush.UploadHeaderSplit | auto-push/main.go:234 | the header is the category, then `_`, then no further `_`, so its last `_` separates category and index |
| AutoPush.UploadHeaderInjective | auto-push/main.go:234-235 | a header value names one category and one index |
| AutoPush.StoredKeysDistinct | auto-push/main.go:234-235 | on one day, articles differing in category or index are stored under different object keys |
| AutoPush.ArticleUploadsMembers | auto-push/main.go:109-123 | an upload is sent exactly for each article whose conversion succeeded, under that article's index |
| AutoPush.ArticleUploadsSound | auto-push/main.go:109-123 | every upload comes from a successful conversion |
| AutoPush.ArticleUploadsComplete | auto-push/main.go:109-123 | every successful conversion is uploaded |
| AutoPush.ArticleUploadsHeadersDistinct | auto-push/main.go:109-123 | no two uploads of a category share a header |
| AutoPush.FailedConversionNotUploaded | auto-push/main.go:114-118 | a failed conversion sends nothing under its header |
| AutoPush.ProcessArticles | auto-push/main.go:99-127 | the uploads are those of the category's articles: none when scraping fails |
| AutoPush.FanOut | auto-push/main.go:63-71 | every category's uploads are sent, and nothing else is |
| AutoPush.Handler | auto-push/main.go:52-77 | status 200 whatever fails inside, after the uploads of all five sections |
| Crawling.Contains | crawling/main.go:110-112 | holds exactly when the second argument is a non-empty suffix of the first |
| Crawling.ContainsImpliesSubstring | crawling/main.go:110-112 | `contains` implies substring containment |
| Crawling.ContainsIsNotSubstringSearch | crawling/main.go:110-112 | the converse fails: `b` is in `abc` but not a suffix of it |
| Crawling.NormalizeShape | crawling/main.go:85-87 | the link ends with the whole `href` and is either the `href` itself or the base URL followed by it; an `href` starting with `/` always gets the base URL in front |
| Crawling.Take | crawling/main.go:78-80 | exactly the first `n` elements of the input, or all of it when it has fewer |
| Crawling.CandidatesValid | crawling/main.go:106-108 | every candidate link is non-empty, contains the detail URL and not `/comment/` |
| Crawling.CandidateOfAnchor | crawling/main.go:82-90 | anchors without `href` give nothing; a relative `href` is prefixed and an absolute one kept, then validated |
| Crawling.DedupMembers | crawling/main.go:90-93 | deduplication keeps exactly the elements given |
| Crawling.DedupDistinct | crawling/main.go:75-93 | deduplication leaves no element twice |
| Crawling.DedupPrefix | crawling/main.go:90-93 | deduplicating a prefix gives a prefix of the deduplicated whole |
| Crawling.CandidatesPrefix | crawling/main.go:77-96 | the candidates of the first anchors are a prefix of all candidates |
| Crawling.SelectionSettled | crawling/main.go:78-80 | once five headlines are held, later anchors cannot change the selection |
| Crawling.SelectionStep | crawling/main.go:82-93 | one anchor more adds its link when it is valid and not yet seen |
| Crawling.ScrapeHeadlines | crawling/main.go:73-105 | the loop returns the selection; it stops examining anchors at the first one met with five links held, and every shorter run of anchors it passed gave fewer than five |
| Crawling.HeadlinesProperties | crawling/main.go:77-100 | error "no headlines found" exactly when no anchor gives a valid link; otherwise as many distinct valid links as there are, up to five, the first ones in document order |
| Crawling.EmptyHrefPanics | crawling/main.go:85 | an empty `href` ahead of a good link: as written the scan panics, guarded it returns the link |
| Crawling.AsWrittenAgrees | crawling/main.go:77-105 | without empty `href`s, the code as written returns exactly the guarded selection |
| Crawling.ScanAgrees | crawling/main.go:77-96 | from any point of the scan on, the as-written loop and the guarded selection agree |
| Crawling.ScrapeArticle | crawling/main.go:115-142 | a fetch error passes through; the article is returned exactly when no raw field is empty, otherwise the extraction error; each returned field is the trim of its raw text, which starts and ends with a non-space |
| Crawling.BlankFieldPasses | crawling/main.go:133-140 | the emptiness test precedes trimming, so a white-space-only content passes and comes out empty |
| Markdown.ConvertToMarkdown | convert-to-markdown/main.go:77-84 | the length is the fields' lengths plus the fixed labels, so it is never empty |
| Markdown.MarkdownLayout | convert-to-markdown/main.go:78-83 | title, content and date appear in that order behind their labels, separated by `\n\n  ` |
| Markdown.TitleEnd | convert-to-markdown/main.go:78 | with no `*` in the title, the title ends at the first `*` after its label |
| Markdown.DateStart | convert-to-markdown/main.go:81 | with no `*` in the date, the date starts four characters past the last `*` before the closing `**` |
| Markdown.MarkdownInjective | convert-to-markdown/main.go:77-84 | with no `*` in title and date, the Markdown determines the article |
| Markdown.CleanedContentOutcome | convert-to-markdown/main.go:102-119 | content cleaning succeeds exactly when all three stages succeed, and then yields the third answer |
| Markdown.FirstAnswersDiscarded | convert-to-markdown/main.go:102-113 | the answers of the first two stages do not matter, only whether they succeed |
| Markdown.CleanContent | convert-to-markdown/main.go:100-120 | the stages are called in order on the original content and stop at the first failure; the content changes only if all succeed |
| Markdown.CleanDate | convert-to-markdown/main.go:121-129 | one request with the fixed date prompt; the date changes only on success |
| Markdown.CleanedFields | convert-to-markdown/main.go:88-133 | the title is never changed, and content and date change only through successful answers |
| Markdown.Handler | convert-to-markdown/main.go:87-149 | invalid JSON gets 400 and no GPT call; otherwise 200 with the Markdown of the cleaned article as text/plain, the date request among the calls and no other requests |
| Publisher.ListPrefix | upload-to-github/main.go:220-221 | the prefix is `news/`, the day, then `/` |
| Publisher.CommitMessage | upload-to-github/main.go:242 | the fixed text, then the day, then a closing parenthesis as the last character |
| Publisher.DayDeterminesPrefixAndMessage | upload-to-github/main.go:220-242 | the prefix and the message each determine the day |
| Publisher.RepoPathOfListedKey | upload-to-github/main.go:236 | a listed key `news/{day}/{name}` with a plain file name is published at `{day}/{name}` |
| Publisher.RepoPathOfStoredObject | upload-to-github/main.go:236 | an object stored by upload-to-s3 that day lands at `{day}/{day}_{category}.md` when neither day nor category holds a `/` |
| Publisher.RepoPathInjective | upload-to-github/main.go:236 | distinct keys under the day's prefix that name plain files get distinct repository paths |
| Publisher.KeysAppend | upload-to-github/main.go:49-58 | the listing of two runs of pages is the first listing followed by the second |
| Publisher.KeysMembers | upload-to-github/main.go:49-58 | a key is listed exactly when some page holds it |
| Publisher.ListFiles | upload-to-github/main.go:42-61 | all pages' keys in page order when every page succeeds; otherwise the error of the first failing page and no keys |
| Publisher.CollectFiles | upload-to-github/main.go:228-238 | the download loop builds the path-to-content map, skipping failed downloads |
| Publisher.CollectedDomain | upload-to-github/main.go:229-238 | the published paths are exactly the paths of the downloaded keys |
| Publisher.CollectedValues | upload-to-github/main.go:229-238 | with every key a plain file under the day's prefix, each downloaded key's content sits at its own path, whatever failed around it |
| Publisher.BuildEntries | upload-to-github/main.go:102-110 | one regular-file blob entry per file, with the file's content, no path twice |
| Publisher.Overlay | upload-to-github/main.go:113 | the new files' paths take their content and every other path of the base tree is kept |
| Publisher.ApplyEntriesLookup | upload-to-github/main.go:113 | with distinct paths, each entry's content is found at its path and other paths keep the base |
| Publisher.EntriesOverlay | upload-to-github/main.go:101-116 | the created tree is the files laid over the base tree |
| Publisher.FirstFault | upload-to-github/main.go:88-134 | the error reported is that of the earliest failing call in call order, with the host's own text, and there is none exactly when no call fails |
| Publisher.ErrorMessageInjective | upload-to-github/main.go:92-133 | the error text `<call message>: <host text>` determines both the failing call and the host's text |
| Publisher.UploadError | upload-to-github/main.go:88-134 | the earliest failing call; when no call fails but another writer moved the branch, the rejected non-forced update; no error exactly when no call fails and nobody else pushes |
| Publisher.GitHost.GetRef | upload-to-github/main.go:90 | the head commit, or the host's error text |
| Publisher.GitHost.GetTree | upload-to-github/main.go:96 | the tree of an existing commit; an unknown commit is `Not Found`; or the host's error text |
| Publisher.GitHost.CreateTree | upload-to-github/main.go:113 | a new tree id holding the entries applied to the base tree, nothing else changed; or an error and no change |
| Publisher.GitHost.CreateCommit | upload-to-github/main.go:119-124 | a new commit id with the given tree, parents and message, nothing else changed; or an error and no change |
| Publisher.GitHost.UpdateRef | upload-to-github/main.go:130-131 | without force the branch moves only when the old head is a parent of the new commit, and is otherwise refused as not a fast-forward; commits and trees are untouched |
| Publisher.GitHost.Advance | upload-to-github/main.go:131 | another writer's push, which the non-forced update guards against: a new commit on top of the head, keeping its tree, and the branch moved to it |
| Publisher.StageCommit | upload-to-github/main.go:95-127 | a new commit whose only parent is the head read, with the message and the files laid over that head's tree, the branch not moved; a failing call reports the earliest fault and adds no commit |
| Publisher.UploadFiles | upload-to-github/main.go:88-138 | the error is the earliest failing call with the host's text, or the refused update when another writer pushed; on success the branch points at a new commit whose only parent is the old head and whose tree is the files over the old tree; after another writer's push the branch keeps that writer's commit and ours is left unreferenced; without one a failure leaves the branch where it was; no commit or tree is ever lost |
| Publisher.PublishDay | upload-to-github/main.go:219-255 | a listing failure aborts with the first failing page's error; no downloaded file gives 200 with no change; otherwise 200 exactly when publishing succeeds, with all collected files committed on the old head, else 500 whose body carries the full error text, the failing call's message and the host's text |

## Left out

- Concurrency: the goroutines, WaitGroups and channels of auto-push, crawling and convert-to-markdown run one after the other in the model. The category tasks of auto-push and the field updates of convert-to-markdown write disjoint state, so the outcome is the same.
- AutoPush.FanOut: visits the categories in some order and states only which uploads are sent, not their order; the source's order is unspecified too.
- Remote calls are oracle parameters. This covers HTTP fetches and `FetchHTML`, the crawler and converter calls, `FetchGPT`, the S3 put, list and get, and the Git data API calls. gpt-api/main.go is not part of this model.
- `UploadToGitHub` in auto-push: it is called after the fan-out, but its answer is only logged, so it is not modelled.
- The failure paths inside `UploadToS3` of auto-push (reading the server URL, building and sending the request) are not modelled. They only log, and the model treats every converted article's request as sent.
- The crawler's `Handler` is not modelled: the `url` parameter check, the fan-out over `ScrapeArticle` and the JSON encoding. The order of its collected articles is not deterministic. Its building blocks `ScrapeHeadlines` and `ScrapeArticle` are modelled.
- HTML parsing with goquery: the section page is given as its anchors' optional `href`s, and an article page as its three raw texts.
- `init`, `.env` and `os.Getenv` configuration: `BASE_URL`, `BASE_URL_DETAIL` and the content prompts are parameters. The bucket name, region and GitHub credentials are not modelled, since the store and the host are given directly. The missing-variable `log.Fatalf` of upload-to-github is not modelled either.
- `config.LoadDefaultConfig` in upload-to-s3 (main.go:79-82) is not modelled, and neither is the `log.Fatalf` that follows its failure. The store is given directly.
- Go strings are byte strings, but the model reads them as sequences of Unicode characters in the crawler and in `Text.TrimSpace`. The tests the crawler makes (`link[0] == '/'`, `len(link) > 0`) give the same answers either way. `unicode.IsSpace` on a decoded rune is modelled as a test on one character.
- `time.Now()`: the date is a parameter. upload-to-s3/main.go:90 reads the clock twice, and the model assumes both reads give the same day.
- The GPT service is a function of the request, so two identical requests get the same answer. A service that answers the same request differently is not modelled.
- `json.Unmarshal` in convert-to-markdown is given as its outcome, an optional article.
- `log.Fatalf` ends the process; it is modelled as a `Fatal` outcome.
- Publisher.RepoPath: `path.Join` cleaning is not modelled. Only the empty name is special-cased, and the day is taken to be a clean, non-empty date. A name holding `/`, or equal to `.` or `..`, is joined as it is, where `path.Join` would clean it.
- Publisher.RepoPathInjective: stated only for plain names. Under `path.Join` cleaning, `news/{day}/a` and `news/{day}/a/` share the path `{day}/a`.
- Publisher.CollectedValues: stated only for plain names, for the same reason. Two keys that clean to one path keep only the later download.
- Publisher.RepoPathOfListedKey: stated only for plain names, for the same reason.
- `GitHubUploader.UploadFile` is never called. The UTF-8 conversion in auto-push (main.go:216-219) changes nothing. The `HandlerTest` functions are debug entry points. None of them is modelled.
- Go's regular-expression engine: `cleanANSI` is the equivalent hand-written scanner, proved to skip exactly the words of the pattern.
- Publisher.GitHost.UpdateRef: the host's fast-forward test is simplified to "the current head is a parent of the new commit"; ancestry further back is not modelled.
- Git object ids are handed out by a counter rather than computed as content hashes.
- Publisher.UploadFiles: the host's error texts are free strings. `Not Found` and `Update is not a fast forward` stand for GitHub's answers, without the request line and status that go-github puts around them. Another writer's push is modelled once, right after `GetRef`, not at any moment or several times.
- Tree entry contents are kept as bytes; the conversion `string(content)` and its handling of invalid UTF-8 are not modelled.
- Markdown.ConvertToMarkdown: lengths are counted in characters, not the UTF-8 bytes of the Go `[]byte`.
- Base64.Decode: a decoding failure is `None`; the offset Go reports inside `CorruptInputError` is not modelled.

## Findings

| source | as written | input that shows it | evidently intended | confidence | as-written member | corrected member |
|---|---|---|---|---|---|---|
| crawling/main.go:85 | `link[0]` is read before any length test, so an anchor with an empty `href` panics with index out of range | anchors `href=""`, `href="/n/1"` with `BASE_URL` `h:` and `BASE_URL_DETAIL` `/n/` | skip the empty link, as the `len(link) > 0` test of `isValidNewsLink` shows, and return `h:/n/1` | not executed | Crawling.EmptyHrefPanics | Crawling.ScrapeHeadlines |
