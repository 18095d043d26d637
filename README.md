# Seeking Alpha article collection, modelled in Dafny

This project models the collection pipeline of a Seeking Alpha scraper. It
has two parts.

The listing crawler (`src/sa_crawler.py`):
- finds the `article/<digits>` links in a symbol's listing pages, with the
  regular expression `article/[0-9]*`;
- reads the pages in order until the first page that answers but lists
  nothing;
- cuts each link down to its article id.

The collector (`src/sa_collection.py`) takes comma-separated article ids and,
for each id in turn:
- extracts the article from its anonymous and logged-in pages;
- flattens the article's comment tree;
- inserts the article row and the comment rows into two tables, where a
  duplicate key is tolerated and leaves the first row in place;
- commits once.

An exception while extracting an article or reading its comments ends the
whole run at that id.

Modules, one per concern:

- `Wrappers`: `Option` and `Result`.
- `PyStr`: the Python string operations the code relies on:
  - `s.split(sep)` and `sep.join`;
  - `s.split()`;
  - `s[:n]`, `s[:-1]` and `s[1:-1]`;
  - `encode('ascii', 'ignore')`;
  - the `+= x + ","` accumulation.
- `Html`: a parsed page as a sequence of elements, and the `find_all` queries
  the code makes.
- `Articles`:
  - what the extraction of one article produces (`Parse`, `Extract`, `Body`,
    `RecordOf`), as functions;
  - the `Article` object, as a class whose methods assign its fields in the
    order the source does, each proved against those functions.
- `Comments`: the comment tree, its pre-order flattening, and
  `Comment.get_children` and `get_comment_jsons` as recursive and looping
  methods.
- `Persistence`:
  - the two tables, and the effect of a sequence of statements on them
    (`Step`, `Apply`);
  - the connection as a class `Store`. It holds the tables, the rows the last
    commit made durable, and the trace of every statement issued. Its
    invariant `Valid()` says that the tables are the opening rows after the
    whole trace;
  - `try_add_article`, `try_add_comment` and `try_add_db`.
- `Collection`:
  - Python's `[start:stop]` slice;
  - the statements one id issues (`IdEvents`);
  - the whole run as a function (`Run`), over an arbitrary per-id step;
  - `gather_mysql_data` as a loop over a `Store`, proved to issue exactly the
    statements of `Run` and to leave everything committed.
- `Crawler`: `matched_url`, `past_urls_per_symbol` (a loop with an early
  exit) and `urls_to_ids`.

External inputs are parameters:
- A page is a `Page` value.
- The comment endpoint's answer is a `CommentsResponse`: its status, and the
  decoded `comments` mapping or `None` when the body does not decode.
- A collection run reads the site through `Site`, which holds three functions
  from article id to the anonymous page, the logged-in page and the comment
  response.
- A listing is a function from page number to `Response`.

`GatherMysqlData` and its helpers take the per-id step as a ghost parameter.
They require `Computes(step, commentsOnly, site)`, which holds for
`Collect(commentsOnly, site)` by `CollectComputes`. This keeps the run
function independent of the details of extraction.

Behaviours of the code the model keeps as they are:

- **Sibling order.** Replies come out in the order the payload's mapping
  lists them (`for i in self.children_ids`), which is the order of
  `Node.children`, not sorted by id.
- **Comment status.** Only a 404 from the comment endpoint gives an empty
  list. Any other status goes on to decode the body, which raises when it is
  not comment JSON.
- **Errors end the run.** A missing `h1`, a missing published-date `time`
  element or its `content` attribute, or a primary anchor whose text has no
  token raises inside `Article.__init__`. So does an undecodable comment
  payload. `gather_mysql_data` has no handler for these, so the run stops at
  that id, with no statement issued for it and nothing reported per article.
- **Invalid articles.** An invalid article inserts nothing but still commits
  for its id.
- **The primary anchor's text.** The ticker is the last whitespace-separated
  token of that text, without its first and last character
  (`split()[-1][1:-1]`). That is not necessarily the text between
  parentheses.

## Model

| member | source | states |
|---|---|---|
| PyStr.Prefix | src/sa_collection.py:125 | `s[:n]` has `n` characters (all of `s` when shorter) and is a prefix of `s` |
| PyStr.DropLast | src/sa_collection.py:85-86 | `s[:-1]` is `s` without its last character, and empty for an empty `s` |
| PyStr.Inner | src/sa_collection.py:74 | `t[1:-1]` is `t` without its first and last character, and empty when `t` has fewer than two |
| PyStr.Split | src/sa_collection.py:299 | `s.split(sep)` always has at least one part, and no part contains `sep` |
| PyStr.JoinSplit | src/sa_collection.py:299 | joining the parts of `s.split(sep)` with `sep` gives `s` back |
| PyStr.SplitJoin | src/sa_collection.py:299 | splitting a join of separator-free parts gives the parts back |
| PyStr.LastPart | src/sa_crawler.py:66 | `s.split(sep)[-1]` contains no `sep` |
| PyStr.LastPartIsSuffix | src/sa_crawler.py:66 | `s` is some text that is empty or ends in `sep`, followed by `s.split(sep)[-1]` |
| PyStr.DropLastAccumulate | src/sa_collection.py:78-86 | building `t1,t2,...,tn,` with `+=` and cutting the last character gives `",".join([t1..tn])` |
| PyStr.WordLength | src/sa_collection.py:74 | the first token of `s` ends at the first whitespace or at the end |
| PyStr.WordsAreTokens | src/sa_collection.py:74 | every token of `s.split()` is non-empty and holds no whitespace |
| PyStr.WordsEmpty | src/sa_collection.py:74 | `s.split()` is empty exactly when `s` is all whitespace |
| PyStr.WordsAppend | src/sa_collection.py:74 | after whitespace, `split()` of a concatenation is the concatenation of the splits |
| PyStr.WordsOfWord | src/sa_collection.py:74 | one token followed by whitespace splits into that token alone |
| PyStr.AsciiOnly | src/sa_collection.py:149 | `encode('ascii', 'ignore').decode()` never lengthens the text and leaves only code points below 128 |
| PyStr.AsciiOnlyAppend | src/sa_collection.py:149 | the ASCII filter distributes over concatenation |
| PyStr.AsciiOnlyFixed | src/sa_collection.py:149 | the filter leaves a text unchanged exactly when it is all ASCII |
| PyStr.AsciiOnlyIdempotent | src/sa_collection.py:149 | filtering twice is filtering once |
| PyStr.AsciiOnlyCounts | src/sa_collection.py:149 | each ASCII character keeps its number of occurrences and every other character is gone |
| Html.FindAll | src/sa_collection.py:67 | `find_all` returns at most as many elements as the page has |
| Html.FindAllMembers | src/sa_collection.py:67 | an element is in the result of `find_all` exactly when it is on the page and matches the query |
| Html.FindAllAppend | src/sa_collection.py:67 | `find_all` keeps document order: over two consecutive parts of a page it gives the matches of the first part, then those of the second |
| Articles.WithSource | src/sa_collection.py:78-83 | the anchors whose `sasource` attribute is the given value, in document order, as a `find_all` filter |
| Articles.TickerMissing | src/sa_collection.py:74 | `split()[-1]` raises (no ticker) exactly when the primary anchor's text is all whitespace |
| Articles.TickerOfLabel | src/sa_collection.py:74 | for a label ending in one token `(SYM)` and then whitespace, the ticker is `SYM` |
| Articles.TickerOfCompanyLabel | src/sa_collection.py:74 | the ticker of `Apple (AAPL)` is `AAPL` |
| Articles.TickerOfBareLabel | src/sa_collection.py:74 | the ticker of `(AAPL)` is `AAPL` |
| Articles.DisclosureIndex | src/sa_collection.py:93-97 | the disclosure index is at most the number of paragraphs, and below it the paragraph there is a disclosure |
| Articles.DisclosureIndexIsFirst | src/sa_collection.py:94-95 | no paragraph before the disclosure index is a disclosure |
| Articles.FirstDisclosure | src/sa_collection.py:94-97 | the index of the first disclosure paragraph is the disclosure index |
| Articles.BodyStopsAtDisclosure | src/sa_collection.py:91-98 | with a disclosure paragraph, the body is the paragraphs before the first one, each followed by a newline |
| Articles.BodyWithoutDisclosure | src/sa_collection.py:96-98 | without a disclosure paragraph, the body is every paragraph |
| Articles.BodyExample | src/sa_collection.py:91-98 | paragraphs `p1, p2, disclosure, p4` give `p1\np2\n` |
| Articles.Extract | src/sa_collection.py:76-98 | an article past the primary-anchor check stays valid, whatever else fails |
| Articles.ValidityGate | src/sa_collection.py:67-72 | valid exactly when the logged-in page has one primary-about anchor; an invalid article keeps every default and raises nothing |
| Articles.CompleteExtraction | src/sa_collection.py:74-98 | a complete extraction has the ticker from the primary anchor, the comma-joined `article_about` and `auth_header_name` texts, the title is the first `h1`'s text, the date is the first ten characters of the first published time's `content`, and the body is the paragraphs before the disclosure |
| Articles.RecordOf | src/sa_collection.py:100-117 | `json()` is empty exactly for an invalid article, and otherwise carries the article id and zero likes |
| Articles.Article.constructor | src/sa_collection.py:40-54 | a new article is valid with every field at its default |
| Articles.Article.ParseArticle | src/sa_collection.py:57-98 | the fields, the validity and the raised exception after `_parse_article` are those of `Parse` on the two pages |
| Articles.Article.CollectAbout | src/sa_collection.py:77-86 | the accumulation loop leaves the comma-joined included symbols and authors, with no trailing comma |
| Articles.Article.ParseTitleDateBody | src/sa_collection.py:87-98 | title, date and body, or the exception, are those of `Extract` |
| Articles.Article.Json | src/sa_collection.py:100-117 | `json()` is empty exactly for an invalid article, and otherwise carries the id, ticker and includes |
| Articles.AccumulateStep | src/sa_collection.py:78-83 | one more anchor adds its text and a comma exactly when its `sasource` matches |
| Comments.FlattenSize | src/sa_collection.py:132-141 | a tree flattens to as many records as it has comments |
| Comments.RepliesSizeMatches | src/sa_collection.py:137-140 | the replies flatten to as many records as they hold comments |
| Comments.ForestSizeMatches | src/sa_collection.py:248-251 | the top-level trees flatten to as many records as they hold comments |
| Comments.FlattenMembers | src/sa_collection.py:132-141 | a comment is in the flattened list exactly when it is in the tree |
| Comments.RepliesMembers | src/sa_collection.py:137-140 | a comment is among the flattened replies exactly when it is in one reply's tree |
| Comments.PreOrder | src/sa_collection.py:137-141 | every comment in the flattened list is followed at once by its own flattened subtree |
| Comments.RepliesPreOrder | src/sa_collection.py:137-140 | the same holds within the flattened replies |
| Comments.RepliesPrefix | src/sa_collection.py:137-140 | the earlier replies' records precede the later ones' (payload order) |
| Comments.ReplyPosition | src/sa_collection.py:137-140 | the k-th reply's tree sits right after its older siblings' trees |
| Comments.FlattenExample | src/sa_collection.py:137-141 | A with replies B, C and B with reply D flattens to A, B, D, C |
| Comments.Comment.Date | src/sa_collection.py:125 | the comment date is the first ten characters of `created_on` (all of it when shorter) |
| Comments.InArticle | src/sa_collection.py:138 | one comment per node |
| Comments.JsonAll | src/sa_collection.py:251 | one row per comment |
| Comments.GetChildren | src/sa_collection.py:132-141 | `get_children` returns every descendant of the comment in pre-order, each with the article id |
| Comments.GetCommentJsons | src/sa_collection.py:237-253 | `get_comment_jsons` returns the rows of `CommentJsons` |
| Comments.CommentJsonsRows | src/sa_collection.py:237-253 | a 404 gives no rows and an undecodable payload raises; a decoded one gives exactly one row per comment of its trees, each built by `Comment.json` for the article asked for, with ASCII-only content |
| Persistence.StepKeepsRows | src/sa_collection.py:263-278 | an insert never changes a stored row, stores its key, and changes the tables exactly when the key was free |
| Persistence.ApplyAppend | src/sa_collection.py:302-312 | statements issued in two batches have the effect of the batches applied one after the other |
| Persistence.FirstWriteWins | src/sa_collection.py:263-278 | no later statement changes a stored row: the first insert under a key wins |
| Persistence.ApplyCovers | src/sa_collection.py:263-278 | after the statements ran, the key of every row they insert is taken |
| Persistence.ApplyCovered | src/sa_collection.py:263-278 | statements whose keys are all taken change nothing |
| Persistence.ApplyIdempotent | src/sa_collection.py:263-278 | issuing the same statements again changes nothing (a re-run only hits duplicate keys) |
| Persistence.DuplicateArticleExample | src/sa_collection.py:275-278 | of two article rows with one id, the first stays |
| Persistence.Store.constructor | src/sa_collection.py:295-296 | a fresh connection sees the stored rows, has them committed, and has issued nothing |
| Persistence.Store.ExecuteInsertArticle | src/sa_collection.py:275-278 | an article insert reports a duplicate exactly when the id is taken, applies `Step`, and is recorded in the trace |
| Persistence.Store.ExecuteInsertComment | src/sa_collection.py:263-268 | a comment insert reports a duplicate exactly when the id is taken, applies `Step`, and is recorded in the trace |
| Persistence.Store.Commit | src/sa_collection.py:312 | a commit makes the current rows durable and changes no row |
| Persistence.CommentInserts | src/sa_collection.py:263-265 | one insert per comment row |
| Persistence.TryAddArticle | src/sa_collection.py:271-278 | `try_add_article` issues exactly the article insert and commits nothing |
| Persistence.TryAddComment | src/sa_collection.py:256-268 | `try_add_comment` issues one insert per row, in order, and commits nothing |
| Persistence.TryAddDb | src/sa_collection.py:281-283 | `try_add_db` issues the article insert, then the comment inserts |
| Collection.SliceBound | src/sa_collection.py:302 | a slice bound is clamped to the length; a negative bound counts from the end |
| Collection.PySlice | src/sa_collection.py:302 | a slice is never longer than the list |
| Collection.SliceSplit | src/sa_collection.py:302 | `s[:m] + s[m:] == s` for every integer `m` |
| Collection.SliceFrom | src/sa_collection.py:302 | `s[k:]` drops `k` ids and `s[-k:]` keeps the last `k` (all of them for `-0`); past the length, `s[k:]` is empty and `s[-k:]` is everything |
| Collection.IdEventsShape | src/sa_collection.py:303-310 | an id issues only inserts of its own rows; in a full run the article row comes first, then comment rows, and nothing at all for an invalid article; a comments-only run issues only comment rows |
| Collection.RunAbortedFinal | src/sa_collection.py:302-312 | after an exception, later ids change nothing |
| Collection.RunStopsAtFirstFailure | src/sa_collection.py:302-312 | a run stops exactly at its first failing id, every id before it went through, and a completed run had no failing id |
| Collection.RunPrefix | src/sa_collection.py:302 | ids are processed in order: the statements for a prefix of the ids start those for the whole list |
| Collection.CommitsAppend | src/sa_collection.py:312 | commits add up over concatenation |
| Collection.NoCommits | src/sa_collection.py:312 | statements that are not commits count no commit |
| Collection.OneCommitPerId | src/sa_collection.py:312 | exactly one commit per id processed, for any step that does not commit by itself |
| Collection.CollectionCommits | src/sa_collection.py:302-314 | the collection commits once per id of a completed run, and once per id before the failing one otherwise |
| Collection.SilentIdNeverInserted | src/sa_collection.py:302-312 | an id whose step issues nothing is never written, when every step writes only its own rows |
| Collection.InvalidNeverInserted | src/sa_collection.py:307-310 | neither the row nor any comment of an article whose pages make it invalid is ever inserted, at any occurrence of its id (the site answers each id the same way every time) |
| Collection.GatherMysqlData | src/sa_collection.py:286-317 | the store receives exactly the statements of the run over `content.split(",")[start:stop]`, its rows are the old rows after them, everything is committed, and the outcome is the run's |
| Collection.CollectIds | src/sa_collection.py:302-314 | the loop issues exactly the run's statements, keeps everything committed, and ends with the run's outcome |
| Collection.ProcessId | src/sa_collection.py:303-312 | one id either raises with no statement issued, or issues its statements and a commit |
| Collection.ProcessComments | src/sa_collection.py:303-305 | a comments-only id issues its comment rows and a commit, or raises with nothing issued |
| Collection.ProcessArticle | src/sa_collection.py:306-312 | a full id issues its article and comment rows (nothing for an invalid article) and a commit, or raises with nothing issued |
| Collection.ExtractArticle | src/sa_collection.py:307 | building the `Article` raises exactly the exception of `Parse`, and otherwise `json()` gives the row of the extracted fields (none for an invalid article) |
| Collection.StoreArticle | src/sa_collection.py:307-312 | after the extraction, the id raises with nothing issued, or issues its article row then its comment rows (nothing for an invalid article) and a commit |
| Crawler.DigitRun | src/sa_crawler.py:33 | `[0-9]*` takes every digit up to the first non-digit or the end |
| Crawler.MatchAt | src/sa_crawler.py:33-34 | a match is `article/` and then only digits, is the text at its position, and is followed by a non-digit or the end |
| Crawler.FindAllFrom | src/sa_crawler.py:32-35 | every match is `article/` followed by digits |
| Crawler.OccurrencesFromSpec | src/sa_crawler.py:33-34 | the positions listed are exactly the occurrences of `article/`, in increasing order |
| Crawler.MatchesAt | src/sa_crawler.py:33-34 | at most one match per position |
| Crawler.MatchesAtOccurrences | src/sa_crawler.py:33-34 | at occurrences, there is exactly one match per position |
| Crawler.SkipNoOccurrence | src/sa_crawler.py:33-34 | positions without an `a` hold no occurrence |
| Crawler.MatchHasNoInnerOccurrence | src/sa_crawler.py:33-34 | no occurrence of `article/` starts inside a match |
| Crawler.FindAllIsMatchPerOccurrence | src/sa_crawler.py:32-35 | `findall` yields the match at each occurrence, in text order, none skipped and none overlapping |
| Crawler.FindAllAtOccurrence | src/sa_crawler.py:32-35 | the same, where a match starts at the scan position |
| Crawler.MatchedUrlSpec | src/sa_crawler.py:32-35 | `matched_url` has one match per occurrence, the k-th being the k-th occurrence with its maximal digit run |
| Crawler.MatchedUrlExample | src/sa_crawler.py:33 | a bare `article/` matches, and so does `article/7` |
| Crawler.ExaminedPages | src/sa_crawler.py:49-55 | pages are requested consecutively from the start page and below the end page; none before the last stops the loop, and the loop ends early only at a page that answers 200 with no match |
| Crawler.PastUrlsHarvest | src/sa_crawler.py:49-57 | the result is the matches of the requested pages that answered 200, concatenated in page order with duplicates kept |
| Crawler.EmptyRange | src/sa_crawler.py:49 | an empty range requests nothing and returns nothing |
| Crawler.EndIrrelevantAfterStop | src/sa_crawler.py:49-55 | once a stopping page lies below both end pages, the end page changes neither the result nor the pages requested |
| Crawler.PastUrlsPerSymbol | src/sa_crawler.py:38-62 | the loop returns `PastUrls` and requests exactly the `Examined` pages |
| Crawler.UrlsToIds | src/sa_crawler.py:65-66 | one id per link, in order |
| Crawler.UrlsToIdsSuffixes | src/sa_crawler.py:65-66 | each id has no `/` and is what follows the last `/` of its link |
| Crawler.IdOfUrl | src/sa_crawler.py:65-66 | the id of a matched link is its digit run |
| Crawler.IdsOfPage | src/sa_crawler.py:32-35 | the ids of a page's links are, in order, the digit runs after each `article/` |
| Crawler.IdsExample | src/sa_crawler.py:65-66 | `article/123` gives `123` and a bare `article/` gives the empty id |

## Left out

- Network access is not modelled. `safe_request`, `requests.get`, the retry
  counter, the sleeps and the user-agent header are left out. Pages and
  responses are inputs: a fetch that got an answer is that answer, whatever
  its status.
- Connection failures are not modelled. In `safe_request` a
  `ConnectionError` does not advance the retry counter, so a site that never
  answers keeps the collector retrying forever. In `past_urls_per_symbol` the
  listing request is not guarded, so a `ConnectionError` escapes and the links
  gathered so far are lost. The model only has fetches that answered.
- The site is a fixed snapshot. `Site` gives one anonymous page, one
  logged-in page and one comment response per id, while `gather_mysql_data`
  fetches again each time an id comes up, and the crawler keeps duplicate ids.
  So a repeated id sees the same answers as its first occurrence, and
  `InvalidNeverInserted` holds only for a site that answers an id the same
  way every time.
- HTML and JSON parsing are not modelled. BeautifulSoup is replaced by a page
  as a list of elements with their attributes and text. `json.loads(...)
  ['comments']` is replaced by an already decoded forest, or `None` when it
  raises.
- Cookies are not modelled. `browser_cookie` and `default_cookie` parse a
  Cookie header with the standard library and read a file.
- Configuration and the database connection are not modelled:
  `read_json_file`, `write_json_file`, `default_db_config`,
  `mysql.connector.connect`, and closing the cursor and connection. The
  store starts from arbitrary rows.
- Output is not modelled: printing, the progress percentage (a float) and
  the "no comments found" message.
- Database errors other than a duplicate key are left out. The store never
  fails otherwise, so `try_add_comment`'s report for other error numbers
  (which looks up a key `id` that a comment row does not have) is not
  modelled.
- A comment payload missing one of the keys `Comment.__init__` reads is not
  modelled. A `Node` always has every field.
- The SQL text and the column types of `add_article` and `add_comment` are
  left out; the rows are records with the same fields.
- Crawler.PastUrlsPerSymbol: the listing URL is not built. The listing
  function is indexed by page number for one symbol. The 0.5 s pause and the
  status message for a non-200 page are left out.
- The `__main__` blocks and `src/analysis.py` are not part of this model.
