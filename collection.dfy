/** The per-id collection loop: the id list is the comma-split content of the
    id file, sliced with Python's `[start:stop]`; each id in turn yields its
    article row (skipped when the article is invalid) followed by its comment
    rows, or only its comment rows when collecting comments only, and one
    commit. An exception while extracting an article or reading its comments
    ends the whole run at that id. */
module Collection {
  import opened Wrappers
  import opened PyStr
  import opened Html
  import opened Articles
  import opened Comments
  import opened Persistence

  /** The site as the collection reads it: for an article id, its anonymous
      page, its logged-in page and the answer of the comment endpoint. */
  datatype Site = Site(anon: string -> Page, login: string -> Page, comments: string -> CommentsResponse)

  /** The exceptions that end a run. */
  datatype Error = ArticleFailed(parse: ParseError) | CommentsFailed(comments: CommentsError)

  /** How a run ends: after every id, or at position `at` of the id list,
      whose id is `id`, with an exception. */
  datatype Outcome = Completed | Aborted(at: nat, id: string, error: Error)

  /** The statements a run issues and how it ends. */
  datatype RunResult = RunResult(events: seq<Event>, outcome: Outcome)

  // ---------------------------------------------------------------------------
  // articles[start:stop]
  // ---------------------------------------------------------------------------

  /** A slice bound as Python resolves it for a sequence of length `n`: a
      negative bound counts from the end, and the result is clamped to
      `0..n`. */
  function SliceBound(i: int, n: nat): (r: nat)
    ensures r <= n
    ensures 0 <= i <= n ==> r == i
    ensures -(n as int) <= i < 0 ==> r == n + i
  {
    if i < 0 then (if i + n < 0 then 0 else i + n)
    else if i > n then n
    else i
  }

  /** `s[start:stop]`, with `stop` None for an omitted bound. */
  function PySlice<T>(s: seq<T>, start: int, stop: Option<int>): (r: seq<T>)
    ensures |r| <= |s|
  {
    var lo := SliceBound(start, |s|);
    var hi := if stop.None? then |s| else SliceBound(stop.value, |s|);
    if lo < hi then s[lo..hi] else []
  }

  /** `s[:m] + s[m:] == s` for every integer `m`. */
  lemma SliceSplit<T>(s: seq<T>, m: int)
    ensures PySlice(s, 0, Some(m)) + PySlice(s, m, None) == s
  {
    var b := SliceBound(m, |s|);
    assert PySlice(s, 0, Some(m)) == s[..b];
    assert PySlice(s, m, None) == s[b..];
    assert s[..b] + s[b..] == s;
  }

  /** `s[k:]` drops the first `k` elements and `s[-k:]` keeps the last `k`
      (all of them when `k` is 0, since `-0` is `0`); past the length, `s[k:]`
      is empty and `s[-k:]` is everything. */
  lemma SliceFrom<T>(s: seq<T>, k: nat)
    ensures k <= |s| ==> PySlice(s, k, None) == s[k..]
    ensures 0 < k <= |s| ==> PySlice(s, -(k as int), None) == s[|s| - k..]
    ensures PySlice(s, -0, None) == s
    ensures k > |s| ==> PySlice(s, k, None) == [] && PySlice(s, -(k as int), None) == s
  {
    if k <= |s| {
      assert s[k..] == [] || PySlice(s, k, None) == s[k..];
    }
    assert s[0..|s|] == s;
  }

  /** The ids to process: `f.read().split(",")[start:stop]`. */
  function IdList(content: string, start: int, stop: Option<int>): seq<string>
  {
    PySlice(Split(content, ','), start, stop)
  }

  // ---------------------------------------------------------------------------
  // One id
  // ---------------------------------------------------------------------------

  /** The statements a comments-only id issues before its commit: its
      comment rows, or the exception of an unreadable payload. */
  function CommentEvents(a: string, response: CommentsResponse): Result<seq<Event>, Error>
  {
    match CommentJsons(a, response)
      case Err(e) => Err(CommentsFailed(e))
      case Ok(rows) => Ok(CommentInserts(rows))
  }

  /** The statements a full id issues before its commit, given what its
      extraction produced: the extraction's exception, nothing for an invalid
      article, or the article row followed by its comment rows. */
  function ArticleEvents(a: string, parsed: ParseOutcome, response: CommentsResponse): Result<seq<Event>, Error>
  {
    if parsed.error.Some? then Err(ArticleFailed(parsed.error.value))
    else match RecordOf(a, parsed.valid, parsed.fields)
      case None => Ok([])
      case Some(row) =>
        match CommentJsons(a, response)
          case Err(e) => Err(CommentsFailed(e))
          case Ok(rows) => Ok([InsertArticle(row)] + CommentInserts(rows))
  }

  /** The statements issued for one id, before its commit, or the exception
      that ends the run there. */
  function IdEvents(a: string, commentsOnly: bool, site: Site): Result<seq<Event>, Error>
  {
    if commentsOnly then CommentEvents(a, site.comments(a))
    else ArticleEvents(a, Parse(site.anon(a), site.login(a)), site.comments(a))
  }

  /** The event inserts a row of article `a`. */
  predicate InsertFor(e: Event, a: string)
  {
    || (e.InsertArticle? && e.article.articleId == a)
    || (e.InsertComment? && e.comment.articleId == a)
  }

  /** What one id issues: only inserts of its own rows; in a full run the
      article row first and then its comment rows, and nothing at all when the
      article is invalid; in a comments-only run only comment rows. */
  lemma IdEventsShape(a: string, commentsOnly: bool, site: Site)
    ensures IdEvents(a, commentsOnly, site).Ok? ==>
              forall e :: e in IdEvents(a, commentsOnly, site).value ==> InsertFor(e, a)
    ensures IdEvents(a, commentsOnly, site).Ok? && commentsOnly ==>
              forall e :: e in IdEvents(a, commentsOnly, site).value ==> e.InsertComment?
    ensures IdEvents(a, commentsOnly, site).Ok? && !commentsOnly ==>
              var es := IdEvents(a, commentsOnly, site).value;
              && (es == [] <==> !Parse(site.anon(a), site.login(a)).valid)
              && (es != [] ==> es[0].InsertArticle? && forall k :: 1 <= k < |es| ==> es[k].InsertComment?)
  {
    CommentJsonsRows(a, site.comments(a));
  }

  // ---------------------------------------------------------------------------
  // The run
  // ---------------------------------------------------------------------------

  /** What the loop does with one id: its statements before the commit, or
      the exception that ends the run. */
  type Step = string -> Result<seq<Event>, Error>

  /** The step of `gather_mysql_data`. */
  function Collect(commentsOnly: bool, site: Site): Step
  {
    a => IdEvents(a, commentsOnly, site)
  }

  /** The statements of a run over `ids` and how it ends: the ids in order,
      each with its statements and one commit, until the first exception. */
  function Run(ids: seq<string>, step: Step): RunResult
  {
    if ids == [] then RunResult([], Completed)
    else
      var before := Run(ids[..|ids| - 1], step);
      if before.outcome.Aborted? then before
      else
        var a := ids[|ids| - 1];
        match step(a)
          case Err(e) => RunResult(before.events, Aborted(|ids| - 1, a, e))
          case Ok(es) => RunResult(before.events + es + [Event.Commit], Completed)
  }

  /** Once a run has ended with an exception, later ids change nothing. */
  lemma {:induction false} RunAbortedFinal(ids: seq<string>, j: nat, step: Step)
    requires j <= |ids|
    requires Run(ids[..j], step).outcome.Aborted?
    ensures Run(ids, step) == Run(ids[..j], step)
  {
    if j < |ids| {
      var init := ids[..|ids| - 1];
      assert init[..j] == ids[..j];
      RunAbortedFinal(init, j, step);
    } else {
      assert ids[..j] == ids;
    }
  }

  /** A run stops exactly at its first failing id: every id before it went
      through, and a completed run had no failing id. */
  lemma {:induction false} RunStopsAtFirstFailure(ids: seq<string>, step: Step)
    ensures var o := Run(ids, step).outcome;
            && (o.Aborted? ==> o.at < |ids| && o.id == ids[o.at] && step(o.id) == Err(o.error))
            && forall k :: 0 <= k < |ids| && (o.Completed? || k < o.at) ==> step(ids[k]).Ok?
  {
    if ids != [] {
      var init := ids[..|ids| - 1];
      RunStopsAtFirstFailure(init, step);
      forall k | 0 <= k < |init| ensures init[k] == ids[k] { }
    }
  }

  /** Processing follows the order of the ids: the statements of a run over a
      prefix of the ids start the statements of the whole run. */
  lemma {:induction false} RunPrefix(ids: seq<string>, j: nat, step: Step)
    requires j <= |ids|
    ensures Run(ids[..j], step).events <= Run(ids, step).events
    decreases |ids| - j
  {
    if j == |ids| {
      assert ids[..j] == ids;
    } else {
      RunPrefix(ids, j + 1, step);
      var pre := ids[..j + 1];
      assert pre[..|pre| - 1] == ids[..j];
    }
  }

  /** One more id extends a completed run by its statements and a commit, or
      ends it there. */
  lemma RunStep(ids: seq<string>, i: nat, step: Step)
    requires i < |ids| && Run(ids[..i], step).outcome == Completed
    ensures var r := Run(ids[..i + 1], step);
            && (step(ids[i]).Err? ==> r == RunResult(Run(ids[..i], step).events, Aborted(i, ids[i], step(ids[i]).error)))
            && (step(ids[i]).Ok? ==> r == RunResult(Run(ids[..i], step).events + step(ids[i]).value + [Event.Commit], Completed))
  {
    assert ids[..i + 1][..i] == ids[..i];
  }

  /** The number of commits among `events`. */
  function Commits(events: seq<Event>): nat
  {
    if events == [] then 0 else Commits(events[..|events| - 1]) + (if events[|events| - 1].Commit? then 1 else 0)
  }

  lemma {:induction false} CommitsAppend(a: seq<Event>, b: seq<Event>)
    ensures Commits(a + b) == Commits(a) + Commits(b)
    decreases |b|
  {
    if b == [] {
      assert a + b == a;
    } else {
      assert (a + b)[..|a + b| - 1] == a + b[..|b| - 1];
      CommitsAppend(a, b[..|b| - 1]);
    }
  }

  lemma {:induction false} NoCommits(events: seq<Event>)
    requires forall e :: e in events ==> !e.Commit?
    ensures Commits(events) == 0
  {
    if events != [] {
      assert events[|events| - 1] in events;
      NoCommits(events[..|events| - 1]);
    }
  }

  /** Exactly one commit per id processed, when no step commits by itself:
      every id of a completed run, the ids before the failing one of an
      aborted run. */
  lemma {:induction false} OneCommitPerId(ids: seq<string>, step: Step)
    requires forall a :: step(a).Ok? ==> forall e :: e in step(a).value ==> !e.Commit?
    ensures var r := Run(ids, step);
            Commits(r.events) == if r.outcome.Completed? then |ids| else r.outcome.at
  {
    if ids != [] {
      var init := ids[..|ids| - 1];
      OneCommitPerId(init, step);
      var before := Run(init, step);
      var a := ids[|ids| - 1];
      if before.outcome.Completed? && step(a).Ok? {
        var es := step(a).value;
        NoCommits(es);
        CommitsAppend(before.events, es);
        CommitsAppend(before.events + es, [Event.Commit]);
        assert [Event.Commit][..0] == [];
      }
    }
  }

  /** An id whose step issues nothing is never written when every step only
      writes rows of its own id. */
  lemma {:induction false} SilentIdNeverInserted(ids: seq<string>, step: Step, a: string)
    requires forall b :: step(b).Ok? ==> forall e :: e in step(b).value ==> InsertFor(e, b)
    requires step(a) == Ok([])
    ensures forall e :: e in Run(ids, step).events ==> !InsertFor(e, a)
  {
    if ids != [] {
      var init := ids[..|ids| - 1];
      SilentIdNeverInserted(init, step, a);
      var b := ids[|ids| - 1];
      if Run(init, step).outcome.Completed? && step(b).Ok? {
        forall e | e in step(b).value ensures !InsertFor(e, a) {
          assert InsertFor(e, b);
        }
      }
    }
  }

  /** The run of `gather_mysql_data` commits once per id processed. */
  lemma CollectionCommits(ids: seq<string>, commentsOnly: bool, site: Site)
    ensures var r := Run(ids, Collect(commentsOnly, site));
            Commits(r.events) == if r.outcome.Completed? then |ids| else r.outcome.at
  {
    var step := Collect(commentsOnly, site);
    forall a | step(a).Ok? ensures forall e :: e in step(a).value ==> !e.Commit? {
      IdEventsShape(a, commentsOnly, site);
    }
    OneCommitPerId(ids, step);
  }

  /** An invalid article is never written: in a full run, neither its row nor
      any comment row of it is inserted, at any occurrence of its id. `site`
      answers each id the same way every time it is asked. */
  lemma {:induction false} InvalidNeverInserted(ids: seq<string>, site: Site, a: string)
    requires !Parse(site.anon(a), site.login(a)).valid
    ensures forall e :: e in Run(ids, Collect(false, site)).events ==> !InsertFor(e, a)
  {
    var step := Collect(false, site);
    forall b | step(b).Ok? ensures forall e :: e in step(b).value ==> InsertFor(e, b) {
      IdEventsShape(b, false, site);
    }
    ValidityGate(site.anon(a), site.login(a));
    assert step(a) == Ok([]);
    SilentIdNeverInserted(ids, step, a);
  }

  // ---------------------------------------------------------------------------
  // gather_mysql_data
  // ---------------------------------------------------------------------------

  /** `step` does for every id what the loop body of `gather_mysql_data`
      does. (The quantifier is instantiated only where a statement about
      `IdEvents` of a particular id is already at hand.) */
  ghost predicate Computes(step: Step, commentsOnly: bool, site: Site)
  {
    forall a {:trigger IdEvents(a, commentsOnly, site)} :: step(a) == IdEvents(a, commentsOnly, site)
  }

  lemma CollectComputes(commentsOnly: bool, site: Site)
    ensures Computes(Collect(commentsOnly, site), commentsOnly, site)
  {
  }

  /** `gather_mysql_data` over the id-file content `content`, on a connection
      with nothing pending: the store receives exactly the statements of the
      run over `content.split(",")[start:stop]`, and everything it holds at
      the end is committed. `step` is `Collect(commentsOnly, site)`, passed
      as a parameter to keep the unfolding of the run small. */
  method GatherMysqlData(store: Store, content: string, start: int, stop: Option<int>,
                         commentsOnly: bool, site: Site, ghost step: Step)
    returns (outcome: Outcome)
    requires Computes(step, commentsOnly, site)
    requires store.Valid() && store.committed == store.tables
    modifies store
    ensures store.Valid()
    ensures var r := Run(IdList(content, start, stop), step);
            && outcome == r.outcome
            && store.trace == old(store.trace) + r.events
            && store.tables == Apply(old(store.tables), r.events)
            && store.committed == store.tables
  {
    var articles := Split(content, ',');
    outcome := CollectIds(store, PySlice(articles, start, stop), commentsOnly, site, step);
  }

  /** The loop of `gather_mysql_data` over the sliced ids. */
  method CollectIds(store: Store, ids: seq<string>, commentsOnly: bool, site: Site, ghost step: Step)
    returns (outcome: Outcome)
    requires Computes(step, commentsOnly, site)
    requires store.Valid() && store.committed == store.tables
    modifies store
    ensures store.Valid()
    ensures var r := Run(ids, step);
            && outcome == r.outcome
            && store.trace == old(store.trace) + r.events
            && store.tables == Apply(old(store.tables), r.events)
            && store.committed == store.tables
  {
    var i := 0;
    while i < |ids|
      invariant 0 <= i <= |ids|
      invariant store.Valid()
      invariant Run(ids[..i], step).outcome == Completed
      invariant store.trace == old(store.trace) + Run(ids[..i], step).events
      invariant store.committed == store.tables
    {
      var a := ids[i];
      RunStep(ids, i, step);
      var failure := ProcessId(store, a, commentsOnly, site, step);
      if failure.Some? {
        RunAbortedFinal(ids, i + 1, step);
        outcome := Aborted(i, a, failure.value);
        ApplyAppend(store.origin, old(store.trace), Run(ids, step).events);
        return;
      }
      i := i + 1;
    }
    assert ids[..i] == ids;
    ApplyAppend(store.origin, old(store.trace), Run(ids, step).events);
    return Completed;
  }

  /** The body of the loop for one id: the statements of `IdEvents` and the
      commit, or the exception and no statement at all. */
  method ProcessId(store: Store, a: string, commentsOnly: bool, site: Site, ghost step: Step)
    returns (failure: Option<Error>)
    requires Computes(step, commentsOnly, site)
    requires store.Valid()
    modifies store
    ensures store.Valid()
    ensures failure.Some? <==> step(a).Err?
    ensures failure.Some? ==> failure.value == step(a).error
                              && store.tables == old(store.tables) && store.trace == old(store.trace)
                              && store.committed == old(store.committed)
    ensures failure.None? ==> store.trace == old(store.trace) + step(a).value + [Event.Commit]
                              && store.committed == store.tables
  {
    assert step(a) == IdEvents(a, commentsOnly, site);
    if commentsOnly {
      failure := ProcessComments(store, a, site.comments(a));
    } else {
      failure := ProcessArticle(store, a, site.anon(a), site.login(a), site.comments(a));
    }
  }

  /** A comments-only id: `get_comment_jsons`, `try_add_comment`, the commit. */
  method ProcessComments(store: Store, a: string, response: CommentsResponse)
    returns (failure: Option<Error>)
    requires store.Valid()
    modifies store
    ensures store.Valid()
    ensures var step := CommentEvents(a, response);
            && (failure.Some? <==> step.Err?)
            && (failure.Some? ==> failure.value == step.error
                                  && store.tables == old(store.tables) && store.trace == old(store.trace)
                                  && store.committed == old(store.committed))
            && (failure.None? ==> store.trace == old(store.trace) + step.value + [Event.Commit]
                                  && store.committed == store.tables)
  {
    var comJsons := GetCommentJsons(a, response);
    if comJsons.Err? {
      return Some(CommentsFailed(comJsons.error));
    }
    TryAddComment(store, comJsons.value);
    store.Commit();
    return None;
  }

  /** A full id: the article is extracted from its anonymous and logged-in
      pages; a valid one is written with its comments by `try_add_db`; the
      commit follows either way. */
  method ProcessArticle(store: Store, a: string, anon: Page, login: Page, response: CommentsResponse)
    returns (failure: Option<Error>)
    requires store.Valid()
    modifies store
    ensures store.Valid()
    ensures var step := ArticleEvents(a, Parse(anon, login), response);
            && (failure.Some? <==> step.Err?)
            && (failure.Some? ==> failure.value == step.error
                                  && store.tables == old(store.tables) && store.trace == old(store.trace)
                                  && store.committed == old(store.committed))
            && (failure.None? ==> store.trace == old(store.trace) + step.value + [Event.Commit]
                                  && store.committed == store.tables)
  {
    var err, row := ExtractArticle(a, anon, login);
    failure := StoreArticle(store, a, Parse(anon, login), err, row, response);
  }

  /** `Article(a, ...).json()`: the exception the extraction raised, or the
      row of the article (None for an invalid one). */
  method ExtractArticle(a: string, anon: Page, login: Page)
    returns (err: Option<ParseError>, row: Option<ArticleRecord>)
    ensures err == Parse(anon, login).error
    ensures err.None? ==> row == RecordOf(a, Parse(anon, login).valid, Parse(anon, login).fields)
  {
    var article := new Article(a);
    err := article.ParseArticle(anon, login);
    row := None;
    if err.None? {
      row := article.Json();
    }
  }

  /** What follows the extraction of a full id whose extraction produced
      `parsed`: the exception, or the row and its comment rows written and
      committed (only the commit for an invalid article). */
  method StoreArticle(store: Store, a: string, ghost parsed: ParseOutcome, err: Option<ParseError>,
                      row: Option<ArticleRecord>, response: CommentsResponse)
    returns (failure: Option<Error>)
    requires err == parsed.error
    requires err.None? ==> row == RecordOf(a, parsed.valid, parsed.fields)
    requires store.Valid()
    modifies store
    ensures store.Valid()
    ensures var step := ArticleEvents(a, parsed, response);
            && (failure.Some? <==> step.Err?)
            && (failure.Some? ==> failure.value == step.error
                                  && store.tables == old(store.tables) && store.trace == old(store.trace)
                                  && store.committed == old(store.committed))
            && (failure.None? ==> store.trace == old(store.trace) + step.value + [Event.Commit]
                                  && store.committed == store.tables)
  {
    if err.Some? {
      return Some(ArticleFailed(err.value));
    }
    if row.None? {
      store.Commit();
      return None;
    }
    var comJsons := GetCommentJsons(a, response);
    if comJsons.Err? {
      return Some(CommentsFailed(comJsons.error));
    }
    TryAddDb(store, row.value, comJsons.value);
    store.Commit();
    return None;
  }
}
