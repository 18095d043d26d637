/** The database side of the collection: the `articles` table keyed by
    article id and the `comments` table keyed by comment id. An insert whose
    key is already present fails with a duplicate-key error, which the
    collection code swallows, so the existing row stays. The connection keeps
    the tables, what the last commit made durable, and the trace of every
    statement issued. */
module Persistence {
  import opened Articles
  import opened Comments

  /** One statement sent to the database. */
  datatype Event =
    | InsertArticle(article: ArticleRecord)
    | InsertComment(comment: CommentRecord)
    | Commit

  /** The rows of both tables. */
  datatype Tables = Tables(articles: map<string, ArticleRecord>, comments: map<int, CommentRecord>)

  /** The article id or comment id an event writes under, if it writes. */
  predicate Writes(e: Event, t: Tables)
  {
    match e
      case InsertArticle(a) => a.articleId !in t.articles
      case InsertComment(c) => c.commentId !in t.comments
      case Commit => false
  }

  /** The tables after one statement: an insert adds its row unless the key is
      taken, in which case the statement fails and nothing changes. */
  function Step(t: Tables, e: Event): Tables
  {
    match e
      case InsertArticle(a) =>
        if a.articleId in t.articles then t else t.(articles := t.articles[a.articleId := a])
      case InsertComment(c) =>
        if c.commentId in t.comments then t else t.(comments := t.comments[c.commentId := c])
      case Commit => t
  }

  /** The tables after a sequence of statements. */
  function Apply(t: Tables, events: seq<Event>): Tables
  {
    if events == [] then t else Step(Apply(t, events[..|events| - 1]), events[|events| - 1])
  }

  /** The key of every row an event inserts is present in `t`. */
  predicate Covered(t: Tables, events: seq<Event>)
  {
    forall e :: e in events ==> !Writes(e, t)
  }

  /** A duplicate key leaves the stored row as it was; a fresh key stores the row. */
  lemma StepKeepsRows(t: Tables, e: Event)
    ensures forall id :: id in t.articles ==> id in Step(t, e).articles && Step(t, e).articles[id] == t.articles[id]
    ensures forall id :: id in t.comments ==> id in Step(t, e).comments && Step(t, e).comments[id] == t.comments[id]
    ensures e.InsertArticle? ==> e.article.articleId in Step(t, e).articles
    ensures e.InsertComment? ==> e.comment.commentId in Step(t, e).comments
    ensures Writes(e, t) <==> Step(t, e) != t
  {
    match e
      case InsertArticle(a) =>
        if a.articleId !in t.articles { assert a.articleId in Step(t, e).articles; }
      case InsertComment(c) =>
        if c.commentId !in t.comments { assert c.commentId in Step(t, e).comments; }
      case Commit =>
  }

  /** Statements run one batch after another. */
  lemma {:induction false} ApplyAppend(t: Tables, a: seq<Event>, b: seq<Event>)
    ensures Apply(t, a + b) == Apply(Apply(t, a), b)
    decreases |b|
  {
    if b == [] {
      assert a + b == a;
    } else {
      assert (a + b)[..|a + b| - 1] == a + b[..|b| - 1];
      ApplyAppend(t, a, b[..|b| - 1]);
    }
  }

  /** The first write of a key wins: no later statement changes a stored row. */
  lemma {:induction false} FirstWriteWins(t: Tables, events: seq<Event>)
    ensures forall id :: id in t.articles ==> id in Apply(t, events).articles && Apply(t, events).articles[id] == t.articles[id]
    ensures forall id :: id in t.comments ==> id in Apply(t, events).comments && Apply(t, events).comments[id] == t.comments[id]
  {
    if events != [] {
      FirstWriteWins(t, events[..|events| - 1]);
      StepKeepsRows(Apply(t, events[..|events| - 1]), events[|events| - 1]);
    }
  }

  /** After the statements ran, every row they insert has its key taken. */
  lemma {:induction false} ApplyCovers(t: Tables, events: seq<Event>)
    ensures Covered(Apply(t, events), events)
  {
    if events != [] {
      var init := events[..|events| - 1];
      var last := events[|events| - 1];
      ApplyCovers(t, init);
      var u := Apply(t, init);
      StepKeepsRows(u, last);
      forall e | e in events ensures !Writes(e, Apply(t, events)) {
        if e in init {
          assert !Writes(e, u);
        }
      }
    }
  }

  /** Statements whose keys are all taken change nothing. */
  lemma {:induction false} ApplyCovered(t: Tables, events: seq<Event>)
    requires Covered(t, events)
    ensures Apply(t, events) == t
  {
    if events != [] {
      var init := events[..|events| - 1];
      assert Covered(t, init) by {
        forall e | e in init ensures !Writes(e, t) { assert e in events; }
      }
      ApplyCovered(t, init);
      assert events[|events| - 1] in events;
      StepKeepsRows(t, events[|events| - 1]);
    }
  }

  /** Issuing the same statements a second time changes nothing: a re-run of
      the collection over the same ids only hits duplicate keys. */
  lemma ApplyIdempotent(t: Tables, events: seq<Event>)
    ensures Apply(Apply(t, events), events) == Apply(t, events)
  {
    ApplyCovers(t, events);
    ApplyCovered(Apply(t, events), events);
  }

  /** Two inserts under one article id: the first row stays. */
  lemma DuplicateArticleExample(t: Tables, first: ArticleRecord, second: ArticleRecord)
    requires first.articleId == second.articleId && first.articleId !in t.articles
    ensures Apply(t, [InsertArticle(first), InsertArticle(second)]).articles[first.articleId] == first
  {
    var events := [InsertArticle(first), InsertArticle(second)];
    assert events[..1] == [InsertArticle(first)];
    assert [InsertArticle(first)][..0] == [];
    var once := Apply(t, [InsertArticle(first)]);
    assert Apply(t, []) == t;
    assert once == Step(Apply(t, []), InsertArticle(first));
    assert once.articles[first.articleId] == first;
    assert Apply(t, events) == Step(once, InsertArticle(second));
  }

  /** The database connection: the rows as the connection sees them, the rows
      the last commit made durable, and every statement issued so far. */
  class Store {
    /** The rows the database held when the connection was opened. */
    ghost const origin: Tables
    var tables: Tables
    var committed: Tables
    var trace: seq<Event>

    /** The rows are those of the origin after every statement issued. */
    ghost predicate Valid()
      reads this
    {
      tables == Apply(origin, trace)
    }

    /** A fresh connection to a database holding `initial`. */
    constructor (initial: Tables)
      ensures Valid() && origin == initial
      ensures tables == initial && committed == initial && trace == []
    {
      origin := initial;
      tables := initial;
      committed := initial;
      trace := [];
    }

    /** `cursor.execute(add_article, row)`; reports whether the key was taken
        (the `IntegrityError`). */
    method ExecuteInsertArticle(row: ArticleRecord) returns (duplicate: bool)
      requires Valid()
      modifies this
      ensures Valid()
      ensures duplicate <==> row.articleId in old(tables.articles)
      ensures tables == Step(old(tables), InsertArticle(row))
      ensures trace == old(trace) + [InsertArticle(row)]
      ensures committed == old(committed)
    {
      duplicate := row.articleId in tables.articles;
      if !duplicate {
        tables := tables.(articles := tables.articles[row.articleId := row]);
      }
      trace := trace + [InsertArticle(row)];
      assert trace[..|trace| - 1] == old(trace);
    }

    /** `cursor.execute(add_comment, row)`; reports whether the key was taken
        (the database error 1062). */
    method ExecuteInsertComment(row: CommentRecord) returns (duplicate: bool)
      requires Valid()
      modifies this
      ensures Valid()
      ensures duplicate <==> row.commentId in old(tables.comments)
      ensures tables == Step(old(tables), InsertComment(row))
      ensures trace == old(trace) + [InsertComment(row)]
      ensures committed == old(committed)
    {
      duplicate := row.commentId in tables.comments;
      if !duplicate {
        tables := tables.(comments := tables.comments[row.commentId := row]);
      }
      trace := trace + [InsertComment(row)];
      assert trace[..|trace| - 1] == old(trace);
    }

    /** `cnx.commit()`: everything issued so far becomes durable. */
    method Commit()
      requires Valid()
      modifies this
      ensures Valid()
      ensures tables == old(tables) && committed == old(tables)
      ensures trace == old(trace) + [Event.Commit]
    {
      committed := tables;
      trace := trace + [Event.Commit];
      assert trace[..|trace| - 1] == old(trace);
    }
  }

  /** The insert statements for a list of comment rows, in order. */
  function CommentInserts(rows: seq<CommentRecord>): (es: seq<Event>)
    ensures |es| == |rows|
  {
    seq(|rows|, k requires 0 <= k < |rows| => InsertComment(rows[k]))
  }

  /** `try_add_article`: the insert, a duplicate tolerated. */
  method TryAddArticle(store: Store, row: ArticleRecord)
    requires store.Valid()
    modifies store
    ensures store.Valid()
    ensures store.trace == old(store.trace) + [InsertArticle(row)]
    ensures store.committed == old(store.committed)
  {
    var _ := store.ExecuteInsertArticle(row);
  }

  /** `try_add_comment`: every row in order, duplicates tolerated. */
  method TryAddComment(store: Store, rows: seq<CommentRecord>)
    requires store.Valid()
    modifies store
    ensures store.Valid()
    ensures store.trace == old(store.trace) + CommentInserts(rows)
    ensures store.committed == old(store.committed)
  {
    var i := 0;
    while i < |rows|
      invariant 0 <= i <= |rows|
      invariant store.Valid()
      invariant store.trace == old(store.trace) + CommentInserts(rows[..i])
      invariant store.committed == old(store.committed)
    {
      var _ := store.ExecuteInsertComment(rows[i]);
      assert CommentInserts(rows[..i + 1]) == CommentInserts(rows[..i]) + [InsertComment(rows[i])];
      i := i + 1;
    }
    assert rows[..i] == rows;
  }

  /** `try_add_db`: the article row, then its comment rows. */
  method TryAddDb(store: Store, row: ArticleRecord, comments: seq<CommentRecord>)
    requires store.Valid()
    modifies store
    ensures store.Valid()
    ensures store.trace == old(store.trace) + [InsertArticle(row)] + CommentInserts(comments)
    ensures store.committed == old(store.committed)
  {
    TryAddArticle(store, row);
    TryAddComment(store, comments);
  }
}
