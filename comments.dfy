/** The comments of an article: the comment-list payload is a forest of
    comments, each with its replies keyed by id; it is flattened in pre-order
    (each comment, then all its replies, siblings in payload order) into the
    rows written to the `comments` table, with non-ASCII characters dropped
    from the content. */
module Comments {
  import opened Wrappers
  import opened PyStr

  /** One comment of the payload; `children` holds its replies as (key, comment)
      pairs in the payload's own order. */
  datatype Node = Node(id: int, userId: int, createdOn: string, content: string,
                       parentId: Option<int>, discussionId: int, children: seq<(string, Node)>)

  /** `Comment`: a payload comment together with the id of its article. */
  datatype Comment = Comment(articleId: string, payload: Node)
  {
    /** `Comment.date`: the first ten characters of `created_on`. */
    function Date(): (d: string)
      ensures d <= payload.createdOn
      ensures |d| == if |payload.createdOn| < 10 then |payload.createdOn| else 10
    {
      Prefix(payload.createdOn, 10)
    }

    /** `Comment.json()`. */
    function Json(): CommentRecord
    {
      CommentRecord(articleId, payload.id, payload.userId, Date(), AsciiOnly(payload.content),
                    payload.parentId, payload.discussionId)
    }
  }

  /** The row written to the `comments` table. */
  datatype CommentRecord = CommentRecord(articleId: string, commentId: int, userId: int,
                                         commentDate: string, content: string,
                                         parentId: Option<int>, discussionId: int)

  /** What the comment endpoint answered: its status, and the value of the
      `comments` key of its JSON body, None where the body is not JSON or has no
      such key. */
  datatype CommentsResponse = CommentsResponse(status: int, comments: Option<seq<(string, Node)>>)

  /** `json.loads(r.text)['comments']` raised. */
  datatype CommentsError = MalformedPayload

  // ---------------------------------------------------------------------------
  // Pre-order flattening
  // ---------------------------------------------------------------------------

  /** `n` followed by all its descendants in pre-order. */
  function Flatten(n: Node): seq<Node>
    decreases n, 1
  {
    [n] + Replies(n, |n.children|)
  }

  /** The flattened subtrees of the first `k` replies of `n`, in order. */
  function Replies(n: Node, k: nat): seq<Node>
    requires k <= |n.children|
    decreases n, 0, k
  {
    if k == 0 then [] else Replies(n, k - 1) + Flatten(n.children[k - 1].1)
  }

  /** Every descendant of `n`, as `Comment.get_children` lists them. */
  function Descendants(n: Node): seq<Node>
  {
    Replies(n, |n.children|)
  }

  /** The flattened trees of the first `k` top-level comments, in order. */
  function Forest(roots: seq<(string, Node)>, k: nat): seq<Node>
    requires k <= |roots|
  {
    if k == 0 then [] else Forest(roots, k - 1) + Flatten(roots[k - 1].1)
  }

  /** The number of comments in the tree of `n`, counted independently of any order. */
  function Size(n: Node): nat
    decreases n, 1
  {
    1 + RepliesSize(n, |n.children|)
  }

  function RepliesSize(n: Node, k: nat): nat
    requires k <= |n.children|
    decreases n, 0, k
  {
    if k == 0 then 0 else RepliesSize(n, k - 1) + Size(n.children[k - 1].1)
  }

  /** The number of comments in the first `k` top-level trees. */
  function ForestSize(roots: seq<(string, Node)>, k: nat): nat
    requires k <= |roots|
  {
    if k == 0 then 0 else ForestSize(roots, k - 1) + Size(roots[k - 1].1)
  }

  /** `m` is `n` or lies in the tree of one of its replies. */
  ghost predicate InTree(m: Node, n: Node)
    decreases n
  {
    m == n || exists i :: 0 <= i < |n.children| && InTree(m, n.children[i].1)
  }

  /** Flattening lists as many comments as the tree holds. */
  lemma {:induction false} FlattenSize(n: Node)
    ensures |Flatten(n)| == Size(n)
    decreases n, 1
  {
    RepliesSizeMatches(n, |n.children|);
  }

  lemma {:induction false} RepliesSizeMatches(n: Node, k: nat)
    requires k <= |n.children|
    ensures |Replies(n, k)| == RepliesSize(n, k)
    decreases n, 0, k
  {
    if k > 0 {
      RepliesSizeMatches(n, k - 1);
      FlattenSize(n.children[k - 1].1);
    }
  }

  /** Flattening the top-level trees lists as many comments as they hold. */
  lemma {:induction false} ForestSizeMatches(roots: seq<(string, Node)>, k: nat)
    requires k <= |roots|
    ensures |Forest(roots, k)| == ForestSize(roots, k)
  {
    if k > 0 {
      ForestSizeMatches(roots, k - 1);
      FlattenSize(roots[k - 1].1);
    }
  }

  /** Flattening lists exactly the comments of the tree. */
  lemma {:induction false} FlattenMembers(n: Node, m: Node)
    ensures m in Flatten(n) <==> InTree(m, n)
    decreases n, 1
  {
    RepliesMembers(n, |n.children|, m);
  }

  lemma {:induction false} RepliesMembers(n: Node, k: nat, m: Node)
    requires k <= |n.children|
    ensures m in Replies(n, k) <==> exists i :: 0 <= i < k && InTree(m, n.children[i].1)
    decreases n, 0, k
  {
    if k > 0 {
      RepliesMembers(n, k - 1, m);
      var c := n.children[k - 1].1;
      FlattenMembers(c, m);
      if m in Replies(n, k) {
        if m !in Replies(n, k - 1) {
          assert InTree(m, n.children[k - 1].1);
        }
      } else {
        forall i | 0 <= i < k ensures !InTree(m, n.children[i].1) {
          if i == k - 1 {
            assert m !in Flatten(c);
          } else {
            assert m !in Replies(n, k - 1);
          }
        }
      }
    }
  }

  /** Pre-order: every comment in the flattened list is immediately followed by
      all of its own descendants, which is its own flattened tree. */
  lemma {:induction false} PreOrder(n: Node, i: nat)
    requires i < |Flatten(n)|
    ensures i + |Flatten(Flatten(n)[i])| <= |Flatten(n)|
    ensures Flatten(n)[i..i + |Flatten(Flatten(n)[i])|] == Flatten(Flatten(n)[i])
    decreases n, 1
  {
    var f := Flatten(n);
    if i == 0 {
      assert f[0..|f|] == f;
    } else {
      var rs := Replies(n, |n.children|);
      assert f == [n] + rs;
      assert f[i] == rs[i - 1];
      RepliesPreOrder(n, |n.children|, i - 1);
      var len := |Flatten(rs[i - 1])|;
      assert f[i..i + len] == rs[i - 1..i - 1 + len];
    }
  }

  lemma {:induction false} RepliesPreOrder(n: Node, k: nat, j: nat)
    requires k <= |n.children| && j < |Replies(n, k)|
    ensures j + |Flatten(Replies(n, k)[j])| <= |Replies(n, k)|
    ensures Replies(n, k)[j..j + |Flatten(Replies(n, k)[j])|] == Flatten(Replies(n, k)[j])
    decreases n, 0, k
  {
    var before := Replies(n, k - 1);
    var c := n.children[k - 1].1;
    var f := Replies(n, k);
    assert f == before + Flatten(c);
    if j < |before| {
      RepliesPreOrder(n, k - 1, j);
      var len := |Flatten(before[j])|;
      assert f[j] == before[j];
      assert f[j..j + len] == before[j..j + len];
    } else {
      var d := j - |before|;
      PreOrder(c, d);
      var len := |Flatten(Flatten(c)[d])|;
      assert f[j] == Flatten(c)[d];
      assert f[j..j + len] == Flatten(c)[d..d + len];
    }
  }

  /** Siblings keep the payload's order: the replies before the `k`-th come
      first, then the `k`-th reply's own tree. */
  lemma {:induction false} RepliesPrefix(n: Node, k: nat, k': nat)
    requires k <= k' <= |n.children|
    ensures Replies(n, k) <= Replies(n, k')
    decreases k' - k
  {
    if k < k' {
      RepliesPrefix(n, k, k' - 1);
    }
  }

  /** In the flattened tree, the `k`-th reply sits right after its older
      siblings' trees, followed by its own descendants. */
  lemma {:induction false} ReplyPosition(n: Node, k: nat)
    requires k < |n.children|
    ensures var at := 1 + |Replies(n, k)|;
            var c := n.children[k].1;
            && at + |Flatten(c)| <= |Flatten(n)|
            && Flatten(n)[at..at + |Flatten(c)|] == Flatten(c)
  {
    var c := n.children[k].1;
    RepliesPrefix(n, k + 1, |n.children|);
    var rs := Replies(n, |n.children|);
    assert Replies(n, k + 1) == Replies(n, k) + Flatten(c);
    var at := 1 + |Replies(n, k)|;
    assert Flatten(n)[at..at + |Flatten(c)|] == rs[at - 1..at - 1 + |Flatten(c)|];
    assert rs[..|Replies(n, k + 1)|] == Replies(n, k + 1);
  }

  /** An example: a comment A with replies B and C, B with reply D,
      flattens to A, B, D, C. */
  lemma FlattenExample(a: Node, b: Node, c: Node, d: Node, kb: string, kc: string, kd: string)
    requires b.children == [(kd, d)] && d.children == [] && c.children == []
    requires a.children == [(kb, b), (kc, c)]
    ensures Flatten(a) == [a, b, d, c]
  {
    assert Flatten(d) == [d];
    assert Flatten(c) == [c];
    assert Replies(b, 1) == Replies(b, 0) + Flatten(d) == [d];
    assert Flatten(b) == [b, d];
    assert Replies(a, 1) == [b, d];
    assert Replies(a, 2) == Replies(a, 1) + Flatten(c);
  }

  // ---------------------------------------------------------------------------
  // Comment.get_children and get_comment_jsons
  // ---------------------------------------------------------------------------

  /** The comments of `ns`, all of article `articleId`. */
  function InArticle(articleId: string, ns: seq<Node>): (cs: seq<Comment>)
    ensures |cs| == |ns|
  {
    seq(|ns|, i requires 0 <= i < |ns| => Comment(articleId, ns[i]))
  }

  /** `map(lambda x: x.json(), cs)`. */
  function JsonAll(cs: seq<Comment>): (rs: seq<CommentRecord>)
    ensures |rs| == |cs|
  {
    seq(|cs|, i requires 0 <= i < |cs| => cs[i].Json())
  }

  /** `Comment.get_children`: every descendant of the comment, in pre-order. */
  method GetChildren(c: Comment) returns (children: seq<Comment>)
    ensures children == InArticle(c.articleId, Descendants(c.payload))
    decreases c.payload
  {
    var n := c.payload;
    children := [];
    var i := 0;
    while i < |n.children|
      invariant 0 <= i <= |n.children|
      invariant children == InArticle(c.articleId, Replies(n, i))
    {
      var child := Comment(c.articleId, n.children[i].1);
      var grand := GetChildren(child);
      children := children + [child] + grand;
      assert Replies(n, i + 1) == Replies(n, i) + ([child.payload] + Descendants(child.payload));
      i := i + 1;
    }
  }

  /** The rows `get_comment_jsons` returns: none for a 404, an exception for a
      payload that is not the expected JSON, else one row per comment of every
      top-level tree, each tree in pre-order, the trees in payload order. */
  function CommentJsons(articleId: string, response: CommentsResponse): Result<seq<CommentRecord>, CommentsError>
  {
    if response.status == 404 then Ok([])
    else match response.comments
      case None => Err(MalformedPayload)
      case Some(roots) => Ok(JsonAll(InArticle(articleId, Forest(roots, |roots|))))
  }

  /** `get_comment_jsons`, over the response already fetched. */
  method GetCommentJsons(articleId: string, response: CommentsResponse)
    returns (result: Result<seq<CommentRecord>, CommentsError>)
    ensures result == CommentJsons(articleId, response)
  {
    if response.status == 404 {
      return Ok([]);
    }
    if response.comments.None? {
      return Err(MalformedPayload);
    }
    var roots := response.comments.value;
    var comments := [];
    var i := 0;
    while i < |roots|
      invariant 0 <= i <= |roots|
      invariant comments == JsonAll(InArticle(articleId, Forest(roots, i)))
    {
      var c := Comment(articleId, roots[i].1);
      comments := comments + [c.Json()];
      var children := GetChildren(c);
      comments := comments + JsonAll(children);
      assert Forest(roots, i + 1) == Forest(roots, i) + ([c.payload] + Descendants(c.payload));
      i := i + 1;
    }
    return Ok(comments);
  }

  /** A 404 gives no rows, an unreadable payload raises, and a readable one
      gives exactly one row per comment of its trees, every row of the
      article asked for, every content below code point 128. */
  lemma CommentJsonsRows(articleId: string, response: CommentsResponse)
    ensures response.status == 404 ==> CommentJsons(articleId, response) == Ok([])
    ensures response.status != 404 && response.comments.None? ==> CommentJsons(articleId, response).Err?
    ensures response.status != 404 && response.comments.Some? ==>
              var roots := response.comments.value;
              CommentJsons(articleId, response).Ok? &&
              |CommentJsons(articleId, response).value| == ForestSize(roots, |roots|)
    ensures CommentJsons(articleId, response).Ok? ==>
              forall r :: r in CommentJsons(articleId, response).value ==>
                r.articleId == articleId && forall i :: 0 <= i < |r.content| ==> r.content[i] as int < 128
  {
    if response.status != 404 && response.comments.Some? {
      var roots := response.comments.value;
      ForestSizeMatches(roots, |roots|);
    }
  }
}
