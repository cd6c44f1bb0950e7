/**
 * The cursor-paginated feed: the `posts` query and the `textSnippet` field of
 * the post resolver.
 *
 * The `post` table is a sequence of rows with integer `createdAt` keys
 * (milliseconds). The SQL query is "keep the rows older than the cursor, order
 * them newest first, take limit+1"; the resolver then returns the first limit
 * rows and reports whether the extra row came back.
 */
module Feed {
  import opened Wrappers
  import Votes

  /** A row of the `post` table. `points` is the aggregate score. */
  datatype Post = Post(id: int, title: string, text: string, points: int, creatorId: int, createdAt: int)

  /** A post as the feed returns it, with the caller's own vote on it (or null). */
  datatype Row = Row(post: Post, voteStatus: Option<int>)

  /** The `PaginatedPosts` result. */
  datatype Page = Page(posts: seq<Row>, hasMore: bool)

  /** The largest page the feed ever returns. */
  const MaxPageSize: nat := 50

  /** The length of a text snippet. */
  const SnippetLength: nat := 100

  // ---------------------------------------------------------------------------
  // Orderings

  predicate NonIncreasing(s: seq<Post>)
  {
    forall i, j :: 0 <= i < j < |s| ==> s[i].createdAt >= s[j].createdAt
  }

  predicate StrictlyDecreasing(s: seq<Post>)
  {
    forall i, j :: 0 <= i < j < |s| ==> s[i].createdAt > s[j].createdAt
  }

  /** No two rows share a creation time. */
  predicate DistinctTimes(s: seq<Post>)
  {
    forall i, j :: 0 <= i < j < |s| ==> s[i].createdAt != s[j].createdAt
  }

  // ---------------------------------------------------------------------------
  // The query

  /** `Math.min(50, limit)`. */
  function RealLimit(limit: nat): (r: nat)
    ensures r <= MaxPageSize && r <= limit
    ensures r == MaxPageSize || r == limit
  {
    if limit < MaxPageSize then limit else MaxPageSize
  }

  /** The `where p."createdAt" < cursor` condition; no cursor keeps every row. */
  predicate Older(cursor: Option<int>, createdAt: int)
  {
    cursor.None? || createdAt < cursor.value
  }

  /** The rows the cursor condition keeps, in table order. */
  function Filter(table: seq<Post>, cursor: Option<int>): (r: seq<Post>)
    ensures |r| <= |table|
  {
    if table == [] then []
    else
      var rest := Filter(table[1..], cursor);
      if Older(cursor, table[0].createdAt) then [table[0]] + rest else rest
  }

  /** A row survives the filter exactly when it is a table row older than the cursor. */
  lemma {:induction false} FilterMembers(table: seq<Post>, cursor: Option<int>, x: Post)
    ensures x in Filter(table, cursor) <==> x in table && Older(cursor, x.createdAt)
  {
    if table != [] {
      FilterMembers(table[1..], cursor, x);
      assert x in table <==> x == table[0] || x in table[1..];
    }
  }

  /** With no cursor (null or empty) the filter keeps every row. */
  lemma {:induction false} FilterNoCursor(table: seq<Post>)
    ensures Filter(table, None) == table
  {
    if table != [] {
      FilterNoCursor(table[1..]);
    }
  }

  /** Filtering keeps creation times distinct. */
  lemma {:induction false} FilterDistinct(table: seq<Post>, cursor: Option<int>)
    requires DistinctTimes(table)
    ensures DistinctTimes(Filter(table, cursor))
  {
    if table != [] {
      var rest := Filter(table[1..], cursor);
      FilterDistinct(table[1..], cursor);
      if Older(cursor, table[0].createdAt) {
        var r := [table[0]] + rest;
        forall i, j | 0 <= i < j < |r| ensures r[i].createdAt != r[j].createdAt {
          if i == 0 {
            assert r[j] in rest;
            FilterMembers(table[1..], cursor, r[j]);
            var k :| 0 <= k < |table[1..]| && table[1..][k] == r[j];
            assert table[k + 1] == r[j];
          } else {
            assert r[i] == rest[i - 1] && r[j] == rest[j - 1];
          }
        }
      }
    }
  }

  /** Puts x in front of the first row no newer than it, so x goes ahead of equal times. */
  function Insert(x: Post, s: seq<Post>): (r: seq<Post>)
    ensures |r| == |s| + 1
  {
    if s == [] || x.createdAt >= s[0].createdAt then [x] + s
    else [s[0]] + Insert(x, s[1..])
  }

  /** Insert adds exactly x. */
  lemma {:induction false} InsertPermutes(x: Post, s: seq<Post>)
    ensures multiset(Insert(x, s)) == multiset(s) + multiset{x}
  {
    if s != [] && x.createdAt < s[0].createdAt {
      InsertPermutes(x, s[1..]);
      assert s == [s[0]] + s[1..];
    }
  }

  /** Every row of Insert(x, s) is x or a row of s. */
  lemma InsertMembers(x: Post, s: seq<Post>, y: Post)
    requires y in Insert(x, s)
    ensures y == x || y in s
  {
    InsertPermutes(x, s);
    assert y in multiset(Insert(x, s));
  }

  /** Inserting into a newest-first sequence keeps it newest first. */
  lemma {:induction false} InsertNonIncreasing(x: Post, s: seq<Post>)
    requires NonIncreasing(s)
    ensures NonIncreasing(Insert(x, s))
  {
    if s != [] && x.createdAt < s[0].createdAt {
      var rest := Insert(x, s[1..]);
      InsertNonIncreasing(x, s[1..]);
      var r := [s[0]] + rest;
      forall i, j | 0 <= i < j < |r| ensures r[i].createdAt >= r[j].createdAt {
        if i == 0 {
          assert r[j] == rest[j - 1];
          InsertMembers(x, s[1..], r[j]);
          if r[j] != x {
            var k :| 1 <= k < |s| && s[k] == r[j];
          }
        } else {
          assert r[i] == rest[i - 1] && r[j] == rest[j - 1];
        }
      }
    }
  }

  /** Inserting a row with a new creation time keeps a sequence strictly decreasing. */
  lemma {:induction false} InsertStrict(x: Post, s: seq<Post>)
    requires StrictlyDecreasing(s)
    requires forall y :: y in s ==> y.createdAt != x.createdAt
    ensures StrictlyDecreasing(Insert(x, s))
  {
    if s != [] && x.createdAt < s[0].createdAt {
      var rest := Insert(x, s[1..]);
      InsertStrict(x, s[1..]);
      var r := [s[0]] + rest;
      forall i, j | 0 <= i < j < |r| ensures r[i].createdAt > r[j].createdAt {
        if i == 0 {
          assert r[j] == rest[j - 1];
          InsertMembers(x, s[1..], r[j]);
          if r[j] != x {
            var k :| 1 <= k < |s| && s[k] == r[j];
          }
        } else {
          assert r[i] == rest[i - 1] && r[j] == rest[j - 1];
        }
      }
    } else if s != [] {
      assert s[0] in s;
      var r := [x] + s;
      forall i, j | 0 <= i < j < |r| ensures r[i].createdAt > r[j].createdAt {
        if i == 0 {
          assert r[j] == s[j - 1];
        } else {
          assert r[i] == s[i - 1] && r[j] == s[j - 1];
        }
      }
    }
  }

  /** `order by p."createdAt" DESC`: the rows, newest first. */
  function SortDesc(s: seq<Post>): (r: seq<Post>)
    ensures |r| == |s|
  {
    if s == [] then [] else Insert(s[0], SortDesc(s[1..]))
  }

  /** The sorted rows are a permutation of the rows. */
  lemma {:induction false} SortDescPermutes(s: seq<Post>)
    ensures multiset(SortDesc(s)) == multiset(s)
  {
    if s != [] {
      SortDescPermutes(s[1..]);
      InsertPermutes(s[0], SortDesc(s[1..]));
      assert s == [s[0]] + s[1..];
    }
  }

  /** Sorting neither adds nor loses a row. */
  lemma SortDescMembers(s: seq<Post>, x: Post)
    ensures x in SortDesc(s) <==> x in s
  {
    SortDescPermutes(s);
    assert x in SortDesc(s) <==> x in multiset(SortDesc(s));
    assert x in s <==> x in multiset(s);
  }

  /** The sorted rows are newest first. */
  lemma {:induction false} SortDescOrdered(s: seq<Post>)
    ensures NonIncreasing(SortDesc(s))
  {
    if s != [] {
      SortDescOrdered(s[1..]);
      InsertNonIncreasing(s[0], SortDesc(s[1..]));
    }
  }

  /** Without ties, the sorted rows are strictly newest first. */
  lemma {:induction false} SortDescStrict(s: seq<Post>)
    requires DistinctTimes(s)
    ensures StrictlyDecreasing(SortDesc(s))
  {
    if s != [] {
      var rest := SortDesc(s[1..]);
      assert DistinctTimes(s[1..]) by {
        forall i, j | 0 <= i < j < |s[1..]| ensures s[1..][i].createdAt != s[1..][j].createdAt {
          assert s[1..][i] == s[i + 1] && s[1..][j] == s[j + 1];
        }
      }
      SortDescStrict(s[1..]);
      forall y | y in rest ensures y.createdAt != s[0].createdAt {
        SortDescMembers(s[1..], y);
        var k :| 0 <= k < |s[1..]| && s[1..][k] == y;
        assert s[k + 1] == y;
      }
      InsertStrict(s[0], rest);
    }
  }

  /** The SQL query with `limit n`: the first n of the sorted, filtered rows. */
  function Fetch(table: seq<Post>, cursor: Option<int>, n: nat): (r: seq<Post>)
    ensures |r| == if n < |Filter(table, cursor)| then n else |Filter(table, cursor)|
    ensures r == SortDesc(Filter(table, cursor))[..|r|]
  {
    var sorted := SortDesc(Filter(table, cursor));
    if n < |sorted| then sorted[..n] else sorted
  }

  /** Every fetched row is a table row older than the cursor, and they come newest first. */
  lemma FetchRows(table: seq<Post>, cursor: Option<int>, n: nat)
    ensures forall x :: x in Fetch(table, cursor, n) ==> x in table && Older(cursor, x.createdAt)
    ensures NonIncreasing(Fetch(table, cursor, n))
  {
    var sorted := SortDesc(Filter(table, cursor));
    var r := Fetch(table, cursor, n);
    SortDescOrdered(Filter(table, cursor));
    forall x | x in r ensures x in table && Older(cursor, x.createdAt) {
      assert x in sorted;
      SortDescMembers(Filter(table, cursor), x);
      FilterMembers(table, cursor, x);
    }
  }

  /** The query returns the newest rows: every matching row it leaves out is no newer than any it returns. */
  lemma FetchNewest(table: seq<Post>, cursor: Option<int>, n: nat)
    ensures var r := Fetch(table, cursor, n);
            forall x :: x in Filter(table, cursor) && x !in r ==>
              forall i :: 0 <= i < |r| ==> x.createdAt <= r[i].createdAt
  {
    var sorted := SortDesc(Filter(table, cursor));
    var r := Fetch(table, cursor, n);
    SortDescOrdered(Filter(table, cursor));
    forall x | x in Filter(table, cursor) && x !in r
      ensures forall i :: 0 <= i < |r| ==> x.createdAt <= r[i].createdAt
    {
      SortDescMembers(Filter(table, cursor), x);
      var k :| 0 <= k < |sorted| && sorted[k] == x;
      assert k >= |r|;
    }
  }

  // ---------------------------------------------------------------------------
  // Vote status

  /**
   * The `voteStatus` column: the caller's own ledger value for the post, or
   * null. A session user id that JavaScript treats as false (0) selects null.
   */
  function VoteStatus(caller: Option<int>, ledger: Votes.Ledger, postId: int): (r: Option<int>)
    ensures caller.None? ==> r.None?
    ensures r.Some? <==> caller.Some? && caller.value != 0 && (caller.value, postId) in ledger
    ensures r.Some? ==> r.value == ledger[(caller.value, postId)]
  {
    if caller.Some? && caller.value != 0 then Votes.Lookup(ledger, caller.value, postId) else None
  }

  /**
   * Each row joined with the caller's vote on it: rows keep their order, a
   * status shown is always the caller's own ledger value for that post, and a
   * non-zero caller's existing vote is always shown.
   */
  function Annotate(s: seq<Post>, caller: Option<int>, ledger: Votes.Ledger): (r: seq<Row>)
    ensures |r| == |s|
    ensures forall i :: 0 <= i < |r| ==> r[i].post == s[i]
    ensures forall i :: 0 <= i < |r| && r[i].voteStatus.Some? ==>
              caller.Some? && (caller.value, s[i].id) in ledger
              && r[i].voteStatus.value == ledger[(caller.value, s[i].id)]
    ensures forall i :: 0 <= i < |r| && caller.Some? && caller.value != 0 && (caller.value, s[i].id) in ledger ==>
              r[i].voteStatus == Some(ledger[(caller.value, s[i].id)])
  {
    seq(|s|, i requires 0 <= i < |s| => Row(s[i], VoteStatus(caller, ledger, s[i].id)))
  }

  // ---------------------------------------------------------------------------
  // The `posts` query

  /** One page of the feed: the first min(50, limit) fetched rows and the `hasMore` flag. */
  function Posts(table: seq<Post>, ledger: Votes.Ledger, limit: nat, cursor: Option<int>, caller: Option<int>)
    : (r: Page)
    ensures |r.posts| <= RealLimit(limit)
    ensures r.hasMore <==> |Filter(table, cursor)| > RealLimit(limit)
  {
    var realLimit := RealLimit(limit);
    var realLimitPlusOne := realLimit + 1;
    var rows := Fetch(table, cursor, realLimitPlusOne);
    var shown := if realLimit < |rows| then rows[..realLimit] else rows;
    Page(Annotate(shown, caller, ledger), |rows| == realLimitPlusOne)
  }

  /** The page in terms of the sorted, filtered rows. */
  lemma PostsShape(table: seq<Post>, ledger: Votes.Ledger, limit: nat, cursor: Option<int>, caller: Option<int>)
    ensures var page := Posts(table, ledger, limit, cursor, caller);
            var s := SortDesc(Filter(table, cursor));
            var n := RealLimit(limit);
            && (page.hasMore <==> |s| > n)
            && page.posts == Annotate(if |s| > n then s[..n] else s, caller, ledger)
  {
    var s := SortDesc(Filter(table, cursor));
    var n := RealLimit(limit);
    var rows := Fetch(table, cursor, n + 1);
    var shown := if n < |rows| then rows[..n] else rows;
    assert Posts(table, ledger, limit, cursor, caller) == Page(Annotate(shown, caller, ledger), |rows| == n + 1);
    assert rows == s[..|rows|];
    if |s| > n {
      assert shown == s[..n];
    } else {
      assert |rows| == |s|;
      assert shown == s;
    }
  }

  /**
   * Page size and `hasMore`: at most min(50, limit) rows, a prefix of the
   * fetched rows; `hasMore` exactly when limit+1 rows were fetched, that is when
   * more rows match the cursor than the page shows; a full page when it is set
   * and every remaining row when it is not.
   */
  lemma PostsBounds(table: seq<Post>, ledger: Votes.Ledger, limit: nat, cursor: Option<int>, caller: Option<int>)
    ensures var page := Posts(table, ledger, limit, cursor, caller);
            var fetched := Fetch(table, cursor, RealLimit(limit) + 1);
            && |page.posts| <= RealLimit(limit)
            && |page.posts| <= |fetched|
            && (forall i :: 0 <= i < |page.posts| ==> page.posts[i].post == fetched[i])
            && (page.hasMore <==> |fetched| == RealLimit(limit) + 1)
            && (page.hasMore <==> |Filter(table, cursor)| > RealLimit(limit))
            && (page.hasMore ==> |page.posts| == RealLimit(limit))
            && (!page.hasMore ==> |page.posts| == |Filter(table, cursor)|)
  {
    var n := RealLimit(limit);
    var fetched := Fetch(table, cursor, n + 1);
    var shown := if n < |fetched| then fetched[..n] else fetched;
    var page := Posts(table, ledger, limit, cursor, caller);
    assert page.posts == Annotate(shown, caller, ledger);
    assert page.hasMore == (|fetched| == n + 1);
    assert |page.posts| == |shown|;
    forall i | 0 <= i < |page.posts| ensures page.posts[i].post == fetched[i] {
      assert page.posts[i].post == shown[i];
    }
  }

  /**
   * Page contents: every row is a table row older than the cursor, rows come
   * newest first, and each carries the caller's own vote on that post.
   */
  lemma PostsRows(table: seq<Post>, ledger: Votes.Ledger, limit: nat, cursor: Option<int>, caller: Option<int>)
    ensures var page := Posts(table, ledger, limit, cursor, caller);
            && (forall i :: 0 <= i < |page.posts| ==>
                  page.posts[i].post in table && Older(cursor, page.posts[i].post.createdAt))
            && (forall i, j :: 0 <= i < j < |page.posts| ==>
                  page.posts[i].post.createdAt >= page.posts[j].post.createdAt)
            && (forall i :: 0 <= i < |page.posts| ==>
                  page.posts[i].voteStatus == VoteStatus(caller, ledger, page.posts[i].post.id))
  {
    var fetched := Fetch(table, cursor, RealLimit(limit) + 1);
    FetchRows(table, cursor, RealLimit(limit) + 1);
    var page := Posts(table, ledger, limit, cursor, caller);
    assert forall i :: 0 <= i < |page.posts| ==> page.posts[i].post == fetched[i];
  }

  // ---------------------------------------------------------------------------
  // Following the cursor

  /** Every row the smaller cursor keeps, the larger one keeps too. */
  lemma {:induction false} FilterMonotone(table: seq<Post>, cursor: Option<int>, c: int)
    requires Older(cursor, c)
    ensures |Filter(table, Some(c))| <= |Filter(table, cursor)|
  {
    if table != [] {
      FilterMonotone(table[1..], cursor, c);
    }
  }

  /** Moving the cursor to a kept row's time drops at least that row. */
  lemma {:induction false} FilterShrinks(table: seq<Post>, cursor: Option<int>, y: Post)
    requires y in table && Older(cursor, y.createdAt)
    ensures |Filter(table, Some(y.createdAt))| < |Filter(table, cursor)|
  {
    if table[0] == y {
      FilterMonotone(table[1..], cursor, y.createdAt);
    } else {
      FilterShrinks(table[1..], cursor, y);
    }
  }

  /** The cursor taken from the k-th newest matching row matches fewer rows. */
  lemma SortedCursorShrinks(table: seq<Post>, cursor: Option<int>, k: nat)
    requires 1 <= k <= |SortDesc(Filter(table, cursor))|
    ensures |Filter(table, Some(SortDesc(Filter(table, cursor))[k - 1].createdAt))| < |Filter(table, cursor)|
  {
    var s := SortDesc(Filter(table, cursor));
    assert s[k - 1] in s;
    SortDescMembers(Filter(table, cursor), s[k - 1]);
    FilterMembers(table, cursor, s[k - 1]);
    FilterShrinks(table, cursor, s[k - 1]);
  }

  /**
   * When `hasMore` is set the page is full and not empty, and the cursor taken
   * from its last row matches fewer rows than the cursor that produced it.
   */
  lemma NextCursorShrinks(table: seq<Post>, ledger: Votes.Ledger, limit: nat, cursor: Option<int>, caller: Option<int>)
    requires limit >= 1
    requires Posts(table, ledger, limit, cursor, caller).hasMore
    ensures var page := Posts(table, ledger, limit, cursor, caller);
            && |page.posts| == RealLimit(limit) >= 1
            && page.posts[|page.posts| - 1].post == SortDesc(Filter(table, cursor))[RealLimit(limit) - 1]
            && |Filter(table, Some(page.posts[|page.posts| - 1].post.createdAt))| < |Filter(table, cursor)|
  {
    var s := SortDesc(Filter(table, cursor));
    var n := RealLimit(limit);
    var page := Posts(table, ledger, limit, cursor, caller);
    PostsShape(table, ledger, limit, cursor, caller);
    assert page.posts == Annotate(s[..n], caller, ledger);
    assert page.posts[n - 1].post == s[n - 1];
    SortedCursorShrinks(table, cursor, n);
  }

  /**
   * A client that starts at `cursor` and keeps asking for the next page, with
   * the `createdAt` of the last row shown as the new cursor, until `hasMore`
   * is false: the concatenation of the pages it sees.
   */
  function Chain(table: seq<Post>, ledger: Votes.Ledger, limit: nat, cursor: Option<int>, caller: Option<int>)
    : seq<Row>
    requires limit >= 1
    decreases |Filter(table, cursor)|
  {
    var page := Posts(table, ledger, limit, cursor, caller);
    if !page.hasMore then page.posts
    else
      NextCursorShrinks(table, ledger, limit, cursor, caller);
      var next := Some(page.posts[|page.posts| - 1].post.createdAt);
      page.posts + Chain(table, ledger, limit, next, caller)
  }

  /** A strictly decreasing sequence holds its first row once. */
  lemma StrictTail(a: seq<Post>, x: Post)
    requires StrictlyDecreasing(a) && a != []
    ensures x in a[1..] <==> x in a && x != a[0]
  {
    if x in a[1..] {
      var k :| 0 <= k < |a[1..]| && a[1..][k] == x;
      assert a[k + 1] == x;
    }
    assert x in a ==> x == a[0] || x in a[1..] by {
      if x in a {
        var k :| 0 <= k < |a| && a[k] == x;
        if k > 0 {
          assert a[1..][k - 1] == x;
        }
      }
    }
  }

  /** Two newest-first sequences without ties that hold the same rows are equal. */
  lemma {:induction false} StrictlyDecreasingUnique(a: seq<Post>, b: seq<Post>)
    requires StrictlyDecreasing(a) && StrictlyDecreasing(b)
    requires forall x :: x in a <==> x in b
    ensures a == b
  {
    if a != [] {
      assert a[0] in a;
    }
    if b != [] {
      assert b[0] in b;
    }
    if a != [] && b != [] {
      var i :| 0 <= i < |a| && a[i] == b[0];
      var j :| 0 <= j < |b| && b[j] == a[0];
      assert a[0].createdAt >= a[i].createdAt;
      assert b[0].createdAt >= b[j].createdAt;
      assert i == 0;
      forall x ensures x in a[1..] <==> x in b[1..] {
        StrictTail(a, x);
        StrictTail(b, x);
      }
      StrictlyDecreasingUnique(a[1..], b[1..]);
      assert a == [a[0]] + a[1..] && b == [b[0]] + b[1..];
    }
  }

  /** A row is older than the k-th newest matching row exactly when it comes after it. */
  lemma RestMembers(table: seq<Post>, cursor: Option<int>, k: nat, x: Post)
    requires 1 <= k <= |SortDesc(Filter(table, cursor))|
    requires StrictlyDecreasing(SortDesc(Filter(table, cursor)))
    ensures var s := SortDesc(Filter(table, cursor));
            x in SortDesc(Filter(table, Some(s[k - 1].createdAt))) <==> x in s[k..]
  {
    var s := SortDesc(Filter(table, cursor));
    var c := s[k - 1].createdAt;
    assert s[k - 1] in s;
    SortDescMembers(Filter(table, cursor), s[k - 1]);
    FilterMembers(table, cursor, s[k - 1]);
    SortDescMembers(Filter(table, cursor), x);
    FilterMembers(table, cursor, x);
    SortDescMembers(Filter(table, Some(c)), x);
    FilterMembers(table, Some(c), x);
    if x in s[k..] {
      var j :| 0 <= j < |s[k..]| && s[k..][j] == x;
      assert s[k + j] == x;
    }
    if x in s && x.createdAt < c {
      var j :| 0 <= j < |s| && s[j] == x;
      assert j >= k;
      assert s[k..][j - k] == x;
    }
  }

  /**
   * Without ties, the rows older than the k-th newest row are exactly the rows
   * after the first k.
   */
  lemma NextPageIsRest(table: seq<Post>, cursor: Option<int>, k: nat)
    requires DistinctTimes(table)
    requires 1 <= k <= |SortDesc(Filter(table, cursor))|
    ensures var s := SortDesc(Filter(table, cursor));
            SortDesc(Filter(table, Some(s[k - 1].createdAt))) == s[k..]
  {
    var s := SortDesc(Filter(table, cursor));
    var c := s[k - 1].createdAt;
    var a := SortDesc(Filter(table, Some(c)));
    FilterDistinct(table, cursor);
    FilterDistinct(table, Some(c));
    SortDescStrict(Filter(table, cursor));
    SortDescStrict(Filter(table, Some(c)));
    forall x ensures x in a <==> x in s[k..] {
      RestMembers(table, cursor, k, x);
    }
    StrictlyDecreasingUnique(a, s[k..]);
  }

  /** Annotating distributes over a split of the rows. */
  lemma AnnotateSplit(s: seq<Post>, n: nat, caller: Option<int>, ledger: Votes.Ledger)
    requires n <= |s|
    ensures Annotate(s, caller, ledger) == Annotate(s[..n], caller, ledger) + Annotate(s[n..], caller, ledger)
  {
  }

  /** When more rows match than a page holds, the client shows a full page and moves on. */
  lemma ChainNext(table: seq<Post>, ledger: Votes.Ledger, limit: nat, cursor: Option<int>, caller: Option<int>)
    requires limit >= 1
    requires |SortDesc(Filter(table, cursor))| > RealLimit(limit)
    ensures var s := SortDesc(Filter(table, cursor));
            var n := RealLimit(limit);
            && 1 <= n
            && |Filter(table, Some(s[n - 1].createdAt))| < |Filter(table, cursor)|
            && Chain(table, ledger, limit, cursor, caller)
               == Annotate(s[..n], caller, ledger) + Chain(table, ledger, limit, Some(s[n - 1].createdAt), caller)
  {
    PostsShape(table, ledger, limit, cursor, caller);
    NextCursorShrinks(table, ledger, limit, cursor, caller);
  }

  /** When every matching row fits on one page, the client stops after it. */
  lemma ChainLast(table: seq<Post>, ledger: Votes.Ledger, limit: nat, cursor: Option<int>, caller: Option<int>)
    requires limit >= 1
    requires |SortDesc(Filter(table, cursor))| <= RealLimit(limit)
    ensures Chain(table, ledger, limit, cursor, caller) == Annotate(SortDesc(Filter(table, cursor)), caller, ledger)
  {
    PostsShape(table, ledger, limit, cursor, caller);
  }

  /**
   * Completeness of cursor paging: when no two posts share a creation time,
   * following the cursors from any starting cursor yields every post older than
   * it exactly once, newest first, each with the caller's vote.
   */
  lemma {:induction false} ChainComplete(table: seq<Post>, ledger: Votes.Ledger, limit: nat, cursor: Option<int>, caller: Option<int>)
    requires limit >= 1 && DistinctTimes(table)
    ensures Chain(table, ledger, limit, cursor, caller)
         == Annotate(SortDesc(Filter(table, cursor)), caller, ledger)
    decreases |Filter(table, cursor)|
  {
    var s := SortDesc(Filter(table, cursor));
    var n := RealLimit(limit);
    if |s| > n {
      ChainNext(table, ledger, limit, cursor, caller);
      var next := Some(s[n - 1].createdAt);
      ChainComplete(table, ledger, limit, next, caller);
      NextPageIsRest(table, cursor, n);
      AnnotateSplit(s, n, caller, ledger);
    } else {
      ChainLast(table, ledger, limit, cursor, caller);
    }
  }

  /**
   * The strict `<` on the cursor loses rows when two posts share a creation
   * time and a page ends between them: two posts at the same millisecond,
   * pages of one, and only one post is ever shown.
   */
  lemma TiedTimestampsSkipped()
    ensures var a := Post(1, "a", "", 0, 1, 5);
            var b := Post(2, "b", "", 0, 1, 5);
            |Chain([a, b], map[], 1, None, None)| == 1
  {
    var a := Post(1, "a", "", 0, 1, 5);
    var b := Post(2, "b", "", 0, 1, 5);
    var t := [a, b];
    FilterNoCursor(t);
    assert SortDesc(t) == [a, b] by {
      assert t[1..] == [b];
    }
    ChainNext(t, map[], 1, None, None);
    assert Filter(t, Some(5)) == [] by {
      assert t[1..] == [b];
    }
    ChainLast(t, map[], 1, Some(5), None);
  }

  /** Three rows in table order t1 < t2 < t3 sort to t3, t2, t1. */
  lemma SortThree(p1: Post, p2: Post, p3: Post)
    requires p1.createdAt < p2.createdAt < p3.createdAt
    ensures SortDesc([p1, p2, p3]) == [p3, p2, p1]
  {
    assert [p3][1..] == [];
    assert SortDesc([p3]) == Insert(p3, []) == [p3];
    assert [p2, p3][1..] == [p3];
    assert Insert(p2, []) == [p2];
    assert Insert(p2, [p3]) == [p3] + Insert(p2, []);
    assert SortDesc([p2, p3]) == Insert(p2, [p3]) == [p3, p2];
    assert [p1, p2, p3][1..] == [p2, p3];
    assert SortDesc([p1, p2, p3]) == Insert(p1, [p3, p2]);
    assert Insert(p1, []) == [p1];
    assert [p2][1..] == [];
    assert Insert(p1, [p2]) == [p2] + Insert(p1, []);
    assert [p3, p2][1..] == [p2];
    assert Insert(p1, [p3, p2]) == [p3] + Insert(p1, [p2]);
  }

  /** Of three rows t1 < t2 < t3, only t1 is older than t2. */
  lemma FilterThree(p1: Post, p2: Post, p3: Post)
    requires p1.createdAt < p2.createdAt < p3.createdAt
    ensures Filter([p1, p2, p3], Some(p2.createdAt)) == [p1]
  {
    var c := Some(p2.createdAt);
    assert [p3][1..] == [];
    assert Filter([p3], c) == [];
    assert [p2, p3][1..] == [p3];
    assert Filter([p2, p3], c) == [];
    assert [p1, p2, p3][1..] == [p2, p3];
  }

  /**
   * Three posts at t1 < t2 < t3, pages of two: the first page is t3, t2 with
   * more to come; the page after cursor t2 is t1 alone, with nothing more.
   */
  lemma ThreePostsTwoPages(p1: Post, p2: Post, p3: Post, ledger: Votes.Ledger, caller: Option<int>)
    requires p1.createdAt < p2.createdAt < p3.createdAt
    ensures var first := Posts([p1, p2, p3], ledger, 2, None, caller);
            && first.hasMore
            && |first.posts| == 2 && first.posts[0].post == p3 && first.posts[1].post == p2
    ensures var second := Posts([p1, p2, p3], ledger, 2, Some(p2.createdAt), caller);
            && !second.hasMore
            && |second.posts| == 1 && second.posts[0].post == p1
  {
    var t := [p1, p2, p3];
    FilterNoCursor(t);
    SortThree(p1, p2, p3);
    FilterThree(p1, p2, p3);
    PostsShape(t, ledger, 2, None, caller);
    PostsShape(t, ledger, 2, Some(p2.createdAt), caller);
    assert SortDesc([p1]) == [p1];
  }

  /** Whatever the limit, no page holds more than 50 posts. */
  lemma PageNeverExceedsMax(table: seq<Post>, ledger: Votes.Ledger, limit: nat, cursor: Option<int>, caller: Option<int>)
    ensures |Posts(table, ledger, limit, cursor, caller).posts| <= MaxPageSize
  {
  }

  /**
   * The feed shows only the caller's own votes: ledgers that agree on the
   * caller's entries give the same page, whatever other users voted.
   */
  lemma {:induction false} PostsIgnoreOtherVoters(table: seq<Post>, l1: Votes.Ledger, l2: Votes.Ledger, limit: nat, cursor: Option<int>, caller: Option<int>)
    requires caller.Some? ==>
               forall p :: Votes.Lookup(l1, caller.value, p) == Votes.Lookup(l2, caller.value, p)
    ensures Posts(table, l1, limit, cursor, caller) == Posts(table, l2, limit, cursor, caller)
  {
    var p1 := Posts(table, l1, limit, cursor, caller);
    var p2 := Posts(table, l2, limit, cursor, caller);
    assert |p1.posts| == |p2.posts|;
    forall i | 0 <= i < |p1.posts| ensures p1.posts[i] == p2.posts[i] {
      if caller.Some? {
        assert Votes.Lookup(l1, caller.value, p1.posts[i].post.id)
            == Votes.Lookup(l2, caller.value, p1.posts[i].post.id);
      }
    }
  }

  /**
   * After a user votes on a post, the feed shows that user the unit vote they
   * cast on it (session ids are positive).
   */
  lemma VoteShowsInFeed(s: Votes.Tables, postId: int, userId: int, value: int)
    requires userId != 0
    ensures VoteStatus(Some(userId), Votes.Apply(s, postId, userId, value).ledger, postId)
         == Some(Votes.Normalize(value))
  {
    Votes.StoredVoteIsUnit(s, postId, userId, value);
  }

  // ---------------------------------------------------------------------------
  // textSnippet

  /** `text.slice(0, 100)`: the text's first 100 characters, or all of it. */
  function TextSnippet(text: string): (r: string)
    ensures |r| == if |text| < SnippetLength then |text| else SnippetLength
    ensures r == text[..|r|]
  {
    if |text| <= SnippetLength then text else text[..SnippetLength]
  }

  /** A snippet of a snippet is the same snippet; short texts are their own snippet. */
  lemma SnippetIdempotent(text: string)
    ensures TextSnippet(TextSnippet(text)) == TextSnippet(text)
    ensures |text| <= SnippetLength ==> TextSnippet(text) == text
  {
  }
}
