/** The listing rules the order and user repositories share: page and limit
    normalisation, the row offset of a page, the `LIMIT … OFFSET …` window,
    and the `ORDER BY created_at DESC` arrangement of a table's rows. */
module Paging {
  import opened Common

  /** The limit a non-positive request limit is replaced with. */
  const DefaultLimit: int := 10

  /** `page < 1` becomes 1. */
  function NormalizePage(page: int): (p: int)
    ensures p >= 1
    ensures page >= 1 ==> p == page
    ensures page < 1 ==> p == 1
  {
    if page < 1 then 1 else page
  }

  /** `limit < 1` becomes the default limit. */
  function NormalizeLimit(limit: int): (l: int)
    ensures l >= 1
    ensures limit >= 1 ==> l == limit
    ensures limit < 1 ==> l == DefaultLimit
  {
    if limit < 1 then DefaultLimit else limit
  }

  /** Normalising twice is normalising once: a request that is already
      normal is served as it stands. */
  lemma NormalizeIdempotent(page: int, limit: int)
    ensures NormalizePage(NormalizePage(page)) == NormalizePage(page)
    ensures NormalizeLimit(NormalizeLimit(limit)) == NormalizeLimit(limit)
  {
  }

  /** The number of rows that precede page `page` when every page holds
      `limit` rows, computed without overflow: exactly `page - 1` whole
      pages lie before it. */
  function Offset(page: int, limit: int): (o: int)
    requires page >= 1 && limit >= 1
    ensures o >= 0
    ensures page == 1 ==> o == 0
  {
    (page - 1) * limit
  }

  /** Consecutive pages are adjacent windows: page `page + 1` starts exactly
      `limit` rows after page `page`, so the pages tile the arranged rows. */
  lemma PagesAdjacent(page: int, limit: int)
    requires page >= 1 && limit >= 1
    ensures Offset(page + 1, limit) == Offset(page, limit) + limit
  {
  }

  /** The offset as the Go code computes it: `(page - 1) * limit` in int32
      arithmetic, which wraps around for large pages. */
  function OffsetAsWritten(page: int, limit: int): (o: int)
    requires 1 <= page < 0x8000_0000 && 1 <= limit < 0x8000_0000
    ensures -0x8000_0000 <= o < 0x8000_0000
    ensures (o - (page - 1) * limit) % 0x1_0000_0000 == 0
  {
    Wrap32((page - 1) * limit)
  }

  /** With page 1073741825 and limit 4 the int32 product wraps to 0, so the
      query asks for the first page instead of rows 4294967296 onwards. */
  lemma OffsetWrapsToFirstPage()
    ensures OffsetAsWritten(1073741825, 4) == 0
    ensures Offset(1073741825, 4) == 4294967296
  {
  }

  /** With page 1073741825 and limit 2 the product wraps to a negative
      offset, which the database refuses, so the listing fails. */
  lemma OffsetWrapsNegative()
    ensures OffsetAsWritten(1073741825, 2) < 0
    ensures Offset(1073741825, 2) > 0
  {
  }

  /** The `LIMIT limit OFFSET offset` window of an arranged result. */
  function Window<T>(s: seq<T>, offset: nat, limit: nat): (w: seq<T>)
    ensures |w| == if offset >= |s| then 0 else if |s| - offset < limit then |s| - offset else limit
    ensures forall i :: 0 <= i < |w| ==> w[i] == s[offset + i]
  {
    if offset >= |s| then []
    else if offset + limit >= |s| then s[offset..]
    else s[offset..offset + limit]
  }

  ghost predicate Distinct<T>(s: seq<T>) {
    forall i, j :: 0 <= i < j < |s| ==> s[i] != s[j]
  }

  /** `ids` are rows of the table and appear in non-increasing `created_at`
      order; ties may come in any order. */
  ghost predicate NewestFirst(ids: seq<int>, created: map<int, int>) {
    && (forall i :: 0 <= i < |ids| ==> ids[i] in created)
    && (forall i, j :: 0 <= i < j < |ids| ==> created[ids[i]] >= created[ids[j]])
  }

  /** A distinct sequence has as many elements as the set of its elements. */
  lemma {:induction false} DistinctCardinality<T>(s: seq<T>)
    requires Distinct(s)
    ensures |set x | x in s| == |s|
  {
    if s != [] {
      var tail := s[1..];
      assert Distinct(tail) by {
        forall i, j | 0 <= i < j < |tail| ensures tail[i] != tail[j] {
          assert tail[i] == s[i + 1] && tail[j] == s[j + 1];
        }
      }
      DistinctCardinality(tail);
      assert forall x :: x in tail ==> x != s[0] by {
        forall x | x in tail ensures x != s[0] {
          var k :| 0 <= k < |tail| && tail[k] == x;
          assert s[k + 1] == x;
        }
      }
      assert (set x | x in s) == (set x | x in tail) + {s[0]};
    }
  }

  /** Two distinct arrangements of the same rows have the same length. */
  lemma SameRowsSameCount<T>(s: seq<T>, t: seq<T>)
    requires Distinct(s) && Distinct(t)
    requires forall x :: x in s <==> x in t
    ensures |s| == |t|
  {
    DistinctCardinality(s);
    DistinctCardinality(t);
    assert (set x | x in s) == (set x | x in t);
  }

  /** Some element of a non-empty set: the next row a cursor yields. */
  method AnyOf(s: set<int>) returns (x: int)
    requires s != {}
    ensures x in s
  {
    if forall y :: y !in s {
      assert false;
    }
    x :| x in s;
  }

  /** A row of `rest` with the latest `created_at`. */
  method PickNewest(created: map<int, int>, rest: set<int>) returns (x: int)
    requires rest != {} && rest <= created.Keys
    ensures x in rest
    ensures forall y :: y in rest ==> created[y] <= created[x]
  {
    x := AnyOf(rest);
    var todo := rest - {x};
    while todo != {}
      invariant todo <= rest && x in rest
      invariant forall y :: y in rest && y !in todo ==> created[y] <= created[x]
      decreases |todo|
    {
      var y := AnyOf(todo);
      if created[y] > created[x] {
        x := y;
      }
      todo := todo - {y};
    }
  }

  /** The rows `keys` arranged newest first: the order `ORDER BY created_at
      DESC` produces, each row exactly once. */
  method RankNewestFirst(created: map<int, int>, keys: set<int>) returns (ranked: seq<int>)
    requires keys <= created.Keys
    ensures forall i :: 0 <= i < |ranked| ==> ranked[i] in keys
    ensures forall k :: k in keys ==> k in ranked
    ensures Distinct(ranked) && |ranked| == |keys|
    ensures NewestFirst(ranked, created)
  {
    ranked := [];
    var rest := keys;
    while rest != {}
      invariant rest <= keys
      invariant forall i :: 0 <= i < |ranked| ==> ranked[i] in keys && ranked[i] !in rest
      invariant forall k :: k in keys ==> k in rest || k in ranked
      invariant Distinct(ranked) && |ranked| + |rest| == |keys|
      invariant NewestFirst(ranked, created)
      invariant forall i, y :: 0 <= i < |ranked| && y in rest ==> created[y] <= created[ranked[i]]
      decreases |rest|
    {
      var x := PickNewest(created, rest);
      ranked := ranked + [x];
      rest := rest - {x};
    }
  }
}
