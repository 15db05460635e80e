/**
 Cursor pages over rows in ascending order of id: a page, the cursor to the next one, and the walk that
 follows the cursors. A cursor is the last id of a page; an empty one counts as absent.
 */
module Pagination {
  import opened Wrappers
  import opened Texts

  datatype Page<T> = Page(data: seq<T>, nextCursor: Option<Text>, hasMore: bool, limit: nat)

  ghost predicate Ascending<T>(xs: seq<T>, key: T -> Text) {
    forall i, j | 0 <= i < j < |xs| :: Less(key(xs[i]), key(xs[j]))
  }

  ghost predicate NonEmptyKeys<T>(xs: seq<T>, key: T -> Text) {
    forall i | 0 <= i < |xs| :: key(xs[i]) != []
  }

  function DecodeCursor(cursor: Option<Text>): Option<Text> {
    if cursor.Some? && cursor.value == [] then None else cursor
  }

  /** The rows behind the cursor; all of them without one. */
  function Behind<T>(xs: seq<T>, key: T -> Text, cursor: Option<Text>): seq<T> {
    if xs == [] then []
    else if cursor.None? || Less(cursor.value, key(xs[0])) then [xs[0]] + Behind(xs[1..], key, cursor)
    else Behind(xs[1..], key, cursor)
  }

  function FirstPage<T>(rows: seq<T>, key: T -> Text, limit: nat): Page<T>
    requires limit >= 1
  {
    var hasMore := |rows| > limit;
    var data := if hasMore then rows[..limit] else rows;
    Page(data, if hasMore then Some(key(data[|data| - 1])) else None, hasMore, limit)
  }

  function PageAt<T>(xs: seq<T>, key: T -> Text, cursor: Option<Text>, limit: nat): Page<T>
    requires limit >= 1
  {
    FirstPage(Behind(xs, key, DecodeCursor(cursor)), key, limit)
  }

  /** `paginate` on one row more than a page holds. */
  function Paginate<T>(rowsFetchedLimitPlusOne: seq<T>, key: T -> Text, limit: nat): Page<T>
    requires limit >= 1
  {
    FirstPage(rowsFetchedLimitPlusOne, key, limit)
  }

  /** Fetching a single row too many tells as much as fetching everything. */
  lemma OverfetchByOne<T>(rows: seq<T>, key: T -> Text, limit: nat, fetched: nat)
    requires limit >= 1 && fetched >= limit + 1
    ensures Paginate(rows[..if |rows| < fetched then |rows| else fetched], key, limit) == FirstPage(rows, key, limit)
    ensures
      var page := FirstPage(rows, key, limit);
      && page.data == rows[..if |rows| > limit then limit else |rows|]
      && (page.hasMore <==> |rows| > limit) && page.limit == limit
      && page.nextCursor == if |rows| > limit then Some(key(rows[limit - 1])) else None
  {
    var n := if |rows| < fetched then |rows| else fetched;
    if |rows| > limit {
      assert rows[..n][..limit] == rows[..limit];
    } else {
      assert rows[..n] == rows;
    }
  }

  // ---------------------------------------------------------------- the walk

  lemma {:induction false} BehindAll<T>(xs: seq<T>, key: T -> Text, cursor: Option<Text>)
    requires cursor.None? || forall i | 0 <= i < |xs| :: Less(cursor.value, key(xs[i]))
    ensures Behind(xs, key, cursor) == xs
  {
    if xs != [] {
      BehindAll(xs[1..], key, cursor);
    }
  }

  /** In ascending order, what lies behind a cursor is a tail of the rows. */
  lemma {:induction false} BehindIsTail<T>(xs: seq<T>, key: T -> Text, cursor: Option<Text>) returns (k: nat)
    requires Ascending(xs, key)
    ensures k <= |xs| && Behind(xs, key, cursor) == xs[k..]
    ensures cursor.Some? ==> forall i | 0 <= i < |xs| :: i >= k <==> Less(cursor.value, key(xs[i]))
  {
    if xs == [] {
      return 0;
    }
    if cursor.None? || Less(cursor.value, key(xs[0])) {
      forall i | 0 <= i < |xs| ensures cursor.Some? ==> Less(cursor.value, key(xs[i])) {
        if cursor.Some? && i > 0 {
          LessTransitive(cursor.value, key(xs[0]), key(xs[i]));
        }
      }
      BehindAll(xs, key, cursor);
      return 0;
    }
    var m := BehindIsTail(xs[1..], key, cursor);
    assert xs[1..][m..] == xs[m + 1..];
    forall i | 1 <= i < |xs| ensures i >= m + 1 <==> Less(cursor.value, key(xs[i])) {
      assert xs[i] == xs[1..][i - 1];
    }
    return m + 1;
  }

  lemma BehindOwnId<T>(xs: seq<T>, key: T -> Text, n: nat)
    requires Ascending(xs, key) && 0 < n <= |xs|
    ensures Behind(xs, key, Some(key(xs[n - 1]))) == xs[n..]
  {
    var k := BehindIsTail(xs, key, Some(key(xs[n - 1])));
    LessIrreflexive(key(xs[n - 1]));
    if n < |xs| {
      assert Less(key(xs[n - 1]), key(xs[n]));
    }
  }

  /** The next cursor resumes right behind the page. */
  lemma NextCursorResumes<T>(xs: seq<T>, key: T -> Text, cursor: Option<Text>, limit: nat)
    requires Ascending(xs, key) && NonEmptyKeys(xs, key) && limit >= 1
    requires PageAt(xs, key, cursor, limit).hasMore
    ensures
      var next := PageAt(xs, key, cursor, limit).nextCursor;
      next.Some? && Behind(xs, key, DecodeCursor(next)) == Behind(xs, key, DecodeCursor(cursor))[limit..]
  {
    var k := BehindIsTail(xs, key, DecodeCursor(cursor));
    assert xs[k..][limit - 1] == xs[k + limit - 1];
    BehindOwnId(xs, key, k + limit);
    assert xs[k..][limit..] == xs[k + limit..];
  }

  /** The pages a client gets by following `nextCursor` until `hasMore` is false. */
  ghost function Walk<T>(xs: seq<T>, key: T -> Text, cursor: Option<Text>, limit: nat): seq<seq<T>>
    requires Ascending(xs, key) && NonEmptyKeys(xs, key) && limit >= 1
    decreases |Behind(xs, key, DecodeCursor(cursor))|
  {
    var page := PageAt(xs, key, cursor, limit);
    if page.hasMore then
      NextCursorResumes(xs, key, cursor, limit);
      [page.data] + Walk(xs, key, page.nextCursor, limit)
    else [page.data]
  }

  function Concat<T>(pages: seq<seq<T>>): seq<T> {
    if pages == [] then [] else pages[0] + Concat(pages[1..])
  }

  /** From any cursor the walk ends, and yields every row behind it once and in order. */
  lemma {:induction false} WalkYieldsAll<T>(xs: seq<T>, key: T -> Text, cursor: Option<Text>, limit: nat)
    requires Ascending(xs, key) && NonEmptyKeys(xs, key) && limit >= 1
    ensures Concat(Walk(xs, key, cursor, limit)) == Behind(xs, key, DecodeCursor(cursor))
    ensures cursor.None? ==> Concat(Walk(xs, key, cursor, limit)) == xs
    decreases |Behind(xs, key, DecodeCursor(cursor))|
  {
    var page := PageAt(xs, key, cursor, limit);
    var rows := Behind(xs, key, DecodeCursor(cursor));
    if page.hasMore {
      NextCursorResumes(xs, key, cursor, limit);
      WalkYieldsAll(xs, key, page.nextCursor, limit);
      var rest := Walk(xs, key, page.nextCursor, limit);
      assert ([page.data] + rest)[1..] == rest;
      assert rows == rows[..limit] + rows[limit..];
    } else {
      assert Concat([page.data]) == page.data + Concat<T>([]);
    }
    if cursor.None? {
      BehindAll(xs, key, cursor);
    }
  }

  /** Every page but the last is full. */
  lemma {:induction false} PagesFull<T>(xs: seq<T>, key: T -> Text, cursor: Option<Text>, limit: nat, p: nat)
    requires Ascending(xs, key) && NonEmptyKeys(xs, key) && limit >= 1
    requires p < |Walk(xs, key, cursor, limit)|
    ensures p < |Walk(xs, key, cursor, limit)| - 1 ==> |Walk(xs, key, cursor, limit)[p]| == limit
    ensures |Walk(xs, key, cursor, limit)[p]| <= limit
    decreases p
  {
    var page := PageAt(xs, key, cursor, limit);
    if page.hasMore {
      NextCursorResumes(xs, key, cursor, limit);
      if p > 0 {
        PagesFull(xs, key, page.nextCursor, limit, p - 1);
      }
    }
  }
}
