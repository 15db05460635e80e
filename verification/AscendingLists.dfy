/**
 Lists in strictly ascending order of a rank: one list for one set of members.
 */
module AscendingLists {

  predicate AscendingBy<T>(xs: seq<T>, rank: T -> int) {
    forall i, j | 0 <= i < j < |xs| :: rank(xs[i]) < rank(xs[j])
  }

  lemma TailMember<T>(xs: seq<T>, rank: T -> int, x: T)
    requires AscendingBy(xs, rank) && xs != []
    ensures x in xs[1..] <==> x in xs && x != xs[0]
  {
    if x in xs && x != xs[0] {
      var i :| 0 <= i < |xs| && xs[i] == x;
      assert xs[1..][i - 1] == x;
    }
  }

  lemma HeadIsLeast<T>(xs: seq<T>, rank: T -> int, x: T)
    requires AscendingBy(xs, rank) && xs != [] && x in xs
    ensures rank(xs[0]) <= rank(x)
    ensures rank(x) == rank(xs[0]) ==> x == xs[0]
  {
  }

  lemma {:induction false} AscendingUnique<T>(xs: seq<T>, ys: seq<T>, rank: T -> int)
    requires AscendingBy(xs, rank) && AscendingBy(ys, rank)
    requires forall x :: x in xs <==> x in ys
    ensures xs == ys
  {
    assert |xs| > 0 ==> xs[0] in ys;
    assert |ys| > 0 ==> ys[0] in xs;
    if xs != [] && ys != [] {
      HeadIsLeast(xs, rank, ys[0]);
      HeadIsLeast(ys, rank, xs[0]);
      forall x ensures x in xs[1..] <==> x in ys[1..] {
        TailMember(xs, rank, x);
        TailMember(ys, rank, x);
      }
      AscendingUnique(xs[1..], ys[1..], rank);
      assert xs == [xs[0]] + xs[1..] && ys == [ys[0]] + ys[1..];
    }
  }
}
