/**
 Text as JavaScript sees it: a sequence of UTF-16 code units, surrogates included, compared in
 code-unit order. Also the stable sort by a text key that the source gets from `Array.sort`.
 */
module Texts {

  type CodeUnit = c: int | 0 <= c < 0x1_0000

  type Text = seq<CodeUnit>

  type Byte = b: int | 0 <= b < 0x100

  /** All that is used of SHA-256. */
  ghost predicate CollisionFree<A(!new), B>(hash: A -> B) {
    forall a: A, b: A :: hash(a) == hash(b) ==> a == b
  }

  /** A lower-case hexadecimal digit. */
  function HexDigit(n: int): (c: CodeUnit)
    requires 0 <= n < 16
  {
    if n < 10 then '0' as int + n else 'a' as int + n - 10
  }

  function Ascii(s: string): (t: Text)
    requires forall i | 0 <= i < |s| :: s[i] as int < 0x80
    ensures |t| == |s| && forall i | 0 <= i < |s| :: t[i] == s[i] as int
  {
    seq<CodeUnit>(|s|, i requires 0 <= i < |s| => s[i] as int)
  }

  /** The text spells the name, character by character. */
  ghost predicate IsNamed(t: Text, name: string) {
    |t| == |name| && forall i | 0 <= i < |t| :: t[i] == name[i] as int
  }

  predicate IsAscii(t: Text) {
    forall i | 0 <= i < |t| :: t[i] < 0x80
  }

  // ---------------------------------------------------------------- code-unit order

  /** `a < b` on JavaScript strings. */
  predicate Less(a: Text, b: Text) {
    b != [] && (a == [] || a[0] < b[0] || (a[0] == b[0] && Less(a[1..], b[1..])))
  }

  lemma {:induction false} LessIrreflexive(a: Text)
    ensures !Less(a, a)
  {
    if a != [] {
      LessIrreflexive(a[1..]);
    }
  }

  lemma {:induction false} LessTransitive(a: Text, b: Text, c: Text)
    requires Less(a, b) && Less(b, c)
    ensures Less(a, c)
  {
    if a != [] && a[0] == b[0] == c[0] {
      LessTransitive(a[1..], b[1..], c[1..]);
    }
  }

  lemma {:induction false} LessTotal(a: Text, b: Text)
    ensures Less(a, b) || a == b || Less(b, a)
  {
    if a != [] && b != [] && a[0] == b[0] {
      LessTotal(a[1..], b[1..]);
      if a[1..] == b[1..] {
        assert a == [a[0]] + a[1..] == b;
      }
    }
  }

  lemma LessAsymmetric(a: Text, b: Text)
    requires Less(a, b)
    ensures !Less(b, a) && a != b
  {
    LessIrreflexive(a);
    if Less(b, a) {
      LessTransitive(a, b, a);
    }
  }

  /** `b` goes on where `a` ends, or holds the larger code unit where they first differ. */
  ghost predicate NoLater(a: Text, b: Text) {
    || (|a| <= |b| && b[..|a|] == a)
    || exists k | 0 <= k < |a| && k < |b| :: a[..k] == b[..k] && a[k] < b[k]
  }

  lemma NoLaterTail(a: Text, b: Text)
    requires a != [] && b != []
    ensures NoLater(a, b) <==> a[0] < b[0] || (a[0] == b[0] && NoLater(a[1..], b[1..]))
  {
    assert a == [a[0]] + a[1..] && b == [b[0]] + b[1..];
    if NoLater(a, b) {
      if |a| <= |b| && b[..|a|] == a {
        assert b[1..][..|a| - 1] == b[..|a|][1..];
      } else {
        var k :| 0 <= k < |a| && k < |b| && a[..k] == b[..k] && a[k] < b[k];
        if k > 0 {
          assert a[..k][0] == b[..k][0];
          assert a[1..][..k - 1] == a[..k][1..] && b[1..][..k - 1] == b[..k][1..];
        }
      }
    }
    if a[0] < b[0] {
      assert a[..0] == b[..0];
    } else if a[0] == b[0] && NoLater(a[1..], b[1..]) {
      if |a| <= |b| && b[1..][..|a| - 1] == a[1..] {
        assert b[..|a|] == [b[0]] + b[1..][..|a| - 1];
      } else {
        var k :| 0 <= k < |a| - 1 && k < |b| - 1 && a[1..][..k] == b[1..][..k] && a[1..][k] < b[1..][k];
        assert a[..k + 1] == [a[0]] + a[1..][..k] && b[..k + 1] == [b[0]] + b[1..][..k];
      }
    }
  }

  /** What the sort takes for the order is the order of code units. */
  lemma {:induction false} NoLaterIff(a: Text, b: Text)
    ensures NoLater(a, b) <==> !Less(b, a)
  {
    if a != [] && b != [] {
      NoLaterTail(a, b);
      NoLaterIff(a[1..], b[1..]);
    }
  }

  ghost predicate InOrderOf<T>(xs: seq<T>, key: T -> Text) {
    forall i, j | 0 <= i < j < |xs| :: NoLater(key(xs[i]), key(xs[j]))
  }

  // ---------------------------------------------------------------- stable sort by key

  function Insert<T>(x: T, xs: seq<T>, key: T -> Text): seq<T> {
    if xs == [] || !Less(key(xs[0]), key(x)) then [x] + xs else [xs[0]] + Insert(x, xs[1..], key)
  }

  /** The stable result of sorting `xs` by `key`: among equal keys the earlier element stays first. */
  function SortBy<T>(xs: seq<T>, key: T -> Text): (r: seq<T>)
    ensures |r| == 0 <==> |xs| == 0
  {
    if xs == [] then [] else Insert(xs[0], SortBy(xs[1..], key), key)
  }

  ghost predicate Ordered<T>(xs: seq<T>, key: T -> Text) {
    forall i, j | 0 <= i < j < |xs| :: !Less(key(xs[j]), key(xs[i]))
  }

  ghost predicate DistinctKeys<T>(xs: seq<T>, key: T -> Text) {
    forall i, j | 0 <= i < j < |xs| :: key(xs[i]) != key(xs[j])
  }

  lemma {:induction false} InsertPermutes<T>(x: T, xs: seq<T>, key: T -> Text)
    ensures multiset(Insert(x, xs, key)) == multiset{x} + multiset(xs)
  {
    if xs != [] && Less(key(xs[0]), key(x)) {
      InsertPermutes(x, xs[1..], key);
      assert xs == [xs[0]] + xs[1..];
    }
  }

  lemma {:induction false} SortPermutes<T>(xs: seq<T>, key: T -> Text)
    ensures multiset(SortBy(xs, key)) == multiset(xs)
  {
    if xs != [] {
      SortPermutes(xs[1..], key);
      InsertPermutes(xs[0], SortBy(xs[1..], key), key);
      assert xs == [xs[0]] + xs[1..];
    }
  }

  lemma {:induction false} InsertOrdered<T>(x: T, xs: seq<T>, key: T -> Text)
    requires Ordered(xs, key)
    ensures Ordered(Insert(x, xs, key), key)
  {
    var r := Insert(x, xs, key);
    if xs == [] {
    } else if !Less(key(xs[0]), key(x)) {
      forall j | 0 <= j < |xs| ensures !Less(key(xs[j]), key(x)) {
        if Less(key(xs[j]), key(x)) {
          LessTotal(key(xs[0]), key(xs[j]));
          if Less(key(xs[0]), key(xs[j])) {
            LessTransitive(key(xs[0]), key(xs[j]), key(x));
          }
        }
      }
    } else {
      InsertOrdered(x, xs[1..], key);
      InsertPermutes(x, xs[1..], key);
      var tail := Insert(x, xs[1..], key);
      LessAsymmetric(key(xs[0]), key(x));
      forall j | 0 <= j < |tail| ensures !Less(key(tail[j]), key(xs[0])) {
        assert tail[j] in multiset(tail);
        assert tail[j] == x || tail[j] in xs[1..];
      }
    }
  }

  lemma {:induction false} SortOrdered<T>(xs: seq<T>, key: T -> Text)
    ensures Ordered(SortBy(xs, key), key)
  {
    if xs != [] {
      SortOrdered(xs[1..], key);
      InsertOrdered(xs[0], SortBy(xs[1..], key), key);
    }
  }

  lemma SortedInOrder<T>(xs: seq<T>, key: T -> Text)
    ensures InOrderOf(SortBy(xs, key), key)
  {
    var s := SortBy(xs, key);
    SortOrdered(xs, key);
    forall i, j | 0 <= i < j < |s| ensures NoLater(key(s[i]), key(s[j])) {
      NoLaterIff(key(s[i]), key(s[j]));
    }
  }

  /** The elements of one key, in their order. */
  function OfKey<T>(xs: seq<T>, key: T -> Text, k: Text): seq<T> {
    if xs == [] then [] else (if key(xs[0]) == k then [xs[0]] else []) + OfKey(xs[1..], key, k)
  }

  lemma {:induction false} InsertStable<T>(x: T, xs: seq<T>, key: T -> Text, k: Text)
    ensures OfKey(Insert(x, xs, key), key, k) == (if key(x) == k then [x] else []) + OfKey(xs, key, k)
  {
    if xs != [] && Less(key(xs[0]), key(x)) {
      LessIrreflexive(key(x));
      InsertStable(x, xs[1..], key, k);
    } else {
      assert ([x] + xs)[1..] == xs;
    }
  }

  /** Elements of one key keep their order. */
  lemma {:induction false} SortStable<T>(xs: seq<T>, key: T -> Text, k: Text)
    ensures OfKey(SortBy(xs, key), key, k) == OfKey(xs, key, k)
  {
    if xs != [] {
      SortStable(xs[1..], key, k);
      InsertStable(xs[0], SortBy(xs[1..], key), key, k);
    }
  }

  /** Membership survives sorting. */
  lemma SortMembers<T>(xs: seq<T>, key: T -> Text)
    ensures |SortBy(xs, key)| == |xs|
    ensures forall i | 0 <= i < |xs| :: SortBy(xs, key)[i] in xs
    ensures forall i | 0 <= i < |xs| :: xs[i] in SortBy(xs, key)
  {
    var s := SortBy(xs, key);
    SortPermutes(xs, key);
    assert |multiset(s)| == |multiset(xs)|;
    forall i | 0 <= i < |xs| ensures s[i] in xs && xs[i] in s {
      assert s[i] in multiset(s) && xs[i] in multiset(xs);
    }
  }

  /** Elements with equal keys are equal. */
  ghost predicate KeysIdentify<T>(xs: seq<T>, key: T -> Text) {
    forall i, j | 0 <= i < |xs| && 0 <= j < |xs| && key(xs[i]) == key(xs[j]) :: xs[i] == xs[j]
  }

  /** Two ordered rearrangements of the same elements agree once equal keys mean equal elements. */
  lemma {:induction false} OrderedUnique<T>(xs: seq<T>, ys: seq<T>, key: T -> Text)
    requires Ordered(xs, key) && Ordered(ys, key)
    requires multiset(xs) == multiset(ys)
    requires KeysIdentify(xs, key)
    ensures xs == ys
  {
    SameLength(xs, ys);
    if xs != [] {
      var i := IndexOf(xs, ys[0], ys);
      var j := IndexOf(ys, xs[0], xs);
      assert xs[0] == ys[0] by {
        LessTotal(key(xs[0]), key(xs[i]));
      }
      TailMultiset(xs, ys);
      OrderedUnique(xs[1..], ys[1..], key);
    }
  }

  lemma SameLength<T>(xs: seq<T>, ys: seq<T>)
    requires multiset(xs) == multiset(ys)
    ensures |xs| == |ys|
  {
    assert |xs| == |multiset(xs)| == |multiset(ys)| == |ys|;
  }

  lemma IndexOf<T>(xs: seq<T>, x: T, ys: seq<T>) returns (i: nat)
    requires multiset(xs) == multiset(ys) && x in ys
    ensures i < |xs| && xs[i] == x
  {
    assert x in multiset(xs);
    i :| i < |xs| && xs[i] == x;
  }

  lemma TailMultiset<T>(xs: seq<T>, ys: seq<T>)
    requires multiset(xs) == multiset(ys) && xs != [] && ys != [] && xs[0] == ys[0]
    ensures multiset(xs[1..]) == multiset(ys[1..])
  {
    assert xs == [xs[0]] + xs[1..] && ys == [ys[0]] + ys[1..];
    assert multiset(xs[1..]) == multiset(xs) - multiset{xs[0]};
    assert multiset(ys[1..]) == multiset(ys) - multiset{ys[0]};
  }

  /** Sorting depends only on the elements, not on the order they arrive in, once keys identify them. */
  lemma SortOrderIrrelevant<T>(xs: seq<T>, ys: seq<T>, key: T -> Text)
    requires multiset(xs) == multiset(ys)
    requires KeysIdentify(xs, key)
    ensures SortBy(xs, key) == SortBy(ys, key)
  {
    var s := SortBy(xs, key);
    SortPermutes(xs, key);
    SortPermutes(ys, key);
    SortOrdered(xs, key);
    SortOrdered(ys, key);
    forall i, j | 0 <= i < |s| && 0 <= j < |s| && key(s[i]) == key(s[j]) ensures s[i] == s[j] {
      var a := IndexOf(xs, s[i], s);
      var b := IndexOf(xs, s[j], s);
    }
    OrderedUnique(s, SortBy(ys, key), key);
  }

  /** Lists with distinct keys and the same members are rearrangements of each other. */
  lemma {:induction false} SameMembersSameMultiset<T>(xs: seq<T>, ys: seq<T>, key: T -> Text)
    requires DistinctKeys(xs, key) && DistinctKeys(ys, key)
    requires forall x :: x in xs <==> x in ys
    ensures multiset(xs) == multiset(ys)
  {
    forall x ensures multiset(xs)[x] == multiset(ys)[x] {
      DistinctCount(xs, key, x);
      DistinctCount(ys, key, x);
    }
  }

  lemma {:induction false} DistinctCount<T>(xs: seq<T>, key: T -> Text, x: T)
    requires DistinctKeys(xs, key)
    ensures multiset(xs)[x] == if x in xs then 1 else 0
  {
    if xs != [] {
      assert xs == [xs[0]] + xs[1..];
      DistinctCount(xs[1..], key, x);
    }
  }

  ghost predicate Within<T>(xs: seq<T>, ys: seq<T>) {
    forall i | 0 <= i < |xs| :: xs[i] in ys
  }

  ghost predicate SameElements<T>(xs: seq<T>, ys: seq<T>) {
    Within(xs, ys) && Within(ys, xs)
  }

  lemma PermutedSameElements<T>(xs: seq<T>, ys: seq<T>)
    requires multiset(xs) == multiset(ys)
    ensures SameElements(xs, ys)
  {
    forall i | 0 <= i < |xs| ensures xs[i] in ys {
      assert xs[i] in multiset(xs);
    }
    forall j | 0 <= j < |ys| ensures ys[j] in xs {
      assert ys[j] in multiset(ys);
    }
  }

  /** Lists with distinct keys sort to the same list exactly when they have the same elements. */
  lemma SortedSameIff<T>(xs: seq<T>, ys: seq<T>, key: T -> Text)
    requires DistinctKeys(xs, key) && DistinctKeys(ys, key)
    ensures SortBy(xs, key) == SortBy(ys, key) <==> SameElements(xs, ys)
  {
    if SortBy(xs, key) == SortBy(ys, key) {
      SortedSameElements(xs, ys, key);
    }
    if SameElements(xs, ys) {
      forall x ensures x in xs <==> x in ys {
      }
      SameMembersSameMultiset(xs, ys, key);
      SortOrderIrrelevant(xs, ys, key);
    }
  }

  lemma SortedSameElements<T>(xs: seq<T>, ys: seq<T>, key: T -> Text)
    requires SortBy(xs, key) == SortBy(ys, key)
    ensures SameElements(xs, ys)
  {
    var s := SortBy(xs, key);
    SortMembers(xs, key);
    SortMembers(ys, key);
    forall i | 0 <= i < |xs| ensures xs[i] in ys {
      var k :| 0 <= k < |s| && s[k] == xs[i];
    }
    forall j | 0 <= j < |ys| ensures ys[j] in xs {
      var k :| 0 <= k < |s| && s[k] == ys[j];
    }
  }

  function Map<A, B>(f: A -> B, xs: seq<A>): (r: seq<B>)
    ensures |r| == |xs|
    ensures forall i | 0 <= i < |xs| :: r[i] == f(xs[i])
  {
    if xs == [] then [] else [f(xs[0])] + Map(f, xs[1..])
  }

  lemma {:induction false} InsertMap<A, B>(f: A -> B, x: A, xs: seq<A>, ka: A -> Text, kb: B -> Text)
    requires forall a :: kb(f(a)) == ka(a)
    ensures Insert(f(x), Map(f, xs), kb) == Map(f, Insert(x, xs, ka))
  {
    if xs != [] {
      assert Map(f, xs)[1..] == Map(f, xs[1..]);
      InsertMap(f, x, xs[1..], ka, kb);
    }
  }

  /** Sorting commutes with a mapping that keeps the key. */
  lemma {:induction false} SortMap<A, B>(f: A -> B, xs: seq<A>, ka: A -> Text, kb: B -> Text)
    requires forall a :: kb(f(a)) == ka(a)
    ensures SortBy(Map(f, xs), kb) == Map(f, SortBy(xs, ka))
  {
    if xs != [] {
      SortMap(f, xs[1..], ka, kb);
      InsertMap(f, xs[0], SortBy(xs[1..], ka), ka, kb);
    }
  }
}
