/**
 The frequency cascade: which items a job of a given interval covers, and the list of frequencies that
 is frozen into the job. The list is compared place by place, so its order must not depend on the items'.
 */
module FrequencyCascade {
  import opened Wrappers
  import opened AscendingLists

  datatype Frequency = M1 | M3 | M6 | Y

  function FrequencyInterval(f: Frequency): nat {
    match f
    case M1 => 1
    case M3 => 3
    case M6 => 6
    case Y => 12
  }

  datatype Item = Item(frequency: Frequency, intervalMonths: int)

  /** `%` is `NaN` on a zero divisor, which divides nothing. */
  predicate IntervalDivides(jobIntervalMonths: int, candidateIntervalMonths: int) {
    candidateIntervalMonths != 0 && jobIntervalMonths % candidateIntervalMonths == 0
  }

  predicate Covers(jobIntervalMonths: int, override: Option<seq<Frequency>>, item: Item) {
    if override.Some? && |override.value| > 0 then item.frequency in override.value
    else IntervalDivides(jobIntervalMonths, item.intervalMonths)
  }

  function ResolveCascadeItems(jobIntervalMonths: int, items: seq<Item>, override: Option<seq<Frequency>>): seq<Item> {
    if items == [] then []
    else
      var rest := ResolveCascadeItems(jobIntervalMonths, items[1..], override);
      if Covers(jobIntervalMonths, override, items[0]) then [items[0]] + rest else rest
  }

  function Frequencies(items: seq<Item>): seq<Frequency> {
    seq(|items|, i requires 0 <= i < |items| => items[i].frequency)
  }

  /** `[...new Set(fs)]`: the first occurrence of each. */
  function Distinct(fs: seq<Frequency>): seq<Frequency> {
    if fs == [] then []
    else
      var init := Distinct(fs[..|fs| - 1]);
      if fs[|fs| - 1] in init then init else init + [fs[|fs| - 1]]
  }

  /** One step of the stable sort: behind everything that is not larger. */
  function InsertFrequency(f: Frequency, sorted: seq<Frequency>): seq<Frequency> {
    if sorted == [] || FrequencyInterval(f) < FrequencyInterval(sorted[0]) then [f] + sorted
    else [sorted[0]] + InsertFrequency(f, sorted[1..])
  }

  function SortFrequencies(fs: seq<Frequency>): seq<Frequency> {
    if fs == [] then [] else InsertFrequency(fs[|fs| - 1], SortFrequencies(fs[..|fs| - 1]))
  }

  function ResolveCascadeFrequencyScope(jobIntervalMonths: int, items: seq<Item>, override: Option<seq<Frequency>>)
    : seq<Frequency>
  {
    SortFrequencies(Distinct(Frequencies(ResolveCascadeItems(jobIntervalMonths, items, override))))
  }

  function ByInterval(): Frequency -> int {
    (f: Frequency) => FrequencyInterval(f)
  }

  // ---------------------------------------------------------------- members

  lemma {:induction false} ResolvedMembers(
    jobIntervalMonths: int, items: seq<Item>, override: Option<seq<Frequency>>, item: Item)
    ensures item in ResolveCascadeItems(jobIntervalMonths, items, override) <==>
      item in items && Covers(jobIntervalMonths, override, item)
  {
    if items != [] {
      ResolvedMembers(jobIntervalMonths, items[1..], override, item);
      assert items == [items[0]] + items[1..];
    }
  }

  lemma {:induction false} DistinctKeeps(fs: seq<Frequency>, f: Frequency)
    ensures f in Distinct(fs) <==> f in fs
    ensures forall i, j | 0 <= i < j < |Distinct(fs)| :: Distinct(fs)[i] != Distinct(fs)[j]
  {
    if fs != [] {
      var last := |fs| - 1;
      DistinctKeeps(fs[..last], f);
      DistinctKeeps(fs[..last], fs[last]);
      assert fs == fs[..last] + [fs[last]];
    }
  }

  lemma {:induction false} InsertMember(f: Frequency, sorted: seq<Frequency>, g: Frequency)
    ensures g in InsertFrequency(f, sorted) <==> g == f || g in sorted
  {
    if sorted != [] && FrequencyInterval(f) >= FrequencyInterval(sorted[0]) {
      InsertMember(f, sorted[1..], g);
      assert sorted == [sorted[0]] + sorted[1..];
    }
  }

  lemma PrependAscending(f: Frequency, sorted: seq<Frequency>)
    requires AscendingBy(sorted, ByInterval())
    requires forall g | g in sorted :: FrequencyInterval(f) < FrequencyInterval(g)
    ensures AscendingBy([f] + sorted, ByInterval())
  {}

  lemma {:induction false} InsertAscending(f: Frequency, sorted: seq<Frequency>)
    requires AscendingBy(sorted, ByInterval()) && f !in sorted
    ensures AscendingBy(InsertFrequency(f, sorted), ByInterval())
  {
    if sorted == [] {
    } else if FrequencyInterval(f) < FrequencyInterval(sorted[0]) {
      forall g | g in sorted ensures FrequencyInterval(f) < FrequencyInterval(g) {
        HeadIsLeast(sorted, ByInterval(), g);
      }
      PrependAscending(f, sorted);
    } else {
      InsertAscending(f, sorted[1..]);
      assert f != sorted[0];
      forall g | g in InsertFrequency(f, sorted[1..]) ensures FrequencyInterval(sorted[0]) < FrequencyInterval(g) {
        InsertMember(f, sorted[1..], g);
        TailMember(sorted, ByInterval(), g);
        if g in sorted {
          HeadIsLeast(sorted, ByInterval(), g);
        }
      }
      PrependAscending(sorted[0], InsertFrequency(f, sorted[1..]));
    }
  }

  lemma {:induction false} SortKeeps(fs: seq<Frequency>)
    requires forall i, j | 0 <= i < j < |fs| :: fs[i] != fs[j]
    ensures AscendingBy(SortFrequencies(fs), ByInterval())
    ensures forall g :: g in SortFrequencies(fs) <==> g in fs
  {
    if fs != [] {
      var last := |fs| - 1;
      SortKeeps(fs[..last]);
      InsertAscending(fs[last], SortFrequencies(fs[..last]));
      forall g ensures g in SortFrequencies(fs) <==> g == fs[last] || g in fs[..last] {
        InsertMember(fs[last], SortFrequencies(fs[..last]), g);
      }
      assert fs == fs[..last] + [fs[last]];
    }
  }

  /** Ascending by interval, and so without repetition, whatever the items. */
  lemma ScopeAscending(jobIntervalMonths: int, items: seq<Item>, override: Option<seq<Frequency>>)
    ensures AscendingBy(ResolveCascadeFrequencyScope(jobIntervalMonths, items, override), ByInterval())
  {
    var fs := Frequencies(ResolveCascadeItems(jobIntervalMonths, items, override));
    DistinctKeeps(fs, M1);
    SortKeeps(Distinct(fs));
  }

  /** A frequency is in the scope exactly when some item of it is covered. */
  lemma ScopeMembersIff(jobIntervalMonths: int, items: seq<Item>, override: Option<seq<Frequency>>, f: Frequency)
    ensures f in ResolveCascadeFrequencyScope(jobIntervalMonths, items, override) <==>
      exists item :: item in items && item.frequency == f && Covers(jobIntervalMonths, override, item)
  {
    var resolved := ResolveCascadeItems(jobIntervalMonths, items, override);
    var fs := Frequencies(resolved);
    DistinctKeeps(fs, f);
    SortKeeps(Distinct(fs));
    if f in fs {
      var i :| 0 <= i < |fs| && fs[i] == f;
      ResolvedMembers(jobIntervalMonths, items, override, resolved[i]);
    }
    if exists item :: item in items && item.frequency == f && Covers(jobIntervalMonths, override, item) {
      var item :| item in items && item.frequency == f && Covers(jobIntervalMonths, override, item);
      ResolvedMembers(jobIntervalMonths, items, override, item);
      var i :| 0 <= i < |resolved| && resolved[i] == item;
      assert fs[i] == f;
    }
  }

  ghost predicate IsMultiple(a: int, b: int) {
    exists k: int :: a == k * b
  }

  /** `%` leaves nothing exactly on the multiples of a divisor other than zero. */
  lemma DividesIff(a: int, b: int)
    ensures IntervalDivides(a, b) <==> b != 0 && IsMultiple(a, b)
  {
    if b != 0 {
      if a % b == 0 {
        assert a == (a / b) * b;
      }
      if IsMultiple(a, b) {
        var k :| a == k * b;
        MultipleOf(b, k);
      }
    }
  }

  /** Without an override, or with an empty one, an item counts whose interval the job's is a multiple of. */
  ghost predicate CountsFor(jobIntervalMonths: int, override: Option<seq<Frequency>>, item: Item) {
    if override.Some? && override.value != [] then item.frequency in override.value
    else item.intervalMonths != 0 && IsMultiple(jobIntervalMonths, item.intervalMonths)
  }

  /** A frequency is in the scope exactly when some item of it counts. */
  lemma ScopeIff(jobIntervalMonths: int, items: seq<Item>, override: Option<seq<Frequency>>, f: Frequency)
    ensures f in ResolveCascadeFrequencyScope(jobIntervalMonths, items, override) <==>
      exists item :: item in items && item.frequency == f && CountsFor(jobIntervalMonths, override, item)
  {
    ScopeMembersIff(jobIntervalMonths, items, override, f);
    forall item: Item
      ensures Covers(jobIntervalMonths, override, item) <==> CountsFor(jobIntervalMonths, override, item)
    {
      DividesIff(jobIntervalMonths, item.intervalMonths);
    }
  }

  // ---------------------------------------------------------------- one list for one set of items

  /** Reordering or repeating items, or the entries of an override, leaves the scope as it is. */
  lemma ScopeIsOfTheSet(jobIntervalMonths: int, items: seq<Item>, others: seq<Item>,
    override: Option<seq<Frequency>>, other: Option<seq<Frequency>>)
    requires forall item :: item in items <==> item in others
    requires override.Some? <==> other.Some?
    requires override.Some? ==> forall f :: f in override.value <==> f in other.value
    ensures ResolveCascadeFrequencyScope(jobIntervalMonths, items, override)
            == ResolveCascadeFrequencyScope(jobIntervalMonths, others, other)
  {
    var a := ResolveCascadeFrequencyScope(jobIntervalMonths, items, override);
    var b := ResolveCascadeFrequencyScope(jobIntervalMonths, others, other);
    ScopeAscending(jobIntervalMonths, items, override);
    ScopeAscending(jobIntervalMonths, others, other);
    if override.Some? {
      assert |override.value| > 0 ==> override.value[0] in other.value;
      assert |other.value| > 0 ==> other.value[0] in override.value;
    }
    forall f ensures f in a <==> f in b {
      ScopeMembersIff(jobIntervalMonths, items, override, f);
      ScopeMembersIff(jobIntervalMonths, others, other, f);
    }
    AscendingUnique(a, b, ByInterval());
  }

  // ---------------------------------------------------------------- downward closure

  lemma MultipleSize(a: int, k: int)
    ensures k == 0 || a * k <= -a || a * k >= a
    ensures k == 0 || a * k <= a || a * k >= -a
  {}

  lemma MultipleOf(a: int, k: int)
    requires a != 0
    ensures (a * k) % a == 0
  {
    var q, r := (a * k) / a, (a * k) % a;
    assert a * k == a * q + r;
    assert r == a * (k - q);
    MultipleSize(a, k - q);
  }

  lemma DividesTransitive(a: int, b: int, c: int)
    requires IntervalDivides(a, b) && IntervalDivides(b, c)
    ensures IntervalDivides(a, c)
  {
    var p, q := a / b, b / c;
    assert a == b * p && b == c * q;
    assert a == c * (q * p) by {
      assert (c * q) * p == c * (q * p);
    }
    MultipleOf(c, q * p);
  }

  /** Without an override the scope is closed downwards among the frequencies that have items. */
  lemma ScopeClosedDownward(jobIntervalMonths: int, items: seq<Item>, item: Item, smaller: Item)
    requires item in items && smaller in items
    requires IntervalDivides(jobIntervalMonths, item.intervalMonths)
    requires IntervalDivides(item.intervalMonths, smaller.intervalMonths)
    ensures item.frequency in ResolveCascadeFrequencyScope(jobIntervalMonths, items, None)
    ensures smaller.frequency in ResolveCascadeFrequencyScope(jobIntervalMonths, items, None)
  {
    DividesTransitive(jobIntervalMonths, item.intervalMonths, smaller.intervalMonths);
    ScopeMembersIff(jobIntervalMonths, items, None, item.frequency);
    ScopeMembersIff(jobIntervalMonths, items, None, smaller.frequency);
    assert Covers(jobIntervalMonths, None, item) && Covers(jobIntervalMonths, None, smaller);
  }

  predicate StandardIntervals(items: seq<Item>) {
    forall item | item in items :: item.intervalMonths == FrequencyInterval(item.frequency)
  }

  /** Monthly, quarterly, half-yearly, yearly. */
  predicate NoLonger(f: Frequency, g: Frequency) {
    match f
    case M1 => true
    case M3 => g != M1
    case M6 => g == M6 || g == Y
    case Y => g == Y
  }

  /**
   With the standard intervals the scope reads straight off the table: every frequency that has items
   and divides the job's interval, and so with any member every smaller frequency that has items.
   */
  lemma StandardScope(job: Frequency, items: seq<Item>, f: Frequency)
    requires StandardIntervals(items)
    ensures f in ResolveCascadeFrequencyScope(FrequencyInterval(job), items, None) <==>
      NoLonger(f, job) && exists item :: item in items && item.frequency == f
  {
    ScopeMembersIff(FrequencyInterval(job), items, None, f);
    assert IntervalDivides(FrequencyInterval(job), FrequencyInterval(f)) <==> NoLonger(f, job);
  }
}
