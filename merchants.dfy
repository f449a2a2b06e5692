/**
 * Finding the median merchant (Lab 3, merchants.py): a three-way partition by
 * location, quicksort over it, and quickselect, which finds the merchant that
 * would sit at a given index of the sorted list without sorting.
 */
module Merchants {
  import opened Wrappers

  /** A merchant: a name and a location on a line. */
  datatype Merchant = Merchant(name: string, location: int)

  /** Where a location lies with respect to the pivot's. */
  datatype Side = Less | Equal | Greater

  function SideOf(location: int, pivot: int): Side {
    if location < pivot then Less else if location > pivot then Greater else Equal
  }

  /** The merchants of s on the given side of the pivot location, in their order in s. */
  function Part(s: seq<Merchant>, pivot: int, side: Side): seq<Merchant> {
    if s == [] then []
    else
      var e := s[|s| - 1];
      Part(s[..|s| - 1], pivot, side) + (if SideOf(e.location, pivot) == side then [e] else [])
  }

  /** Sorted by location, non-decreasing. */
  predicate Sorted(s: seq<Merchant>) {
    forall i, j :: 0 <= i < j < |s| ==> s[i].location <= s[j].location
  }

  // ---------------------------------------------------------------------------
  // The partition
  // ---------------------------------------------------------------------------

  /** Splits data into the merchants below, at and above the pivot's location, keeping their order. */
  method Partition(data: seq<Merchant>, pivot: Merchant) returns (less: seq<Merchant>, equal: seq<Merchant>, greater: seq<Merchant>)
    ensures less == Part(data, pivot.location, Less)
    ensures equal == Part(data, pivot.location, Equal)
    ensures greater == Part(data, pivot.location, Greater)
  {
    less, equal, greater := [], [], [];
    for i := 0 to |data|
      invariant less == Part(data[..i], pivot.location, Less)
      invariant equal == Part(data[..i], pivot.location, Equal)
      invariant greater == Part(data[..i], pivot.location, Greater)
    {
      var element := data[i];
      assert data[..i + 1][..i] == data[..i];
      if element.location < pivot.location {
        less := less + [element];
      } else if element.location > pivot.location {
        greater := greater + [element];
      } else {
        equal := equal + [element];
      }
    }
    assert data[..|data|] == data;
  }

  /** Partitioning keeps the order: the parts of a concatenation are the concatenated parts. */
  lemma {:induction false} PartConcat(s: seq<Merchant>, t: seq<Merchant>, x: int, side: Side)
    ensures Part(s + t, x, side) == Part(s, x, side) + Part(t, x, side)
    decreases |t|
  {
    if t == [] {
      assert s + t == s;
    } else {
      var t' := t[..|t| - 1];
      assert (s + t)[..|s + t| - 1] == s + t';
      PartConcat(s, t', x, side);
    }
  }

  /** A merchant is in a part exactly when it is in the data and on that side. */
  lemma {:induction false} PartMembers(s: seq<Merchant>, x: int, side: Side)
    ensures forall e :: e in Part(s, x, side) <==> e in s && SideOf(e.location, x) == side
    decreases |s|
  {
    if s != [] {
      var s' := s[..|s| - 1];
      PartMembers(s', x, side);
      assert s == s' + [s[|s| - 1]];
    }
  }

  /** Every merchant lands in exactly one part: the three parts together are the data. */
  lemma {:induction false} PartSplit(s: seq<Merchant>, x: int)
    ensures multiset(Part(s, x, Less)) + multiset(Part(s, x, Equal)) + multiset(Part(s, x, Greater)) == multiset(s)
    ensures |Part(s, x, Less)| + |Part(s, x, Equal)| + |Part(s, x, Greater)| == |s|
    decreases |s|
  {
    if s != [] {
      var s', e := s[..|s| - 1], s[|s| - 1];
      PartSplit(s', x);
      PartStep(s, x);
      assert s == s' + [e];
      assert multiset(s) == multiset(s') + multiset{e};
    }
    var L, E, G := Part(s, x, Less), Part(s, x, Equal), Part(s, x, Greater);
    assert |multiset(L) + multiset(E) + multiset(G)| == |L| + |E| + |G|;
  }

  /** Adding the last merchant adds it to exactly one part. */
  lemma PartStep(s: seq<Merchant>, x: int)
    requires s != []
    ensures
      var s', e := s[..|s| - 1], s[|s| - 1];
      multiset(Part(s, x, Less)) + multiset(Part(s, x, Equal)) + multiset(Part(s, x, Greater)) ==
      multiset(Part(s', x, Less)) + multiset(Part(s', x, Equal)) + multiset(Part(s', x, Greater)) + multiset{e}
  {
    var s', e := s[..|s| - 1], s[|s| - 1];
    var L, E, G := Part(s', x, Less), Part(s', x, Equal), Part(s', x, Greater);
    match SideOf(e.location, x)
    case Less =>
      assert Part(s, x, Less) == L + [e] && Part(s, x, Equal) == E && Part(s, x, Greater) == G;
    case Equal =>
      assert Part(s, x, Less) == L && Part(s, x, Equal) == E + [e] && Part(s, x, Greater) == G;
    case Greater =>
      assert Part(s, x, Less) == L && Part(s, x, Equal) == E && Part(s, x, Greater) == G + [e];
  }

  /** A part that every merchant is on is the whole data. */
  lemma {:induction false} PartAll(s: seq<Merchant>, x: int, side: Side)
    requires forall i :: 0 <= i < |s| ==> SideOf(s[i].location, x) == side
    ensures Part(s, x, side) == s
    decreases |s|
  {
    if s != [] {
      PartAll(s[..|s| - 1], x, side);
    }
  }

  /** A part that no merchant is on is empty. */
  lemma {:induction false} PartNone(s: seq<Merchant>, x: int, side: Side)
    requires forall i :: 0 <= i < |s| ==> SideOf(s[i].location, x) != side
    ensures Part(s, x, side) == []
    decreases |s|
  {
    if s != [] {
      PartNone(s[..|s| - 1], x, side);
    }
  }

  /**
   * When every location on the given side of v lies on side X of p, taking the
   * part on side X of p first changes nothing.
   */
  lemma {:induction false} PartNested(s: seq<Merchant>, p: int, X: Side, v: int, side: Side)
    requires forall l: int :: SideOf(l, v) == side ==> SideOf(l, p) == X
    ensures Part(Part(s, p, X), v, side) == Part(s, v, side)
    decreases |s|
  {
    if s != [] {
      var s' := s[..|s| - 1];
      var e := s[|s| - 1];
      PartNested(s', p, X, v, side);
      PartConcat(Part(s', p, X), if SideOf(e.location, p) == X then [e] else [], v, side);
    }
  }

  /** How many merchants lie on a side depends only on the merchants, not on their order. */
  lemma {:induction false} PartPerm(s: seq<Merchant>, t: seq<Merchant>, x: int, side: Side)
    requires multiset(s) == multiset(t)
    ensures |Part(s, x, side)| == |Part(t, x, side)|
    decreases |s|
  {
    if s == [] {
      assert t == [];
    } else {
      var s' := s[..|s| - 1];
      var e := s[|s| - 1];
      assert s == s' + [e];
      assert e in multiset(t);
      var i :| 0 <= i < |t| && t[i] == e;
      var t' := t[..i] + t[i + 1..];
      RemoveAt(t, i, x, side);
      assert multiset(s') == multiset(s) - multiset{e};
      PartPerm(s', t', x, side);
      PartConcat(s', [e], x, side);
    }
  }

  /** Taking one merchant out of a list takes it out of the multiset and out of its part. */
  lemma RemoveAt(t: seq<Merchant>, i: int, x: int, side: Side)
    requires 0 <= i < |t|
    ensures multiset(t[..i] + t[i + 1..]) == multiset(t) - multiset{t[i]}
    ensures |Part(t, x, side)| == |Part(t[..i] + t[i + 1..], x, side)| + |Part([t[i]], x, side)|
  {
    var e := t[i];
    assert t == t[..i] + [e] + t[i + 1..];
    assert multiset(t) == multiset(t[..i]) + multiset{e} + multiset(t[i + 1..]);
    PartConcat(t[..i] + [e], t[i + 1..], x, side);
    PartConcat(t[..i], [e], x, side);
    PartConcat(t[..i], t[i + 1..], x, side);
  }

  // ---------------------------------------------------------------------------
  // Quicksort
  // ---------------------------------------------------------------------------

  /** Quicksort with the first merchant as pivot: sorts the merchants below it and above it around those at it. */
  function QuickSort(data: seq<Merchant>): (r: seq<Merchant>)
    ensures |r| == |data|
    decreases |data|
  {
    if |data| == 0 then []
    else
      var p := data[0].location;
      PartSplit(data, p);
      PartMembers(data, p, Equal);
      assert data[0] in Part(data, p, Equal);
      QuickSort(Part(data, p, Less)) + Part(data, p, Equal) + QuickSort(Part(data, p, Greater))
  }

  /** Quicksort returns the same merchants, sorted by location. */
  lemma {:induction false} QuickSortCorrect(data: seq<Merchant>)
    ensures multiset(QuickSort(data)) == multiset(data)
    ensures Sorted(QuickSort(data))
    decreases |data|
  {
    if |data| != 0 {
      var p := data[0].location;
      var less, equal, greater := Part(data, p, Less), Part(data, p, Equal), Part(data, p, Greater);
      PartSplit(data, p);
      PartMembers(data, p, Equal);
      assert data[0] in equal;
      QuickSortCorrect(less);
      QuickSortCorrect(greater);
      var a, c := QuickSort(less), QuickSort(greater);
      PermOnSide(a, data, p, Less);
      PermOnSide(equal, data, p, Equal);
      PermOnSide(c, data, p, Greater);
      SortedAround(a, equal, c, p);
    }
  }

  /** The merchants of a rearranged part all lie on its side. */
  lemma PermOnSide(a: seq<Merchant>, s: seq<Merchant>, p: int, side: Side)
    requires multiset(a) == multiset(Part(s, p, side))
    ensures forall i :: 0 <= i < |a| ==> SideOf(a[i].location, p) == side
  {
    PartMembers(s, p, side);
    forall i | 0 <= i < |a| ensures SideOf(a[i].location, p) == side {
      assert a[i] in multiset(a);
    }
  }

  /** Sorted runs below, at and above a location join into a sorted list. */
  lemma SortedAround(a: seq<Merchant>, b: seq<Merchant>, c: seq<Merchant>, p: int)
    requires Sorted(a) && Sorted(c)
    requires forall i :: 0 <= i < |a| ==> SideOf(a[i].location, p) == Less
    requires forall i :: 0 <= i < |b| ==> SideOf(b[i].location, p) == Equal
    requires forall i :: 0 <= i < |c| ==> SideOf(c[i].location, p) == Greater
    ensures Sorted(a + b + c)
  {
    var r := a + b + c;
    forall i, j | 0 <= i < j < |r| ensures r[i].location <= r[j].location {
      if j < |a| {
        assert r[i] == a[i] && r[j] == a[j];
      } else if i >= |a| + |b| {
        assert r[i] == c[i - |a| - |b|] && r[j] == c[j - |a| - |b|];
      } else {
        assert SideOf(r[i].location, p) != Greater && SideOf(r[j].location, p) != Less;
      }
    }
  }

  // ---------------------------------------------------------------------------
  // Quickselect
  // ---------------------------------------------------------------------------

  /** A pivot choice: an index into every non-empty list (randint(0, len - 1) in the source). */
  ghost predicate ChoosesIndex(pick: seq<Merchant> -> nat) {
    forall s :: |s| > 0 ==> pick(s) < |s|
  }

  /** What quick_select raises: the ValueError of randint(0, -1) on reaching an empty list. */
  datatype SelectError = EmptyRange

  /**
   * The merchant at index k of the list sorted by location, found by
   * partitioning around the chosen pivot and descending into one part only.
   * An index outside the list sends the descent into an empty part, where
   * no pivot can be drawn.
   */
  function QuickSelect(data: seq<Merchant>, k: int, pick: seq<Merchant> -> nat): (r: Result<Merchant, SelectError>)
    requires ChoosesIndex(pick)
    ensures r.Ok? <==> 0 <= k < |data|
    ensures r.Ok? ==> r.value in data
    decreases |data|
  {
    if |data| == 0 then Err(EmptyRange)
    else
      var pivot := data[pick(data)];
      var p := pivot.location;
      var smaller, equal, larger := Part(data, p, Less), Part(data, p, Equal), Part(data, p, Greater);
      var count := |equal|;
      var m := |smaller|;
      PartSplit(data, p);
      PartMembers(data, p, Equal);
      assert pivot in equal;
      if m <= k < m + count then Ok(pivot)
      else if m > k then
        var r := QuickSelect(smaller, k, pick);
        PartMembers(data, p, Less);
        r
      else
        var r := QuickSelect(larger, k - m - count, pick);
        PartMembers(data, p, Greater);
        r
  }

  /** The number of merchants strictly below location v. */
  function Rank(s: seq<Merchant>, v: int): nat {
    |Part(s, v, Less)|
  }

  /** The number of merchants at or below location v. */
  function RankAtMost(s: seq<Merchant>, v: int): nat {
    |Part(s, v, Less)| + |Part(s, v, Equal)|
  }

  /** Quickselect finds a merchant whose location occupies index k once sorted: at most k merchants lie below it, more than k at or below it. */
  lemma {:induction false} QuickSelectIsKth(data: seq<Merchant>, k: int, pick: seq<Merchant> -> nat)
    requires 0 <= k < |data| && ChoosesIndex(pick)
    ensures Rank(data, QuickSelect(data, k, pick).value.location) <= k < RankAtMost(data, QuickSelect(data, k, pick).value.location)
    decreases |data|, 1
  {
    var pivot := data[pick(data)];
    var p := pivot.location;
    var smaller, equal, larger := Part(data, p, Less), Part(data, p, Equal), Part(data, p, Greater);
    var count := |equal|;
    var m := |smaller|;
    PartSplit(data, p);
    PartMembers(data, p, Equal);
    assert pivot in equal;
    if m <= k < m + count {
    } else if m > k {
      SelectBelow(data, k, pick);
    } else {
      SelectAbove(data, k, pick);
    }
  }

  /** The case of QuickSelectIsKth that descends into the merchants below the pivot. */
  lemma {:induction false} SelectBelow(data: seq<Merchant>, k: int, pick: seq<Merchant> -> nat)
    requires 0 <= k < |data| && ChoosesIndex(pick)
    requires k < |Part(data, data[pick(data)].location, Less)|
    ensures Rank(data, QuickSelect(data, k, pick).value.location) <= k < RankAtMost(data, QuickSelect(data, k, pick).value.location)
    decreases |data|, 0
  {
    var p := data[pick(data)].location;
    var smaller := Part(data, p, Less);
    PartSplit(data, p);
    PartMembers(data, p, Equal);
    assert data[pick(data)] in Part(data, p, Equal);
    var r := QuickSelect(smaller, k, pick);
    assert QuickSelect(data, k, pick) == r;
    QuickSelectIsKth(smaller, k, pick);
    PartMembers(data, p, Less);
    RanksBelowPivot(data, p, r.value.location);
  }

  /** The case of QuickSelectIsKth that descends into the merchants above the pivot. */
  lemma {:induction false} SelectAbove(data: seq<Merchant>, k: int, pick: seq<Merchant> -> nat)
    requires 0 <= k < |data| && ChoosesIndex(pick)
    requires |Part(data, data[pick(data)].location, Less)| + |Part(data, data[pick(data)].location, Equal)| <= k
    ensures Rank(data, QuickSelect(data, k, pick).value.location) <= k < RankAtMost(data, QuickSelect(data, k, pick).value.location)
    decreases |data|, 0
  {
    var p := data[pick(data)].location;
    var smaller, equal, larger := Part(data, p, Less), Part(data, p, Equal), Part(data, p, Greater);
    PartSplit(data, p);
    PartMembers(data, p, Equal);
    assert data[pick(data)] in equal;
    var k' := k - |smaller| - |equal|;
    var r := QuickSelect(larger, k', pick);
    assert QuickSelect(data, k, pick) == r;
    QuickSelectIsKth(larger, k', pick);
    PartMembers(data, p, Greater);
    RanksAbovePivot(data, p, r.value.location);
  }

  /** Below the pivot, only the merchants below it count towards a rank. */
  lemma RanksBelowPivot(data: seq<Merchant>, p: int, v: int)
    requires v < p
    ensures Rank(data, v) == Rank(Part(data, p, Less), v)
    ensures RankAtMost(data, v) == RankAtMost(Part(data, p, Less), v)
  {
    PartNested(data, p, Less, v, Less);
    PartNested(data, p, Less, v, Equal);
  }

  /** Above the pivot, every merchant below or at it counts towards a rank, plus those above it that rank. */
  lemma RanksAbovePivot(data: seq<Merchant>, p: int, v: int)
    requires v > p
    ensures Rank(data, v) == |Part(data, p, Less)| + |Part(data, p, Equal)| + Rank(Part(data, p, Greater), v)
    ensures RankAtMost(data, v) == |Part(data, p, Less)| + |Part(data, p, Equal)| + RankAtMost(Part(data, p, Greater), v)
  {
    var larger := Part(data, p, Greater);
    PartNested(data, p, Greater, v, Greater);
    PartNested(data, p, Greater, v, Equal);
    PartSplit(data, v);
    PartSplit(larger, v);
    PartSplit(data, p);
  }

  /** In a sorted list, the merchant at an index between a location's two ranks has that location. */
  lemma SortedRank(s: seq<Merchant>, k: int, v: int)
    requires Sorted(s) && 0 <= k < |s|
    requires Rank(s, v) <= k < RankAtMost(s, v)
    ensures s[k].location == v
  {
    if s[k].location < v {
      assert s == s[..k + 1] + s[k + 1..];
      PartAll(s[..k + 1], v, Less);
      PartConcat(s[..k + 1], s[k + 1..], v, Less);
      assert false;
    } else if s[k].location > v {
      assert s == s[..k] + s[k..];
      PartNone(s[k..], v, Less);
      PartNone(s[k..], v, Equal);
      PartConcat(s[..k], s[k..], v, Less);
      PartConcat(s[..k], s[k..], v, Equal);
      PartSplit(s[..k], v);
      assert false;
    }
  }

  /** Quickselect and quicksort agree: the k-th merchant selected has the location of the k-th merchant sorted (the median for k = n / 2). */
  lemma SelectMatchesSort(data: seq<Merchant>, k: int, pick: seq<Merchant> -> nat)
    requires 0 <= k < |data| && ChoosesIndex(pick)
    ensures QuickSelect(data, k, pick).value.location == QuickSort(data)[k].location
  {
    var sorted := QuickSort(data);
    QuickSortCorrect(data);
    assert |sorted| == |data| by {
      assert |multiset(sorted)| == |multiset(data)|;
    }
    var v := QuickSelect(data, k, pick).value.location;
    QuickSelectIsKth(data, k, pick);
    PartPerm(sorted, data, v, Less);
    PartPerm(sorted, data, v, Equal);
    SortedRank(sorted, k, v);
  }
}
