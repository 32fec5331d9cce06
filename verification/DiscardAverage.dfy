/** The two discard-and-average functions of the user maths: the samples furthest from the mean
    are left out, one per round. */
module DiscardAverage {
  import opened Arithmetic
  import opened Words

  // ---------- Choosing what to discard ----------

  /** The worst deviation found, and where. */
  datatype Worst = Worst(deviation: nat, index: nat)

  /** One round over the first n deviations: the last of the largest ones below `bound`. Where
      there is none the index of the round before is kept. */
  function Scan(devs: seq<nat>, bound: nat, index: nat, n: nat): (w: Worst)
    requires n <= |devs| && index < |devs|
    ensures w.index < |devs|
  {
    if n == 0 then Worst(0, index)
    else
      var w := Scan(devs, bound, index, n - 1);
      if devs[n - 1] >= w.deviation && devs[n - 1] < bound then Worst(devs[n - 1], n - 1) else w
  }

  /** The state after r rounds; the first bound is `start`. */
  function Round(devs: seq<nat>, start: nat, r: nat): (w: Worst)
    requires devs != []
    ensures w.index < |devs|
  {
    if r == 0 then Worst(start, 0)
    else
      var w := Round(devs, start, r - 1);
      Scan(devs, w.deviation, w.index, |devs|)
  }

  ghost predicate InBounds(ps: seq<nat>, n: nat) {
    forall i :: 0 <= i < |ps| ==> ps[i] < n
  }

  /** The indices chosen by d rounds. */
  function Picks(devs: seq<nat>, start: nat, d: nat): (ps: seq<nat>)
    requires devs != []
    ensures |ps| == d && InBounds(ps, |devs|)
  {
    if d == 0 then [] else Picks(devs, start, d - 1) + [Round(devs, start, d).index]
  }

  lemma {:induction false} PickIs(devs: seq<nat>, start: nat, d: nat, i: nat)
    requires devs != [] && i < d
    ensures Picks(devs, start, d)[i] == Round(devs, start, i + 1).index
  {
    if i < d - 1 {
      PickIs(devs, start, d - 1, i);
    }
  }

  lemma {:induction false} ScanFinds(devs: seq<nat>, bound: nat, index: nat, n: nat)
    requires n <= |devs| && index < |devs|
    ensures var w := Scan(devs, bound, index, n);
      && ((forall i :: 0 <= i < n ==> devs[i] >= bound) ==> w == Worst(0, index))
      && ((exists i :: 0 <= i < n && devs[i] < bound) ==>
            && w.index < n && devs[w.index] == w.deviation < bound
            && forall i :: w.index < i < n && devs[i] < bound ==> devs[i] < w.deviation)
      && forall i :: 0 <= i < n && devs[i] < bound ==> devs[i] <= w.deviation
  {
    if n > 0 {
      ScanFinds(devs, bound, index, n - 1);
    }
  }

  /** Every round chooses an index below the bound, or the one chosen before; bounds fall. */
  lemma {:induction false} RoundFinds(devs: seq<nat>, start: nat, r: nat)
    requires devs != []
    ensures var w, v := Round(devs, start, r), Round(devs, start, r + 1);
      && v.deviation <= w.deviation && v.deviation <= devs[v.index]
      && (devs[v.index] < w.deviation || (v.index == w.index && v.deviation == 0))
      && forall i :: 0 <= i < |devs| && devs[i] < w.deviation ==> devs[i] <= v.deviation
  {
    var w := Round(devs, start, r);
    ScanFinds(devs, w.deviation, w.index, |devs|);
    if r > 0 {
      RoundFinds(devs, start, r - 1);
    }
  }

  // ---------- The largest deviations ----------

  ghost predicate Distinct(ps: seq<nat>) {
    forall i, j :: 0 <= i < j < |ps| ==> ps[i] != ps[j]
  }

  /** As many different samples as chosen, none further out than these left in. */
  ghost predicate Furthest(devs: seq<nat>, ps: seq<nat>) {
    && Distinct(ps) && InBounds(ps, |devs|)
    && forall p, j :: p in ps && 0 <= j < |devs| && j !in ps ==> devs[j] <= devs[p]
  }

  /** The samples further out than v. */
  ghost function Beyond(devs: seq<nat>, v: nat): set<nat> {
    set k | 0 <= k < |devs| && devs[k] > v
  }

  /** Equal deviations occur only where at least d - 1 others are larger. */
  ghost predicate TiesOnlyLate(devs: seq<nat>, d: nat) {
    forall i, j :: 0 <= i < j < |devs| && devs[i] == devs[j] ==> |Beyond(devs, devs[i])| >= d - 1
  }

  // ---------- Sets of indices ----------

  ghost function Indices(ps: seq<nat>): set<nat> {
    set p | p in ps
  }

  lemma {:induction false} DistinctCount(ps: seq<nat>)
    requires Distinct(ps)
    ensures |Indices(ps)| == |ps|
  {
    if ps != [] {
      var front, last := ps[..|ps| - 1], ps[|ps| - 1];
      DistinctCount(front);
      assert Indices(ps) == Indices(front) + {last};
    }
  }

  lemma SubsetCount(a: set<nat>, b: set<nat>)
    requires a <= b
    ensures |a| <= |b|
  {
    assert b == a + (b - a);
  }

  ghost function Below(n: nat): (b: set<nat>)
    ensures forall k: nat :: k in b <==> k < n
  {
    if n == 0 then {} else Below(n - 1) + {n - 1}
  }

  lemma {:induction false} BelowCount(n: nat)
    ensures |Below(n)| == n
  {
    if n > 0 {
      BelowCount(n - 1);
    }
  }

  /** Fewer choices than samples leave one. */
  lemma LeftOver(ps: seq<nat>, n: nat) returns (j: nat)
    requires Distinct(ps) && |ps| < n
    ensures j < n && j !in ps
  {
    DistinctCount(ps);
    BelowCount(n);
    if forall k :: 0 <= k < n ==> k in ps {
      SubsetCount(Below(n), Indices(ps));
      assert false;
    }
    j :| 0 <= j < n && j !in ps;
  }

  // ---------- When the furthest are discarded ----------

  /** r rounds have chosen the furthest samples, and the bound separates them from the rest. */
  ghost predicate Separated(devs: seq<nat>, start: nat, r: nat)
    requires devs != []
  {
    var ps, bound := Picks(devs, start, r), Round(devs, start, r).deviation;
    && Furthest(devs, ps)
    && (forall p <- ps :: devs[p] >= bound)
    && forall j :: 0 <= j < |devs| && j !in ps ==> devs[j] < bound
  }

  lemma NextPick(devs: seq<nat>, start: nat, r: nat)
    requires r < |devs| && Separated(devs, start, r)
    ensures var w, ps := Round(devs, start, r + 1), Picks(devs, start, r);
      && w.index !in ps && devs[w.index] == w.deviation
      && Furthest(devs, Picks(devs, start, r + 1))
      && Beyond(devs, w.deviation) == Indices(ps)
      && forall j :: 0 <= j < |devs| && j !in ps ==> devs[j] <= w.deviation
  {
    var w, ps := Round(devs, start, r), Picks(devs, start, r);
    var j := LeftOver(ps, |devs|);
    ScanFinds(devs, w.deviation, w.index, |devs|);
    assert devs[j] < w.deviation;
  }

  /** If ties come late, d rounds choose the d furthest. */
  lemma {:induction false} LateTiesSeparate(devs: seq<nat>, start: nat, d: nat, r: nat)
    requires devs != [] && TiesOnlyLate(devs, d) && d <= |devs| && forall i :: 0 <= i < |devs| ==> devs[i] < start
    requires r <= d
    ensures Furthest(devs, Picks(devs, start, r))
    ensures r < d ==> Separated(devs, start, r)
  {
    if r > 0 {
      LateTiesSeparate(devs, start, d, r - 1);
      NextPick(devs, start, r - 1);
      var w, ps := Round(devs, start, r), Picks(devs, start, r - 1);
      DistinctCount(ps);
      if r < d {
        forall j | 0 <= j < |devs| && j !in Picks(devs, start, r)
          ensures devs[j] < w.deviation
        {
          if devs[j] == w.deviation {
            assert false;
          }
        }
      }
    }
  }

  /** Different choices have strictly falling deviations. */
  lemma {:induction false} ChoicesFall(devs: seq<nat>, start: nat, d: nat, a: nat, b: nat)
    requires devs != [] && Distinct(Picks(devs, start, d)) && a < b < d
    ensures var ps := Picks(devs, start, d);
      devs[ps[a]] > devs[ps[b]]
  {
    PickIs(devs, start, d, b - 1);
    PickIs(devs, start, d, b);
    RoundFinds(devs, start, b - 1);
    RoundFinds(devs, start, b);
    if a < b - 1 {
      ChoicesFall(devs, start, d, a, b - 1);
    }
  }

  /** And the other way round: all choices but the last are further out than any tie. */
  lemma FurthestHasLateTies(devs: seq<nat>, start: nat, d: nat)
    requires devs != [] && Furthest(devs, Picks(devs, start, d))
    ensures TiesOnlyLate(devs, d)
  {
    forall i, j | 0 <= i < j < |devs| && devs[i] == devs[j]
      ensures |Beyond(devs, devs[i])| >= d - 1
    {
      if d > 0 {
        var ps := Picks(devs, start, d);
        forall a | 0 <= a < d - 1
          ensures devs[ps[a]] > devs[i]
        {
          ChoiceBeyondTie(devs, start, d, i, j, a);
        }
        DistinctCount(ps[..d - 1]);
        SubsetCount(Indices(ps[..d - 1]), Beyond(devs, devs[i]));
      }
    }
  }

  lemma ChoiceBeyondTie(devs: seq<nat>, start: nat, d: nat, i: nat, j: nat, a: nat)
    requires devs != [] && Furthest(devs, Picks(devs, start, d))
    requires i < j < |devs| && devs[i] == devs[j] && a < d - 1
    ensures devs[Picks(devs, start, d)[a]] > devs[i]
  {
    var ps := Picks(devs, start, d);
    ChoicesFall(devs, start, d, a, d - 1);
    if devs[ps[a]] <= devs[i] {
      var last := ps[d - 1];
      assert last in ps && devs[last] < devs[i];
      var x :| 0 <= x < d && ps[x] == i;
      var y :| 0 <= y < d && ps[y] == j;
      ChoicesFall(devs, start, d, if x < y then x else y, if x < y then y else x);
      assert false;
    }
  }

  ghost predicate AllBelow(devs: seq<nat>, start: nat) {
    forall i :: 0 <= i < |devs| ==> devs[i] < start
  }

  ghost predicate AllAt(devs: seq<nat>, start: nat) {
    forall i :: 0 <= i < |devs| ==> devs[i] == start
  }

  /** Where all deviations are at the first bound, every round chooses the first sample. */
  lemma AtTheBound(devs: seq<nat>, start: nat, d: nat)
    requires devs != [] && AllAt(devs, start) && d > 0
    ensures Furthest(devs, Picks(devs, start, d)) <==> d == 1
  {
    ScanFinds(devs, start, 0, |devs|);
    ScanFinds(devs, 0, 0, |devs|);
    assert Round(devs, start, 1) == Worst(0, 0) && Round(devs, start, 2) == Worst(0, 0);
    PickIs(devs, start, d, 0);
    if d > 1 {
      PickIs(devs, start, d, 1);
    }
  }

  /** A deviation at the first bound is passed over, if there is one below. */
  lemma PassedOver(devs: seq<nat>, start: nat, d: nat, top: nat, low: nat)
    requires top < |devs| && low < |devs| && devs[low] < start <= devs[top] && d > 0
    ensures !Furthest(devs, Picks(devs, start, d))
  {
    var ps := Picks(devs, start, d);
    PickIs(devs, start, d, 0);
    ScanFinds(devs, start, 0, |devs|);
    assert devs[ps[0]] < start && ps[0] in ps;
    if Distinct(ps) {
      forall b | 0 <= b < d
        ensures ps[b] != top
      {
        if b > 0 {
          ChoicesFall(devs, start, d, 0, b);
        }
      }
    }
  }

  /** With no deviation above the first bound, the d rounds choose d furthest samples exactly if
      ties come late and no deviation is at the bound; or if none is to be discarded; or if it is
      one of samples that are all at the bound. */
  lemma FurthestIff(devs: seq<nat>, start: nat, d: nat)
    requires d < |devs| && forall i :: 0 <= i < |devs| ==> devs[i] <= start
    ensures Furthest(devs, Picks(devs, start, d)) <==>
      if d == 0 || AllBelow(devs, start) then TiesOnlyLate(devs, d) else d == 1 && AllAt(devs, start)
  {
    if d == 0 {
      assert TiesOnlyLate(devs, d);
    } else if AllBelow(devs, start) {
      if TiesOnlyLate(devs, d) {
        LateTiesSeparate(devs, start, d, d);
      }
      if Furthest(devs, Picks(devs, start, d)) {
        FurthestHasLateTies(devs, start, d);
      }
    } else if AllAt(devs, start) {
      AtTheBound(devs, start, d);
    } else {
      var top :| 0 <= top < |devs| && devs[top] >= start;
      var low :| 0 <= low < |devs| && devs[low] != start;
      PassedOver(devs, start, d, top, low);
    }
  }

  /** Ties are late where at most one sample is discarded, or no two deviations are equal. */
  lemma FewTies(devs: seq<nat>, d: nat)
    ensures d <= 1 || (forall i, j :: 0 <= i < j < |devs| ==> devs[i] != devs[j]) ==> TiesOnlyLate(devs, d)
  {
  }

  // ---------- Sums ----------

  function Total(xs: seq<int>): int {
    if xs == [] then 0 else Total(xs[..|xs| - 1]) + xs[|xs| - 1]
  }

  function Picked(xs: seq<int>, ps: seq<nat>): int
    requires InBounds(ps, |xs|)
  {
    if ps == [] then 0 else Picked(xs, ps[..|ps| - 1]) + xs[ps[|ps| - 1]]
  }

  function Remaining(xs: seq<int>, ps: seq<nat>): int
    requires InBounds(ps, |xs|)
  {
    Total(xs) - Picked(xs, ps)
  }

  /** The sum of the samples left in. */
  ghost function Rest(xs: seq<int>, out: set<nat>): int {
    if xs == [] then 0
    else
      var n := |xs| - 1;
      Rest(xs[..n], out) + if n in out then 0 else xs[n]
  }

  lemma {:induction false} RestWithoutOne(xs: seq<int>, out: set<nat>, p: nat)
    requires p !in out
    ensures Rest(xs, out + {p}) == Rest(xs, out) - if p < |xs| then xs[p] else 0
  {
    if xs != [] {
      RestWithoutOne(xs[..|xs| - 1], out, p);
    }
  }

  lemma {:induction false} RestOfNone(xs: seq<int>)
    ensures Rest(xs, {}) == Total(xs)
  {
    if xs != [] {
      RestOfNone(xs[..|xs| - 1]);
    }
  }

  /** Subtracting different samples one by one leaves the sum of the others. */
  lemma {:induction false} PickedLeavesRest(xs: seq<int>, ps: seq<nat>)
    requires Distinct(ps) && InBounds(ps, |xs|)
    ensures Rest(xs, Indices(ps)) == Remaining(xs, ps)
  {
    if ps == [] {
      assert Indices(ps) == {};
      RestOfNone(xs);
    } else {
      var front, last := ps[..|ps| - 1], ps[|ps| - 1];
      PickedLeavesRest(xs, front);
      RestWithoutOne(xs, Indices(front), last);
      assert Indices(ps) == Indices(front) + {last};
    }
  }

  lemma {:induction false} RestOfNaturals(xs: seq<int>, out: set<nat>)
    requires forall i :: 0 <= i < |xs| ==> xs[i] >= 0
    ensures 0 <= Rest(xs, out) <= Total(xs)
    ensures forall i :: 0 <= i < |xs| ==> xs[i] <= Total(xs)
  {
    if xs != [] {
      RestOfNaturals(xs[..|xs| - 1], out);
    }
  }

  // ---------- Unsigned samples ----------

  const UINT_MAX: uint32 := 0xffff_ffff
  const INT_MAX: sint32 := 0x7fff_ffff

  function Deviations(xs: seq<int>, mean: int): (devs: seq<nat>)
    ensures |devs| == |xs|
  {
    seq(|xs|, i requires 0 <= i < |xs| => Distance(xs[i], mean))
  }

  /** A sum divided by a count less d, in 32-bit words. */
  function Quotient32(sum: int, n: nat, d: nat): uint32
    requires n < U32_MODULUS && d < U32_MODULUS && n != d
  {
    NonZero(n - d);
    QuotientBelow(ToU32(sum), ToU32(n - d));
    ToU32(sum) / ToU32(n - d)
  }

  lemma NonZero(n: int)
    requires -U32_MODULUS < n < U32_MODULUS && n != 0
    ensures ToU32(n) != 0 && ToS32(n) != 0
  {
  }

  lemma QuotientFits(sum: nat, n: nat, d: nat)
    requires sum < U32_MODULUS && d < n < U32_MODULUS
    ensures Quotient32(sum, n, d) == sum / (n - d)
  {
    NoWrap(sum);
    NoWrap(n - d);
  }

  function Mean32(xs: seq<uint32>): uint32
    requires 0 < |xs| < U32_MODULUS
  {
    Quotient32(Total(xs), |xs|, 0)
  }

  function Discarded32(xs: seq<uint32>, d: nat): (ps: seq<nat>)
    requires 0 < |xs| < U32_MODULUS
    ensures InBounds(ps, |xs|)
  {
    Picks(Deviations(xs, Mean32(xs)), UINT_MAX, d)
  }

  /** What is returned. */
  function Discard32(xs: seq<uint32>, d: uint32): uint32
    requires |xs| < U32_MODULUS && (xs == [] || |xs| != d)
  {
    if xs == [] then 0 else Quotient32(Remaining(xs, Discarded32(xs, d)), |xs|, d)
  }

  lemma MeanBounds(xs: seq<uint32>)
    requires 0 < |xs| < U32_MODULUS && 0 <= Total(xs) < U32_MODULUS
    ensures Mean32(xs) == Total(xs) / |xs| <= Total(xs)
    ensures |xs| > 1 ==> Mean32(xs) <= Total(xs) / 2 && (Total(xs) >= |xs| ==> Mean32(xs) >= 1)
    ensures |xs| == 1 ==> Mean32(xs) == xs[0]
  {
    var n, t := |xs|, Total(xs);
    QuotientFits(t, n, 0);
    QuotientBelow(t, n);
    if n > 1 {
      QuotientSmall(t, n);
    } else {
      assert xs[..0] == [] && t == xs[0];
    }
  }

  lemma DeviationsBelowMax(xs: seq<uint32>)
    requires 0 < |xs| < U32_MODULUS && Total(xs) < U32_MODULUS
    ensures 0 <= Total(xs) && Mean32(xs) == Total(xs) / |xs|
    ensures forall i :: 0 <= i < |xs| ==> Deviations(xs, Mean32(xs))[i] < UINT_MAX
  {
    RestOfNaturals(xs, {});
    MeanBounds(xs);
    forall i | 0 <= i < |xs|
      ensures Distance(xs[i], Mean32(xs)) < UINT_MAX
    {
      DistanceBelowMax(xs[i], Total(xs), |xs|, Mean32(xs));
    }
  }

  lemma DistanceBelowMax(x: nat, t: uint32, n: nat, m: nat)
    requires x <= t && m <= t && n < U32_MODULUS
    requires n > 1 ==> m <= t / 2 && (t >= n ==> m >= 1)
    requires n <= 1 ==> m == x
    ensures Distance(x, m) < UINT_MAX
  {
  }

  /** Without overflow the d furthest samples are discarded exactly if ties come late. */
  lemma Discard32ChoosesFurthest(xs: seq<uint32>, d: uint32)
    requires d < |xs| < U32_MODULUS && Total(xs) < U32_MODULUS
    ensures Mean32(xs) == Total(xs) / |xs|
    ensures var devs := Deviations(xs, Mean32(xs));
      Furthest(devs, Discarded32(xs, d)) <==> TiesOnlyLate(devs, d)
  {
    DeviationsBelowMax(xs);
    FurthestIff(Deviations(xs, Mean32(xs)), UINT_MAX, d);
  }

  lemma Discard32Result(xs: seq<uint32>, d: uint32, ps: seq<nat>, rest: int)
    requires d < |xs| < U32_MODULUS && ps == Discarded32(xs, d) && Distinct(ps) && rest == Rest(xs, Indices(ps))
    ensures Discard32(xs, d) == Quotient32(rest, |xs|, d)
  {
    PickedLeavesRest(xs, ps);
  }

  /** Where different samples are discarded the result is the integer mean of the others. */
  lemma Discard32IsMeanOfRest(xs: seq<uint32>, d: uint32, ps: seq<nat>, rest: int)
    requires d < |xs| < U32_MODULUS && Total(xs) < U32_MODULUS && ps == Discarded32(xs, d) && Distinct(ps)
    requires rest == Rest(xs, Indices(ps))
    ensures Discard32(xs, d) == rest / (|xs| - d)
  {
    assert 0 <= rest < U32_MODULUS by {
      RestOfNaturals(xs, Indices(ps));
    }
    QuotientFits(rest, |xs|, d);
    Discard32Result(xs, d, ps, rest);
  }

  /** With late ties, then, it returns the mean of all but the d furthest samples. */
  lemma Discard32IsRobust(xs: seq<uint32>, d: uint32, ps: seq<nat>, rest: int)
    requires d < |xs| < U32_MODULUS && Total(xs) < U32_MODULUS && ps == Discarded32(xs, d)
    requires TiesOnlyLate(Deviations(xs, Mean32(xs)), d) && rest == Rest(xs, Indices(ps))
    ensures Furthest(Deviations(xs, Mean32(xs)), ps) && Discard32(xs, d) == rest / (|xs| - d)
  {
    Discard32ChoosesFurthest(xs, d);
    Discard32IsMeanOfRest(xs, d, ps, rest);
  }

  /** One comparison of a round. */
  lemma Compare(devs: seq<nat>, bound: nat, index: nat, n: nat, w: Worst)
    requires n < |devs| && index < |devs| && w == Scan(devs, bound, index, n)
    ensures Scan(devs, bound, index, n + 1)
         == if devs[n] >= w.deviation && devs[n] < bound then Worst(devs[n], n) else w
  {
  }

  lemma FirstRound(devs: seq<nat>)
    requires devs == [5, 5, 0, 0]
    ensures Scan(devs, UINT_MAX, 0, 4) == Worst(5, 1)
  {
    Compare(devs, UINT_MAX, 0, 0, Worst(0, 0));
    Compare(devs, UINT_MAX, 0, 1, Worst(5, 0));
    Compare(devs, UINT_MAX, 0, 2, Worst(5, 1));
    Compare(devs, UINT_MAX, 0, 3, Worst(5, 1));
  }

  lemma SecondRound(devs: seq<nat>)
    requires devs == [5, 5, 0, 0]
    ensures Scan(devs, 5, 1, 4) == Worst(0, 3)
  {
    Compare(devs, 5, 1, 0, Worst(0, 1));
    Compare(devs, 5, 1, 1, Worst(0, 1));
    Compare(devs, 5, 1, 2, Worst(0, 1));
    Compare(devs, 5, 1, 3, Worst(0, 2));
  }

  lemma TwoRounds(devs: seq<nat>)
    requires devs == [5, 5, 0, 0]
    ensures Picks(devs, UINT_MAX, 2) == [1, 3]
  {
    FirstRound(devs);
    SecondRound(devs);
    assert Round(devs, UINT_MAX, 0) == Worst(UINT_MAX, 0);
    assert Round(devs, UINT_MAX, 1) == Worst(5, 1);
    assert Round(devs, UINT_MAX, 2) == Worst(0, 3);
    PickIs(devs, UINT_MAX, 2, 0);
    PickIs(devs, UINT_MAX, 2, 1);
  }

  lemma TotalOfFour(xs: seq<int>)
    requires |xs| == 4
    ensures Total(xs) == xs[0] + xs[1] + xs[2] + xs[3]
  {
    var a, b, c := xs[..3], xs[..2], xs[..1];
    assert a[..2] == b && b[..1] == c && c[..0] == [];
    assert Total(c) == xs[0] && Total(b) == xs[0] + xs[1] && Total(a) == xs[0] + xs[1] + xs[2];
  }

  /** The two samples chosen, taken from the total. */
  lemma WithoutTwo(xs: seq<int>, i: nat, j: nat)
    requires i < |xs| && j < |xs|
    ensures InBounds([i, j], |xs|) && Remaining(xs, [i, j]) == Total(xs) - xs[i] - xs[j]
  {
    PickedAppend(xs, [], i);
    PickedAppend(xs, [i], j);
    assert [] + [i] == [i] && [i] + [j] == [i, j];
  }

  /** With an early tie a sample further out is kept: of 0, 10, 5, 5 the two furthest from the
      mean, 5, are 0 and 10, but 10 and 5 are discarded, and 2 is returned in place of 5. */
  lemma EarlyTieSpoilsIt(xs: seq<uint32>)
    requires xs == [0, 10, 5, 5]
    ensures Discarded32(xs, 2) == [1, 3] && Discard32(xs, 2) == 2
  {
    TotalOfFour(xs);
    QuotientFits(20, 4, 0);
    assert Deviations(xs, 5) == [5, 5, 0, 0];
    TwoRounds(Deviations(xs, 5));
    WithoutTwo(xs, 1, 3);
    QuotientFits(5, 4, 2);
  }

  // ---------- Signed samples ----------

  /** Division in C truncates towards zero. */
  function TruncDiv(a: int, b: int): int
    requires b != 0
  {
    if a >= 0 then a / b else 0 - (0 - a) / b
  }

  /** q is s / b without its fraction: b times q is as close to s as it can be from the side of zero,
      and q has the sign of s or is 0. */
  ghost predicate TowardsZero(q: int, s: int, b: int) {
    && (s >= 0 ==> q >= 0 && b * q <= s < b * q + b)
    && (s <= 0 ==> q <= 0 && b * q - b < s <= b * q)
  }

  lemma TruncDivInPlain(a: int, b: int)
    requires b > 0
    ensures TowardsZero(TruncDiv(a, b), a, b)
  {
    if a >= 0 {
      Divided(a, b);
    } else {
      var q := (0 - a) / b;
      Divided(0 - a, b);
      assert b * (0 - q) == 0 - b * q;
    }
  }

  /** By a negative number the quotient is the opposite one. */
  lemma TruncDivByNegative(a: int, b: int)
    requires b < 0
    ensures TowardsZero(0 - TruncDiv(a, b), a, 0 - b)
  {
    TruncDivInPlain(a, 0 - b);
  }

  predicate FitsS32(x: int) {
    -INT_MAX - 1 <= x <= INT_MAX
  }

  function QuotientS32(sum: int, n: nat, d: nat): sint32
    requires n < U32_MODULUS && d < U32_MODULUS && n != d
  {
    NonZero(n - d);
    ToS32(TruncDiv(ToS32(sum), ToS32(n - d)))
  }

  function MeanS32(xs: seq<sint32>): sint32
    requires 0 < |xs| < U32_MODULUS
  {
    QuotientS32(Total(xs), |xs|, 0)
  }

  function DiscardedS32(xs: seq<sint32>, d: nat): (ps: seq<nat>)
    requires 0 < |xs| < U32_MODULUS
    ensures InBounds(ps, |xs|)
  {
    Picks(Deviations(xs, MeanS32(xs)), INT_MAX, d)
  }

  function DiscardS32(xs: seq<sint32>, d: uint32): sint32
    requires 0 < |xs| < U32_MODULUS && |xs| != d
  {
    QuotientS32(Remaining(xs, DiscardedS32(xs, d)), |xs|, d)
  }

  lemma NoWrapS32(x: int)
    requires FitsS32(x)
    ensures ToS32(x) == x
  {
  }

  lemma QuotientFitsS32(sum: int, n: nat, d: nat)
    requires FitsS32(sum) && d < n <= INT_MAX
    ensures QuotientS32(sum, n, d) == TruncDiv(sum, n - d)
    ensures TowardsZero(QuotientS32(sum, n, d), sum, n - d)
  {
    NoWrapS32(sum);
    NoWrapS32(n - d);
    QuotientBelow(if sum >= 0 then sum else 0 - sum, n - d);
    NoWrapS32(TruncDiv(sum, n - d));
    TruncDivInPlain(sum, n - d);
  }

  lemma MeanS32IsMean(xs: seq<sint32>)
    requires 0 < |xs| <= INT_MAX && FitsS32(Total(xs))
    ensures TowardsZero(MeanS32(xs), Total(xs), |xs|)
  {
    QuotientFitsS32(Total(xs), |xs|, 0);
  }

  /** For signed samples whose differences do not overflow. A deviation can be INT_MAX, the first
      bound. */
  lemma DiscardS32ChoosesFurthest(xs: seq<sint32>, d: uint32, devs: seq<nat>)
    requires d < |xs| <= INT_MAX && devs == Deviations(xs, MeanS32(xs))
    requires forall i :: 0 <= i < |xs| ==> devs[i] <= INT_MAX
    ensures Furthest(devs, DiscardedS32(xs, d)) <==>
      if d == 0 || AllBelow(devs, INT_MAX) then TiesOnlyLate(devs, d) else d == 1 && AllAt(devs, INT_MAX)
  {
    FurthestIff(devs, INT_MAX, d);
  }

  /** Where different samples are discarded the result is the quotient of the sum of the others -
      by QuotientFitsS32 their mean, truncated towards zero, if that sum does not overflow. */
  lemma DiscardS32IsMeanOfRest(xs: seq<sint32>, d: uint32, ps: seq<nat>)
    requires d < |xs| <= INT_MAX && ps == DiscardedS32(xs, d) && Distinct(ps)
    ensures DiscardS32(xs, d) == QuotientS32(Rest(xs, Indices(ps)), |xs|, d)
  {
    PickedLeavesRest(xs, ps);
  }

  /** With late ties, none at INT_MAX and no overflow it is the truncated mean of all but the d
      furthest samples. */
  lemma DiscardS32IsRobust(xs: seq<sint32>, d: uint32, devs: seq<nat>, ps: seq<nat>, rest: int)
    requires d < |xs| <= INT_MAX && FitsS32(Total(xs))
    requires devs == Deviations(xs, MeanS32(xs)) && ps == DiscardedS32(xs, d)
    requires AllBelow(devs, INT_MAX) && TiesOnlyLate(devs, d) && rest == Rest(xs, Indices(ps)) && FitsS32(rest)
    ensures TowardsZero(MeanS32(xs), Total(xs), |xs|)
    ensures Furthest(devs, ps) && TowardsZero(DiscardS32(xs, d), rest, |xs| - d)
  {
    MeanS32IsMean(xs);
    DiscardS32ChoosesFurthest(xs, d, devs);
    DiscardS32IsMeanOfRest(xs, d, ps);
    QuotientFitsS32(rest, |xs|, d);
  }

  lemma TotalOfThree(xs: seq<int>)
    requires |xs| == 3
    ensures Total(xs) == xs[0] + xs[1] + xs[2]
  {
    var a, b := xs[..2], xs[..1];
    assert a[..1] == b && b[..0] == [];
    assert Total(b) == xs[0] && Total(a) == xs[0] + xs[1];
  }

  /** Deviations of INT_MAX are passed over: of three samples the one in the middle is discarded. */
  lemma FullDeviationIsPassedOver(xs: seq<sint32>)
    requires xs == [INT_MAX, -INT_MAX, 0]
    ensures DiscardedS32(xs, 1) == [2]
  {
    TotalOfThree(xs);
    QuotientFitsS32(0, 3, 0);
    var devs := Deviations(xs, 0);
    assert devs == [INT_MAX, INT_MAX, 0];
    Compare(devs, INT_MAX, 0, 0, Worst(0, 0));
    Compare(devs, INT_MAX, 0, 1, Worst(0, 0));
    Compare(devs, INT_MAX, 0, 2, Worst(0, 0));
    assert Round(devs, INT_MAX, 0) == Worst(INT_MAX, 0) && Round(devs, INT_MAX, 1) == Worst(0, 2);
    PickIs(devs, INT_MAX, 1, 0);
  }

  // ---------- The loops ----------

  /** Wrapping once at the end is wrapping at every sum. */
  lemma AddInWords(a: int, b: int)
    ensures ToU32(ToU32(a) + b) == ToU32(a + b) && ToS32(ToS32(a) + b) == ToS32(a + b)
  {
    SameResidue(ToU32(a) + b, a + b, a / U32_MODULUS);
    SameResidue(ToS32(a) + 0x8000_0000 + b, a + 0x8000_0000 + b, (a + 0x8000_0000) / U32_MODULUS);
  }

  lemma SameResidue(x: int, y: int, q: int)
    requires y == x + q * U32_MODULUS
    ensures x % U32_MODULUS == y % U32_MODULUS
  {
  }

  method Sum32(samples: array<uint32>) returns (sum: uint32)
    ensures sum == ToU32(Total(samples[..]))
  {
    sum := 0;
    for i := 0 to samples.Length
      invariant sum == ToU32(Total(samples[..i]))
    {
      assert samples[..i + 1][..i] == samples[..i];
      AddInWords(Total(samples[..i]), samples[i]);
      sum := ToU32(sum + samples[i]);
    }
    assert samples[..samples.Length] == samples[..];
  }

  /** The inner loop. */
  method FindWorst32(samples: array<uint32>, mean: uint32, bound: uint32, last: nat) returns (w: Worst)
    requires last < samples.Length
    ensures w == Scan(Deviations(samples[..], mean), bound, last, samples.Length)
    ensures w.deviation <= UINT_MAX
  {
    var worst: uint32, index: nat := 0, last;
    for i := 0 to samples.Length
      invariant Worst(worst, index) == Scan(Deviations(samples[..], mean), bound, last, i)
    {
      var delta: uint32 := if samples[i] > mean then samples[i] - mean else mean - samples[i];
      if delta >= worst && delta < bound {
        worst, index := delta, i;
      }
    }
    w := Worst(worst, index);
  }

  method DiscardAndAverage32(samples: array<uint32>, discard: uint32) returns (average: uint32)
    requires samples.Length < U32_MODULUS && (samples.Length == 0 || samples.Length != discard)
    ensures average == Discard32(samples[..], discard)
  {
    average := 0;
    if samples.Length > 0 {
      ghost var xs := samples[..];
      var sum := Sum32(samples);
      var mean := Divide32(Total(xs), sum, samples.Length, 0);
      var w := Worst(UINT_MAX, 0);
      for r := 0 to discard
        invariant w == Round(Deviations(xs, mean), UINT_MAX, r) && w.deviation <= UINT_MAX
        invariant sum == ToU32(Remaining(xs, Picks(Deviations(xs, mean), UINT_MAX, r)))
      {
        w := FindWorst32(samples, mean, w.deviation, w.index);
        sum := Discard(samples, sum, w.index, Picks(Deviations(xs, mean), UINT_MAX, r));
      }
      average := Divide32(Remaining(xs, Discarded32(xs, discard)), sum, samples.Length, discard);
    }
  }

  method Discard(samples: array<uint32>, sum: uint32, i: nat, ghost ps: seq<nat>) returns (rest: uint32)
    requires i < samples.Length && InBounds(ps, samples.Length) && sum == ToU32(Remaining(samples[..], ps))
    ensures InBounds(ps + [i], samples.Length) && rest == ToU32(Remaining(samples[..], ps + [i]))
  {
    PickedAppend(samples[..], ps, i);
    var sample: int := samples[i];
    AddInWords(Remaining(samples[..], ps), -sample);
    rest := ToU32(sum - sample);
  }

  method Divide32(ghost whole: int, sum: uint32, n: nat, d: nat) returns (q: uint32)
    requires n < U32_MODULUS && d < U32_MODULUS && n != d && sum == ToU32(whole)
    ensures q == Quotient32(whole, n, d)
  {
    NonZero(n - d);
    QuotientBelow(sum, ToU32(n - d));
    q := sum / ToU32(n - d);
  }

  lemma PickedAppend(xs: seq<int>, ps: seq<nat>, p: nat)
    requires InBounds(ps, |xs|) && p < |xs|
    ensures InBounds(ps + [p], |xs|) && Picked(xs, ps + [p]) == Picked(xs, ps) + xs[p]
  {
    assert (ps + [p])[..|ps|] == ps;
  }

  method SumS32(samples: array<sint32>) returns (sum: sint32)
    ensures sum == ToS32(Total(samples[..]))
  {
    sum := 0;
    for i := 0 to samples.Length
      invariant sum == ToS32(Total(samples[..i]))
    {
      assert samples[..i + 1][..i] == samples[..i];
      AddInWords(Total(samples[..i]), samples[i]);
      sum := ToS32(sum + samples[i]);
    }
    assert samples[..samples.Length] == samples[..];
  }

  method FindWorstS32(samples: array<sint32>, mean: sint32, bound: sint32, last: nat) returns (w: Worst)
    requires last < samples.Length && bound >= 0
    requires forall i :: 0 <= i < samples.Length ==> Distance(samples[i], mean) <= INT_MAX
    ensures w == Scan(Deviations(samples[..], mean), bound, last, samples.Length)
    ensures w.deviation <= INT_MAX
  {
    var worst: sint32, index: nat := 0, last;
    for i := 0 to samples.Length
      invariant worst >= 0 && Worst(worst, index) == Scan(Deviations(samples[..], mean), bound, last, i)
    {
      var a: int, b: int := mean, samples[i];
      var delta: sint32 := a - b;
      var size: sint32 := if delta > 0 then delta else 0 - delta;
      if size >= worst && size < bound {
        worst, index := size, i;
      }
    }
    w := Worst(worst, index);
  }

  /** Overflow of a signed difference is not defined in C, so no deviation may exceed INT_MAX. */
  method DiscardAndAverageS32(samples: array<sint32>, discard: uint32) returns (average: sint32)
    requires 0 < samples.Length < U32_MODULUS && samples.Length != discard
    requires forall i :: 0 <= i < samples.Length ==> Distance(samples[i], MeanS32(samples[..])) <= INT_MAX
    ensures average == DiscardS32(samples[..], discard)
    ensures discard == 0 && samples.Length <= INT_MAX && FitsS32(Total(samples[..]))
      ==> TowardsZero(average, Total(samples[..]), samples.Length)
  {
    ghost var xs := samples[..];
    var sum := SumS32(samples);
    var mean := DivideS32(Total(xs), sum, samples.Length, 0);
    var w := Worst(INT_MAX, 0);
    for r := 0 to discard
      invariant w == Round(Deviations(xs, mean), INT_MAX, r) && w.deviation <= INT_MAX
      invariant sum == ToS32(Remaining(xs, Picks(Deviations(xs, mean), INT_MAX, r)))
    {
      w := FindWorstS32(samples, mean, w.deviation, w.index);
      sum := DiscardSigned(samples, sum, w.index, Picks(Deviations(xs, mean), INT_MAX, r));
    }
    average := DivideS32(Remaining(xs, DiscardedS32(xs, discard)), sum, samples.Length, discard);
    if discard == 0 && samples.Length <= INT_MAX && FitsS32(Total(xs)) {
      MeanS32IsMean(xs);
    }
  }

  method DiscardSigned(samples: array<sint32>, sum: sint32, i: nat, ghost ps: seq<nat>) returns (rest: sint32)
    requires i < samples.Length && InBounds(ps, samples.Length) && sum == ToS32(Remaining(samples[..], ps))
    ensures InBounds(ps + [i], samples.Length) && rest == ToS32(Remaining(samples[..], ps + [i]))
  {
    PickedAppend(samples[..], ps, i);
    var sample: int := samples[i];
    AddInWords(Remaining(samples[..], ps), -sample);
    rest := ToS32(sum - sample);
  }

  method DivideS32(ghost whole: int, sum: sint32, n: nat, d: nat) returns (q: sint32)
    requires n < U32_MODULUS && d < U32_MODULUS && n != d && sum == ToS32(whole)
    ensures q == QuotientS32(whole, n, d)
  {
    NonZero(n - d);
    q := ToS32(TruncDiv(sum, ToS32(n - d)));
  }
}
