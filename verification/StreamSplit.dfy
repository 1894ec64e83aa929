/**
 * The largest-remainder split of a stream amount: floors first, then one unit each to the largest remainders.
 */
module StreamSplit {
  import opened Wrappers

  const TOTAL_BASIS_POINTS := 10_000

  /** A requested share; `basisPoints` is a JavaScript number and need not be an integer. */
  datatype Share = Share(recipient: string, basisPoints: real)

  datatype Allocation = Allocation(recipient: string, basisPoints: int, amountUnits: int)

  datatype SplitError = NegativeTotal | NoRecipients | BadBasisPoints | WrongSum(got: int)

  predicate GoodBasisPoints(x: real) {
    x == x.Floor as real && x > 0.0
  }

  function Points(shares: seq<Share>): (r: seq<int>)
    ensures |r| == |shares|
    ensures forall i :: 0 <= i < |shares| ==> r[i] == shares[i].basisPoints.Floor
  {
    seq(|shares|, i requires 0 <= i < |shares| => shares[i].basisPoints.Floor)
  }

  // ----- sums -----

  function Sum(s: seq<int>): int {
    if s == [] then 0 else s[0] + Sum(s[1..])
  }

  lemma {:induction false} SumConcat(a: seq<int>, b: seq<int>)
    ensures Sum(a + b) == Sum(a) + Sum(b)
  {
    if a == [] {
      assert a + b == b;
    } else {
      assert (a + b)[1..] == a[1..] + b;
      SumConcat(a[1..], b);
    }
  }

  lemma {:induction false} SumUpdate(s: seq<int>, j: nat, x: int)
    requires j < |s|
    ensures Sum(s[j := x]) == Sum(s) - s[j] + x
  {
    if j == 0 {
      assert s[0 := x][1..] == s[1..];
    } else {
      assert s[j := x][1..] == s[1..][j - 1 := x];
      SumUpdate(s[1..], j - 1, x);
    }
  }

  lemma {:induction false} SumAtMost(s: seq<int>, most: int)
    requires forall i :: 0 <= i < |s| ==> s[i] <= most
    ensures Sum(s) <= most * |s|
  {
    if s == [] {
    } else {
      SumAtMost(s[1..], most);
      assert most * |s| == most * |s[1..]| + most;
    }
  }

  lemma {:induction false} SumAtLeast(s: seq<int>, least: int)
    requires forall i :: 0 <= i < |s| ==> s[i] >= least
    ensures Sum(s) >= least * |s|
  {
    if s == [] {
    } else {
      SumAtLeast(s[1..], least);
      assert least * |s| == least * |s[1..]| + least;
    }
  }

  lemma {:induction false} SumDominates(a: seq<int>, b: seq<int>, i: nat)
    requires |a| == |b| && i < |a| && a[i] > b[i]
    requires forall k :: 0 <= k < |a| ==> a[k] >= b[k]
    ensures Sum(a) > Sum(b)
  {
    if i > 0 {
      SumDominates(a[1..], b[1..], i - 1);
    } else {
      SumNotLess(a[1..], b[1..]);
    }
  }

  lemma {:induction false} SumNotLess(a: seq<int>, b: seq<int>)
    requires |a| == |b| && forall k :: 0 <= k < |a| ==> a[k] >= b[k]
    ensures Sum(a) >= Sum(b)
  {
    if a == [] {
    } else {
      SumNotLess(a[1..], b[1..]);
    }
  }

  // ----- what a fair split is -----

  function Floor(total: int, points: int): int {
    total * points / TOTAL_BASIS_POINTS
  }

  function Remainder(total: int, points: int): int {
    total * points % TOTAL_BASIS_POINTS
  }

  /** Recipient `i` is served before recipient `j`. */
  predicate Before(total: int, points: seq<int>, i: int, j: int)
    requires 0 <= i < |points| && 0 <= j < |points|
  {
    var r, s := Remainder(total, points[i]), Remainder(total, points[j]);
    r > s || (r == s && i < j)
  }

  /**
   * Nothing is lost or created, each amount is the exact share rounded down or up, only a share that is not
   * whole is rounded up, and a recipient is rounded up before every one it precedes.
   */
  predicate FairSplit(total: int, points: seq<int>, amounts: seq<int>) {
    && |amounts| == |points|
    && Sum(amounts) == total
    && (forall i :: 0 <= i < |points| ==> RoundedShare(total, points[i], amounts[i]))
    && (forall i, j :: 0 <= i < |points| && 0 <= j < |points| ==>
          (amounts[i] > Floor(total, points[i]) && amounts[j] == Floor(total, points[j])
           ==> Before(total, points, i, j)))
  }

  predicate RoundedShare(total: int, points: int, amount: int) {
    amount == Floor(total, points) || (amount == Floor(total, points) + 1 && Remainder(total, points) > 0)
  }

  /** Each amount differs from the exact share by less than one unit. */
  lemma WithinOneUnit(total: int, points: int, amount: int)
    requires RoundedShare(total, points, amount)
    ensures -TOTAL_BASIS_POINTS < TOTAL_BASIS_POINTS * amount - total * points < TOTAL_BASIS_POINTS
  {
  }

  /** The rules leave no choice: there is only one fair split. */
  lemma FairSplitIsUnique(total: int, points: seq<int>, a: seq<int>, b: seq<int>)
    requires FairSplit(total, points, a) && FairSplit(total, points, b)
    ensures a == b
  {
    if a != b {
      var i :| 0 <= i < |a| && a[i] != b[i];
      if a[i] > b[i] {
        NotBothWays(total, points, a, b, i);
      } else {
        NotBothWays(total, points, b, a, i);
      }
    }
  }

  lemma NotBothWays(total: int, points: seq<int>, a: seq<int>, b: seq<int>, i: nat)
    requires FairSplit(total, points, a) && FairSplit(total, points, b) && i < |a|
    ensures a[i] <= b[i]
  {
    if a[i] > b[i] {
      forall k | 0 <= k < |a| ensures a[k] >= b[k] {
        NotCrossed(total, points, a, b, i, k);
      }
      SumDominates(a, b, i);
    }
  }

  /** Two fair splits never disagree in both directions. */
  lemma NotCrossed(total: int, points: seq<int>, a: seq<int>, b: seq<int>, i: nat, j: nat)
    requires FairSplit(total, points, a) && FairSplit(total, points, b) && i < |a| && j < |a|
    ensures !(a[i] > b[i] && a[j] < b[j])
  {
    assert RoundedShare(total, points[i], a[i]) && RoundedShare(total, points[i], b[i]);
    assert RoundedShare(total, points[j], a[j]) && RoundedShare(total, points[j], b[j]);
  }

  // ----- the algorithm -----

  /** One entry of the provisional allocation; `byRemainder` holds the same objects in another order. */
  class Provisional {
    const index: nat
    const recipient: string
    const basisPoints: int
    const remainder: int
    var amountUnits: int

    constructor (index: nat, recipient: string, basisPoints: int, total: int)
      ensures this.index == index && this.recipient == recipient && this.basisPoints == basisPoints
      ensures amountUnits == Floor(total, basisPoints) && remainder == Remainder(total, basisPoints)
    {
      var numerator := total * basisPoints;
      this.index, this.recipient, this.basisPoints := index, recipient, basisPoints;
      this.amountUnits := numerator / TOTAL_BASIS_POINTS;
      this.remainder := numerator % TOTAL_BASIS_POINTS;
    }
  }

  function Amounts(ps: seq<Provisional>): (r: seq<int>)
    reads ps
    ensures |r| == |ps|
    ensures forall i :: 0 <= i < |ps| ==> r[i] == ps[i].amountUnits
  {
    seq(|ps|, i requires 0 <= i < |ps| reads ps => ps[i].amountUnits)
  }

  function Remainders(ps: seq<Provisional>): (r: seq<int>)
    ensures |r| == |ps|
    ensures forall i :: 0 <= i < |ps| ==> r[i] == ps[i].remainder
  {
    seq(|ps|, i requires 0 <= i < |ps| => ps[i].remainder)
  }

  /** The comparator of the sort. */
  predicate Precedes(a: Provisional, b: Provisional) {
    a.remainder > b.remainder || (a.remainder == b.remainder && a.index < b.index)
  }

  ghost predicate Ordered(ps: seq<Provisional>) {
    forall i, j :: 0 <= i < j < |ps| ==> Precedes(ps[i], ps[j])
  }

  predicate DistinctIndices(ps: seq<Provisional>) {
    forall i, j :: 0 <= i < j < |ps| ==> ps[i].index != ps[j].index
  }

  /** `[...provisional].sort(...)`: the same objects, ordered by the comparator. */
  method SortByRemainder(ps: seq<Provisional>) returns (sorted: seq<Provisional>)
    requires DistinctIndices(ps)
    ensures Ordered(sorted) && |sorted| == |ps|
    ensures multiset(sorted) == multiset(ps)
    ensures Sum(Remainders(sorted)) == Sum(Remainders(ps))
  {
    sorted := [];
    for n := 0 to |ps|
      invariant Ordered(sorted) && |sorted| == n
      invariant multiset(sorted) == multiset(ps[..n])
      invariant Sum(Remainders(sorted)) == Sum(Remainders(ps[..n]))
    {
      assert ps[..n + 1] == ps[..n] + [ps[n]];
      RemaindersConcat(ps[..n], [ps[n]]);
      SumConcat(Remainders(ps[..n]), Remainders([ps[n]]));
      forall p | p in sorted ensures p.index != ps[n].index {
        assert p in multiset(ps[..n]);
      }
      sorted := Insert(sorted, ps[n]);
    }
    assert ps[..|ps|] == ps;
  }

  method Insert(sorted: seq<Provisional>, p: Provisional) returns (r: seq<Provisional>)
    requires Ordered(sorted) && forall q :: q in sorted ==> q.index != p.index
    ensures Ordered(r) && |r| == |sorted| + 1
    ensures multiset(r) == multiset(sorted) + multiset{p}
    ensures Sum(Remainders(r)) == Sum(Remainders(sorted)) + Sum(Remainders([p]))
  {
    var k := 0;
    while k < |sorted| && Precedes(sorted[k], p)
      invariant k <= |sorted| && forall i :: 0 <= i < k ==> Precedes(sorted[i], p)
    {
      k := k + 1;
    }
    if k < |sorted| { assert sorted[k] in sorted; }
    r := sorted[..k] + [p] + sorted[k..];
    InsertedOrder(sorted, p, k);
    InsertedSum(sorted, p, k);
    assert sorted == sorted[..k] + sorted[k..];
  }

  lemma InsertedOrder(sorted: seq<Provisional>, p: Provisional, k: nat)
    requires Ordered(sorted) && k <= |sorted| && forall i :: 0 <= i < k ==> Precedes(sorted[i], p)
    requires k < |sorted| ==> !Precedes(sorted[k], p) && sorted[k].index != p.index
    ensures Ordered(sorted[..k] + [p] + sorted[k..])
  {
    forall j | k <= j < |sorted| ensures Precedes(p, sorted[j]) {
      if j > k { assert Precedes(sorted[k], sorted[j]); }
    }
  }

  lemma InsertedSum(sorted: seq<Provisional>, p: Provisional, k: nat)
    requires k <= |sorted|
    ensures Sum(Remainders(sorted[..k] + [p] + sorted[k..])) == Sum(Remainders(sorted)) + Sum(Remainders([p]))
  {
    var a, b := sorted[..k], sorted[k..];
    assert sorted == a + b;
    RemaindersConcat(a, b);
    RemaindersConcat(a + [p], b);
    RemaindersConcat(a, [p]);
    SumConcat(Remainders(a), Remainders(b));
    SumConcat(Remainders(a + [p]), Remainders(b));
    SumConcat(Remainders(a), Remainders([p]));
  }

  lemma RemaindersConcat(a: seq<Provisional>, b: seq<Provisional>)
    ensures Remainders(a + b) == Remainders(a) + Remainders(b)
  {
  }

  /** Provisional entries as they are created from the shares. */
  ghost predicate Fresh(ps: seq<Provisional>, total: int, points: seq<int>)
    reads ps
  {
    && |ps| == |points|
    && forall i :: 0 <= i < |ps| ==>
         && ps[i].index == i && ps[i].basisPoints == points[i]
         && ps[i].remainder == Remainder(total, points[i]) && ps[i].amountUnits == Floor(total, points[i])
  }

  /** The dust left by rounding down: the remainders add up to exactly that many whole units. */
  lemma {:induction false} DustIsRemainders(total: int, points: seq<int>, floors: seq<int>, remainders: seq<int>)
    requires |floors| == |remainders| == |points|
    requires forall i :: 0 <= i < |points| ==>
      floors[i] == Floor(total, points[i]) && remainders[i] == Remainder(total, points[i])
    ensures total * Sum(points) == TOTAL_BASIS_POINTS * Sum(floors) + Sum(remainders)
  {
    if points == [] {
    } else {
      DustIsRemainders(total, points[1..], floors[1..], remainders[1..]);
      assert total * points[0] == TOTAL_BASIS_POINTS * floors[0] + remainders[0];
      assert total * Sum(points) == total * points[0] + total * Sum(points[1..]);
    }
  }

  /**
   * There is dust for fewer units than recipients, and the recipients that get one, taken in order, all have a
   * remainder.
   */
  lemma DustFits(sorted: seq<Provisional>, dust: int)
    requires Ordered(sorted) && forall i :: 0 <= i < |sorted| ==> 0 <= sorted[i].remainder < TOTAL_BASIS_POINTS
    requires Sum(Remainders(sorted)) == TOTAL_BASIS_POINTS * dust
    ensures 0 <= dust <= |sorted| && (sorted != [] ==> dust < |sorted|)
    ensures forall k :: 0 <= k < dust ==> sorted[k].remainder > 0
  {
    var r := Remainders(sorted);
    forall i, j | 0 <= i < j < |r| ensures r[i] >= r[j] {
      assert Precedes(sorted[i], sorted[j]);
    }
    UnitsFit(r, dust);
  }

  lemma UnitsFit(r: seq<int>, dust: int)
    requires forall i :: 0 <= i < |r| ==> 0 <= r[i] < TOTAL_BASIS_POINTS
    requires forall i, j :: 0 <= i < j < |r| ==> r[i] >= r[j]
    requires Sum(r) == TOTAL_BASIS_POINTS * dust
    ensures 0 <= dust <= |r| && (r != [] ==> dust < |r|)
    ensures forall k :: 0 <= k < dust ==> r[k] > 0
  {
    SumAtLeast(r, 0);
    SumAtMost(r, TOTAL_BASIS_POINTS - 1);
    forall k | 0 <= k < dust ensures r[k] > 0 {
      if r[k] == 0 { ZeroTail(r, k); }
    }
  }

  lemma ZeroTail(r: seq<int>, k: nat)
    requires forall i :: 0 <= i < |r| ==> 0 <= r[i] < TOTAL_BASIS_POINTS
    requires forall i, j :: 0 <= i < j < |r| ==> r[i] >= r[j]
    requires k < |r| && r[k] == 0
    ensures Sum(r) <= (TOTAL_BASIS_POINTS - 1) * k
  {
    assert r == r[..k] + r[k..];
    SumConcat(r[..k], r[k..]);
    SumAtMost(r[..k], TOTAL_BASIS_POINTS - 1);
    SumAtMost(r[k..], 0);
  }

  /** What the loop over `byRemainder` leaves behind. */
  ghost predicate Served(sorted: seq<Provisional>, n: int, total: int)
    reads sorted
  {
    0 <= n <= |sorted| &&
    forall k :: 0 <= k < |sorted| ==>
      sorted[k].amountUnits == Floor(total, sorted[k].basisPoints) + if k < n then 1 else 0
  }

  /** Serving the first entries of the order yields the fair split. */
  lemma ServedIsFair(total: int, points: seq<int>, ps: seq<Provisional>, sorted: seq<Provisional>, dust: int)
    requires |ps| == |points|
    requires forall i :: 0 <= i < |ps| ==>
      ps[i].index == i && ps[i].basisPoints == points[i] && ps[i].remainder == Remainder(total, points[i])
    requires Ordered(sorted) && forall p :: p in sorted <==> p in ps
    requires Served(sorted, dust, total) && forall k :: 0 <= k < dust ==> sorted[k].remainder > 0
    requires Sum(Amounts(ps)) == total
    ensures FairSplit(total, points, Amounts(ps))
  {
    var amounts := Amounts(ps);
    forall i | 0 <= i < |ps|
      ensures RoundedShare(total, points[i], amounts[i])
    {
      assert ps[i] in ps;
      var k :| 0 <= k < |sorted| && sorted[k] == ps[i];
    }
    forall i, j | 0 <= i < |ps| && 0 <= j < |ps|
      && amounts[i] > Floor(total, points[i]) && amounts[j] == Floor(total, points[j])
      ensures Before(total, points, i, j)
    {
      assert ps[i] in ps && ps[j] in ps;
      var k :| 0 <= k < |sorted| && sorted[k] == ps[i];
      var l :| 0 <= l < |sorted| && sorted[l] == ps[j];
      assert k < dust <= l;
      assert Precedes(sorted[k], sorted[l]);
    }
  }

  /** Adding a unit to one of the objects adds a unit to the sum of all of them. */
  twostate lemma OneMore(ps: seq<Provisional>, new p: Provisional)
    requires DistinctIndices(ps) && p in ps && p.amountUnits == old(p.amountUnits) + 1
    requires forall q :: q in ps && q != p ==> q.amountUnits == old(q.amountUnits)
    ensures Sum(Amounts(ps)) == old(Sum(Amounts(ps))) + 1
  {
    var j :| 0 <= j < |ps| && ps[j] == p;
    var before, after := old(Amounts(ps)), Amounts(ps);
    forall k | 0 <= k < |ps| && k != j ensures after[k] == before[k] {
      assert ps[k].index != p.index;
      assert ps[k] in ps;
    }
    SumOneMore(before, after, j);
  }

  lemma SumOneMore(before: seq<int>, after: seq<int>, j: nat)
    requires |before| == |after| && j < |after| && after[j] == before[j] + 1
    requires forall k :: 0 <= k < |after| && k != j ==> after[k] == before[k]
    ensures Sum(after) == Sum(before) + 1
  {
    assert after == before[j := before[j] + 1];
    SumUpdate(before, j, before[j] + 1);
  }

  ghost predicate AllGood(shares: seq<Share>) {
    forall i :: 0 <= i < |shares| ==> GoodBasisPoints(shares[i].basisPoints)
  }

  /** What a call answers with, before any amount is computed: the first failing check, in order. */
  ghost function Rejection(total: int, shares: seq<Share>): Option<SplitError> {
    if total < 0 then Some(NegativeTotal)
    else if shares == [] then Some(NoRecipients)
    else if !AllGood(shares) then Some(BadBasisPoints)
    else if Sum(Points(shares)) != TOTAL_BASIS_POINTS then Some(WrongSum(Sum(Points(shares))))
    else None
  }

  /** The recipients in order, with the fair split of the total. */
  ghost predicate Allocates(total: int, shares: seq<Share>, r: seq<Allocation>) {
    && |r| == |shares|
    && (forall i :: 0 <= i < |shares| ==>
          r[i].recipient == shares[i].recipient && r[i].basisPoints == Points(shares)[i])
    && FairSplit(total, Points(shares), seq(|r|, i requires 0 <= i < |r| => r[i].amountUnits))
  }

  /** The shares are these positive whole numbers. */
  predicate Whole(shares: seq<Share>, ns: seq<int>) {
    |ns| == |shares| && forall i :: 0 <= i < |shares| ==> ns[i] >= 1 && shares[i].basisPoints == ns[i] as real
  }

  lemma GoodIsWhole(x: real, n: int)
    ensures GoodBasisPoints(x) && x.Floor == n <==> n >= 1 && x == n as real
  {
  }

  /** Exactly which requests are split: those whose shares are positive whole numbers that sum to 10000. */
  lemma AcceptedIff(total: int, shares: seq<Share>)
    ensures Rejection(total, shares).None? <==>
      total >= 0 && shares != [] && exists ns :: Whole(shares, ns) && Sum(ns) == 10000
  {
    if Rejection(total, shares).None? {
      forall i | 0 <= i < |shares|
        ensures Points(shares)[i] >= 1 && shares[i].basisPoints == Points(shares)[i] as real
      {
        GoodIsWhole(shares[i].basisPoints, Points(shares)[i]);
      }
      assert Whole(shares, Points(shares));
    }
    forall ns | Whole(shares, ns)
      ensures ns == Points(shares) && forall i :: 0 <= i < |shares| ==> GoodBasisPoints(shares[i].basisPoints)
    {
      forall i | 0 <= i < |shares| ensures ns[i] == Points(shares)[i] && GoodBasisPoints(shares[i].basisPoints) {
        GoodIsWhole(shares[i].basisPoints, ns[i]);
      }
    }
  }

  /** `calculateStreamSplitAllocations`. */
  method CalculateStreamSplitAllocations(totalAmountUnits: int, shares: seq<Share>)
    returns (r: Result<seq<Allocation>, SplitError>)
    ensures r.Failure? ==> Rejection(totalAmountUnits, shares) == Some(r.error)
    ensures r.Success? ==> Rejection(totalAmountUnits, shares).None? && Allocates(totalAmountUnits, shares, r.value)
  {
    if totalAmountUnits < 0 {
      return Failure(NegativeTotal);
    }
    if |shares| == 0 {
      return Failure(NoRecipients);
    }
    ghost var points := Points(shares);
    var bpsSum := 0;
    for i := 0 to |shares|
      invariant forall j :: 0 <= j < i ==> GoodBasisPoints(shares[j].basisPoints)
      invariant bpsSum == Sum(points[..i])
    {
      if !GoodBasisPoints(shares[i].basisPoints) {
        return Failure(BadBasisPoints);
      }
      bpsSum := bpsSum + shares[i].basisPoints.Floor;
      assert points[..i + 1] == points[..i] + [points[i]];
      SumConcat(points[..i], [points[i]]);
    }
    assert points[..|shares|] == points;
    if bpsSum != TOTAL_BASIS_POINTS {
      return Failure(WrongSum(bpsSum));
    }
    var result := Allocate(totalAmountUnits, shares);
    return Success(result);
  }

  /** The second half: floors, then the dust by largest remainder. */
  method Allocate(total: int, shares: seq<Share>) returns (result: seq<Allocation>)
    requires Sum(Points(shares)) == TOTAL_BASIS_POINTS
    ensures Allocates(total, shares, result)
  {
    var provisional := MakeProvisional(total, shares);
    Distribute(total, Points(shares), provisional);
    result := Copy(provisional);
    assert seq(|result|, i requires 0 <= i < |result| => result[i].amountUnits) == Amounts(provisional);
  }

  /** Hands the dust out to the provisional entries, in place. */
  method Distribute(total: int, ghost points: seq<int>, provisional: seq<Provisional>)
    requires Fresh(provisional, total, points) && Sum(points) == TOTAL_BASIS_POINTS
    modifies provisional
    ensures FairSplit(total, points, Amounts(provisional))
  {
    var allocatedSum := AllocatedSum(provisional);
    var dust := total - allocatedSum;
    var byRemainder := SortByRemainder(provisional);
    DustPlan(total, points, provisional, byRemainder, dust);
    HandOut(total, points, provisional, byRemainder, dust);
    ServedIsFair(total, points, provisional, byRemainder, dust);
  }

  lemma DustPlan(total: int, points: seq<int>, ps: seq<Provisional>, sorted: seq<Provisional>, dust: int)
    requires Fresh(ps, total, points) && Sum(points) == TOTAL_BASIS_POINTS
    requires Ordered(sorted) && multiset(sorted) == multiset(ps) && Sum(Remainders(sorted)) == Sum(Remainders(ps))
    requires dust == total - Sum(Amounts(ps))
    ensures 0 <= dust <= |sorted| && forall k :: 0 <= k < dust ==> sorted[k].remainder > 0
    ensures forall p :: p in sorted <==> p in ps
  {
    SameObjects(ps, sorted);
    DustIsRemainders(total, points, Amounts(ps), Remainders(ps));
    DustFits(sorted, dust);
  }

  lemma SameObjects(ps: seq<Provisional>, sorted: seq<Provisional>)
    requires multiset(sorted) == multiset(ps)
    ensures forall p :: p in sorted <==> p in ps
    ensures (forall i :: 0 <= i < |ps| ==> 0 <= ps[i].remainder < TOTAL_BASIS_POINTS) ==>
      forall i :: 0 <= i < |sorted| ==> 0 <= sorted[i].remainder < TOTAL_BASIS_POINTS
  {
    forall p ensures p in sorted <==> p in ps {
      assert p in sorted <==> p in multiset(sorted);
      assert p in ps <==> p in multiset(ps);
    }
    forall i | 0 <= i < |sorted| ensures sorted[i] in ps {
    }
  }

  method Copy(ps: seq<Provisional>) returns (result: seq<Allocation>)
    ensures |result| == |ps|
    ensures forall j :: 0 <= j < |ps| ==> result[j] == Allocation(ps[j].recipient, ps[j].basisPoints, ps[j].amountUnits)
  {
    result := [];
    for i := 0 to |ps|
      invariant |result| == i
      invariant forall j :: 0 <= j < i ==> result[j] == Allocation(ps[j].recipient, ps[j].basisPoints, ps[j].amountUnits)
    {
      result := result + [Allocation(ps[i].recipient, ps[i].basisPoints, ps[i].amountUnits)];
    }
  }

  method MakeProvisional(total: int, shares: seq<Share>) returns (ps: seq<Provisional>)
    ensures Fresh(ps, total, Points(shares)) && fresh(ps)
    ensures forall i :: 0 <= i < |ps| ==> ps[i].recipient == shares[i].recipient
  {
    ps := [];
    for i := 0 to |shares|
      invariant |ps| == i && fresh(ps)
      invariant forall j :: 0 <= j < i ==>
        && ps[j].index == j && ps[j].recipient == shares[j].recipient && ps[j].basisPoints == Points(shares)[j]
        && ps[j].remainder == Remainder(total, Points(shares)[j]) && ps[j].amountUnits == Floor(total, Points(shares)[j])
    {
      var p := new Provisional(i, shares[i].recipient, shares[i].basisPoints.Floor, total);
      ps := ps + [p];
    }
  }

  method AllocatedSum(ps: seq<Provisional>) returns (sum: int)
    ensures sum == Sum(Amounts(ps))
  {
    sum := 0;
    for i := 0 to |ps|
      invariant sum == Sum(Amounts(ps)[..i])
    {
      sum := sum + ps[i].amountUnits;
      assert Amounts(ps)[..i + 1] == Amounts(ps)[..i] + [Amounts(ps)[i]];
      SumConcat(Amounts(ps)[..i], [Amounts(ps)[i]]);
    }
    assert Amounts(ps)[..|ps|] == Amounts(ps);
  }

  /** The loop that hands out the dust, one unit per entry in order, through the shared objects. */
  method HandOut(total: int, ghost points: seq<int>, ghost ps: seq<Provisional>, sorted: seq<Provisional>, units: int)
    requires Fresh(ps, total, points) && Ordered(sorted) && forall p :: p in sorted <==> p in ps
    requires DistinctIndices(ps) && 0 <= units <= |sorted| && Sum(Amounts(ps)) + units == total
    modifies ps
    ensures Served(sorted, units, total) && Sum(Amounts(ps)) == total
  {
    var dust := units;
    var i := 0;
    forall k | 0 <= k < |sorted| ensures sorted[k].amountUnits == Floor(total, sorted[k].basisPoints) {
      assert sorted[k] in ps;
    }
    while i < |sorted| && dust > 0
      invariant 0 <= i <= |sorted| && dust == units - i
      invariant Served(sorted, i, total)
      invariant Sum(Amounts(ps)) + dust == total
    {
      label step:
      NoRepeats(sorted, i);
      assert sorted[i] in ps;
      sorted[i].amountUnits := sorted[i].amountUnits + 1;
      OneMore@step(ps, sorted[i]);
      dust := dust - 1;
      i := i + 1;
    }
  }

  lemma NoRepeats(sorted: seq<Provisional>, i: nat)
    requires Ordered(sorted) && i < |sorted|
    ensures forall k :: 0 <= k < |sorted| && k != i ==> sorted[k] != sorted[i]
  {
    forall k | 0 <= k < |sorted| && k != i ensures sorted[k] != sorted[i] {
      assert Precedes(sorted[k], sorted[i]) || Precedes(sorted[i], sorted[k]);
    }
  }
}
