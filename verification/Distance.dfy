/** The cost matrix of two traces and the similarity score computed from an assignment. */
module Distance {
  import opened Options
  import opened Numbers

  /** The five keys of a request that the distance looks at. */
  datatype Request = Request(cpu: int, op: int, sector: int, size: int, startTs: int)

  const SCALE_CPU := 1.0
  const SCALE_OP := 5.0
  const SCALE_SECTOR := 3.0
  const SCALE_SIZE := 2.0
  const SCALE_START_TS := 2.0

  // ----- the largest differences between two traces -----

  function Abs(a: int): int { if a < 0 then -a else a }

  function Largest(v: seq<int>): (m: int)
    requires v != []
    ensures forall i | 0 <= i < |v| :: v[i] <= m
    ensures exists i :: 0 <= i < |v| && v[i] == m
  {
    if |v| == 1 then v[0]
    else
      var m := Largest(v[..|v| - 1]);
      assert forall i | 0 <= i < |v| - 1 :: v[i] == v[..|v| - 1][i];
      Max(m, v[|v| - 1])
  }

  function Smallest(v: seq<int>): (m: int)
    requires v != []
    ensures forall i | 0 <= i < |v| :: m <= v[i]
    ensures exists i :: 0 <= i < |v| && v[i] == m
  {
    if |v| == 1 then v[0]
    else
      var m := Smallest(v[..|v| - 1]);
      assert forall i | 0 <= i < |v| - 1 :: v[i] == v[..|v| - 1][i];
      Min(m, v[|v| - 1])
  }

  function Values(reqs: seq<Request>, key: Request -> int): (v: seq<int>)
    ensures |v| == |reqs| && forall i | 0 <= i < |v| :: v[i] == key(reqs[i])
  {
    seq(|reqs|, i requires 0 <= i < |reqs| => key(reqs[i]))
  }

  function MaxDeltaKey(reqs0: seq<Request>, reqs1: seq<Request>, key: Request -> int): int
    requires reqs0 != [] && reqs1 != []
  {
    Max(Abs(Smallest(Values(reqs0, key)) - Largest(Values(reqs1, key))),
        Abs(Smallest(Values(reqs1, key)) - Largest(Values(reqs0, key))))
  }

  /** No request of one trace differs from a request of the other by more than the delta. */
  lemma MaxDeltaKeyCovers(reqs0: seq<Request>, reqs1: seq<Request>, key: Request -> int, i: nat, j: nat)
    requires i < |reqs0| && j < |reqs1|
    ensures Abs(key(reqs0[i]) - key(reqs1[j])) <= MaxDeltaKey(reqs0, reqs1, key)
  {
    var v0, v1 := Values(reqs0, key), Values(reqs1, key);
    assert Smallest(v0) <= v0[i] <= Largest(v0) && Smallest(v1) <= v1[j] <= Largest(v1);
  }

  /** And some pair differs by exactly the delta. */
  lemma MaxDeltaKeyReached(reqs0: seq<Request>, reqs1: seq<Request>, key: Request -> int)
    requires reqs0 != [] && reqs1 != []
    ensures exists i, j | 0 <= i < |reqs0| && 0 <= j < |reqs1| ::
      Abs(key(reqs0[i]) - key(reqs1[j])) == MaxDeltaKey(reqs0, reqs1, key)
  {
    var v0, v1 := Values(reqs0, key), Values(reqs1, key);
    var a :| 0 <= a < |v0| && v0[a] == Smallest(v0);
    var b :| 0 <= b < |v1| && v1[b] == Largest(v1);
    var c :| 0 <= c < |v1| && v1[c] == Smallest(v1);
    var d :| 0 <= d < |v0| && v0[d] == Largest(v0);
    assert Abs(key(reqs0[a]) - key(reqs1[b])) == Abs(Smallest(v0) - Largest(v1));
    assert Abs(key(reqs0[d]) - key(reqs1[c])) == Abs(Smallest(v1) - Largest(v0));
  }

  datatype Delta = Delta(sector: int, size: int, startTs: int)

  function SectorOf(r: Request): int { r.sector }

  function SizeOf(r: Request): int { r.size }

  function StartTsOf(r: Request): int { r.startTs }

  function MaxDelta(reqs0: seq<Request>, reqs1: seq<Request>): Delta
    requires reqs0 != [] && reqs1 != []
  {
    Delta(MaxDeltaKey(reqs0, reqs1, SectorOf), MaxDeltaKey(reqs0, reqs1, SizeOf), MaxDeltaKey(reqs0, reqs1, StartTsOf))
  }

  // ----- the distance of two requests -----

  function GenericDistance(x: int, y: int, delta: int, scale: real): real {
    var diff := Abs(x - y) as real;
    if delta != 0 then diff / delta as real * scale else diff * scale
  }

  function BinaryDistance(x: int, y: int, scale: real): real {
    if x != y then scale else 0.0
  }

  function Squared(x: real): real { x * x }

  function SumOfSquares(r0: Request, r1: Request, delta: Delta): real {
    Squared(BinaryDistance(r0.cpu, r1.cpu, SCALE_CPU))
    + Squared(GenericDistance(r0.startTs, r1.startTs, delta.startTs, SCALE_START_TS))
    + Squared(GenericDistance(r0.sector, r1.sector, delta.sector, SCALE_SECTOR))
    + Squared(GenericDistance(r0.size, r1.size, delta.size, SCALE_SIZE))
    + Squared(BinaryDistance(r0.op, r1.op, SCALE_OP))
  }

  function MaxSumOfSquares(): real {
    Squared(SCALE_CPU) + Squared(SCALE_OP) + Squared(SCALE_SECTOR) + Squared(SCALE_SIZE) + Squared(SCALE_START_TS)
  }

  /** All that is needed of the square root. */
  ghost predicate IncreasesFromZero(sqrt: real -> real) {
    sqrt(0.0) == 0.0 && forall x: real, y: real | 0.0 <= x < y :: sqrt(x) < sqrt(y)
  }

  /** One entry of distance: None is the padding request, at distance 1 from everything. */
  function DistanceTo(r0: Option<Request>, r1: Request, delta: Delta, sqrt: real -> real): real
    requires sqrt(MaxSumOfSquares()) != 0.0
  {
    match r0
    case None => 1.0
    case Some(r) => sqrt(SumOfSquares(r, r1, delta)) / sqrt(MaxSumOfSquares())
  }

  // ----- bounds -----

  lemma GenericBound(x: int, y: int, delta: int, scale: real)
    requires Abs(x - y) <= delta && scale > 0.0
    ensures 0.0 <= GenericDistance(x, y, delta, scale) <= scale
    ensures GenericDistance(x, y, delta, scale) == 0.0 <==> x == y
  {
    var diff := Abs(x - y) as real;
    if delta != 0 {
      var q := diff / delta as real;
      assert q * delta as real == diff;
      assert 0.0 <= q <= 1.0;
      assert q == 0.0 <==> x == y;
      assert q * scale <= scale;
      assert q != 0.0 ==> q * scale > 0.0;
    }
  }

  lemma ProductPositive(a: real, b: real)
    requires a > 0.0 && b > 0.0
    ensures a * b > 0.0
  {
  }

  lemma SquareGrows(x: real, y: real)
    requires 0.0 <= x < y
    ensures x * x < y * y
  {
    ProductPositive(y - x, y + x);
    assert (y - x) * (y + x) == y * y - x * x;
  }

  lemma SquareBound(x: real, s: real)
    requires 0.0 <= x <= s
    ensures 0.0 <= Squared(x) <= Squared(s)
    ensures Squared(x) == 0.0 <==> x == 0.0
  {
    assert x * x <= x * s <= s * s;
    if x == 0.0 {
      assert Squared(x) == 0.0 * 0.0;
    } else {
      SquareGrows(0.0, x);
    }
  }

  /** The differences of two requests are covered by the deltas. */
  ghost predicate Covered(r0: Request, r1: Request, delta: Delta) {
    && Abs(r0.sector - r1.sector) <= delta.sector
    && Abs(r0.size - r1.size) <= delta.size
    && Abs(r0.startTs - r1.startTs) <= delta.startTs
  }

  lemma MaxDeltaCovers(reqs0: seq<Request>, reqs1: seq<Request>, i: nat, j: nat)
    requires i < |reqs0| && j < |reqs1|
    ensures Covered(reqs0[i], reqs1[j], MaxDelta(reqs0, reqs1))
    ensures Covered(reqs1[j], reqs0[i], MaxDelta(reqs0, reqs1))
  {
    MaxDeltaKeyCovers(reqs0, reqs1, SectorOf, i, j);
    MaxDeltaKeyCovers(reqs0, reqs1, SizeOf, i, j);
    MaxDeltaKeyCovers(reqs0, reqs1, StartTsOf, i, j);
  }

  lemma SumOfSquaresBound(r0: Request, r1: Request, delta: Delta)
    requires Covered(r0, r1, delta)
    ensures 0.0 <= SumOfSquares(r0, r1, delta) <= MaxSumOfSquares()
    ensures SumOfSquares(r0, r1, delta) == 0.0 <==> r0 == r1
  {
    GenericBound(r0.sector, r1.sector, delta.sector, SCALE_SECTOR);
    GenericBound(r0.size, r1.size, delta.size, SCALE_SIZE);
    GenericBound(r0.startTs, r1.startTs, delta.startTs, SCALE_START_TS);
    SquareBound(BinaryDistance(r0.cpu, r1.cpu, SCALE_CPU), SCALE_CPU);
    SquareBound(BinaryDistance(r0.op, r1.op, SCALE_OP), SCALE_OP);
    SquareBound(GenericDistance(r0.sector, r1.sector, delta.sector, SCALE_SECTOR), SCALE_SECTOR);
    SquareBound(GenericDistance(r0.size, r1.size, delta.size, SCALE_SIZE), SCALE_SIZE);
    SquareBound(GenericDistance(r0.startTs, r1.startTs, delta.startTs, SCALE_START_TS), SCALE_START_TS);
  }

  /** What the library's square root is. */
  ghost predicate IsSquareRoot(sqrt: real -> real) {
    forall x: real | x >= 0.0 :: sqrt(x) >= 0.0 && sqrt(x) * sqrt(x) == x
  }

  /** The square root of the library meets the contract. */
  lemma SquareRootIncreases(sqrt: real -> real)
    requires IsSquareRoot(sqrt)
    ensures IncreasesFromZero(sqrt)
  {
    assert sqrt(0.0) == 0.0 by {
      if sqrt(0.0) > 0.0 {
        SquareGrows(0.0, sqrt(0.0));
      }
    }
    forall x: real, y: real | 0.0 <= x < y ensures sqrt(x) < sqrt(y) {
      if sqrt(y) < sqrt(x) {
        SquareGrows(sqrt(y), sqrt(x));
      }
    }
  }

  /** A distance lies between 0 and 1, and is 0 exactly between requests that agree on all keys. */
  lemma DistanceBound(r0: Request, r1: Request, delta: Delta, sqrt: real -> real)
    requires Covered(r0, r1, delta) && IncreasesFromZero(sqrt)
    ensures sqrt(MaxSumOfSquares()) > 0.0
    ensures 0.0 <= DistanceTo(Some(r0), r1, delta, sqrt) <= 1.0
    ensures DistanceTo(Some(r0), r1, delta, sqrt) == 0.0 <==> r0 == r1
  {
    SumOfSquaresBound(r0, r1, delta);
    var a, b := sqrt(SumOfSquares(r0, r1, delta)), sqrt(MaxSumOfSquares());
    Ratio(a, b);
  }

  lemma Ratio(a: real, b: real)
    requires 0.0 <= a <= b && b > 0.0
    ensures 0.0 <= a / b <= 1.0 && (a / b == 0.0 <==> a == 0.0)
  {
    assert a / b * b == a;
  }

  // ----- exact values -----

  lemma RootOfSquare(sqrt: real -> real, x: real, y: real)
    requires IsSquareRoot(sqrt) && x >= 0.0 && y == x * x
    ensures sqrt(y) == x
  {
    SquareBound(x, x);
    if sqrt(y) < x {
      SquareGrows(sqrt(y), x);
    } else if x < sqrt(y) {
      SquareGrows(x, sqrt(y));
    }
  }

  lemma TimesQuotient(a: real, b: real)
    requires b != 0.0
    ensures a / b * b == a
  {
  }

  lemma RootOfScales(sqrt: real -> real)
    requires IsSquareRoot(sqrt)
    ensures MaxSumOfSquares() == 43.0 && sqrt(43.0) > 0.0
  {
    assert sqrt(43.0) * sqrt(43.0) == 43.0;
  }

  lemma DistanceIsRoot(r0: Request, r1: Request, delta: Delta, sqrt: real -> real, x: real)
    requires IsSquareRoot(sqrt) && x >= 0.0 && SumOfSquares(r0, r1, delta) == x * x
    ensures sqrt(MaxSumOfSquares()) != 0.0 && DistanceTo(Some(r0), r1, delta, sqrt) * sqrt(43.0) == x
  {
    RootOfScales(sqrt);
    RootOfSquare(sqrt, x, SumOfSquares(r0, r1, delta));
    TimesQuotient(x, sqrt(43.0));
  }

  /** Two requests on different cpus are 1 apart, in units of the largest distance. */
  lemma DistanceByCpu(r: Request, cpu: int, delta: Delta, sqrt: real -> real)
    requires IsSquareRoot(sqrt) && cpu != r.cpu
    ensures sqrt(MaxSumOfSquares()) != 0.0 && DistanceTo(Some(r), r.(cpu := cpu), delta, sqrt) * sqrt(43.0) == 1.0
  {
    SameValue(r.startTs, delta.startTs, SCALE_START_TS);
    SameValue(r.sector, delta.sector, SCALE_SECTOR);
    SameValue(r.size, delta.size, SCALE_SIZE);
    DistanceIsRoot(r, r.(cpu := cpu), delta, sqrt, 1.0);
  }

  /** Two different operations are 5 apart, in those units. */
  lemma DistanceByOp(r: Request, op: int, delta: Delta, sqrt: real -> real)
    requires IsSquareRoot(sqrt) && op != r.op
    ensures sqrt(MaxSumOfSquares()) != 0.0 && DistanceTo(Some(r), r.(op := op), delta, sqrt) * sqrt(43.0) == 5.0
  {
    SameValue(r.startTs, delta.startTs, SCALE_START_TS);
    SameValue(r.sector, delta.sector, SCALE_SECTOR);
    SameValue(r.size, delta.size, SCALE_SIZE);
    DistanceIsRoot(r, r.(op := op), delta, sqrt, 5.0);
  }

  lemma SameValue(x: int, delta: int, scale: real)
    ensures GenericDistance(x, x, delta, scale) == 0.0
  {
    if delta != 0 {
      TimesQuotient(0.0, delta as real);
      assert 0.0 / delta as real == 0.0;
    }
  }

  /** Sectors that differ are 3 times their share of the largest difference apart; a delta of 0 divides nothing. */
  lemma DistanceBySector(r: Request, sector: int, delta: Delta, sqrt: real -> real)
    requires IsSquareRoot(sqrt) && delta.sector >= 0
    ensures sqrt(MaxSumOfSquares()) != 0.0
    ensures DistanceTo(Some(r), r.(sector := sector), delta, sqrt) * sqrt(43.0) ==
      Abs(r.sector - sector) as real / (if delta.sector == 0 then 1.0 else delta.sector as real) * 3.0
  {
    SameValue(r.startTs, delta.startTs, SCALE_START_TS);
    SameValue(r.size, delta.size, SCALE_SIZE);
    ShareNonNegative(r.sector, sector, delta.sector, SCALE_SECTOR);
    DistanceIsRoot(r, r.(sector := sector), delta, sqrt, GenericDistance(r.sector, sector, delta.sector, SCALE_SECTOR));
  }

  lemma DistanceBySize(r: Request, size: int, delta: Delta, sqrt: real -> real)
    requires IsSquareRoot(sqrt) && delta.size >= 0
    ensures sqrt(MaxSumOfSquares()) != 0.0
    ensures DistanceTo(Some(r), r.(size := size), delta, sqrt) * sqrt(43.0) ==
      Abs(r.size - size) as real / (if delta.size == 0 then 1.0 else delta.size as real) * 2.0
  {
    SameValue(r.startTs, delta.startTs, SCALE_START_TS);
    SameValue(r.sector, delta.sector, SCALE_SECTOR);
    ShareNonNegative(r.size, size, delta.size, SCALE_SIZE);
    DistanceIsRoot(r, r.(size := size), delta, sqrt, GenericDistance(r.size, size, delta.size, SCALE_SIZE));
  }

  lemma DistanceByStartTs(r: Request, startTs: int, delta: Delta, sqrt: real -> real)
    requires IsSquareRoot(sqrt) && delta.startTs >= 0
    ensures sqrt(MaxSumOfSquares()) != 0.0
    ensures DistanceTo(Some(r), r.(startTs := startTs), delta, sqrt) * sqrt(43.0) ==
      Abs(r.startTs - startTs) as real / (if delta.startTs == 0 then 1.0 else delta.startTs as real) * 2.0
  {
    SameValue(r.sector, delta.sector, SCALE_SECTOR);
    SameValue(r.size, delta.size, SCALE_SIZE);
    ShareNonNegative(r.startTs, startTs, delta.startTs, SCALE_START_TS);
    DistanceIsRoot(r, r.(startTs := startTs), delta, sqrt,
        GenericDistance(r.startTs, startTs, delta.startTs, SCALE_START_TS));
  }

  lemma ShareNonNegative(x: int, y: int, delta: int, scale: real)
    requires delta >= 0 && scale > 0.0
    ensures GenericDistance(x, y, delta, scale) ==
      Abs(x - y) as real / (if delta == 0 then 1.0 else delta as real) * scale
    ensures GenericDistance(x, y, delta, scale) >= 0.0
  {
    var diff := Abs(x - y) as real;
    if delta == 0 {
      assert diff / 1.0 == diff;
    } else {
      var q := diff / delta as real;
      TimesQuotient(diff, delta as real);
      if q < 0.0 {
        ProductPositive(0.0 - q, delta as real);
      }
    }
  }

  lemma RegroupProduct(a: real, b: real)
    ensures (a * b) * (a * b) == (a * a) * (b * b)
  {
    assert (a * b) * (a * b) == a * (b * (a * b));
    assert b * (a * b) == a * (b * b);
    assert a * (a * (b * b)) == (a * a) * (b * b);
  }

  lemma SumOfSquaresNonNegative(r0: Request, r1: Request, delta: Delta)
    ensures SumOfSquares(r0, r1, delta) >= 0.0
  {
    SquareNonNegative(BinaryDistance(r0.cpu, r1.cpu, SCALE_CPU));
    SquareNonNegative(BinaryDistance(r0.op, r1.op, SCALE_OP));
    SquareNonNegative(GenericDistance(r0.sector, r1.sector, delta.sector, SCALE_SECTOR));
    SquareNonNegative(GenericDistance(r0.size, r1.size, delta.size, SCALE_SIZE));
    SquareNonNegative(GenericDistance(r0.startTs, r1.startTs, delta.startTs, SCALE_START_TS));
  }

  lemma SquareNonNegative(x: real)
    ensures Squared(x) >= 0.0
  {
    SquareBound(if x < 0.0 then -x else x, if x < 0.0 then -x else x);
    assert (-x) * (-x) == x * x;
  }

  lemma DistanceSquared(r0: Request, r1: Request, delta: Delta, sqrt: real -> real)
    requires IsSquareRoot(sqrt)
    ensures sqrt(MaxSumOfSquares()) != 0.0
    ensures Squared(DistanceTo(Some(r0), r1, delta, sqrt)) * 43.0 == SumOfSquares(r0, r1, delta)
  {
    RootOfScales(sqrt);
    SumOfSquaresNonNegative(r0, r1, delta);
    var s, b := sqrt(SumOfSquares(r0, r1, delta)), sqrt(43.0);
    TimesQuotient(s, b);
    RegroupProduct(s / b, b);
    assert b * b == 43.0;
  }

  /**
   * The keys contribute independently: the squared distance of two requests is the sum, over the
   * keys, of the squared distances of requests that differ in that key alone.
   */
  lemma DistanceByKeys(r0: Request, r1: Request, delta: Delta, sqrt: real -> real)
    requires IsSquareRoot(sqrt)
    ensures sqrt(MaxSumOfSquares()) != 0.0
    ensures Squared(DistanceTo(Some(r0), r1, delta, sqrt)) ==
      Squared(DistanceTo(Some(r0), r0.(cpu := r1.cpu), delta, sqrt))
      + Squared(DistanceTo(Some(r0), r0.(op := r1.op), delta, sqrt))
      + Squared(DistanceTo(Some(r0), r0.(sector := r1.sector), delta, sqrt))
      + Squared(DistanceTo(Some(r0), r0.(size := r1.size), delta, sqrt))
      + Squared(DistanceTo(Some(r0), r0.(startTs := r1.startTs), delta, sqrt))
  {
    SameValue(r0.startTs, delta.startTs, SCALE_START_TS);
    SameValue(r0.sector, delta.sector, SCALE_SECTOR);
    SameValue(r0.size, delta.size, SCALE_SIZE);
    DistanceSquared(r0, r1, delta, sqrt);
    DistanceSquared(r0, r0.(cpu := r1.cpu), delta, sqrt);
    DistanceSquared(r0, r0.(op := r1.op), delta, sqrt);
    DistanceSquared(r0, r0.(sector := r1.sector), delta, sqrt);
    DistanceSquared(r0, r0.(size := r1.size), delta, sqrt);
    DistanceSquared(r0, r0.(startTs := r1.startTs), delta, sqrt);
    assert Squared(0.0) == 0.0;
  }
}
