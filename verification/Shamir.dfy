// Shamir secret sharing of byte strings: split, combine and interpolate.

module Shamir {
  import opened Wrappers
  import opened Galois
  import opened Polynomials
  import opened Interpolation

  const GF256_SIZE := 256

  datatype Share = Share(index: int, share: seq<bv8>)

  datatype ShamirError =
    | InvalidThreshold
    | NoShares
    | LengthMismatch
    | DuplicateIndex
    | InvalidIndex
    | Arithmetic(error: InterpolationError)

  // samplePolynomial, given the random coefficients.
  function SamplePolynomial(constant: bv8, coefficients: seq<bv8>): Polynomial {
    Make(Elements8([constant] + coefficients))
  }

  function Elements8(bytes: seq<bv8>): seq<GF256> {
    seq(|bytes|, i requires 0 <= i < |bytes| => GF256(bytes[i]))
  }

  // The random bytes split draws: threshold - 1 for each byte of the secret.
  predicate Drawn(randomness: seq<seq<bv8>>, secret: seq<bv8>, threshold: int) {
    && |randomness| == |secret|
    && forall k | 0 <= k < |randomness| :: |randomness[k]| == threshold - 1
  }

  function IndexElement(index: int): GF256
    requires 0 <= index < GF256_SIZE
  {
    GF256(index as bv8)
  }

  function ShareAt(secret: seq<bv8>, randomness: seq<seq<bv8>>, index: int): Share
    requires |randomness| == |secret| && 0 <= index < GF256_SIZE
  {
    Share(index, seq(|secret|, k requires 0 <= k < |secret| =>
      SamplePolynomial(secret[k], randomness[k]).Evaluate(IndexElement(index)).value))
  }

  function Split(secret: seq<bv8>, threshold: int, total: int, randomness: seq<seq<bv8>>)
    : Result<seq<Share>, ShamirError>
    requires threshold >= 1 ==> Drawn(randomness, secret, threshold)
  {
    if threshold > total || threshold < 1 || total >= GF256_SIZE then Err(InvalidThreshold)
    else Ok(seq(total, i requires 0 <= i < total => ShareAt(secret, randomness, i + 1)))
  }

  // split fails exactly on an invalid threshold; share i has index i + 1 and a byte of the polynomial
  // of every byte of the secret there, whose value at zero is that byte.
  lemma SplitIs(secret: seq<bv8>, threshold: int, total: int, randomness: seq<seq<bv8>>)
    requires threshold >= 1 ==> Drawn(randomness, secret, threshold)
    ensures var split := Split(secret, threshold, total, randomness);
      && (split.Ok? <==> 1 <= threshold <= total < 256)
      && (split.Err? ==> split.error == InvalidThreshold)
      && (split.Ok? ==>
          && |split.value| == total
          && forall i | 0 <= i < total :: split.value[i].index == i + 1 && |split.value[i].share| == |secret|)
  {
    hide SamplePolynomial, Polynomial.Evaluate;
  }

  function Indices(shares: seq<Share>): seq<int> {
    seq(|shares|, i requires 0 <= i < |shares| => shares[i].index)
  }

  predicate EqualLengths(shares: seq<Share>) {
    forall i | 0 <= i < |shares| :: |shares[i].share| == |shares[0].share|
  }

  predicate ValidIndices(shares: seq<Share>) {
    forall i | 0 <= i < |shares| :: 0 <= shares[i].index < GF256_SIZE
  }

  // validateShares; the last error is the field element constructor's.
  function ValidateShares(shares: seq<Share>): Result<nat, ShamirError> {
    if |shares| < 1 then Err(NoShares)
    else if !EqualLengths(shares) then Err(LengthMismatch)
    else if HasDuplicates(Indices(shares)) then Err(DuplicateIndex)
    else if !ValidIndices(shares) then Err(InvalidIndex)
    else Ok(|shares[0].share|)
  }

  // The coordinates of byte i of every share.
  function Coordinates(shares: seq<Share>, i: nat): seq<Point>
    requires EqualLengths(shares) && ValidIndices(shares)
    requires |shares| > 0 ==> i < |shares[0].share|
  {
    seq(|shares|, k requires 0 <= k < |shares| =>
      Point(IndexElement(shares[k].index), GF256(shares[k].share[i])))
  }

  // The first n bytes of the secret.
  function CombineBytes(shares: seq<Share>, n: nat): Result<seq<bv8>, ShamirError>
    requires |shares| > 0 && EqualLengths(shares) && ValidIndices(shares) && n <= |shares[0].share|
  {
    if n == 0 then Ok([])
    else
      match CombineBytes(shares, n - 1)
      case Err(e) => Err(e)
      case Ok(bytes) =>
        match Interpolation.Combine(Coordinates(shares, n - 1))
        case Err(e) => Err(Arithmetic(e))
        case Ok(element) => Ok(bytes + [element.value])
  }

  function Combine(shares: seq<Share>): Result<seq<bv8>, ShamirError> {
    match ValidateShares(shares)
    case Err(e) => Err(e)
    case Ok(length) => CombineBytes(shares, length)
  }

  function InterpolateBytes(shares: seq<Share>, n: nat): Result<seq<Polynomial>, ShamirError>
    requires |shares| > 0 && EqualLengths(shares) && ValidIndices(shares) && n <= |shares[0].share|
  {
    if n == 0 then Ok([])
    else
      match InterpolateBytes(shares, n - 1)
      case Err(e) => Err(e)
      case Ok(polynomials) =>
        match Interpolation.Interpolate(Coordinates(shares, n - 1))
        case Err(e) => Err(Arithmetic(e))
        case Ok(p) => Ok(polynomials + [p])
  }

  // interpolate, as the list of polynomials its returned function evaluates.
  function Interpolate(shares: seq<Share>): Result<seq<Polynomial>, ShamirError> {
    match ValidateShares(shares)
    case Err(e) => Err(e)
    case Ok(length) => InterpolateBytes(shares, length)
  }

  function EvaluateAll(polynomials: seq<Polynomial>, x: GF256): seq<bv8> {
    seq(|polynomials|, i requires 0 <= i < |polynomials| => polynomials[i].Evaluate(x).value)
  }

  // ---------- Indices ----------

  lemma IndexOfElement(i: int)
    requires 0 <= i < GF256_SIZE
    ensures IndexElement(i).value as int == i
  {
    assert i % 256 == i;
  }

  lemma IndexElementInjective(i: int, j: int)
    requires 0 <= i < GF256_SIZE && 0 <= j < GF256_SIZE
    ensures IndexElement(i) == IndexElement(j) <==> i == j
    ensures IndexElement(i) == Zero <==> i == 0
  {
    assert IndexElement(0) == Zero;
    hide IndexElement;
    IndexOfElement(i);
    IndexOfElement(j);
    IndexOfElement(0);
  }

  lemma CoordinatesDistinct(shares: seq<Share>, i: nat)
    requires |shares| > 0 && EqualLengths(shares) && ValidIndices(shares) && i < |shares[0].share|
    requires !HasDuplicates(Indices(shares))
    ensures Distinct(Xs(Coordinates(shares, i)))
  {
    hide HasDuplicates, IndexElement;
    DuplicatesIff(Indices(shares));
    var xs := Xs(Coordinates(shares, i));
    forall a, b | 0 <= a < b < |xs|
      ensures xs[a] != xs[b]
    {
      assert Indices(shares)[a] != Indices(shares)[b];
      IndexElementInjective(shares[a].index, shares[b].index);
    }
  }

  // ---------- Sampled polynomials ----------

  lemma EvaluateAtZero(p: Polynomial)
    ensures p.Evaluate(Zero) == p.Coefficient(0)
  {
    hide Horner, Add, Mul;
    HornerStep(p.coefficients, Zero);
    MulZero(Horner(Polynomials.Tail(p.coefficients), Zero));
    AddZero(p.Coefficient(0));
  }

  lemma SampleFacts(constant: bv8, coefficients: seq<bv8>)
    ensures var p := SamplePolynomial(constant, coefficients);
      && Normalized(p)
      && |p.coefficients| <= |coefficients| + 1
      && p.Evaluate(Zero) == GF256(constant)
      && (forall i: nat :: p.Coefficient(i) == Coef(Elements8([constant] + coefficients), i))
  {
    var c := Elements8([constant] + coefficients);
    hide Trim, Horner, Add, Mul, Normalized;
    TrimNormalizes(c);
    TrimKeepsCoefficients(c);
    EvaluateAtZero(Make(c));
  }

  // ---------- Any threshold of shares recovers the secret ----------

  predicate Chosen(chosen: seq<Share>, shares: seq<Share>) {
    && (forall k | 0 <= k < |chosen| :: chosen[k] in shares)
    && !HasDuplicates(Indices(chosen))
  }

  lemma ShareOf(secret: seq<bv8>, threshold: int, total: int, randomness: seq<seq<bv8>>, share: Share)
    requires 1 <= threshold <= total < GF256_SIZE && Drawn(randomness, secret, threshold)
    requires share in Split(secret, threshold, total, randomness).value
    ensures 1 <= share.index <= total
    ensures share == ShareAt(secret, randomness, share.index)
  {
    hide ShareAt;
    var shares := Split(secret, threshold, total, randomness).value;
    var i :| 0 <= i < |shares| && shares[i] == share;
    assert share == ShareAt(secret, randomness, i + 1);
    ShareAtIndex(secret, randomness, i + 1);
  }

  lemma ShareAtIndex(secret: seq<bv8>, randomness: seq<seq<bv8>>, index: int)
    requires |randomness| == |secret| && 0 <= index < GF256_SIZE
    ensures ShareAt(secret, randomness, index).index == index
    ensures |ShareAt(secret, randomness, index).share| == |secret|
    ensures forall k | 0 <= k < |secret| ::
      GF256(ShareAt(secret, randomness, index).share[k])
        == SamplePolynomial(secret[k], randomness[k]).Evaluate(IndexElement(index))
  {
    hide SamplePolynomial, IndexElement, Polynomial.Evaluate;
  }

  // The shares of one run of split: each is its polynomials' values at a non-zero index.
  ghost predicate FromSplit(secret: seq<bv8>, randomness: seq<seq<bv8>>, chosen: seq<Share>)
    requires |randomness| == |secret|
  {
    forall k | 0 <= k < |chosen| ::
      0 < chosen[k].index < GF256_SIZE && chosen[k] == ShareAt(secret, randomness, chosen[k].index)
  }

  lemma ChosenFacts(secret: seq<bv8>, threshold: int, total: int, randomness: seq<seq<bv8>>, chosen: seq<Share>)
    requires 1 <= threshold <= total < GF256_SIZE && Drawn(randomness, secret, threshold)
    requires Chosen(chosen, Split(secret, threshold, total, randomness).value) && |chosen| > 0
    ensures FromSplit(secret, randomness, chosen)
    ensures ValidateShares(chosen) == Ok(|secret|)
  {
    forall k | 0 <= k < |chosen|
      ensures 1 <= chosen[k].index <= total && |chosen[k].share| == |secret|
      ensures chosen[k] == ShareAt(secret, randomness, chosen[k].index)
    {
      hide Split, ShareAt;
      ShareOf(secret, threshold, total, randomness, chosen[k]);
      ShareAtIndex(secret, randomness, chosen[k].index);
    }
    hide Split, ShareAt, HasDuplicates;
  }

  lemma ByteInterpolant(secret: seq<bv8>, randomness: seq<seq<bv8>>, chosen: seq<Share>, i: nat)
    requires |randomness| == |secret| && i < |secret|
    requires FromSplit(secret, randomness, chosen) && ValidateShares(chosen) == Ok(|secret|)
    requires |randomness[i]| < |chosen|
    ensures Interpolation.Interpolate(Coordinates(chosen, i)) == Ok(SamplePolynomial(secret[i], randomness[i]))
    ensures Interpolation.Combine(Coordinates(chosen, i)) == Ok(GF256(secret[i]))
  {
    hide HasDuplicates, ShareAt, SamplePolynomial, IndexElement, Normalized, Xs, Distinct,
         Polynomial.Evaluate, Interpolation.Combine, Interpolation.Interpolate;
    var coords := Coordinates(chosen, i);
    var p := SamplePolynomial(secret[i], randomness[i]);
    SampleFacts(secret[i], randomness[i]);
    CoordinatesDistinct(chosen, i);
    forall k | 0 <= k < |coords|
      ensures p.Evaluate(coords[k].x) == coords[k].y
      ensures coords[k].x != Zero
    {
      ShareAtIndex(secret, randomness, chosen[k].index);
      IndexElementInjective(chosen[k].index, 0);
    }
    assert PassesThrough(p, coords);
    InterpolateUnique(coords, p);
    CombineIsInterpolateAtZero(coords);
  }

  lemma {:induction false} BytesRecovered(secret: seq<bv8>, randomness: seq<seq<bv8>>, chosen: seq<Share>, n: nat)
    requires |randomness| == |secret| && n <= |secret|
    requires FromSplit(secret, randomness, chosen) && ValidateShares(chosen) == Ok(|secret|)
    requires forall i | 0 <= i < |secret| :: |randomness[i]| < |chosen|
    ensures CombineBytes(chosen, n) == Ok(secret[..n])
    ensures InterpolateBytes(chosen, n).Ok?
    ensures InterpolateBytes(chosen, n).value
         == seq(n, i requires 0 <= i < n => SamplePolynomial(secret[i], randomness[i]))
  {
    hide HasDuplicates, ShareAt, SamplePolynomial, Interpolation.Combine, Interpolation.Interpolate,
         Coordinates, FromSplit;
    if n > 0 {
      BytesRecovered(secret, randomness, chosen, n - 1);
      ByteInterpolant(secret, randomness, chosen, n - 1);
      assert secret[..n] == secret[..n - 1] + [secret[n - 1]];
    }
  }

  // For every secret, threshold, total and choice of coefficients, any collection of at least
  // threshold distinct shares, in any order, combines to the secret.
  lemma CombineAfterSplit(secret: seq<bv8>, threshold: int, total: int, randomness: seq<seq<bv8>>, chosen: seq<Share>)
    requires 1 <= threshold <= total < GF256_SIZE && Drawn(randomness, secret, threshold)
    requires Chosen(chosen, Split(secret, threshold, total, randomness).value)
    requires |chosen| >= threshold
    ensures Combine(chosen) == Ok(secret)
  {
    hide HasDuplicates, Split, ShareAt, CombineBytes;
    ChosenFacts(secret, threshold, total, randomness, chosen);
    BytesRecovered(secret, randomness, chosen, |secret|);
    assert secret[..|secret|] == secret;
  }

  // The function interpolate returns reproduces every share of the split.
  lemma InterpolateAfterSplit(secret: seq<bv8>, threshold: int, total: int, randomness: seq<seq<bv8>>,
                              chosen: seq<Share>, index: int)
    requires 1 <= threshold <= total < GF256_SIZE && Drawn(randomness, secret, threshold)
    requires Chosen(chosen, Split(secret, threshold, total, randomness).value)
    requires |chosen| >= threshold && 0 <= index < GF256_SIZE
    ensures Interpolate(chosen).Ok?
    ensures EvaluateAll(Interpolate(chosen).value, IndexElement(index)) == ShareAt(secret, randomness, index).share
  {
    hide HasDuplicates, Split, InterpolateBytes, SamplePolynomial, Polynomial.Evaluate;
    ChosenFacts(secret, threshold, total, randomness, chosen);
    BytesRecovered(secret, randomness, chosen, |secret|);
  }

  // ---------- When combine succeeds ----------

  lemma {:induction false} CombineBytesOutcome(shares: seq<Share>, n: nat)
    requires ValidateShares(shares).Ok? && n <= |shares[0].share|
    ensures CombineBytes(shares, n).Ok? <==> n == 0 || 0 !in Indices(shares)
    ensures CombineBytes(shares, n).Ok? ==> |CombineBytes(shares, n).value| == n
    ensures CombineBytes(shares, n).Err? ==> CombineBytes(shares, n) == Err(Arithmetic(ZeroLog))
  {
    hide HasDuplicates, Interpolation.Combine, Coordinates;
    if n > 0 {
      CombineBytesOutcome(shares, n - 1);
      CombineByteOutcome(shares, n - 1);
    }
  }

  // One byte is combined unless an index is zero.
  lemma CombineByteOutcome(shares: seq<Share>, i: nat)
    requires ValidateShares(shares).Ok? && i < |shares[0].share|
    ensures Interpolation.Combine(Coordinates(shares, i)).Ok? <==> 0 !in Indices(shares)
    ensures Interpolation.Combine(Coordinates(shares, i)).Err? ==>
      Interpolation.Combine(Coordinates(shares, i)) == Err(ZeroLog)
  {
    hide HasDuplicates, Interpolation.Combine, IndexElement;
    CoordinatesDistinct(shares, i);
    var coords := Coordinates(shares, i);
    hide Distinct, Xs;
    CombineIsInterpolateAtZero(coords);
    forall k | 0 <= k < |shares|
      ensures coords[k].x == Zero <==> Indices(shares)[k] == 0
    {
      IndexElementInjective(shares[k].index, 0);
    }
  }

  // combine returns exactly when there is a share, all lengths agree, the indices are distinct
  // field elements, and, unless the shares are empty strings, none of them is zero.
  lemma CombineSucceedsIff(shares: seq<Share>)
    ensures Combine(shares).Ok? <==>
      && |shares| > 0
      && EqualLengths(shares)
      && (forall i, j | 0 <= i < j < |shares| :: shares[i].index != shares[j].index)
      && ValidIndices(shares)
      && (|shares[0].share| == 0 || forall i | 0 <= i < |shares| :: shares[i].index != 0)
    ensures Combine(shares).Ok? ==> |Combine(shares).value| == |shares[0].share|
  {
    hide HasDuplicates, CombineBytes;
    var indices := Indices(shares);
    DuplicatesIff(indices);
    assert (forall i, j | 0 <= i < j < |shares| :: shares[i].index != shares[j].index)
      <==> (forall i, j | 0 <= i < j < |indices| :: indices[i] != indices[j]) by {
      assert forall i | 0 <= i < |shares| :: indices[i] == shares[i].index;
    }
    assert (0 in indices) <==> exists i | 0 <= i < |shares| :: shares[i].index == 0 by {
      assert forall i | 0 <= i < |shares| :: indices[i] == shares[i].index;
    }
    if ValidateShares(shares).Ok? {
      CombineBytesOutcome(shares, |shares[0].share|);
    }
  }

  // ---------- Fewer shares than the threshold reveal nothing ----------

  // Every normalized polynomial is sampled by some coefficients.
  lemma SampleOf(p: Polynomial, constant: bv8, n: nat) returns (coefficients: seq<bv8>)
    requires Normalized(p) && |p.coefficients| <= n + 1 && p.Evaluate(Zero) == GF256(constant)
    ensures |coefficients| == n
    ensures SamplePolynomial(constant, coefficients) == p
  {
    coefficients := seq(n, i requires 0 <= i < n => p.Coefficient(i + 1).value);
    var q := SamplePolynomial(constant, coefficients);
    SampleFacts(constant, coefficients);
    hide SamplePolynomial, Normalized, Polynomial.Evaluate, Add, Mul;
    EvaluateAtZero(p);
    forall i: nat
      ensures p.Coefficient(i) == q.Coefficient(i)
    {
      assert q.Coefficient(i) == Coef(Elements8([constant] + coefficients), i);
      assert GF256(p.Coefficient(i).value) == p.Coefficient(i);
    }
    NormalizedEqual(p, q);
  }

  // With one share less than the threshold, every candidate byte is explained by some
  // coefficients ...
  lemma CoefficientsExist(constant: bv8, points: seq<Point>) returns (coefficients: seq<bv8>)
    requires Distinct(Xs(points)) && Avoids(points, Zero)
    ensures |coefficients| == |points|
    ensures PassesThrough(SamplePolynomial(constant, coefficients), points)
  {
    hide Xs, Distinct, Avoids, SamplePolynomial, InterpolateFirst, Normalized, Polynomial.Evaluate;
    var all := [Point(Zero, GF256(constant))] + points;
    WithConstantDistinct(constant, points);
    InterpolatePasses(all);
    var p := InterpolateFirst(all, |all|);
    assert p.Evaluate(all[0].x) == all[0].y;
    coefficients := SampleOf(p, constant, |points|);
    forall k | 0 <= k < |points|
      ensures p.Evaluate(points[k].x) == points[k].y
    {
      assert all[k + 1] == points[k];
    }
  }

  lemma WithConstantDistinct(constant: bv8, points: seq<Point>)
    requires Distinct(Xs(points)) && Avoids(points, Zero)
    ensures Distinct(Xs([Point(Zero, GF256(constant))] + points))
  {
    var all := [Point(Zero, GF256(constant))] + points;
    forall i, j | 0 <= i < j < |all|
      ensures Xs(all)[i] != Xs(all)[j]
    {
      assert Xs(all)[j] == Xs(points)[j - 1];
      if i > 0 {
        assert Xs(all)[i] == Xs(points)[i - 1];
      }
    }
  }

  // ... and by no others.
  lemma CoefficientsUnique(constant: bv8, points: seq<Point>, c: seq<bv8>, d: seq<bv8>)
    requires Distinct(Xs(points)) && Avoids(points, Zero)
    requires |c| == |d| == |points|
    requires PassesThrough(SamplePolynomial(constant, c), points)
    requires PassesThrough(SamplePolynomial(constant, d), points)
    ensures c == d
  {
    var all := [Point(Zero, GF256(constant))] + points;
    WithConstantDistinct(constant, points);
    SampleFacts(constant, c);
    SampleFacts(constant, d);
    hide SamplePolynomial, Normalized, Distinct, Xs, Avoids, Polynomial.Evaluate;
    var p, q := SamplePolynomial(constant, c), SamplePolynomial(constant, d);
    SamePolynomial(p, q, all);
    forall i | 0 <= i < |c|
      ensures c[i] == d[i]
    {
      assert Coef(Elements8([constant] + c), i + 1) == p.Coefficient(i + 1);
      assert Coef(Elements8([constant] + d), i + 1) == q.Coefficient(i + 1);
    }
  }

  // threshold - 1 shares of the right length at distinct non-zero indices.
  ghost predicate Held(held: seq<Share>, secret: seq<bv8>, threshold: int) {
    && |held| == threshold - 1
    && !HasDuplicates(Indices(held))
    && forall k | 0 <= k < |held| :: 0 < held[k].index < GF256_SIZE && |held[k].share| == |secret|
  }

  lemma HeldCoordinates(held: seq<Share>, secret: seq<bv8>, threshold: int, i: nat)
    requires Held(held, secret, threshold) && i < |secret|
    ensures EqualLengths(held) && ValidIndices(held)
    ensures Distinct(Xs(Coordinates(held, i))) && Avoids(Coordinates(held, i), Zero)
  {
    hide HasDuplicates, IndexElement;
    if |held| > 0 {
      CoordinatesDistinct(held, i);
    }
    hide Xs, Distinct;
    var coords := Coordinates(held, i);
    forall k | 0 <= k < |coords|
      ensures coords[k].x != Zero
    {
      IndexElementInjective(held[k].index, 0);
    }
  }

  lemma ByteFromSplit(held: seq<Share>, secret: seq<bv8>, threshold: int, randomness: seq<seq<bv8>>, i: nat)
    requires Held(held, secret, threshold) && i < |secret| == |randomness|
    requires FromSplit(secret, randomness, held)
    ensures EqualLengths(held) && ValidIndices(held)
    ensures PassesThrough(SamplePolynomial(secret[i], randomness[i]), Coordinates(held, i))
  {
    HeldCoordinates(held, secret, threshold, i);
    hide ShareAt, SamplePolynomial, HasDuplicates, IndexElement, Polynomial.Evaluate;
    forall k | 0 <= k < |held|
      ensures SamplePolynomial(secret[i], randomness[i]).Evaluate(IndexElement(held[k].index))
           == GF256(held[k].share[i])
    {
      ShareAtIndex(secret, randomness, held[k].index);
    }
  }

  lemma {:induction false} RandomnessFor(held: seq<Share>, secret: seq<bv8>, threshold: int, n: nat)
    returns (randomness: seq<seq<bv8>>)
    requires threshold >= 1 && Held(held, secret, threshold) && n <= |secret|
    ensures |randomness| == n
    ensures EqualLengths(held) && ValidIndices(held)
    ensures forall k | 0 <= k < n :: |randomness[k]| == threshold - 1
    ensures forall k | 0 <= k < n :: PassesThrough(SamplePolynomial(secret[k], randomness[k]), Coordinates(held, k))
  {
    hide HasDuplicates, SamplePolynomial, PassesThrough, Coordinates;
    if n == 0 {
      randomness := [];
    } else {
      var front := RandomnessFor(held, secret, threshold, n - 1);
      HeldCoordinates(held, secret, threshold, n - 1);
      hide Held, Distinct, Avoids, Xs;
      CoordinatesLength(held, n - 1);
      var c := CoefficientsExist(secret[n - 1], Coordinates(held, n - 1));
      randomness := front + [c];
      assert forall k | 0 <= k < n - 1 :: randomness[k] == front[k];
    }
  }

  lemma CoordinatesLength(shares: seq<Share>, i: nat)
    requires EqualLengths(shares) && ValidIndices(shares) && (|shares| > 0 ==> i < |shares[0].share|)
    ensures |Coordinates(shares, i)| == |shares|
  {
  }

  // Whatever shares are held, as long as they are one too few, each candidate secret of that
  // length is produced by exactly one choice of the random coefficients.
  lemma BelowThresholdRevealsNothing(held: seq<Share>, candidate: seq<bv8>, threshold: int)
    requires threshold >= 1 && Held(held, candidate, threshold)
    ensures exists r :: Drawn(r, candidate, threshold) && FromSplit(candidate, r, held)
    ensures forall r, s | Drawn(r, candidate, threshold) && Drawn(s, candidate, threshold)
        && FromSplit(candidate, r, held) && FromSplit(candidate, s, held) :: r == s
  {
    var r := RandomnessFor(held, candidate, threshold, |candidate|);
    RandomnessExplains(held, candidate, threshold, r);
    hide FromSplit;
    forall r, s | Drawn(r, candidate, threshold) && Drawn(s, candidate, threshold)
        && FromSplit(candidate, r, held) && FromSplit(candidate, s, held)
      ensures r == s
    {
      RandomnessUnique(held, candidate, threshold, r, s);
    }
  }

  lemma RandomnessExplains(held: seq<Share>, candidate: seq<bv8>, threshold: int, r: seq<seq<bv8>>)
    requires threshold >= 1 && Held(held, candidate, threshold) && Drawn(r, candidate, threshold)
    requires EqualLengths(held) && ValidIndices(held)
    requires forall k | 0 <= k < |candidate| ::
      PassesThrough(SamplePolynomial(candidate[k], r[k]), Coordinates(held, k))
    ensures FromSplit(candidate, r, held)
  {
    hide SamplePolynomial, HasDuplicates, IndexElement, Polynomial.Evaluate, ShareAt;
    forall m | 0 <= m < |held|
      ensures held[m] == ShareAt(candidate, r, held[m].index)
    {
      var expected := ShareAt(candidate, r, held[m].index);
      ShareAtIndex(candidate, r, held[m].index);
      forall k | 0 <= k < |candidate|
        ensures held[m].share[k] == expected.share[k]
      {
        assert Coordinates(held, k)[m] == Point(IndexElement(held[m].index), GF256(held[m].share[k]));
        assert GF256(expected.share[k]) == GF256(held[m].share[k]);
      }
      assert held[m].share == expected.share;
    }
  }

  lemma RandomnessUnique(held: seq<Share>, candidate: seq<bv8>, threshold: int, r: seq<seq<bv8>>, s: seq<seq<bv8>>)
    requires threshold >= 1 && Held(held, candidate, threshold)
    requires Drawn(r, candidate, threshold) && Drawn(s, candidate, threshold)
    requires FromSplit(candidate, r, held) && FromSplit(candidate, s, held)
    ensures r == s
  {
    forall k | 0 <= k < |candidate|
      ensures r[k] == s[k]
    {
      hide HasDuplicates, FromSplit, SamplePolynomial, PassesThrough, Coordinates;
      HeldCoordinates(held, candidate, threshold, k);
      ByteFromSplit(held, candidate, threshold, r, k);
      ByteFromSplit(held, candidate, threshold, s, k);
      CoordinatesLength(held, k);
      hide Distinct, Avoids, Xs;
      CoefficientsUnique(candidate[k], Coordinates(held, k), r[k], s[k]);
    }
  }

  // ---------- Collections that interpolate the same shares ----------

  lemma {:induction false} InterpolateBytesAt(shares: seq<Share>, n: nat)
    requires ValidateShares(shares).Ok? && n <= |shares[0].share|
    ensures InterpolateBytes(shares, n).Ok? && |InterpolateBytes(shares, n).value| == n
    ensures forall i | 0 <= i < n ::
      Interpolation.Interpolate(Coordinates(shares, i)) == Ok(InterpolateBytes(shares, n).value[i])
  {
    hide HasDuplicates, Interpolation.Interpolate, Coordinates, IndexElement;
    if n > 0 {
      InterpolateBytesAt(shares, n - 1);
      CoordinatesDistinct(shares, n - 1);
      CoordinatesLength(shares, n - 1);
      hide Xs, Distinct;
      InterpolateUnique(Coordinates(shares, n - 1), ZeroPoly);
    }
  }

  // combine is the function of interpolate applied to zero.
  lemma {:induction false} CombineBytesAtZero(shares: seq<Share>, n: nat)
    requires ValidateShares(shares).Ok? && n <= |shares[0].share|
    requires CombineBytes(shares, n).Ok?
    ensures InterpolateBytes(shares, n).Ok?
    ensures CombineBytes(shares, n).value == EvaluateAll(InterpolateBytes(shares, n).value, Zero)
  {
    hide HasDuplicates, Interpolation.Interpolate, Interpolation.Combine, Coordinates, IndexElement,
      Polynomial.Evaluate;
    if n > 0 {
      CombineBytesAtZero(shares, n - 1);
      InterpolateBytesAt(shares, n);
      CoordinatesDistinct(shares, n - 1);
      CoordinatesLength(shares, n - 1);
      hide Xs, Distinct, Avoids;
      CombineIsInterpolateAtZero(Coordinates(shares, n - 1));
    }
  }

  lemma CombineAtZero(shares: seq<Share>)
    requires Combine(shares).Ok?
    ensures Interpolate(shares).Ok?
    ensures Combine(shares).value == EvaluateAll(Interpolate(shares).value, Zero)
  {
    hide EvaluateAll, CombineBytes, InterpolateBytes;
    CombineBytesAtZero(shares, |shares[0].share|);
  }

  // Every share of the list lies on the polynomials.
  ghost predicate AllOn(polynomials: seq<Polynomial>, all: seq<Share>) {
    forall k | 0 <= k < |all| ::
      0 <= all[k].index < GF256_SIZE && EvaluateAll(polynomials, IndexElement(all[k].index)) == all[k].share
  }

  lemma AgreeOnLonger(all: seq<Share>, a: seq<Share>, b: seq<Share>, i: nat)
    requires ValidateShares(a).Ok? && ValidateShares(b).Ok? && |b| <= |a|
    requires forall k | 0 <= k < |a| :: a[k] in all
    requires Interpolate(a).Ok? && AllOn(Interpolate(a).value, all)
    requires Interpolate(b).Ok? && AllOn(Interpolate(b).value, all)
    requires i < |Interpolate(a).value| == |Interpolate(b).value|
    ensures Interpolate(a).value[i] == Interpolate(b).value[i]
  {
    var n, m := |a[0].share|, |b[0].share|;
    InterpolateBytesAt(a, n);
    InterpolateBytesAt(b, m);
    CoordinatesDistinct(a, i);
    CoordinatesDistinct(b, i);
    CoordinatesLength(a, i);
    CoordinatesLength(b, i);
    var ps, qs := Interpolate(a).value, Interpolate(b).value;
    var p, q := ps[i], qs[i];
    var coords := Coordinates(a, i);
    InterpolantFacts(Coordinates(b, i), q);
    InterpolantFacts(coords, p);
    hide Interpolate, InterpolateBytes, HasDuplicates, IndexElement, Polynomial.Evaluate, Normalized, Distinct, Xs;
    forall k | 0 <= k < |a|
      ensures q.Evaluate(coords[k].x) == coords[k].y
    {
      var j :| 0 <= j < |all| && all[j] == a[k];
      assert EvaluateAll(qs, IndexElement(all[j].index)) == all[j].share;
      assert EvaluateAll(qs, IndexElement(all[j].index))[i] == a[k].share[i];
    }
    SamePolynomial(p, q, coords);
  }

  lemma InterpolantFacts(coords: seq<Point>, p: Polynomial)
    requires |coords| > 0 && Distinct(Xs(coords)) && Interpolation.Interpolate(coords) == Ok(p)
    ensures Normalized(p) && |p.coefficients| <= |coords| && PassesThrough(p, coords)
  {
    hide Distinct, Xs, Normalized, PassesThrough, HasDuplicates;
    InterpolatePasses(coords);
    hide InterpolateFirst;
  }

  // Two collections taken from one list whose interpolants both pass through the whole list
  // combine to the same secret.
  lemma ConsistentCombine(all: seq<Share>, a: seq<Share>, b: seq<Share>)
    requires Combine(a).Ok? && Combine(b).Ok?
    requires forall k | 0 <= k < |a| :: a[k] in all
    requires forall k | 0 <= k < |b| :: b[k] in all
    requires Interpolate(a).Ok? && AllOn(Interpolate(a).value, all)
    requires Interpolate(b).Ok? && AllOn(Interpolate(b).value, all)
    ensures Combine(a) == Combine(b)
  {
    CombineAtZero(a);
    CombineAtZero(b);
    assert a[0] in all;
    var j :| 0 <= j < |all| && all[j] == a[0];
    var ps, qs := Interpolate(a).value, Interpolate(b).value;
    assert |EvaluateAll(ps, IndexElement(all[j].index))| == |EvaluateAll(qs, IndexElement(all[j].index))|;
    hide Interpolate, CombineBytes, AllOn;
    assert ValidateShares(a).Ok? && ValidateShares(b).Ok?;
    hide Combine, ValidateShares;
    forall i | 0 <= i < |ps|
      ensures ps[i] == qs[i]
    {
      if |b| <= |a| {
        AgreeOnLonger(all, a, b, i);
      } else {
        AgreeOnLonger(all, b, a, i);
      }
    }
    assert ps == qs;
  }
}
