// Range proofs for a batch of encrypted amounts: the partition into chunks the aggregated prover
// accepts.

module Batching {
  import opened Wrappers

  const MAX_BATCH_SIZE := 8

  datatype ProverError = LengthMismatch | NotPowerOfTwo | InvalidScalar

  datatype Limb = Limb(value: nat, blinding: nat)

  // An amount is four limbs.
  predicate IsAmount(a: seq<Limb>) {
    |a| == 4
  }

  // ---------- The prover's precondition ----------

  // Bitwise and.
  function And(a: nat, b: nat): nat
    decreases a
  {
    if a == 0 || b == 0 then 0
    else (if a % 2 == 1 && b % 2 == 1 then 1 else 0) + 2 * And(a / 2, b / 2)
  }

  predicate IsPowerOfTwo(n: nat) {
    n == 1 || (n > 0 && n % 2 == 0 && IsPowerOfTwo(n / 2))
  }

  lemma {:induction false} AndSelf(n: nat)
    ensures And(n, n) == n
  {
    if n > 0 {
      AndSelf(n / 2);
    }
  }

  // Clearing the lowest set bit leaves nothing exactly for the powers of two.
  lemma {:induction false} LowestBit(n: nat)
    requires n > 0
    ensures And(n, n - 1) == 0 <==> IsPowerOfTwo(n)
  {
    if n % 2 == 1 {
      assert (n - 1) / 2 == n / 2;
      AndSelf(n / 2);
    } else {
      assert (n - 1) / 2 == n / 2 - 1;
      LowestBit(n / 2);
    }
  }

  // batchRangeProver around the aggregated prover.
  method BatchRangeProver(order: nat, prover: (seq<nat>, seq<nat>) -> seq<nat>, values: seq<nat>, blindings: seq<nat>)
    returns (r: Result<seq<nat>, ProverError>)
    ensures r == Ok(prover(values, blindings))
      <==> (&& |values| == |blindings| && IsPowerOfTwo(|values|)
            && forall i | 0 <= i < |blindings| :: blindings[i] < order)
    ensures r.Err? || r == Ok(prover(values, blindings))
  {
    if |values| != |blindings| {
      return Err(LengthMismatch);
    }
    var n := |values|;
    if n > 0 {
      LowestBit(n);
    }
    if n == 0 || And(n, n - 1) != 0 {
      return Err(NotPowerOfTwo);
    }
    for i := 0 to n
      invariant forall k | 0 <= k < i :: blindings[k] < order
    {
      if blindings[i] >= order {
        return Err(InvalidScalar);
      }
    }
    return Ok(prover(values, blindings));
  }

  // ---------- The partition ----------

  function Sum(sizes: seq<nat>): nat {
    if sizes == [] then 0 else Sum(sizes[..|sizes| - 1]) + sizes[|sizes| - 1]
  }

  // n / 8 eights, then the binary digits of n % 8.
  function BatchSizes(n: nat): seq<nat> {
    Sizes(n / MAX_BATCH_SIZE, n / 4 % 2 == 1, n / 2 % 2 == 1, n % 2 == 1)
  }

  function Sizes(eights: nat, four: bool, two: bool, one: bool): seq<nat> {
    seq(eights, i => MAX_BATCH_SIZE)
      + (if four then [4] else []) + (if two then [2] else []) + (if one then [1] else [])
  }

  lemma SizesOf(e: nat, a: nat, b: nat, c: nat)
    requires a < 2 && b < 2 && c < 2
    ensures BatchSizes(8 * e + 4 * a + 2 * b + c) == Sizes(e, a == 1, b == 1, c == 1)
  {
    hide Sizes;
    var n := 8 * e + 4 * a + 2 * b + c;
    assert n / 8 == e && n / 4 == 2 * e + a && n / 2 == 4 * e + 2 * a + b;
  }

  // Non-increasing powers of two of at most eight, none but eight repeated.
  predicate IsCanonical(sizes: seq<nat>) {
    && (forall i | 0 <= i < |sizes| :: sizes[i] == 1 || sizes[i] == 2 || sizes[i] == 4 || sizes[i] == MAX_BATCH_SIZE)
    && (forall i, j | 0 <= i < j < |sizes| :: sizes[i] > sizes[j] || sizes[i] == sizes[j] == MAX_BATCH_SIZE)
  }

  lemma BatchSizesCanonical(n: nat)
    ensures IsCanonical(BatchSizes(n))
  {
  }

  lemma CanonicalFront(sizes: seq<nat>)
    requires IsCanonical(sizes) && |sizes| > 0
    ensures IsCanonical(sizes[..|sizes| - 1])
  {
    var front := sizes[..|sizes| - 1];
    assert forall i | 0 <= i < |front| :: front[i] == sizes[i];
  }

  // The sizes after the eights of a canonical sequence are the digits of their sum.
  lemma {:induction false} CanonicalSum(sizes: seq<nat>)
    requires IsCanonical(sizes)
    ensures sizes == BatchSizes(Sum(sizes))
  {
    var n := |sizes|;
    if n == 0 {
      assert BatchSizes(0) == [];
    } else {
      var front, last := sizes[..n - 1], sizes[n - 1];
      assert sizes == front + [last];
      CanonicalFront(sizes);
      CanonicalSum(front);
      hide IsCanonical, BatchSizes;
      LastSize(Sum(front), last);
    }
  }

  // Appending a size no larger than the last one.
  lemma LastSize(m: nat, last: nat)
    requires IsCanonical(BatchSizes(m) + [last])
    ensures BatchSizes(m) + [last] == BatchSizes(m + last)
  {
    var s := BatchSizes(m);
    assert (s + [last])[|s|] == last;
    assert |s| > 0 ==> (s + [last])[|s| - 1] == s[|s| - 1];
    assert Follows(s, last);
    DigitSum(m);
    hide Sizes, Follows, IsCanonical;
    Digits(m / 8, m / 4 % 2, m / 2 % 2, m % 2, last);
  }

  // last may follow the size before it.
  predicate Follows(s: seq<nat>, last: nat) {
    && (last == 1 || last == 2 || last == 4 || last == 8)
    && (|s| > 0 ==> s[|s| - 1] > last || s[|s| - 1] == last == 8)
  }

  lemma Digits(e: nat, a: nat, b: nat, c: nat, last: nat)
    requires a < 2 && b < 2 && c < 2 && Follows(Sizes(e, a == 1, b == 1, c == 1), last)
    ensures Sizes(e, a == 1, b == 1, c == 1) + [last] == BatchSizes(8 * e + 4 * a + 2 * b + c + last)
  {
    AppendSize(e, a == 1, b == 1, c == 1, last);
    NextSizes(e, a, b, c, last);
  }

  lemma NextSizes(e: nat, a: nat, b: nat, c: nat, last: nat)
    requires a < 2 && b < 2 && c == 0
    requires last == 1 || (last == 2 && b == 0) || (last == 4 && a == b == 0) || (last == 8 && a == b == 0)
    ensures BatchSizes(8 * e + 4 * a + 2 * b + c + last)
      == Sizes(if last == 8 then e + 1 else e, a == 1 || last == 4, b == 1 || last == 2, c == 1 || last == 1)
  {
    hide Sizes, BatchSizes;
    if last == 8 {
      SizesOf(e + 1, 0, 0, 0);
    } else if last == 4 {
      SizesOf(e, 1, 0, 0);
    } else if last == 2 {
      SizesOf(e, a, 1, 0);
    } else {
      SizesOf(e, a, b, 1);
    }
  }

  lemma LastOf(e: nat, four: bool, two: bool, one: bool)
    ensures var s := Sizes(e, four, two, one);
      && (one ==> |s| > 0 && s[|s| - 1] == 1)
      && (!one && two ==> |s| > 0 && s[|s| - 1] == 2)
      && (!one && !two && four ==> |s| > 0 && s[|s| - 1] == 4)
  {
  }

  lemma AppendSize(e: nat, four: bool, two: bool, one: bool, last: nat)
    requires Follows(Sizes(e, four, two, one), last)
    ensures Sizes(e, four, two, one) + [last]
      == Sizes(if last == 8 then e + 1 else e, four || last == 4, two || last == 2, one || last == 1)
    ensures !one && (last >= 2 ==> !two) && (last >= 4 ==> !four)
  {
    LastOf(e, four, two, one);
  }

  // The chunks of a batch with the given sizes.
  function Partition<T>(batch: seq<T>, sizes: seq<nat>): (chunks: seq<seq<T>>)
    requires Sum(sizes) <= |batch|
    ensures |chunks| == |sizes|
    decreases |sizes|
  {
    if sizes == [] then []
    else
      var n := |sizes| - 1;
      Partition(batch, sizes[..n]) + [batch[Sum(sizes[..n])..Sum(sizes)]]
  }

  function Flatten<T>(chunks: seq<seq<T>>): seq<T> {
    if chunks == [] then [] else Flatten(chunks[..|chunks| - 1]) + chunks[|chunks| - 1]
  }

  // The chunks are contiguous and leave no gap.
  lemma {:induction false} PartitionFlattens<T>(batch: seq<T>, sizes: seq<nat>)
    requires Sum(sizes) <= |batch|
    ensures Flatten(Partition(batch, sizes)) == batch[..Sum(sizes)]
    ensures forall i | 0 <= i < |sizes| :: |Partition(batch, sizes)[i]| == sizes[i]
    decreases |sizes|
  {
    if sizes != [] {
      var n := |sizes| - 1;
      PartitionFlattens(batch, sizes[..n]);
      var p := Partition(batch, sizes);
      assert p[..n] == Partition(batch, sizes[..n]);
    }
  }

  lemma {:induction false} SumAppend(s: seq<nat>, t: seq<nat>)
    ensures Sum(s + t) == Sum(s) + Sum(t)
  {
    if t == [] {
      assert s + t == s;
    } else {
      SumAppend(s, t[..|t| - 1]);
      assert (s + t)[..|s + t| - 1] == s + t[..|t| - 1];
    }
  }

  lemma {:induction false} SumEights(e: nat)
    ensures Sum(seq(e, i => MAX_BATCH_SIZE)) == 8 * e
  {
    if e > 0 {
      SumEights(e - 1);
      assert seq(e, i => MAX_BATCH_SIZE)[..e - 1] == seq(e - 1, i => MAX_BATCH_SIZE);
    }
  }

  lemma SumDigit(s: seq<nat>, d: nat, present: bool)
    ensures Sum(s + (if present then [d] else [])) == Sum(s) + if present then d else 0
  {
    SumAppend(s, [d]);
    assert [d][..0] == [] && s + [] == s;
  }

  lemma SumSizes(e: nat, four: bool, two: bool, one: bool)
    ensures Sum(Sizes(e, four, two, one))
      == 8 * e + (if four then 4 else 0) + (if two then 2 else 0) + if one then 1 else 0
  {
    hide Sum;
    SumEights(e);
    var s := seq(e, i => MAX_BATCH_SIZE);
    var a := s + if four then [4] else [];
    var b := a + if two then [2] else [];
    SumDigit(s, 4, four);
    SumDigit(a, 2, two);
    SumDigit(b, 1, one);
  }

  lemma DigitSum(n: nat)
    ensures n == 8 * (n / 8) + 4 * (n / 4 % 2) + 2 * (n / 2 % 2) + n % 2
  {
    var a := n / 2;
    var b := a / 2;
    Halves(n);
    Halves(a);
    Halves(b);
    assert n / 4 == b && n / 8 == b / 2;
  }

  lemma Halves(n: nat)
    ensures n == 2 * (n / 2) + n % 2
  {
  }

  // The whole batch is covered: the sizes add up to its length.
  lemma SizesCover(n: nat)
    ensures Sum(BatchSizes(n)) == n
  {
    hide Sum, Sizes;
    SumSizes(n / 8, n / 4 % 2 == 1, n / 2 % 2 == 1, n % 2 == 1);
    DigitSum(n);
  }

  // ---------- The proofs of a batch ----------

  function Values(chunk: seq<seq<Limb>>): seq<nat> {
    if chunk == [] then []
    else
      var last := chunk[|chunk| - 1];
      Values(chunk[..|chunk| - 1]) + seq(|last|, i requires 0 <= i < |last| => last[i].value)
  }

  function Blindings(chunk: seq<seq<Limb>>): seq<nat> {
    if chunk == [] then []
    else
      var last := chunk[|chunk| - 1];
      Blindings(chunk[..|chunk| - 1]) + seq(|last|, i requires 0 <= i < |last| => last[i].blinding)
  }

  // Limb j of amount i is element 4 * i + j.
  lemma {:induction false} FlatAt(chunk: seq<seq<Limb>>, i: nat, j: nat)
    requires forall k | 0 <= k < |chunk| :: IsAmount(chunk[k])
    requires i < |chunk| && j < 4
    ensures |chunk[i]| == 4 && |Values(chunk)| == |Blindings(chunk)| == 4 * |chunk|
    ensures Values(chunk)[4 * i + j] == chunk[i][j].value && Blindings(chunk)[4 * i + j] == chunk[i][j].blinding
    decreases |chunk|
  {
    var n := |chunk| - 1;
    if i < n {
      FlatAt(chunk[..n], i, j);
    } else if n > 0 {
      FlatAt(chunk[..n], 0, 0);
    }
    assert IsAmount(chunk[n]);
  }

  lemma {:induction false} FlatLengths(order: nat, chunk: seq<seq<Limb>>)
    requires forall i | 0 <= i < |chunk| :: IsAmount(chunk[i])
    requires forall i, j | 0 <= i < |chunk| && 0 <= j < |chunk[i]| :: chunk[i][j].blinding < order
    ensures |Values(chunk)| == |Blindings(chunk)| == 4 * |chunk|
    ensures forall k | 0 <= k < |Blindings(chunk)| :: Blindings(chunk)[k] < order
  {
    if chunk != [] {
      var front := chunk[..|chunk| - 1];
      assert forall i | 0 <= i < |front| :: front[i] == chunk[i];
      FlatLengths(order, front);
    }
  }

  lemma FourTimesPower(c: nat)
    requires c == 1 || c == 2 || c == 4 || c == 8
    ensures IsPowerOfTwo(4 * c)
  {
    assert IsPowerOfTwo(4);
    assert IsPowerOfTwo(8);
    assert IsPowerOfTwo(16);
  }

  // The chunk loops of buildWellFormedProof: one proof a chunk, over the canonical partition, and
  // the prover's precondition holds at every call.
  method BuildWellFormedProof(order: nat, prover: (seq<nat>, seq<nat>) -> seq<nat>, batch: seq<seq<Limb>>)
    returns (proofs: seq<seq<nat>>)
    requires forall i | 0 <= i < |batch| :: IsAmount(batch[i])
    requires forall i, j | 0 <= i < |batch| && 0 <= j < |batch[i]| :: batch[i][j].blinding < order
    ensures IsCanonical(BatchSizes(|batch|)) && Sum(BatchSizes(|batch|)) == |batch|
    ensures |proofs| == |BatchSizes(|batch|)|
    ensures forall k | 0 <= k < |proofs| ::
      var chunk := Partition(batch, BatchSizes(|batch|))[k];
      proofs[k] == prover(Values(chunk), Blindings(chunk))
  {
    hide BatchSizes, IsPowerOfTwo, Values, Blindings, Partition, Sum;
    proofs := [];
    var offset, remaining, chunkSize := 0, |batch|, MAX_BATCH_SIZE;
    ghost var sizes: seq<nat> := [];
    SumEmpty();
    while remaining > 0
      invariant remaining >= 0 && offset + remaining == |batch|
      invariant chunkSize in {0, 1, 2, 4, 8} && (chunkSize == 8 || remaining < 2 * chunkSize || remaining == 0)
      invariant IsCanonical(sizes) && Sum(sizes) == offset
      invariant forall i | 0 <= i < |sizes| :: sizes[i] >= 2 * chunkSize
      invariant |proofs| == |sizes|
      invariant forall k | 0 <= k < |proofs| :: proofs[k] == ProofOf(prover, Partition(batch, sizes)[k])
      decreases chunkSize
    {
      while remaining >= chunkSize
        invariant remaining >= 0 && offset + remaining == |batch|
        invariant chunkSize == 8 || remaining < 2 * chunkSize
        invariant IsCanonical(sizes) && Sum(sizes) == offset
        invariant forall i | 0 <= i < |sizes| :: sizes[i] >= chunkSize
        invariant chunkSize == 8 || remaining < chunkSize || forall i | 0 <= i < |sizes| :: sizes[i] >= 2 * chunkSize
        invariant |proofs| == |sizes|
        invariant forall k | 0 <= k < |proofs| :: proofs[k] == ProofOf(prover, Partition(batch, sizes)[k])
      {
        var chunk := batch[offset..offset + chunkSize];
        FlatLengths(order, chunk);
        FourTimesPower(chunkSize);
        var proof := BatchRangeProver(order, prover, Values(chunk), Blindings(chunk));
        assert proof.Ok?;
        PartitionAppend(batch, sizes, chunkSize);
        proofs := proofs + [proof.value];
        sizes := sizes + [chunkSize];
        offset := offset + chunkSize;
        remaining := remaining - chunkSize;
      }
      chunkSize := chunkSize / 2;
    }
    CanonicalSum(sizes);
  }

  function ProofOf(prover: (seq<nat>, seq<nat>) -> seq<nat>, chunk: seq<seq<Limb>>): seq<nat> {
    prover(Values(chunk), Blindings(chunk))
  }

  lemma SumEmpty()
    ensures Sum([]) == 0
  {
  }

  lemma SumSnoc(sizes: seq<nat>, c: nat)
    ensures Sum(sizes + [c]) == Sum(sizes) + c
  {
    var t := sizes + [c];
    assert t != [] && t[..|t| - 1] == sizes && t[|t| - 1] == c;
  }

  lemma PartitionAppend<T>(batch: seq<T>, sizes: seq<nat>, c: nat)
    requires Sum(sizes) + c <= |batch|
    ensures Sum(sizes + [c]) == Sum(sizes) + c
    ensures Partition(batch, sizes + [c]) == Partition(batch, sizes) + [batch[Sum(sizes)..Sum(sizes) + c]]
  {
    var t, n := sizes + [c], |sizes|;
    SumSnoc(sizes, c);
    hide Sum;
    assert t[..n] == sizes && t != [] && |t| - 1 == n;
    assert Partition(batch, t) == Partition(batch, t[..n]) + [batch[Sum(t[..n])..Sum(t)]];
  }
}
