/**
 * BloomFilter: a fixed-size bit array with double hashing. Items are strings, hashed with
 * `String.hashCode`; all index arithmetic is Java `int` arithmetic, written out with wrap-around.
 */
module Bloom {
  import opened Wrappers
  import opened JavaInt
  import opened JavaString

  /** Most hash functions a filter may use. */
  const MAX_HASH_FUNCTIONS: int := 100
  /** Largest bit-array size `calculateOptimalSize` returns. */
  const MAX_SIZE: int := INT_MAX - 8
  /** The constant xored into the first hash to obtain the second. */
  const HASH_SEED: Int32 := 0x5bd1e995

  // ---------------------------------------------------------------- hashing

  /** `h2` bumped by one when even, so that it is always odd. */
  function ForceOdd(h2: Int32): (r: Int32)
    ensures r % 2 == 1
    ensures r == h2 || r == h2 + 1
  {
    if JavaRem(h2, 2) == 0 then Wrap32(h2 + 1) else h2
  }

  /** The second hash: `h1 ^ HASH_SEED`, made odd. */
  function SecondHash(h1: Int32): (h2: Int32)
    ensures h2 % 2 == 1
  {
    ForceOdd(Xor32(h1, HASH_SEED))
  }

  /** The `i`-th index of double hashing: `Math.abs((h1 + i * h2) % size)` in `int` arithmetic. */
  function IndexAt(h1: Int32, h2: Int32, i: int, size: int): (r: int)
    requires 1 <= size <= INT_MAX
    ensures 0 <= r < size
  {
    var combined := Wrap32(h1 + Wrap32(i * h2));
    Abs32(JavaRem(combined, size))
  }

  /** The `k` bit indices of `item` in a filter of `size` bits. */
  function Hashes(item: string, k: nat, size: int): (r: seq<int>)
    requires 1 <= size <= INT_MAX
    ensures |r| == k
    ensures forall j :: 0 <= j < k ==> 0 <= r[j] < size
  {
    var h1 := HashCode(item);
    var h2 := SecondHash(h1);
    seq(k, i requires 0 <= i < k => IndexAt(h1, h2, i, size))
  }

  /** The indices of `Hashes` are those of double hashing with the item's hash and its second hash. */
  lemma HashesAt(item: string, k: nat, size: int)
    requires 1 <= size <= INT_MAX
    ensures forall j :: 0 <= j < k ==> Hashes(item, k, size)[j] == IndexAt(HashCode(item), SecondHash(HashCode(item)), j, size)
  {
  }

  /** `EnhancedHashStrategy.hashes`: fills a fresh array with the indices, one per hash function. */
  method ComputeHashes(item: string, numHashes: nat, size: int) returns (hashes: array<int>)
    requires 1 <= size <= INT_MAX
    ensures fresh(hashes)
    ensures hashes[..] == Hashes(item, numHashes, size)
  {
    hashes := new int[numHashes];
    var h1 := HashCode(item);
    var h2 := SecondHash(h1);
    for i := 0 to numHashes
      invariant forall j :: 0 <= j < i ==> hashes[j] == IndexAt(h1, h2, j, size)
    {
      hashes[i] := IndexAt(h1, h2, i, size);
    }
    HashesAt(item, numHashes, size);
  }

  // ---------------------------------------------------------------- bits

  /** Every index of `idx` lies inside `b` and is set there. */
  predicate AllSet(b: seq<bool>, idx: seq<int>) {
    forall j :: 0 <= j < |idx| ==> 0 <= idx[j] < |b| && b[idx[j]]
  }

  /** `b` after setting the bits at `idx`, one after another. */
  function SetBits(b: seq<bool>, idx: seq<int>): (r: seq<bool>)
    requires forall j :: 0 <= j < |idx| ==> 0 <= idx[j] < |b|
    ensures |r| == |b|
    ensures forall p :: 0 <= p < |b| ==> r[p] == (b[p] || p in idx)
    decreases |idx|
  {
    if idx == [] then b
    else
      var last := idx[|idx| - 1];
      assert idx == idx[..|idx| - 1] + [last];
      SetBits(b, idx[..|idx| - 1])[last := true]
  }

  /** Setting one more bit extends `SetBits` by one update. */
  lemma SetBitsSnoc(b: seq<bool>, idx: seq<int>, x: int)
    requires forall j :: 0 <= j < |idx| ==> 0 <= idx[j] < |b|
    requires 0 <= x < |b|
    ensures SetBits(b, idx + [x]) == SetBits(b, idx)[x := true]
  {
    assert (idx + [x])[..|idx|] == idx;
  }

  /** After `SetBits` every bit of `idx` is set. */
  lemma SetBitsSets(b: seq<bool>, idx: seq<int>)
    requires forall j :: 0 <= j < |idx| ==> 0 <= idx[j] < |b|
    ensures AllSet(SetBits(b, idx), idx)
  {
    var r := SetBits(b, idx);
    forall j | 0 <= j < |idx| ensures r[idx[j]] {
      assert idx[j] in idx;
    }
  }

  /** `SetBits` only sets bits: whatever was all set stays all set. */
  lemma SetBitsKeeps(b: seq<bool>, idx: seq<int>, other: seq<int>)
    requires forall j :: 0 <= j < |idx| ==> 0 <= idx[j] < |b|
    requires AllSet(b, other)
    ensures AllSet(SetBits(b, idx), other)
  {
  }

  /** The loop `for (int hash : hashes) bitSet.set(hash)`. */
  method SetBitsInPlace(bits: array<bool>, hashes: array<int>)
    requires forall q :: 0 <= q < hashes.Length ==> 0 <= hashes[q] < bits.Length
    modifies bits
    ensures bits[..] == SetBits(old(bits[..]), hashes[..])
  {
    ghost var before := bits[..];
    ghost var h := hashes[..];
    for j := 0 to hashes.Length
      invariant bits[..] == SetBits(before, h[..j])
    {
      SetBitsSnoc(before, h[..j], h[j]);
      assert h[..j + 1] == h[..j] + [h[j]];
      bits[hashes[j]] := true;
    }
    assert h[..hashes.Length] == h;
  }

  /** The bits after adding `items`, in order, to a filter with bits `b`. */
  function AddItemsBits(b: seq<bool>, items: seq<string>, k: nat, size: int): (r: seq<bool>)
    requires 1 <= size <= INT_MAX && |b| == size
    ensures |r| == |b|
    decreases |items|
  {
    if items == [] then b
    else SetBits(AddItemsBits(b, items[..|items| - 1], k, size), Hashes(items[|items| - 1], k, size))
  }

  /** The index function of a filter of `size` bits with `k` hash functions. */
  function HashFn(k: nat, size: int): string -> seq<int>
    requires 1 <= size <= INT_MAX
  {
    x => Hashes(x, k, size)
  }

  /** Bit `p` is one that some item of `names` hashes to under `h`. */
  ghost predicate HashedBy(names: set<string>, h: string -> seq<int>, p: int) {
    exists x :: x in names && p in h(x)
  }

  /** The set bits of `bits` are exactly those the items of `names` hash to under `h`. */
  ghost predicate BitsOf(bits: seq<bool>, names: set<string>, h: string -> seq<int>) {
    forall p :: 0 <= p < |bits| ==> (bits[p] <==> HashedBy(names, h, p))
  }

  /** Clear bits are the bits of no item. */
  lemma ClearedBitsOfNothing(bits: seq<bool>, h: string -> seq<int>)
    requires forall p :: 0 <= p < |bits| ==> !bits[p]
    ensures BitsOf(bits, {}, h)
  {
  }

  /** Setting the bits of `x` turns the bits of `names` into the bits of `names + {x}`. */
  lemma BitsOfAdd(bits: seq<bool>, names: set<string>, x: string, h: string -> seq<int>)
    requires BitsOf(bits, names, h)
    requires forall j :: 0 <= j < |h(x)| ==> 0 <= h(x)[j] < |bits|
    ensures BitsOf(SetBits(bits, h(x)), names + {x}, h)
  {
    forall p | 0 <= p < |bits| ensures SetBits(bits, h(x))[p] <==> HashedBy(names + {x}, h, p) {
      HashedByAdd(names, x, h, p);
    }
  }

  /** A bit is hashed to by `names + {x}` exactly when it is by `names` or by `x`. */
  lemma HashedByAdd(names: set<string>, x: string, h: string -> seq<int>, p: int)
    ensures HashedBy(names + {x}, h, p) <==> HashedBy(names, h, p) || p in h(x)
  {
    if p in h(x) {
      assert x in names + {x};
    } else if HashedBy(names + {x}, h, p) {
      var y :| y in names + {x} && p in h(y);
      assert y in names;
    }
  }

  /**
   * Adding `items` in order sets exactly the bits they hash to besides those already set: the bit image of
   * the filter is the bits of the items it was given, whatever their order.
   */
  lemma {:induction false} AddItemsBitsOf(b: seq<bool>, names: set<string>, items: seq<string>, k: nat, size: int)
    requires 1 <= size <= INT_MAX && |b| == size && BitsOf(b, names, HashFn(k, size))
    ensures BitsOf(AddItemsBits(b, items, k, size), names + (set x | x in items), HashFn(k, size))
    decreases |items|
  {
    if items == [] {
      assert names + (set x | x in items) == names;
    } else {
      var init, last := items[..|items| - 1], items[|items| - 1];
      var before := AddItemsBits(b, init, k, size);
      var h := HashFn(k, size);
      assert h(last) == Hashes(last, k, size);
      assert AddItemsBits(b, items, k, size) == SetBits(before, h(last));
      AddItemsBitsOf(b, names, init, k, size);
      BitsOfAdd(before, names + (set x | x in init), last, h);
      ElementsSnoc(items, init, last);
    }
  }

  /**
   * The exact false-positive condition: over the bits of `names`, an item is accepted exactly when each
   * of its bits is one that some item of `names` hashes to.
   */
  lemma AcceptsIffCovered(bits: seq<bool>, names: set<string>, x: string, k: nat, size: int)
    requires 1 <= size <= INT_MAX && |bits| == size && BitsOf(bits, names, HashFn(k, size))
    ensures AllSet(bits, Hashes(x, k, size)) <==>
      forall j :: 0 <= j < k ==> HashedBy(names, HashFn(k, size), Hashes(x, k, size)[j])
  {
    var hx := Hashes(x, k, size);
    assert forall j :: 0 <= j < k ==> 0 <= hx[j] < |bits|;
  }

  /** The elements of a non-empty sequence are those of all but its last, and its last. */
  lemma ElementsSnoc(items: seq<string>, init: seq<string>, last: string)
    requires items != [] && init == items[..|items| - 1] && last == items[|items| - 1]
    ensures (set x | x in items) == (set x | x in init) + {last}
  {
    assert items == init + [last];
  }

  /**
   * No false negatives: an item that was added, or that the filter already accepted, is accepted
   * after any further sequence of additions.
   */
  lemma {:induction false} NoFalseNegatives(b: seq<bool>, items: seq<string>, k: nat, size: int, x: string)
    requires 1 <= size <= INT_MAX && |b| == size
    requires x in items || AllSet(b, Hashes(x, k, size))
    ensures AllSet(AddItemsBits(b, items, k, size), Hashes(x, k, size))
    decreases |items|
  {
    var h := Hashes(x, k, size);
    if items != [] {
      var init, last := items[..|items| - 1], items[|items| - 1];
      var before := AddItemsBits(b, init, k, size);
      var after := SetBits(before, Hashes(last, k, size));
      if x == last {
        forall j | 0 <= j < |h| ensures after[h[j]] {
          assert h[j] in Hashes(last, k, size);
        }
      } else {
        assert x in init || AllSet(b, h);
        NoFalseNegatives(b, init, k, size, x);
      }
    }
  }

  /** With at least one hash function, a filter whose bits are all clear accepts nothing. */
  lemma ClearedAcceptsNothing(b: seq<bool>, k: nat, size: int, x: string)
    requires 1 <= size <= INT_MAX && |b| == size && k >= 1
    requires forall p :: 0 <= p < |b| ==> !b[p]
    ensures !AllSet(b, Hashes(x, k, size))
  {
    var h := Hashes(x, k, size);
    assert !b[h[0]];
  }

  // ---------------------------------------------------------------- construction parameters

  /**
   * A Java `double` as the probability checks see it: a real number, or NaN, for which every comparison
   * is false. The infinities lie outside (0, 1) like any real beyond those bounds, so they need no case.
   */
  datatype Double = Num(value: real) | NaN

  /** The probabilities `fpp <= 0.0 || fpp >= 1.0` lets through: those strictly between 0 and 1, and NaN. */
  predicate ProbabilityAccepted(fpp: Double) {
    fpp.NaN? || 0.0 < fpp.value < 1.0
  }

  /** `validateParameters(size, fpp)`: the size must be positive and the probability must not compare as outside (0, 1). */
  function ValidateParameters(size: Int32, fpp: Double): (o: Outcome)
    ensures o.Pass? <==> size > 0 && ProbabilityAccepted(fpp)
    ensures o.Fail? ==> o.error == IllegalArgumentException
  {
    if size <= 0 then Fail(IllegalArgumentException)
    else if fpp.Num? && (fpp.value <= 0.0 || fpp.value >= 1.0) then Fail(IllegalArgumentException)
    else Pass
  }

  /** NaN compares false with both bounds, so it passes validation in place of a probability. */
  lemma NaNProbabilityPasses()
    ensures ValidateParameters(1, NaN) == Pass
    ensures ValidateParameters(1, Num(0.0)) == Fail(IllegalArgumentException)
  {
  }

  /** The size clamp of `calculateOptimalSize`: `(int) Math.max(1, Math.min(optimalSize, Integer.MAX_VALUE - 8))`. */
  function ClampSize(optimalSize: Int64): (r: Int32)
    ensures 1 <= r <= MAX_SIZE
    ensures 1 <= optimalSize <= MAX_SIZE ==> r == optimalSize
    ensures optimalSize < 1 ==> r == 1
    ensures optimalSize > MAX_SIZE ==> r == MAX_SIZE
  {
    var m := if optimalSize < MAX_SIZE then optimalSize else MAX_SIZE;
    if m < 1 then 1 else m
  }

  /**
   * The expected-insertions guard as written: `(int) Math.min(expectedInsertions, Integer.MAX_VALUE)` is
   * validated. It rejects only with IllegalArgumentException, and on every count that fits in an `int` it
   * rejects exactly the counts that are not positive.
   */
  function InsertionsGuardAsWritten(expectedInsertions: Int64, fpp: Double): (o: Outcome)
    ensures o.Fail? ==> o.error == IllegalArgumentException
    ensures expectedInsertions >= INT_MIN ==> (o.Pass? <==> expectedInsertions > 0 && ProbabilityAccepted(fpp))
  {
    ValidateParameters(Wrap32(if expectedInsertions < INT_MAX then expectedInsertions else INT_MAX), fpp)
  }

  /** The expected-insertions guard as intended: the `long` itself must be positive. */
  function InsertionsGuard(expectedInsertions: Int64, fpp: Double): (o: Outcome)
    ensures o.Pass? <==> expectedInsertions > 0 && ProbabilityAccepted(fpp)
    ensures o.Fail? ==> o.error == IllegalArgumentException
  {
    ValidateParameters(if expectedInsertions <= 0 then 0 else 1, fpp)
  }

  /**
   * The rest of the constructor once the insertions guard has run: clamp the size, validate it again,
   * take at least one hash function, and reject more than `MAX_HASH_FUNCTIONS` (`validateConfiguration`).
   * `optimalSize` and `optimalK` are the results of the floating-point size and hash-count formulas.
   * A failed guard is passed on; after a passing guard the construction fails only for too many hash
   * functions, and a success has a size in `[1, MAX_SIZE]` and between 1 and `MAX_HASH_FUNCTIONS` hash functions.
   */
  function FinishConfiguration(guard: Outcome, fpp: Double, optimalSize: Int64, optimalK: Int32): (r: Result<(Int32, Int32)>)
    ensures guard.Fail? ==> r == Failure(guard.error)
    ensures guard.Pass? && ProbabilityAccepted(fpp) ==>
      (r.Success? <==> optimalK <= MAX_HASH_FUNCTIONS) && (r.Failure? ==> r.error == IllegalStateException)
    ensures guard.Pass? && !ProbabilityAccepted(fpp) ==> r == Failure(IllegalArgumentException)
    ensures r.Success? ==> 1 <= r.value.0 <= MAX_SIZE && 1 <= r.value.1 <= MAX_HASH_FUNCTIONS
    ensures r.Success? ==> r.value.0 == ClampSize(optimalSize) && r.value.1 == (if optimalK < 1 then 1 else optimalK)
  {
    if guard.Fail? then Failure(guard.error)
    else
      var size := ClampSize(optimalSize);
      var check := ValidateParameters(size, fpp);
      if check.Fail? then Failure(check.error)
      else
        var k := if optimalK < 1 then 1 else optimalK;
        var tooFew: Result<(Int32, Int32)> := Failure(IllegalStateException);
        if k <= 0 then tooFew
        else if k > MAX_HASH_FUNCTIONS then Failure(IllegalStateException)
        else Success((size, k))
  }

  /**
   * Construction as written: it succeeds exactly when the guard as written passes and there are at most
   * `MAX_HASH_FUNCTIONS` hash functions, and then yields the clamped size and at least one hash function.
   */
  function ConfigureAsWritten(expectedInsertions: Int64, fpp: Double, optimalSize: Int64, optimalK: Int32): (r: Result<(Int32, Int32)>)
    ensures r.Success? <==> InsertionsGuardAsWritten(expectedInsertions, fpp).Pass? && optimalK <= MAX_HASH_FUNCTIONS
    ensures r.Failure? ==>
      r.error == if InsertionsGuardAsWritten(expectedInsertions, fpp).Fail? then IllegalArgumentException else IllegalStateException
    ensures r.Success? ==> 1 <= r.value.0 <= MAX_SIZE && 1 <= r.value.1 <= MAX_HASH_FUNCTIONS
    ensures r.Success? ==> r.value.0 == ClampSize(optimalSize) && r.value.1 == (if optimalK < 1 then 1 else optimalK)
  {
    var guard := InsertionsGuardAsWritten(expectedInsertions, fpp);
    assert guard.Pass? ==> ProbabilityAccepted(fpp);
    FinishConfiguration(guard, fpp, optimalSize, optimalK)
  }

  /**
   * Construction with the intended guard: it succeeds exactly for a positive insertion count, an accepted
   * probability and at most `MAX_HASH_FUNCTIONS` hash functions, and then yields a size in
   * `[1, MAX_SIZE]` and between 1 and `MAX_HASH_FUNCTIONS` hash functions.
   */
  function Configure(expectedInsertions: Int64, fpp: Double, optimalSize: Int64, optimalK: Int32): (r: Result<(Int32, Int32)>)
    ensures r.Success? <==> expectedInsertions > 0 && ProbabilityAccepted(fpp) && optimalK <= MAX_HASH_FUNCTIONS
    ensures r.Failure? ==>
      r.error == if expectedInsertions <= 0 || !ProbabilityAccepted(fpp) then IllegalArgumentException else IllegalStateException
    ensures r.Success? ==> 1 <= r.value.0 <= MAX_SIZE && 1 <= r.value.1 <= MAX_HASH_FUNCTIONS
    ensures r.Success? ==> r.value.0 == ClampSize(optimalSize) && r.value.1 == (if optimalK < 1 then 1 else optimalK)
  {
    FinishConfiguration(InsertionsGuard(expectedInsertions, fpp), fpp, optimalSize, optimalK)
  }

  /** On every insertion count that fits in an `int` the guard as written is the intended one. */
  lemma GuardAgreesInIntRange(expectedInsertions: Int64, fpp: Double, optimalSize: Int64, optimalK: Int32)
    requires expectedInsertions >= INT_MIN
    ensures ConfigureAsWritten(expectedInsertions, fpp, optimalSize, optimalK) == Configure(expectedInsertions, fpp, optimalSize, optimalK)
  {
  }

  /** Below `Integer.MIN_VALUE` the cast wraps: -4294967295 becomes 1 and a negative insertion count is accepted. */
  lemma GuardAcceptsWrappedNegative()
    ensures ConfigureAsWritten(-4294967295, Num(0.5), 1, 1) == Success((1, 1))
    ensures Configure(-4294967295, Num(0.5), 1, 1) == Failure(IllegalArgumentException)
  {
    assert Wrap32(-4294967295) == 1;
  }

  /** `BloomFilterConfig.getByteSize`: `(bitSize + 7) / 8` in `int` arithmetic, i.e. bits rounded up to whole bytes. */
  function ByteSize(bitSize: Int32): (r: int)
    ensures 0 <= bitSize <= INT_MAX - 7 ==> bitSize <= 8 * r < bitSize + 8
    ensures INT_MAX - 7 < bitSize ==> r < 0
  {
    JavaDiv(Wrap32(bitSize + 7), 8)
  }

  // ---------------------------------------------------------------- the filter

  /** The items of `items`, all of which are present. */
  function Present(items: seq<Option<string>>): (r: seq<string>)
    requires forall i :: 0 <= i < |items| ==> items[i].Some?
    ensures |r| == |items| && forall i :: 0 <= i < |items| ==> r[i] == items[i].value
    decreases |items|
  {
    if items == [] then [] else Present(items[..|items| - 1]) + [items[|items| - 1].value]
  }

  /** The number of leading items that are not null. */
  function NonNullPrefix(items: seq<Option<string>>): (p: nat)
    ensures p <= |items|
    ensures forall i :: 0 <= i < p ==> items[i].Some?
    ensures p < |items| ==> items[p].None?
    decreases |items|
  {
    if items == [] || items[0].None? then 0 else 1 + NonNullPrefix(items[1..])
  }

  /** Adding one more non-null item extends the bit image by that item's bits. */
  lemma AddItemsStep(b: seq<bool>, items: seq<Option<string>>, i: nat, k: nat, size: int)
    requires 1 <= size <= INT_MAX && |b| == size
    requires i < |items| && forall j :: 0 <= j <= i ==> items[j].Some?
    ensures AddItemsBits(b, Present(items[..i + 1]), k, size)
      == SetBits(AddItemsBits(b, Present(items[..i]), k, size), Hashes(items[i].value, k, size))
  {
    var next := Present(items[..i + 1]);
    assert items[..i + 1][..i] == items[..i];
    assert next[..|next| - 1] == Present(items[..i]);
  }

  /** The values of the first `i + 1` items are those of the first `i` and the `i`-th. */
  lemma ValuesStep(items: seq<Option<string>>, i: nat)
    requires i < |items| && forall j :: 0 <= j <= i ==> items[j].Some?
    ensures (set q | 0 <= q < i + 1 :: items[q].value) == (set q | 0 <= q < i :: items[q].value) + {items[i].value}
  {
  }

  class BloomFilter {
    const size: Int32
    const hashFunctions: Int32
    const bits: array<bool>
    /** The counter `getApproximateElementCount` returns. */
    var elementCount: int
    /** The items added since construction or the last `clear`. */
    ghost var Added: set<string>

    ghost predicate Valid()
      reads this, bits
    {
      && bits.Length == size
      && 1 <= size <= MAX_SIZE
      && 1 <= hashFunctions <= MAX_HASH_FUNCTIONS
      && forall x :: x in Added ==> AllSet(bits[..], Hashes(x, hashFunctions, size))
    }

    /** The filter answers "might contain" for `x`: every bit `x` hashes to is set. */
    ghost predicate Accepts(x: string)
      reads this, bits
    {
      1 <= size <= INT_MAX && hashFunctions >= 0 && AllSet(bits[..], Hashes(x, hashFunctions, size))
    }

    /** An empty filter with the given parameters, which construction has already validated. */
    constructor (size: Int32, hashFunctions: Int32)
      requires 1 <= size <= MAX_SIZE && 1 <= hashFunctions <= MAX_HASH_FUNCTIONS
      ensures Valid() && fresh(bits)
      ensures this.size == size && this.hashFunctions == hashFunctions
      ensures elementCount == 0 && Added == {}
      ensures forall p :: 0 <= p < bits.Length ==> !bits[p]
    {
      this.size := size;
      this.hashFunctions := hashFunctions;
      bits := new bool[size](_ => false);
      elementCount := 0;
      Added := {};
    }

    /**
     * `new BloomFilter(expectedInsertions, fpp)`, given the results `optimalSize` and `optimalK` of the
     * floating-point formulas; fails exactly as `ConfigureAsWritten` does, and so, for every count that
     * fits in an `int`, as the intended `Configure` does (`GuardAgreesInIntRange`).
     */
    static method Create(expectedInsertions: Int64, fpp: Double, optimalSize: Int64, optimalK: Int32) returns (r: Result<BloomFilter>)
      ensures ConfigureAsWritten(expectedInsertions, fpp, optimalSize, optimalK).Failure? ==>
        r == Failure(ConfigureAsWritten(expectedInsertions, fpp, optimalSize, optimalK).error)
      ensures ConfigureAsWritten(expectedInsertions, fpp, optimalSize, optimalK).Success? ==>
        && r.Success? && fresh(r.value) && fresh(r.value.bits) && r.value.Valid()
        && (r.value.size, r.value.hashFunctions) == ConfigureAsWritten(expectedInsertions, fpp, optimalSize, optimalK).value
        && r.value.elementCount == 0 && r.value.Added == {}
        && forall p :: 0 <= p < r.value.bits.Length ==> !r.value.bits[p]
    {
      var config := ConfigureAsWritten(expectedInsertions, fpp, optimalSize, optimalK);
      if config.Failure? {
        return Failure(config.error);
      }
      var filter := new BloomFilter(config.value.0, config.value.1);
      return Success(filter);
    }

    /** `add`: null is rejected; otherwise every bit of the item is set and the counter rises by one. */
    method Add(item: Option<string>) returns (o: Outcome)
      requires Valid()
      modifies this, bits
      ensures Valid()
      ensures item.None? ==>
        o == Fail(IllegalArgumentException) && bits[..] == old(bits[..])
        && elementCount == old(elementCount) && Added == old(Added)
      ensures item.Some? ==>
        && o == Pass
        && bits[..] == SetBits(old(bits[..]), Hashes(item.value, hashFunctions, size))
        && elementCount == old(elementCount) + 1
        && Added == old(Added) + {item.value}
      ensures item.Some? ==> Accepts(item.value)
      ensures forall x :: old(Accepts(x)) ==> Accepts(x)
    {
      if item.None? {
        return Fail(IllegalArgumentException);
      }
      var hashes := ComputeHashes(item.value, hashFunctions, size);
      ghost var before := bits[..];
      ghost var h := hashes[..];
      SetBitsInPlace(bits, hashes);
      elementCount := elementCount + 1;
      Added := Added + {item.value};
      SetBitsSets(before, h);
      forall x | old(Accepts(x)) || x in old(Added)
        ensures AllSet(bits[..], Hashes(x, hashFunctions, size))
      {
        SetBitsKeeps(before, h, Hashes(x, hashFunctions, size));
      }
      return Pass;
    }

    /** `addAll`: adds the items in order and stops at the first null, having added the ones before it. */
    method AddAll(items: seq<Option<string>>) returns (o: Outcome)
      requires Valid()
      modifies this, bits
      ensures Valid()
      ensures var p := NonNullPrefix(items);
        && o == (if p < |items| then Fail(IllegalArgumentException) else Pass)
        && bits[..] == AddItemsBits(old(bits[..]), Present(items[..p]), hashFunctions, size)
        && elementCount == old(elementCount) + p
        && Added == old(Added) + set i | 0 <= i < p :: items[i].value
    {
      var p := NonNullPrefix(items);
      ghost var before := bits[..];
      assert 1 <= size <= INT_MAX && |before| == size;
      for i := 0 to |items|
        invariant i <= p
        invariant Valid()
        invariant bits[..] == AddItemsBits(before, Present(items[..i]), hashFunctions, size)
        invariant elementCount == old(elementCount) + i
        invariant Added == old(Added) + set q | 0 <= q < i :: items[q].value
      {
        o := Add(items[i]);
        if o.Fail? {
          assert i == p;
          return o;
        }
        assert i < p;
        AddItemsStep(before, items, i, hashFunctions, size);
        ValuesStep(items, i);
      }
      assert items[..|items|] == items;
      o := Pass;
    }

    /** `mightContain`: false for null; otherwise true exactly when every bit of the item is set. */
    method MightContain(item: Option<string>) returns (r: bool)
      requires Valid()
      ensures item.None? ==> !r
      ensures item.Some? ==> r == Accepts(item.value)
      ensures item.Some? && item.value in Added ==> r
      ensures (forall p :: 0 <= p < bits.Length ==> !bits[p]) ==> !r
    {
      if item.None? {
        return false;
      }
      var hashes := ComputeHashes(item.value, hashFunctions, size);
      for j := 0 to hashes.Length
        invariant forall q :: 0 <= q < j ==> bits[hashes[q]]
      {
        if !bits[hashes[j]] {
          return false;
        }
      }
      if forall p :: 0 <= p < bits.Length ==> !bits[p] {
        ClearedAcceptsNothing(bits[..], hashFunctions, size, item.value);
      }
      return true;
    }

    /** `clear`: every bit and the counter are reset; afterwards nothing is accepted. */
    method Clear()
      requires Valid()
      modifies this, bits
      ensures Valid()
      ensures forall p :: 0 <= p < bits.Length ==> !bits[p]
      ensures elementCount == 0 && Added == {}
      ensures forall x :: !Accepts(x)
    {
      for p := 0 to bits.Length
        invariant forall q :: 0 <= q < p ==> !bits[q]
      {
        bits[p] := false;
      }
      elementCount := 0;
      Added := {};
      forall x ensures !Accepts(x) {
        ClearedAcceptsNothing(bits[..], hashFunctions, size, x);
      }
    }

    /** `getApproximateElementCount`. */
    function ApproximateElementCount(): int
      reads this
    {
      elementCount
    }
  }
}
