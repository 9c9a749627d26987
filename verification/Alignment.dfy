/** Finding an aligned place in a block, with masks on machine words. */
module Alignment {
  import opened Machine
  import opened Bits

  /** One more than the largest unsigned number of `word` bytes. */
  function Limit(word: nat): nat {
    Pow2(8 * word)
  }

  predicate IsAlignment(word: nat, align: nat) {
    exists k: nat :: k < 8 * word && align == Pow2(k)
  }

  /** How much `allocate` asks for: room to align, and for the hidden distance. */
  function Total(word: nat, size: nat, align: nat): int {
    size + align - 1 + word
  }

  /** What the source demands of a request: a power of two as alignment, and no
      wrap-around in the size passed on. */
  predicate IsRequest(word: nat, size: nat, align: nat) {
    IsAlignment(word, align) && Total(word, size, align) < Limit(word)
  }

  /** The place `allocate` returns in the block that starts at `base`. */
  function Place(base: nat, align: nat): nat
    requires 0 < align
  {
    (base + align - 1) / align * align
  }

  lemma PlaceIsAligned(base: nat, align: nat)
    requires 0 < align
    ensures base <= Place(base, align) < base + align && Place(base, align) % align == 0
  {
    var x, p := base + align - 1, Place(base, align);
    assert p == x - x % align;
    assert p == x / align * align + 0 == p / align * align + p % align;
    QuotientIsUnique(align, x / align, p / align, 0, p % align);
  }

  lemma {:induction false} MultiplesAreApart(m: nat, j: nat, k: nat)
    requires j < k
    ensures j * m + m <= k * m
  {
    if j + 1 < k {
      MultiplesAreApart(m, j, k - 1);
    }
  }

  /** It is the least aligned place that is not before the block. */
  lemma PlaceIsLeast(base: nat, align: nat, q: nat)
    requires 0 < align && base <= q && q % align == 0
    ensures Place(base, align) <= q
  {
    PlaceIsAligned(base, align);
    var c := (base + align - 1) / align;
    assert q == q / align * align;
    if q / align < c {
      MultiplesAreApart(align, q / align, c);
    }
  }

  /** `std::align`: the least aligned place not before `at`, computed with a mask
      on machine words, or nothing when `size` bytes do not fit behind it. */
  function Align(word: nat, align: nat, size: nat, at: nat, space: nat): Option<nat>
    requires 0 < align <= Limit(word)
  {
    var aligned := And((at - 1 + align) % Limit(word), Limit(word) - align);
    var padding := (aligned - at) % Limit(word);
    if (size + padding) % Limit(word) > space then None else Some(aligned)
  }

  lemma MaskFindsPlace(word: nat, align: nat, at: nat)
    requires IsAlignment(word, align) && 0 < at && at + align - 1 < Limit(word)
    ensures align <= Limit(word)
    ensures And((at - 1 + align) % Limit(word), Limit(word) - align) == Place(at, align)
  {
    var k: nat :| k < 8 * word && align == Pow2(k);
    var x := at + align - 1;
    assert at - 1 + align == x;
    MaskClearsLowBits(x, 8 * word, k);
    SmallRemainder(x, Limit(word));
    RoundDown(x, align);
  }

  lemma RoundDown(x: nat, m: nat)
    requires 0 < m
    ensures x - x % m == x / m * m
  {
  }

  lemma AlignAt(word: nat, align: nat, size: nat, at: nat, space: nat, p: nat)
    requires 0 < align <= Limit(word) && at <= p < at + align && size + align - 1 < Limit(word)
    requires And((at - 1 + align) % Limit(word), Limit(word) - align) == p
    ensures Align(word, align, size, at, space) == if p - at + size <= space then Some(p) else None
  {
    SmallRemainder(p - at, Limit(word));
    SmallRemainder(size + (p - at), Limit(word));
  }

  /** `std::align` finds the least aligned place, exactly when the bytes fit
      behind it. */
  lemma AlignIsExact(word: nat, align: nat, size: nat, at: nat, space: nat)
    requires IsRequest(word, size, align) && 0 < at && at + align - 1 < Limit(word)
    ensures align <= Limit(word)
    ensures Align(word, align, size, at, space) ==
      if Place(at, align) - at + size <= space then Some(Place(at, align)) else None
  {
    MaskFindsPlace(word, align, at);
    PlaceIsAligned(at, align);
    AlignAt(word, align, size, at, space, Place(at, align));
  }

  lemma SmallRemainder(x: nat, m: nat)
    requires x < m
    ensures x % m == x
  {
  }

  /** So it never fails in the block that `allocate` asks for: the throw behind
      it is unreachable. */
  lemma AlignNeverFails(word: nat, align: nat, size: nat, base: nat)
    requires 0 < word && IsRequest(word, size, align) && 0 < base
    requires base + Total(word, size, align) <= Limit(word)
    ensures align <= Limit(word)
    ensures Align(word, align, size, base, size + align - 1) == Some(Place(base, align))
  {
    AlignIsExact(word, align, size, base, size + align - 1);
    PlaceIsAligned(base, align);
  }

  /** A distance inside a block stays below half the range of a machine word, so
      reading it as a signed number makes no difference. */
  lemma DistanceFitsSigned(word: nat, align: nat, off: nat)
    requires IsAlignment(word, align) && off < align
    ensures 2 * off < Limit(word)
  {
    var k: nat :| k < 8 * word && align == Pow2(k);
    Pow2Monotone(k + 1, 8 * word);
  }
}
