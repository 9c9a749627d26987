/** Powers of two, bitwise and, and bytes of a machine word. */
module Bits {
  import opened Machine

  function Pow2(k: nat): (r: nat)
    ensures r > 0
  {
    if k == 0 then 1 else 2 * Pow2(k - 1)
  }

  /** Bitwise and. */
  function And(x: nat, y: nat): nat {
    if x == 0 || y == 0 then 0
    else 2 * And(x / 2, y / 2) + if x % 2 == 1 && y % 2 == 1 then 1 else 0
  }

  lemma {:induction false} Pow2Sum(a: nat, b: nat)
    ensures Pow2(a + b) == Pow2(a) * Pow2(b)
  {
    if a == 0 {
    } else {
      Pow2Sum(a - 1, b);
      assert Pow2(a + b) == 2 * Pow2(a - 1 + b);
      assert 2 * (Pow2(a - 1) * Pow2(b)) == (2 * Pow2(a - 1)) * Pow2(b);
    }
  }

  lemma {:induction false} Pow2Monotone(a: nat, b: nat)
    requires a <= b
    ensures Pow2(a) <= Pow2(b)
    decreases b
  {
    if a < b {
      Pow2Monotone(a, b - 1);
    }
  }

  lemma SmallMultiple(d: int, m: int)
    requires 0 < m && -m < d * m < m
    ensures d == 0
  {
  }

  lemma QuotientIsUnique(m: nat, p: int, q: int, r: int, s: int)
    requires 0 < m && p * m + r == q * m + s && 0 <= r < m && 0 <= s < m
    ensures p == q && r == s
  {
    assert (p - q) * m == s - r;
    SmallMultiple(p - q, m);
  }

  lemma DoubleMod(x: nat, m: nat)
    requires 0 < m
    ensures x % (2 * m) == 2 * ((x / 2) % m) + x % 2
  {
    var q := (x / 2) / m;
    var r := 2 * ((x / 2) % m) + x % 2;
    assert x / 2 == q * m + (x / 2) % m;
    assert x == q * (2 * m) + r;
    QuotientIsUnique(2 * m, q, x / (2 * m), r, x % (2 * m));
  }

  lemma {:induction false} AndAllOnes(x: nat, width: nat)
    requires x < Pow2(width)
    ensures And(x, Pow2(width) - 1) == x
    decreases width
  {
    if width > 0 {
      AndAllOnes(x / 2, width - 1);
    }
  }

  lemma AndEven(x: nat, half: nat)
    ensures And(x, 2 * half) == 2 * And(x / 2, half)
  {
    var mask := 2 * half;
    assert mask / 2 == half && mask % 2 == 0;
    if x == 0 || mask == 0 {
    } else {
      assert And(x, mask) == 2 * And(x / 2, mask / 2);
    }
  }

  /** A mask of all bits from `k` up to the word width clears the low bits. */
  lemma {:induction false} MaskClearsLowBits(x: nat, width: nat, k: nat)
    requires k <= width && x < Pow2(width)
    ensures Pow2(k) <= Pow2(width)
    ensures And(x, Pow2(width) - Pow2(k)) == x - x % Pow2(k)
    decreases width
  {
    Pow2Monotone(k, width);
    if k == 0 {
      AndAllOnes(x, width);
    } else {
      MaskClearsLowBits(x / 2, width - 1, k - 1);
      AndEven(x, Pow2(width - 1) - Pow2(k - 1));
      DoubleMod(x, Pow2(k - 1));
    }
  }

  // ---- The bytes of a number, lowest first ----

  /** `n` without its `i` lowest bytes. */
  function Shifted(n: nat, i: nat): nat {
    if i == 0 then n else Shifted(n, i - 1) / 256
  }

  function Encode(n: nat, count: nat): (bytes: seq<Byte>)
    ensures |bytes| == count
  {
    seq(count, i requires 0 <= i < count => (Shifted(n, i) % 256) as Byte)
  }

  function Decode(bytes: seq<Byte>): nat
    decreases |bytes|
  {
    if |bytes| == 0 then 0 else bytes[0] as nat + 256 * Decode(Slice(bytes, 1, |bytes|))
  }

  lemma {:induction false} ShiftedLater(n: nat, i: nat)
    ensures Shifted(n / 256, i) == Shifted(n, i + 1)
  {
    if i > 0 {
      ShiftedLater(n, i - 1);
    }
  }

  lemma EncodeRest(n: nat, count: nat)
    requires count > 0
    ensures Slice(Encode(n, count), 1, count) == Encode(n / 256, count - 1)
  {
    forall i | 0 <= i < count - 1
      ensures Slice(Encode(n, count), 1, count)[i] == Encode(n / 256, count - 1)[i]
    {
      ShiftedLater(n, i);
    }
  }

  lemma {:induction false} DecodeEncode(n: nat, count: nat)
    requires n < Pow2(8 * count)
    ensures Decode(Encode(n, count)) == n
    decreases count
  {
    if count > 0 {
      Pow2Sum(8, 8 * (count - 1));
      assert Pow2(8) == 256;
      DecodeEncode(n / 256, count - 1);
      EncodeRest(n, count);
    }
  }
}
