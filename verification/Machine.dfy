/** Bytes, machine words and small sequence helpers shared by the three models. */
module Machine {

  newtype Byte = x: int | 0 <= x < 256

  /** One more than the largest value of an unsigned 64-bit size. */
  const SIZE_LIMIT: int := 0x1_0000_0000_0000_0000

  /** One more than the largest unsigned 32-bit value. */
  const WORD_LIMIT: int := 0x1_0000_0000

  /** The largest value of a signed 32-bit integer. */
  const INT_MAX: int := 0x7fff_ffff

  /** Arithmetic on this type is rejected wherever it could wrap around. */
  newtype SizeT = x: int | 0 <= x < SIZE_LIMIT

  /** A character, or the end-of-file value of the stream traits. */
  datatype IntType = Eof | Char(b: Byte)

  datatype Option<+T> = None | Some(value: T)

  /** The signed 32-bit value with the same low 32 bits. */
  function AsInt32(n: int): (r: int)
    ensures -INT_MAX - 1 <= r <= INT_MAX
    ensures r == n <==> -INT_MAX - 1 <= n <= INT_MAX
    ensures (n - r) % WORD_LIMIT == 0
  {
    var low := n % WORD_LIMIT;
    if low <= INT_MAX then low else low - WORD_LIMIT
  }

  function Min(a: int, b: int): int {
    if a < b then a else b
  }

  function Max(a: int, b: int): int {
    if a < b then b else a
  }

  /** The elements of `s` from `lo` on and before `hi`. */
  function Slice<T>(s: seq<T>, lo: int, hi: int): (r: seq<T>)
    requires 0 <= lo <= hi <= |s|
    ensures |r| == hi - lo
  {
    seq(hi - lo, k requires 0 <= k < hi - lo => s[lo + k])
  }

  function Zeros(n: nat): (z: seq<Byte>)
    ensures |z| == n
  {
    seq(n, _ => 0 as Byte)
  }

  /** Two conservation equations in a row make one. */
  lemma Chain<T>(before: seq<T>, in1: seq<T>, out1: seq<T>, middle: seq<T>, in2: seq<T>, out2: seq<T>, after: seq<T>)
    requires before + in1 == out1 + middle
    requires middle + in2 == out2 + after
    ensures before + (in1 + in2) == (out1 + out2) + after
  {
    calc {
      before + (in1 + in2);
      (before + in1) + in2;
      (out1 + middle) + in2;
      out1 + (middle + in2);
      out1 + (out2 + after);
      (out1 + out2) + after;
    }
  }

  /** Without the first of two conservation equations in a row the second is left. */
  lemma Unchain<T>(before: seq<T>, in1: seq<T>, out1: seq<T>, middle: seq<T>, in2: seq<T>, out2: seq<T>, after: seq<T>)
    requires before + in1 == out1 + middle
    requires before + (in1 + in2) == (out1 + out2) + after
    ensures middle + in2 == out2 + after
  {
    calc {
      out1 + (middle + in2);
      (out1 + middle) + in2;
      (before + in1) + in2;
      before + (in1 + in2);
      (out1 + out2) + after;
      out1 + (out2 + after);
    }
    assert middle + in2 == (out1 + (middle + in2))[|out1|..];
    assert out2 + after == (out1 + (out2 + after))[|out1|..];
  }

  lemma Regroup<T>(a: seq<T>, b: seq<T>, c: seq<T>)
    ensures (a + b) + c == a + (b + c)
  {
  }
}
