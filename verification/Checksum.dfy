/** The WAL checksum (storage/wal.rs): a running sum and a sum of running sums, modulo 2^32. */
module Checksum {
  import opened Bytes

  type Sums = (u32, u32)

  function Wrap(x: nat): u32 { x % 0x1_0000_0000 }

  /** The loop over the data words. */
  function Fold(words: seq<u32>, s: Sums): Sums {
    if words == [] then s
    else
      var s1 := Wrap(s.0 + words[0]);
      Fold(words[1..], (s1, Wrap(s.1 + s1)))
  }

  function Digest(salt: u32, words: seq<u32>, c: Sums): Sums {
    Fold(words, (Wrap(c.0 + salt + |words|), Wrap(c.1 + salt + 2 * |words|)))
  }

  /** `wal_checksum`. */
  method WalChecksum(salt: u32, data: seq<u32>, checksum: Sums) returns (r: Sums)
    ensures r == Digest(salt, data, checksum)
  {
    hide Wrap;
    var s1: nat := Wrap(checksum.0 + salt + |data|);
    var s2: nat := Wrap(checksum.1 + salt + 2 * |data|);
    for i := 0 to |data|
      invariant s1 < TWO32 && s2 < TWO32
      invariant Fold(data[i..], (s1, s2)) == Digest(salt, data, checksum)
    {
      assert data[i..][1..] == data[i + 1..];
      s1 := Wrap(s1 + data[i]);
      s2 := Wrap(s2 + s1);
    }
    return (s1, s2);
  }

  // ---- Closed form ----------------------------------------------------------------

  function Sum(words: seq<u32>): nat {
    if words == [] then 0 else words[0] + Sum(words[1..])
  }

  /** Each word weighted by its distance from the end: the last counts once. */
  function Weighted(words: seq<u32>): nat {
    if words == [] then 0 else |words| * words[0] + Weighted(words[1..])
  }

  lemma WrapAdd(x: nat, y: nat)
    ensures Wrap(Wrap(x) + y) == Wrap(x + y)
  {
  }

  lemma {:induction false} WrapTimes(n: nat, x: nat, y: nat)
    ensures Wrap(n * Wrap(x) + y) == Wrap(n * x + y)
  {
    hide Wrap;
    if n > 0 {
      Distribute(n - 1, 1, Wrap(x));
      Distribute(n - 1, 1, x);
      WrapTimes(n - 1, x, Wrap(x) + y);
      WrapAdd(x, (n - 1) * x + y);
    }
  }

  /** The loop computes a plain sum and a position-weighted sum modulo 2^32. */
  lemma {:induction false} ClosedForm(words: seq<u32>, a: u32, b: u32)
    ensures Fold(words, (a, b)) == (Wrap(a + Sum(words)), Wrap(b + |words| * a + Weighted(words)))
  {
    hide Wrap;
    if words == [] {
      WrapSmall(a);
      WrapSmall(b);
      assert |words| * a == 0;
    } else {
      var n, w, rest := |words|, words[0], words[1..];
      ClosedForm(rest, Wrap(a + w), Wrap(b + Wrap(a + w)));
      ClosedStep(n - 1, a + w, b, Sum(rest), Weighted(rest));
      Distribute(a, w, n);
    }
  }

  lemma WrapSmall(a: u32)
    ensures Wrap(a) == a
  {
  }

  /** One round of the loop, with the inner wrap-arounds removed. */
  lemma ClosedStep(m: nat, x: nat, b: nat, s: nat, t: nat)
    ensures Wrap(Wrap(x) + s) == Wrap(x + s)
    ensures Wrap(Wrap(b + Wrap(x)) + m * Wrap(x) + t) == Wrap(b + (m + 1) * x + t)
  {
    WrapAdd(x, s);
    WrapAdd(b + Wrap(x), m * Wrap(x) + t);
    WrapTimes(m + 1, x, b + t);
    hide Wrap;
    Distribute(m, 1, Wrap(x));
  }

  // ---- Detection -------------------------------------------------------------------

  lemma {:induction false} SumUpdate(words: seq<u32>, i: nat, v: u32)
    requires i < |words|
    ensures Sum(words[i := v]) == Sum(words) - words[i] + v
    ensures Weighted(words[i := v]) == Weighted(words) + (|words| - i) * (v - words[i])
  {
    var words' := words[i := v];
    if i == 0 {
      assert words'[1..] == words[1..];
      assert |words| * v - |words| * words[0] == |words| * (v - words[0]);
    } else {
      SumUpdate(words[1..], i - 1, v);
      assert words'[1..] == words[1..][i - 1 := v];
    }
  }

  lemma WrapDiffers(x: nat, y: nat)
    requires x < y < x + 0x1_0000_0000
    ensures Wrap(x) != Wrap(y)
  {
  }

  /** Changing one word changes the plain sum. */
  lemma OneWordDetected(words: seq<u32>, i: nat, v: u32, s: Sums)
    requires i < |words| && v != words[i]
    ensures Fold(words[i := v], s).0 != Fold(words, s).0
  {
    ClosedForm(words, s.0, s.1);
    ClosedForm(words[i := v], s.0, s.1);
    SumUpdate(words, i, v);
    if v > words[i] {
      WrapDiffers(s.0 + Sum(words), s.0 + Sum(words[i := v]));
    } else {
      WrapDiffers(s.0 + Sum(words[i := v]), s.0 + Sum(words));
    }
  }

  function Pow2(k: nat): (p: nat)
    ensures p > 0
  {
    if k == 0 then 1 else 2 * Pow2(k - 1)
  }

  lemma OddTimesOdd(a: nat, b: nat)
    ensures (2 * a + 1) * (2 * b + 1) == 2 * (2 * (a * b) + a + b) + 1
  {
  }

  lemma EvenProduct(d: nat, x: nat, m: nat)
    requires d % 2 == 1 && d * x == 2 * m
    ensures x % 2 == 0
  {
    var a, b := d / 2, x / 2;
    assert d == 2 * a + 1;
    OddTimesOdd(a, b);
    assert x == 2 * b + 1 ==> d * x == (2 * a + 1) * (2 * b + 1);
  }

  lemma Associate(a: nat, b: nat, c: nat)
    ensures a * b * c == a * (b * c)
  {
  }

  /** An odd factor cannot contribute to divisibility by a power of two. */
  lemma {:induction false} OddFactor(k: nat, d: nat, x: nat, q: nat) returns (z: nat)
    requires d % 2 == 1 && d * x == Pow2(k) * q
    ensures x == Pow2(k) * z
  {
    if k == 0 {
      z := x;
    } else {
      var p, y := Pow2(k - 1), x / 2;
      Associate(2, p, q);
      EvenProduct(d, x, p * q);
      assert d * x == 2 * (d * y) by { assert x == 2 * y; Associate(d, 2, y); Associate(2, d, y); }
      z := OddFactor(k - 1, d, y, q);
      Associate(2, p, z);
    }
  }

  lemma Pow32()
    ensures Pow2(32) == 0x1_0000_0000
  {
    assert Pow2(8) == 256;
    assert Pow2(16) == 256 * Pow2(8);
    assert Pow2(24) == 256 * Pow2(16);
  }

  lemma WrapEqual(x: nat, y: nat) returns (q: nat)
    requires Wrap(x) == Wrap(y) && x <= y
    ensures y - x == 0x1_0000_0000 * q
  {
    q := y / 0x1_0000_0000 - x / 0x1_0000_0000;
  }

  function Swap(words: seq<u32>, i: nat, j: nat): seq<u32>
    requires i < j < |words|
  { words[i := words[j]][j := words[i]] }

  lemma SwapSums(words: seq<u32>, i: nat, j: nat)
    requires i < j < |words|
    ensures |Swap(words, i, j)| == |words| && Sum(Swap(words, i, j)) == Sum(words)
    ensures Weighted(Swap(words, i, j)) - Weighted(words) == (j - i) * (words[j] as int - words[i] as int)
  {
    var v, w, n := words[i], words[j], |words|;
    SumUpdate(words, i, w);
    SumUpdate(words[i := w], j, v);
    hide Sum, Weighted;
    SwapChange(n, i, j, w as int - v as int, v as int - w as int);
  }

  lemma SwapChange(n: int, i: int, j: int, c: int, c': int)
    requires c' == -c
    ensures (n - i) * c + (n - j) * c' == (j - i) * c
  {
    assert (n - j) * c' == -((n - j) * c);
    Distribute(n - j, j - i, c);
  }

  /** Exchanging two unequal words an odd distance apart changes the weighted sum. */
  lemma SwapDetected(words: seq<u32>, i: nat, j: nat, s: Sums)
    requires i < j < |words| && words[i] != words[j] && (j - i) % 2 == 1
    ensures Fold(Swap(words, i, j), s).0 == Fold(words, s).0
    ensures Fold(Swap(words, i, j), s).1 != Fold(words, s).1
  {
    SwapSums(words, i, j);
    ClosedForm(words, s.0, s.1);
    ClosedForm(Swap(words, i, j), s.0, s.1);
    hide Sum, Weighted, Fold, Wrap, Swap;
    OddShift(s.1, |words| * s.0, Weighted(words), Weighted(Swap(words, i, j)), j - i, words[j] as int - words[i] as int);
  }

  lemma OddShift(a: nat, b: nat, x: nat, y: nat, d: nat, c: int)
    requires d % 2 == 1 && -0x1_0000_0000 < c < 0x1_0000_0000 && c != 0 && y - x == d * c
    ensures Wrap(a + b + x) != Wrap(a + b + y)
  {
    OddChange(a + b + x, a + b + y, d, c);
  }

  lemma OddChange(x: nat, y: nat, d: nat, c: int)
    requires d % 2 == 1 && -0x1_0000_0000 < c < 0x1_0000_0000 && c != 0 && y - x == d * c
    ensures Wrap(x) != Wrap(y)
  {
    if c > 0 {
      SwapImpossible(x, y, d, c);
    } else {
      assert x - y == d * (-c);
      SwapImpossible(y, x, d, -c);
    }
  }

  lemma SwapImpossible(x: nat, y: nat, d: nat, change: nat)
    requires d % 2 == 1 && 0 < change < 0x1_0000_0000 && y - x == d * change
    ensures Wrap(x) != Wrap(y)
  {
    if Wrap(x) == Wrap(y) {
      var q := WrapEqual(x, y);
      Pow32();
      var z := OddFactor(32, d, change, q);
      assert false;
    }
  }
}
