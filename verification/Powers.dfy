/** Powers of two and the least bit length that covers a modulus. */
module Powers {
  import opened Arithmetic

  function Pow2(n: nat): (p: nat)
    ensures p >= 1
  {
    if n == 0 then 1 else 2 * Pow2(n - 1)
  }

  lemma {:induction false} Pow2Strict(m: nat, n: nat)
    requires m < n
    ensures Pow2(m) < Pow2(n)
  {
    if m + 1 < n {
      Pow2Strict(m, n - 1);
    }
  }

  lemma {:induction false} Pow2Adds(m: nat, n: nat)
    ensures Pow2(m + n) == Pow2(m) * Pow2(n)
  {
    if n > 0 {
      Pow2Adds(m, n - 1);
      assert Pow2(m + n) == 2 * Pow2(m + (n - 1));
    }
  }

  lemma Pow2At8()
    ensures Pow2(8) == 256
  {
  }

  lemma Pow2At63()
    ensures Pow2(63) == 0x8000_0000_0000_0000
  {
    var n := 7;
    assert Pow2(n) == 128;
    Pow2Adds(n, n);
    Pow2Adds(n + n, n);
    var m := n + n + n;
    assert Pow2(m) == 0x20_0000;
    Pow2Adds(m, m);
    Pow2Adds(m + m, m);
  }

  lemma Pow2Monotone(m: nat, n: nat)
    requires m <= n
    ensures Pow2(m) <= Pow2(n)
  {
    if m < n {
      Pow2Strict(m, n);
    }
  }

  /** ceil(log2(m)): the least number of bits whose range covers [0, m). */
  function BitLength(m: nat): (b: nat)
    requires m >= 1
    ensures m <= Pow2(b)
    ensures b > 0 ==> Pow2(b - 1) < m
  {
    if m == 1 then 0 else BitLength((m + 1) / 2) + 1
  }

  lemma BitLengthUnique(m: nat, b: nat)
    requires m >= 1 && m <= Pow2(b) && (b > 0 ==> Pow2(b - 1) < m)
    ensures b == BitLength(m)
  {
    var c := BitLength(m);
    if b < c {
      if b < c - 1 {
        Pow2Strict(b, c - 1);
      }
    } else if c < b {
      if c < b - 1 {
        Pow2Strict(c, b - 1);
      }
    }
  }

  lemma Pow2Half(n: nat)
    requires n >= 1
    ensures Pow2(n) == 2 * Pow2(n - 1)
  {
  }

  /** A remainder by a power of two has the low bits of the number. */
  lemma LowBits(x: nat, b: nat, i: nat)
    requires i < b
    ensures x % Pow2(b) / Pow2(i) % 2 == x / Pow2(i) % 2
  {
    hide Pow2;
    Pow2Adds(i, b - i);
    assert i + (b - i) == b;
    Pow2Half(b - i);
    EvenlyReduced(x, Pow2(b), Pow2(i), Pow2(b - i), Pow2(b - i - 1));
  }
}
