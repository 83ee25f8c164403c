/** The curve group and ElGamal over it, with every point written as a scalar of one fixed base. */
module Curves {
  import opened Arithmetic
  import opened Results
  import opened Sampling
  import opened Words

  const BYTES_PER_POINT := 33
  const BYTES_PER_CIPHERTEXT := 66

  /** q is the group order; a point is a number below q and 0 is the point at infinity. */
  datatype Curve = Curve(q: nat, encode: nat -> seq<Byte>, decode: seq<Byte> -> nat, hashToCurve: string -> nat)

  function Reduce(x: int, q: nat): nat
    requires q >= 1
  {
    x % q
  }

  function Multiple(k: int, point: int, q: nat): nat
    requires q >= 1
  {
    Reduce(k * point, q)
  }

  /** A group of prime order above 2^64, a compressed byte form, and a hash that avoids infinity. */
  ghost predicate ValidCurve(c: Curve) {
    && c.q > WORD
    && (forall a: nat, b: nat :: 0 < a < c.q && 0 < b < c.q ==> Multiple(a, b, c.q) != 0)
    && (forall a: nat :: 0 < a < c.q ==> |c.encode(a)| == BYTES_PER_POINT && c.decode(c.encode(a)) == a)
    && (forall text: string :: 0 < c.hashToCurve(text) < c.q)
  }

  ghost predicate Point(c: Curve, p: nat) {
    0 < p < c.q
  }

  lemma CodedPoint(c: Curve, p: nat)
    requires ValidCurve(c) && Point(c, p)
    ensures |c.encode(p)| == BYTES_PER_POINT && c.decode(c.encode(p)) == p
  {
  }

  lemma HashedPoint(c: Curve, text: string)
    requires ValidCurve(c)
    ensures Point(c, c.hashToCurve(text))
  {
  }

  lemma MultiplePoint(c: Curve, k: nat, p: nat)
    requires ValidCurve(c) && Point(c, k) && Point(c, p)
    ensures Point(c, Multiple(k, p, c.q))
  {
  }

  lemma ReduceSmall(x: nat, q: nat)
    requires x < q
    ensures Reduce(x, q) == x
  {
  }

  lemma ReduceInside(x: int, y: int, q: nat)
    requires q >= 1
    ensures Reduce(Reduce(x, q) + y, q) == Reduce(x + y, q)
  {
    ModOfFactor(x, 1, y, q);
  }

  lemma ReduceFactor(x: int, k: int, y: int, q: nat)
    requires q >= 1
    ensures Reduce(k * Reduce(x, q) + y, q) == Reduce(k * x + y, q)
  {
    ModOfFactor(x, k, y, q);
  }

  lemma NegatedProduct(a: int, b: int)
    ensures -a * b == -(a * b)
  {
  }

  lemma ReduceMinus(x: int, k: int, y: int, q: nat)
    requires q >= 1
    ensures Reduce(y - k * Reduce(x, q), q) == Reduce(y - k * x, q)
  {
    ReduceFactor(x, -k, y, q);
    NegatedProduct(k, Reduce(x, q));
    NegatedProduct(k, x);
  }

  lemma ReduceSum(x: int, y: int, q: nat)
    requires q >= 1
    ensures Reduce(Reduce(x, q) + Reduce(y, q), q) == Reduce(x + y, q)
  {
    ReduceInside(x, Reduce(y, q), q);
    ReduceInside(y, x, q);
  }

  lemma SameRemainder(x: int, y: int, q: nat)
    requires q >= 1 && Reduce(x, q) == Reduce(y, q)
    ensures Reduce(x - y, q) == 0
  {
    var k := x / q - y / q;
    assert x - y == q * k + 0 by {
      assert x == q * (x / q) + x % q && y == q * (y / q) + y % q;
    }
    ModUnique(x - y, q, k, 0);
  }

  lemma MultipleOfDifference(m: nat, n: nat, p: nat, q: nat)
    requires q >= 1 && m <= n && Multiple(m, p, q) == Multiple(n, p, q)
    ensures Multiple(n - m, p, q) == 0
  {
    SameRemainder(n * p, m * p, q);
    Distribute(p, n - m, m);
    assert n * p - m * p == (n - m) * p;
  }

  /** Below the group order, different multiples of a point are different points. */
  lemma MultiplesDiffer(c: Curve, m: nat, n: nat, p: nat)
    requires ValidCurve(c) && Point(c, p) && m < n < c.q
    ensures Multiple(m, p, c.q) != Multiple(n, p, c.q)
  {
    MultiplePoint(c, n - m, p);
    if Multiple(m, p, c.q) == Multiple(n, p, c.q) {
      MultipleOfDifference(m, n, p, c.q);
    }
  }

  // ElGamal.

  datatype PublicKey = PublicKey(g: nat, y: nat)

  ghost predicate KeyPair(c: Curve, key: PublicKey, secret: nat)
    requires c.q >= 1
  {
    Point(c, key.g) && key.y == Multiple(secret, key.g, c.q)
  }

  /** A ciphertext has two halves; it cannot be written down when one of them is the point at infinity. */
  function Encrypt(c: Curve, key: PublicKey, message: nat, r: nat): (bytes: Result<seq<Byte>>)
    requires c.q >= 1
  {
    var u, e := Multiple(r, key.g, c.q), Reduce(message + r * key.y, c.q);
    if u == 0 || e == 0 then Failure(Internal) else Success(c.encode(u) + c.encode(e))
  }

  function Decrypt(c: Curve, secret: nat, bytes: seq<Byte>): nat
    requires c.q >= 1 && |bytes| == BYTES_PER_CIPHERTEXT
  {
    Reduce(c.decode(bytes[BYTES_PER_POINT..]) - secret * c.decode(bytes[..BYTES_PER_POINT]), c.q)
  }

  /** The plaintext behind a pair (u, e). */
  function Opened(u: int, e: int, secret: nat, q: nat): nat
    requires q >= 1
  {
    Reduce(e - secret * u, q)
  }

  lemma OpenedReduced(u: int, e: int, secret: nat, q: nat)
    requires q >= 1
    ensures Opened(Reduce(u, q), Reduce(e, q), secret, q) == Opened(u, e, secret, q)
  {
    ReduceInside(e, -(secret * Reduce(u, q)), q);
    ReduceMinus(u, secret, e, q);
  }

  lemma SwapFactors(a: int, b: int, c: int)
    ensures a * (b * c) == b * (a * c)
  {
  }

  lemma PlaintextComesBack(g: nat, y: nat, secret: nat, message: nat, r: nat, q: nat)
    requires message < q && y == Multiple(secret, g, q)
    ensures Opened(Multiple(r, g, q), Reduce(message + r * y, q), secret, q) == message
  {
    hide Reduce;
    ReduceFactor(secret * g, r, message, q);
    OpenedReduced(r * g, message + r * (secret * g), secret, q);
    SwapFactors(r, secret, g);
    ReduceSmall(message, q);
  }

  lemma OpenedPlaintext(c: Curve, key: PublicKey, secret: nat, message: nat, r: nat)
    requires c.q >= 1 && KeyPair(c, key, secret) && message < c.q
    ensures Opened(Multiple(r, key.g, c.q), Reduce(message + r * key.y, c.q), secret, c.q) == message
  {
    PlaintextComesBack(key.g, key.y, secret, message, r, c.q);
  }

  /** The first half carries the randomness, the second the message; r and y are what the key and the draw say. */
  lemma CiphertextHalves(c: Curve, key: PublicKey, message: nat, r: nat)
    requires ValidCurve(c)
    ensures var bytes := Encrypt(c, key, message, r);
            bytes.Success? ==>
              && |bytes.value| == BYTES_PER_CIPHERTEXT
              && c.decode(bytes.value[..BYTES_PER_POINT]) == r * key.g % c.q
              && c.decode(bytes.value[BYTES_PER_POINT..]) == (message + r * key.y) % c.q
  {
    var u, e := Multiple(r, key.g, c.q), Reduce(message + r * key.y, c.q);
    if u != 0 && e != 0 {
      CodedPoint(c, u);
      CodedPoint(c, e);
      var bytes := c.encode(u) + c.encode(e);
      assert bytes[..BYTES_PER_POINT] == c.encode(u) && bytes[BYTES_PER_POINT..] == c.encode(e);
    }
  }

  /** What can be written down is 66 bytes long and decrypts to the message. */
  lemma EncryptDecrypts(c: Curve, key: PublicKey, secret: nat, message: nat, r: nat)
    requires ValidCurve(c) && KeyPair(c, key, secret) && message < c.q
    ensures var bytes := Encrypt(c, key, message, r);
            bytes.Success? ==> |bytes.value| == BYTES_PER_CIPHERTEXT && Decrypt(c, secret, bytes.value) == message
  {
    var u, e := Multiple(r, key.g, c.q), Reduce(message + r * key.y, c.q);
    if u != 0 && e != 0 {
      CodedPoint(c, u);
      CodedPoint(c, e);
      var bytes := c.encode(u) + c.encode(e);
      assert bytes[..BYTES_PER_POINT] == c.encode(u) && bytes[BYTES_PER_POINT..] == c.encode(e);
      OpenedPlaintext(c, key, secret, message, r);
    }
  }

  /** Adding ciphertexts half by half adds the plaintexts. */
  lemma AddedCiphertexts(u: nat, e: nat, u': nat, e': nat, secret: nat, q: nat)
    requires q >= 1
    ensures Opened(Reduce(u + u', q), Reduce(e + e', q), secret, q)
         == Reduce(Opened(u, e, secret, q) + Opened(u', e', secret, q), q)
  {
    hide Reduce;
    OpenedReduced(u + u', e + e', secret, q);
    Distribute(secret, u, u');
    ReduceSum(e - secret * u, e' - secret * u', q);
  }
}
