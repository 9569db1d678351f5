/** The bit-folding hash of the USB name index (src/installer/usbnames.c:125-137).

    A C `unsigned int` is a sequence of 32 bits, the least significant first.  Read as a
    polynomial over GF(2), bit i being the coefficient of x^i, the loop of the source reduces
    it modulo x^4 + x: its masks HASH1 and HASH2 are the two terms of that divisor. */
module UsbHash {

  import opened Bitwise

  type Word = w: seq<bool> | |w| == 32 witness seq(32, i => false)

  const HASH1: nat := 4
  const HASH2: nat := 1
  const HASHSZ: nat := 16

  /** The bits of a C unsigned value. */
  function BitsOf(n: nat): Word {
    seq(32, i requires 0 <= i => n / Pow2(i) % 2 == 1)
  }

  function Xor(a: Word, b: Word): Word {
    seq(32, i requires 0 <= i < 32 => a[i] != b[i])
  }

  /** The parity of the bits i, i + 3, i + 6, ... of a word. */
  predicate StrideParity(w: Word, i: nat)
    decreases 32 - i
  {
    i < 32 && w[i] != StrideParity(w, i + 3)
  }

  function ToNat(b0: bool, b1: bool, b2: bool, b3: bool): (n: nat)
    ensures n < HASHSZ
  {
    (if b0 then 1 else 0) + (if b1 then 2 else 0) + (if b2 then 4 else 0) + (if b3 then 8 else 0)
  }

  /** The hash, bit by bit: bit 0 is bit 0 of the word, and bit j in 1..3 is the parity of the
      bits j, j + 3, j + 6, ... */
  function Hash(w: Word): (h: nat)
    ensures h < HASHSZ
  {
    ToNat(w[0], StrideParity(w, 1), StrideParity(w, 2), StrideParity(w, 3))
  }

  /** The folding loop.  A mask is kept as the position of its one bit, so that shifting it
      right by one decrements the position. */
  method HashNum(number: Word) returns (h: nat)
    ensures h == Hash(number)
  {
    var num := number;
    var mask1, mask2 := HASH1 + 27, HASH2 + 27;
    while mask1 >= HASH1
      invariant 3 <= mask1 <= 31 && mask2 == mask1 - 3
      invariant forall i :: 0 <= i <= mask2 ==> num[i] == number[i]
      invariant forall i :: mask2 < i < 32 ==> num[i] == StrideParity(number, i)
      decreases mask1
    {
      assert StrideParity(number, mask2) == (number[mask2] != StrideParity(number, mask1));
      if num[mask1] {
        num := num[mask2 := !num[mask2]];
      }
      mask1, mask2 := mask1 - 1, mask2 - 1;
    }
    h := ToNat(num[0], num[1], num[2], num[3]);
  }

  // ---- the algebraic meaning of the hash ----

  predicate Coefficient(p: seq<bool>, i: int) {
    0 <= i < |p| && p[i]
  }

  /** num = q * (x^4 + x) + r over GF(2), coefficient by coefficient, with q of degree below 28
      and r of degree below 4. */
  ghost predicate Divides(num: Word, q: seq<bool>, r: seq<bool>) {
    && |q| == 28 && |r| == 4
    && forall i :: 0 <= i < 32 ==>
         num[i] == ((Coefficient(q, i - HASH1) != Coefficient(q, i - HASH2)) != Coefficient(r, i))
  }

  function Remainder(w: Word): seq<bool> {
    [w[0], StrideParity(w, 1), StrideParity(w, 2), StrideParity(w, 3)]
  }

  function Quotient(w: Word): seq<bool> {
    seq(28, i requires 0 <= i => StrideParity(w, i + 4))
  }

  lemma {:induction false} QuotientIsParity(w: Word, q: seq<bool>, r: seq<bool>, i: nat)
    requires Divides(w, q, r)
    requires 4 <= i <= 34
    ensures StrideParity(w, i) == Coefficient(q, i - 4)
    decreases 34 - i
  {
    if i < 32 {
      QuotientIsParity(w, q, r, i + 3);
    }
  }

  lemma ParitiesDivide(w: Word)
    ensures Divides(w, Quotient(w), Remainder(w))
  {
    var q, r := Quotient(w), Remainder(w);
    forall i | 0 <= i < 32
      ensures w[i] == ((Coefficient(q, i - HASH1) != Coefficient(q, i - HASH2)) != Coefficient(r, i))
    {
      assert w[i] == (StrideParity(w, i) != StrideParity(w, i + 3));
      assert i >= 1 ==> Coefficient(q, i - HASH2) == StrideParity(w, i + 3);
      assert i >= 4 ==> Coefficient(q, i - HASH1) == StrideParity(w, i);
    }
  }

  lemma DivisionIsUnique(w: Word, q: seq<bool>, r: seq<bool>)
    requires Divides(w, q, r)
    ensures q == Quotient(w) && r == Remainder(w)
  {
    forall i | 0 <= i < 28
      ensures q[i] == StrideParity(w, i + 4)
    {
      QuotientIsParity(w, q, r, i + 4);
    }
    forall i | 1 <= i < 4
      ensures r[i] == StrideParity(w, i)
    {
      QuotientIsParity(w, q, r, i + 3);
    }
  }

  /** Division by x^4 + x has exactly one result, and the hash is its remainder. */
  lemma HashIsTheRemainder(w: Word, q: seq<bool>, r: seq<bool>)
    ensures Divides(w, q, r) <==> q == Quotient(w) && r == Remainder(w)
    ensures Divides(w, q, r) ==> Hash(w) == ToNat(r[0], r[1], r[2], r[3])
  {
    ParitiesDivide(w);
    if Divides(w, q, r) {
      DivisionIsUnique(w, q, r);
    }
  }

  lemma {:induction false} ParityIsLinear(a: Word, b: Word, i: nat)
    ensures StrideParity(Xor(a, b), i) == (StrideParity(a, i) != StrideParity(b, i))
    decreases 32 - i
  {
    if i < 32 {
      ParityIsLinear(a, b, i + 3);
    }
  }

  /** The hash of a sum is the sum of the hashes. */
  lemma HashIsLinear(a: Word, b: Word)
    ensures forall j :: 0 <= j < 4 ==> Remainder(Xor(a, b))[j] == (Remainder(a)[j] != Remainder(b)[j])
  {
    ParityIsLinear(a, b, 1);
    ParityIsLinear(a, b, 2);
    ParityIsLinear(a, b, 3);
  }

  ghost predicate DifferInLowNibble(a: Word, b: Word) {
    forall i :: 4 <= i < 32 ==> a[i] == b[i]
  }

  lemma {:induction false} ParityAboveNibble(a: Word, b: Word, i: nat)
    requires DifferInLowNibble(a, b) && 4 <= i
    ensures StrideParity(a, i) == StrideParity(b, i)
    decreases 32 - i
  {
    if i < 32 {
      ParityAboveNibble(a, b, i + 3);
    }
  }

  lemma HashWithinNibble(key: Word, other: Word)
    requires DifferInLowNibble(key, other)
    ensures Hash(other) == ToNat(other[0], other[1] != StrideParity(key, 4), other[2] != StrideParity(key, 5),
                                 other[3] != StrideParity(key, 6))
  {
    ParityAboveNibble(other, key, 4);
    ParityAboveNibble(other, key, 5);
    ParityAboveNibble(other, key, 6);
  }

  lemma ToNatDigits(n: nat, b0: bool, b1: bool, b2: bool, b3: bool)
    requires n < HASHSZ
    ensures ToNat(b0, b1, b2, b3) == n
            <==> b0 == (n % 2 == 1) && b1 == (n / 2 % 2 == 1) && b2 == (n / 4 % 2 == 1) && b3 == (n / 8 % 2 == 1)
  {
  }

  /** The low bits that send a key to a bucket, given its bits from 4 on. */
  function NibbleFor(key: Word, bucket: nat): (low: seq<bool>)
    ensures |low| == 4
  {
    [bucket % 2 == 1,
     StrideParity(key, 4) != (bucket / 2 % 2 == 1),
     StrideParity(key, 5) != (bucket / 4 % 2 == 1),
     StrideParity(key, 6) != (bucket / 8 % 2 == 1)]
  }

  /** The sixteen keys that agree above the low nibble fill the sixteen buckets: exactly one of
      them falls into each. */
  lemma NibbleFillsBuckets(key: Word, other: Word, bucket: nat)
    requires bucket < HASHSZ && DifferInLowNibble(key, other)
    ensures Hash(other) == bucket <==> other == NibbleFor(key, bucket) + key[4..]
  {
    HashWithinNibble(key, other);
    NibbleHits(key, other[0], other[1], other[2], other[3], bucket);
    SameNibble(key, other, NibbleFor(key, bucket));
  }

  lemma NibbleHits(key: Word, b0: bool, b1: bool, b2: bool, b3: bool, bucket: nat)
    requires bucket < HASHSZ
    ensures ToNat(b0, b1 != StrideParity(key, 4), b2 != StrideParity(key, 5), b3 != StrideParity(key, 6)) == bucket
       <==> NibbleFor(key, bucket) == [b0, b1, b2, b3]
  {
    var p1, p2, p3 := StrideParity(key, 4), StrideParity(key, 5), StrideParity(key, 6);
    ToNatDigits(bucket, b0, b1 != p1, b2 != p2, b3 != p3);
    var low, b := NibbleFor(key, bucket), [b0, b1, b2, b3];
    assert low == b <==> low[0] == b[0] && low[1] == b[1] && low[2] == b[2] && low[3] == b[3];
  }

  lemma SameNibble(key: Word, other: Word, low: seq<bool>)
    requires DifferInLowNibble(key, other) && |low| == 4
    ensures other == low + key[4..] <==> low == [other[0], other[1], other[2], other[3]]
  {
    var made := low + key[4..];
    assert |made| == 32 && forall i :: 0 <= i < 32 ==> made[i] == if i < 4 then low[i] else key[i];
    assert other == made <==> forall i :: 0 <= i < 32 ==> other[i] == made[i];
  }

  // ---- the bits of a number ----

  /** The number that the first k bits of a word denote. */
  function Number(w: Word, k: nat): nat
    requires k <= 32
  {
    if k == 0 then 0 else Number(w, k - 1) + if w[k - 1] then Pow2(k - 1) else 0
  }

  lemma OneMoreBit(n: nat, m: nat)
    requires m > 0
    ensures n % (2 * m) == n % m + if n / m % 2 == 1 then m else 0
  {
    var q, r := n / m, n % m;
    assert n == m * q + r;
    assert q == 2 * (q / 2) + q % 2;
    assert n == 2 * m * (q / 2) + (m * (q % 2) + r);
    DivisionIs(n, 2 * m, q / 2, m * (q % 2) + r);
  }

  lemma {:induction false} BitsDenote(n: nat, k: nat)
    requires k <= 32
    ensures Number(BitsOf(n), k) == n % Pow2(k)
  {
    if k != 0 {
      BitsDenote(n, k - 1);
      OneMoreBit(n, Pow2(k - 1));
    }
  }
}
