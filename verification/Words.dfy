/** Fixed-width machine words, shifts, and the number that a row of words stands for. */
module Words {
  type word = x: int | 0 <= x < 0x1_0000_0000

  function Pow2(n: nat): (p: nat)
    ensures p > 0
  {
    if n == 0 then 1 else 2 * Pow2(n - 1)
  }

  /** x shifted left by s bits, nothing lost. */
  function Doubled(x: nat, s: nat): nat {
    if s == 0 then x else 2 * Doubled(x, s - 1)
  }

  /** x shifted right by s bits. */
  function Halved(x: nat, s: nat): nat {
    if s == 0 then x else Halved(x, s - 1) / 2
  }

  /** x shifted left by n words. */
  function Lift(x: nat, n: nat): nat {
    if n == 0 then x else 0x1_0000_0000 * Lift(x, n - 1)
  }

  /** The number a row of words stands for, the least significant word first. */
  function Value(w: seq<word>): nat {
    if w == [] then 0 else w[0] + 0x1_0000_0000 * Value(w[1..])
  }

  // ------------------------------------------------------------------ shifts

  lemma {:induction false} DoubledAdds(x: nat, y: nat, s: nat)
    ensures Doubled(x + y, s) == Doubled(x, s) + Doubled(y, s)
  {
    if s > 0 {
      DoubledAdds(x, y, s - 1);
    }
  }

  lemma {:induction false} DoubledTwice(x: nat, s: nat, t: nat)
    ensures Doubled(Doubled(x, s), t) == Doubled(x, s + t)
  {
    if t > 0 {
      DoubledTwice(x, s, t - 1);
    }
  }

  lemma {:induction false} DoubledGrows(x: nat, y: nat, s: nat)
    requires x <= y
    ensures Doubled(x, s) <= Doubled(y, s)
  {
    if s > 0 {
      DoubledGrows(x, y, s - 1);
    }
  }

  lemma {:induction false} DoubledGrowsUp(x: nat, s: nat)
    ensures x <= Doubled(x, s)
  {
    if s > 0 {
      DoubledGrowsUp(x, s - 1);
    }
  }

  /** Shifting left is multiplying by a power of two. */
  lemma {:induction false} DoubledIsProduct(x: nat, s: nat)
    ensures Doubled(x, s) == x * Pow2(s)
  {
    if s > 0 {
      DoubledIsProduct(x, s - 1);
    }
  }

  /** Shifting right and back leaves only the bits that were shifted out. */
  lemma {:induction false} HalvedLeaves(x: nat, s: nat)
    ensures Doubled(Halved(x, s), s) <= x < Doubled(Halved(x, s) + 1, s)
  {
    if s > 0 {
      HalvedLeaves(x, s - 1);
      var h := Halved(x, s - 1);
      DoubledTwice(h / 2, 1, s - 1);
      DoubledTwice(h / 2 + 1, 1, s - 1);
      assert Doubled(h / 2, 1) == 2 * Doubled(h / 2, 0) && Doubled(h / 2 + 1, 1) == 2 * Doubled(h / 2 + 1, 0);
      DoubledGrows(2 * (h / 2), h, s - 1);
      DoubledGrows(h + 1, 2 * (h / 2 + 1), s - 1);
    }
  }

  /** The bits that a shift to the right loses. */
  function Lost(x: nat, s: nat): (l: nat)
    ensures l < Doubled(1, s) && x == Doubled(Halved(x, s), s) + l
  {
    HalvedLeaves(x, s);
    DoubledAdds(Halved(x, s), 1, s);
    x - Doubled(Halved(x, s), s)
  }

  /** Shifting right is dividing by a power of two. */
  lemma {:induction false} HalvedIsQuotient(x: nat, s: nat)
    ensures Halved(x, s) == x / Pow2(s)
  {
    var l, h := Lost(x, s), Halved(x, s);
    DoubledIsProduct(h, s);
    DoubledIsProduct(1, s);
    QuotientIs(x, Pow2(s), h, l);
  }

  lemma QuotientIs(x: nat, m: nat, q: nat, r: nat)
    requires x == q * m + r && r < m
    ensures x / m == q && x % m == r
  {
    var d := x / m;
    assert x == d * m + x % m;
    assert (d - q) * m == r - x % m;
    if d > q {
      Scaled(m, 1, d - q);
    } else if d < q {
      Scaled(m, 1, q - d);
    }
  }

  lemma Scaled(m: nat, a: nat, b: nat)
    requires a <= b
    ensures a * m <= b * m
  {
  }

  lemma DoubledByNibble(x: nat)
    ensures Doubled(x, 4) == 16 * x
  {
    assert Doubled(x, 1) == 2 * Doubled(x, 0) && Doubled(x, 2) == 2 * Doubled(x, 1) && Doubled(x, 3) == 2 * Doubled(x, 2);
  }

  lemma DoubledByByte(x: nat)
    ensures Doubled(x, 8) == 0x100 * x
  {
    DoubledByNibble(x);
    DoubledByNibble(Doubled(x, 4));
    DoubledTwice(x, 4, 4);
  }

  lemma DoubledByTwoBytes(x: nat)
    ensures Doubled(x, 16) == 0x1_0000 * x
  {
    DoubledByByte(x);
    DoubledByByte(Doubled(x, 8));
    DoubledTwice(x, 8, 8);
  }

  lemma DoubledByWord(x: nat)
    ensures Doubled(x, 32) == 0x1_0000_0000 * x
  {
    DoubledByTwoBytes(x);
    DoubledByTwoBytes(Doubled(x, 16));
    DoubledTwice(x, 16, 16);
  }

  lemma DoubledByTwoWords(x: nat)
    ensures Doubled(x, 64) == 0x1_0000_0000_0000_0000 * x
  {
    DoubledByWord(x);
    DoubledByWord(Doubled(x, 32));
    DoubledTwice(x, 32, 32);
  }

  // ------------------------------------------------------------------ shifts by whole words

  lemma {:induction false} LiftAdds(x: nat, y: nat, n: nat)
    ensures Lift(x + y, n) == Lift(x, n) + Lift(y, n)
  {
    if n > 0 {
      LiftAdds(x, y, n - 1);
    }
  }

  lemma {:induction false} LiftTwice(x: nat, m: nat, n: nat)
    ensures Lift(Lift(x, m), n) == Lift(x, m + n)
  {
    if n > 0 {
      LiftTwice(x, m, n - 1);
    }
  }

  lemma LiftWord(x: nat, n: nat)
    ensures Lift(0x1_0000_0000 * x, n) == Lift(x, n + 1)
  {
    LiftTwice(x, 1, n);
    assert Lift(x, 1) == 0x1_0000_0000 * Lift(x, 0);
  }

  lemma {:induction false} LiftGrows(x: nat, y: nat, n: nat)
    requires x <= y
    ensures Lift(x, n) <= Lift(y, n)
  {
    if n > 0 {
      LiftGrows(x, y, n - 1);
    }
  }

  lemma {:induction false} LiftIsDoubled(x: nat, n: nat)
    ensures Lift(x, n) == Doubled(x, 32 * n)
  {
    if n > 0 {
      LiftIsDoubled(x, n - 1);
      DoubledByWord(Doubled(x, 32 * (n - 1)));
      DoubledTwice(x, 32 * (n - 1), 32);
    }
  }

  /** Shifting by bits and by words may change places. */
  lemma {:induction false} LiftOfDoubled(x: nat, s: nat, n: nat)
    ensures Lift(Doubled(x, s), n) == Doubled(Lift(x, n), s)
  {
    LiftIsDoubled(x, n);
    LiftIsDoubled(Doubled(x, s), n);
    DoubledTwice(x, s, 32 * n);
    DoubledTwice(x, 32 * n, s);
  }

  /** What is left when all whole words above have been taken off is the residue. */
  lemma LiftedResidue(v: nat, q: nat, n: nat, x: nat)
    requires v + Lift(q, n) == x && v < Lift(1, n)
    ensures v == x % Lift(1, n)
  {
    LiftIsDoubled(q, n);
    LiftIsDoubled(1, n);
    DoubledIsProduct(q, 32 * n);
    DoubledIsProduct(1, 32 * n);
    QuotientIs(x, Pow2(32 * n), q, v);
  }

  // ------------------------------------------------------------------ rows of words

  lemma {:induction false} ValueBound(w: seq<word>)
    ensures Value(w) < Lift(1, |w|)
  {
    if w != [] {
      ValueBound(w[1..]);
    }
  }

  /** A row of words is its low part and, lifted, its high part. */
  lemma {:induction false} ValueSplits(w: seq<word>, n: nat)
    requires n <= |w|
    ensures Value(w) == Value(w[..n]) + Lift(Value(w[n..]), n)
  {
    if n == 0 {
      assert w[0..] == w;
    } else {
      ValueSplits(w[1..], n - 1);
      assert w[1..][..n - 1] == w[..n][1..] && w[1..][n - 1..] == w[n..];
    }
  }

  /** One more word. */
  lemma ValueGrows(w: seq<word>, n: nat)
    requires n < |w|
    ensures Value(w[..n + 1]) == Value(w[..n]) + Lift(w[n], n)
  {
    ValueSplits(w[..n + 1], n);
    assert w[..n + 1][..n] == w[..n] && w[..n + 1][n..] == [w[n]];
    assert Value([w[n]]) == w[n];
  }

  /** Replacing one word changes the number by the difference at its place. */
  lemma ValueUpdates(w: seq<word>, n: nat, x: word)
    requires n < |w|
    ensures Value(w[n := x]) + Lift(w[n], n) == Value(w) + Lift(x, n)
  {
    var v, rest := w[n := x], 0x1_0000_0000 * Value(w[n + 1..]);
    ValueSplits(w, n);
    ValueSplits(v, n);
    assert v[..n] == w[..n] && v[n..] == [x] + w[n + 1..] && w[n..] == [w[n]] + w[n + 1..];
    LiftAdds(x, rest, n);
    LiftAdds(w[n], rest, n);
  }

  /** Rows of one length are ordered as their highest differing words are. */
  lemma {:induction false} ValueOrders(a: seq<word>, b: seq<word>, n: nat)
    requires |a| == |b| && n < |a| && a[n + 1..] == b[n + 1..] && a[n] < b[n]
    ensures Value(a) < Value(b)
  {
    ValueSplits(a, n);
    ValueSplits(b, n);
    assert a[n..] == [a[n]] + a[n + 1..] && b[n..] == [b[n]] + b[n + 1..];
    ValueBound(a[..n]);
    LiftAdds(Value(a[n..]), 1, n);
    LiftGrows(Value(a[n..]) + 1, Value(b[n..]), n);
  }

  lemma ValueOfZeros(w: seq<word>)
    requires forall i | 0 <= i < |w| :: w[i] == 0
    ensures Value(w) == 0
  {
  }

  // ------------------------------------------------------------------ bitwise operations

  /** Exclusive or, bit by bit. */
  function Xor(a: nat, b: nat): nat
    decreases a + b
  {
    if a == 0 && b == 0 then 0 else 2 * Xor(a / 2, b / 2) + (a + b) % 2
  }

  /** Inclusive or, bit by bit. */
  function Or(a: nat, b: nat): nat
    decreases a + b
  {
    if a == 0 && b == 0 then 0 else 2 * Or(a / 2, b / 2) + (if a % 2 == 1 || b % 2 == 1 then 1 else 0)
  }

  /** Where no bits meet, or is addition. */
  lemma {:induction false} OrAdds(a: nat, b: nat, s: nat)
    requires a < Doubled(1, s)
    ensures Or(a, Doubled(b, s)) == a + Doubled(b, s)
    decreases s
  {
    if s == 0 {
      OrWithZero(b);
    } else {
      OrAdds(a / 2, b, s - 1);
    }
  }

  lemma {:induction false} OrWithZero(b: nat)
    ensures Or(0, b) == b && Or(b, 0) == b
  {
    if b != 0 {
      OrWithZero(b / 2);
    }
  }
}
