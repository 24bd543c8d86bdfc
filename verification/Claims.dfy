/** The order in which claims are considered for a block. */
module Claims {
  /** The parts of a claim that its place depends on. */
  datatype Claim = Claim(fee: int, size: nat, deltaSpendables: int)

  /** A product as 64 signed bits hold it. */
  function Times(fee: int, size: nat): int {
    (fee * size + 0x8000_0000_0000_0000) % 0x1_0000_0000_0000_0000 - 0x8000_0000_0000_0000
  }

  predicate Fits(fee: int, size: nat) {
    -0x8000_0000_0000_0000 <= fee * size < 0x8000_0000_0000_0000
  }

  /** Sizes are positive, and a fee times the other's size fits 64 bits. */
  predicate Comparable(l: Claim, r: Claim) {
    l.size > 0 && r.size > 0 && Fits(l.fee, r.size) && Fits(r.fee, l.size)
  }

  /** The comparison: fees across sizes first, then what the claim leaves behind. */
  predicate Before(l: Claim, r: Claim) {
    if Times(l.fee, r.size) > Times(r.fee, l.size) then true
    else if Times(l.fee, r.size) < Times(r.fee, l.size) then false
    else l.deltaSpendables < r.deltaSpendables
  }

  predicate Tied(l: Claim, r: Claim) {
    !Before(l, r) && !Before(r, l)
  }

  function Rate(c: Claim): real
    requires c.size > 0
  {
    c.fee as real / c.size as real
  }

  /** Comparing products across is comparing rates. */
  lemma CrossIsRate(l: Claim, r: Claim)
    requires l.size > 0 && r.size > 0
    ensures l.fee * r.size > r.fee * l.size <==> Rate(l) > Rate(r)
    ensures l.fee * r.size == r.fee * l.size <==> Rate(l) == Rate(r)
  {
    var p, q := l.size as real, r.size as real;
    var a, b := Rate(l), Rate(r);
    assert a * p == l.fee as real && b * q == r.fee as real;
    assert (l.fee * r.size) as real == (a * p) * q && (r.fee * l.size) as real == (b * q) * p;
    ScaledRates(a, b, p, q);
  }

  lemma ScaledRates(a: real, b: real, p: real, q: real)
    requires p > 0.0 && q > 0.0
    ensures (a * p) * q > (b * q) * p <==> a > b
    ensures (a * p) * q == (b * q) * p <==> a == b
  {
    var m := p * q;
    assert m > 0.0;
    assert (a * p) * q == a * m && (b * q) * p == b * m;
    Product(a, b, m);
  }

  lemma Product(a: real, b: real, m: real)
    requires m > 0.0
    ensures a * m > b * m <==> a > b
    ensures a * m == b * m <==> a == b
  {
    assert a * m - b * m == (a - b) * m;
  }

  /** The order is by rate, highest first, and then by what is left behind, least first; and claims tie
      exactly when they agree in both. */
  lemma OrderIsLexicographic(l: Claim, r: Claim)
    requires Comparable(l, r)
    ensures Before(l, r) <==> Rate(l) > Rate(r) || (Rate(l) == Rate(r) && l.deltaSpendables < r.deltaSpendables)
    ensures Tied(l, r) <==> Rate(l) == Rate(r) && l.deltaSpendables == r.deltaSpendables
  {
    TimesFits(l.fee, r.size);
    TimesFits(r.fee, l.size);
    CrossIsRate(l, r);
    CrossIsRate(r, l);
  }

  lemma TimesFits(fee: int, size: nat)
    requires Fits(fee, size)
    ensures Times(fee, size) == fee * size
  {
  }

  /** A product that does not fit keeps its low 64 bits. */
  lemma TimesWraps(fee: int, size: nat)
    ensures -0x8000_0000_0000_0000 <= Times(fee, size) < 0x8000_0000_0000_0000
    ensures (Times(fee, size) - fee * size) % 0x1_0000_0000_0000_0000 == 0
  {
    var p := fee * size;
    Residue(p + 0x8000_0000_0000_0000);
  }

  lemma Residue(x: int)
    ensures (x % 0x1_0000_0000_0000_0000 - x) % 0x1_0000_0000_0000_0000 == 0
  {
    var q := x / 0x1_0000_0000_0000_0000;
    assert x % 0x1_0000_0000_0000_0000 - x == -q * 0x1_0000_0000_0000_0000;
  }

  /** A strict weak order: nothing precedes itself, precedence is transitive, and so is tying. */
  lemma StrictWeakOrder(a: Claim, b: Claim, c: Claim)
    requires Comparable(a, b) && Comparable(b, c) && Comparable(a, c)
    ensures !Before(a, a)
    ensures Before(a, b) ==> !Before(b, a)
    ensures Before(a, b) && Before(b, c) ==> Before(a, c)
    ensures Tied(a, b) && Tied(b, c) ==> Tied(a, c)
    ensures Tied(a, b) && Before(b, c) ==> Before(a, c)
  {
    OrderIsLexicographic(a, b);
    OrderIsLexicographic(b, c);
    OrderIsLexicographic(a, c);
  }
}
