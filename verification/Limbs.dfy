/** Fixed-width unsigned integers held as a row of 32-bit words, updated in place. */
module Limbs {
  import opened Hex
  import opened WordBytes
  import opened Words

  /** What a 32-bit register keeps of a result. */
  function Wrap(x: int): word {
    x % 0x1_0000_0000
  }

  /** One column of an addition. */
  lemma AddColumn(i: nat, c: nat, x: nat, c': nat, a: nat, b: nat)
    requires x + 0x1_0000_0000 * c' == c + a + b
    ensures Lift(x, i) + Lift(c', i + 1) == Lift(c, i) + Lift(a, i) + Lift(b, i)
  {
    LiftAdds(x, 0x1_0000_0000 * c', i);
    LiftWord(c', i);
    LiftAdds(c + a, b, i);
    LiftAdds(c, a, i);
  }

  lemma {:induction false} LiftZero(n: nat)
    ensures Lift(0, n) == 0
  {
    if n > 0 {
      LiftZero(n - 1);
    }
  }

  /** A number that is off by the modulus at most once. */
  lemma OneWrap(v: nat, m: nat, x: int)
    requires v < m && (x == v || x == v + m || x == v - m)
    ensures v == x % m
  {
    if x == v + m {
      QuotientIs(x, m, 1, v);
    } else if x == v {
      QuotientIs(x, m, 0, v);
    } else {
      NegativeWrap(v, m);
    }
  }

  lemma NegativeWrap(v: nat, m: nat)
    requires v < m
    ensures (v - m) % m == v
  {
    var x: int := v - m;
    var d, r := x / m, x % m;
    assert x == d * m + r;
    assert (d + 1) * m == v - r;
    if d + 1 >= 1 {
      Scaled(m, 1, d + 1);
    } else if d + 1 <= -1 {
      Scaled(m, 1, -1 - d);
    }
  }

  lemma AddingNegated(v: nat, w: nat, m: nat, n: nat, sum: nat)
    requires v < m && w < m && n == (m - w) % m && sum == (v + n) % m
    ensures sum == (v - w) % m
  {
    if w == 0 {
      OneWrap(0, m, m);
    } else {
      OneWrap(m - w, m, m - w);
      var r := if v < w then v - w + m else v - w;
      OneWrap(r, m, v - w);
      OneWrap(r, m, v + (m - w));
    }
  }

  lemma {:induction false} LiftGrowsUp(x: nat, n: nat)
    ensures x <= Lift(x, n)
  {
    if n > 0 {
      LiftGrowsUp(x, n - 1);
    }
  }

  lemma OrFits(a: word, x: word, y: nat, s: nat)
    requires s <= 32 && x == Doubled(y, s) && a < Doubled(1, s)
    ensures Or(a, x) == a + x < 0x1_0000_0000
  {
    OrAdds(a, y, s);
    var top := Doubled(1, 32 - s);
    DoubledTwice(1, 32 - s, s);
    DoubledByWord(1);
    if top <= y {
      DoubledGrows(top, y, s);
    }
    DoubledGrows(y + 1, top, s);
    DoubledAdds(y, 1, s);
  }

  /** The high bits of a word come out on the other side of a shift. */
  lemma HighBits(d: word, s: nat)
    requires s <= 32
    ensures Halved(d, 32 - s) < Doubled(1, s) && Halved(d, 32 - s) < 0x1_0000_0000
  {
    var hi := Halved(d, 32 - s);
    HalvedLeaves(d, 32 - s);
    if Doubled(1, s) <= hi {
      DoubledGrows(Doubled(1, s), hi, 32 - s);
      DoubledTwice(1, s, 32 - s);
      DoubledByWord(1);
    }
    HalvedShrinks(d, 32 - s);
  }

  /** The low bits of a word stay within it. */
  lemma LowBits(lo: nat, s: nat)
    requires s <= 32 && lo < Doubled(1, 32 - s)
    ensures Doubled(lo, s) < 0x1_0000_0000
  {
    DoubledGrows(lo + 1, Doubled(1, 32 - s), s);
    DoubledAdds(lo, 1, s);
    DoubledTwice(1, 32 - s, s);
    DoubledByWord(1);
    DoubledGrowsUp(1, s);
  }

  /** A word shifted left is its low bits shifted, and its high bits one word up. */
  lemma SplitWord(d: word, s: nat)
    requires s <= 32
    ensures Wrap(Doubled(d, s)) == Doubled(Lost(d, 32 - s), s)
    ensures Doubled(d, s) == 0x1_0000_0000 * Halved(d, 32 - s) + Doubled(Lost(d, 32 - s), s)
  {
    var hi, lo := Halved(d, 32 - s), Lost(d, 32 - s);
    DoubledAdds(Doubled(hi, 32 - s), lo, s);
    DoubledTwice(hi, 32 - s, s);
    DoubledByWord(hi);
    LowBits(lo, s);
    WrapLeaves(Doubled(d, s), hi, Doubled(lo, s));
  }

  lemma WrapLeaves(x: nat, hi: nat, lo: nat)
    requires x == 0x1_0000_0000 * hi + lo && lo < 0x1_0000_0000
    ensures Wrap(x) == lo
  {
  }

  lemma {:induction false} HalvedShrinks(x: nat, s: nat)
    ensures Halved(x, s) <= x
  {
    if s > 0 {
      HalvedShrinks(x, s - 1);
    }
  }

  /** What a column adds to a number shifted left: a part in its own place and a part one word up. */
  lemma ShlStep(v: nat, d: word, s: nat, i: nat, k: nat)
    requires s < 32
    ensures var hi, lo := Halved(d, 32 - s), Doubled(Lost(d, 32 - s), s);
      Doubled(v + Lift(d, i), 32 * k + s) == Doubled(v, 32 * k + s) + Lift(hi, i + k + 1) + Lift(lo, i + k)
  {
    var hi, lo := Halved(d, 32 - s), Doubled(Lost(d, 32 - s), s);
    SplitWord(d, s);
    DoubledAdds(v, Lift(d, i), 32 * k + s);
    DoubledTwice(Lift(d, i), s, 32 * k);
    LiftOfDoubled(d, s, i);
    LiftIsDoubled(Lift(Doubled(d, s), i), k);
    LiftTwice(Doubled(d, s), i, k);
    LiftAdds(0x1_0000_0000 * hi, lo, i + k);
    LiftWord(hi, i + k);
  }

  /** What falls off the top, counted in units of the modulus. */
  ghost function Overflow(j: nat, width: nat, x: nat): nat {
    if j < width then 0 else Lift(x, j - width)
  }

  lemma OverflowLifted(j: nat, width: nat, x: nat)
    ensures Lift(Overflow(j, width, x), width) == if j < width then 0 else Lift(x, j)
  {
    if j < width {
      LiftZero(width);
    } else {
      LiftTwice(x, j - width, width);
    }
  }

  /** The bits that a shift to the right loses, in the word below. */
  lemma LostBits(d: word, s: nat)
    requires s <= 32
    ensures Doubled(Doubled(Lost(d, s), 32 - s), s) == 0x1_0000_0000 * Lost(d, s)
  {
    DoubledTwice(Lost(d, s), 32 - s, s);
    DoubledByWord(Lost(d, s));
  }

  /** What has been shifted out once a column has been shifted right. */
  ghost function ShrRest(r: nat, d: nat, s: nat, i: nat, k: nat): nat {
    if i < k then r + Lift(d, i) else if i == k then r + Lift(Lost(d, s), i) else r
  }

  /** A column in its own place, on the way back up. */
  lemma ShrHigh(hi: nat, s: nat, i: nat, k: nat)
    requires k <= i
    ensures Doubled(Lift(hi, i - k), 32 * k + s) == Lift(Doubled(hi, s), i)
  {
    LiftOfDoubled(hi, s, i);
    LiftTwice(hi, i - k, k);
    LiftIsDoubled(Lift(hi, i - k), k);
    DoubledTwice(Lift(hi, i - k), 32 * k, s);
  }

  /** What a column adds to a number shifted right: nothing, or a part in its own place and a part one
      word down, and to the remainder what lies below. */
  lemma ShrStep(was: nat, mid: nat, now: nat, r: nat, d: word, s: nat, i: nat, k: nat)
    requires s < 32
    requires r < if i <= k then Lift(1, i) else Doubled(1, 32 * k + s)
    requires mid == was + (if i > k && s != 0 then Lift(Doubled(Lost(d, s), 32 - s), i - k - 1) else 0)
    requires now == mid + (if i >= k then Lift(Halved(d, s), i - k) else 0)
    ensures var r' := ShrRest(r, d, s, i, k);
      && Doubled(now, 32 * k + s) + r' == Doubled(was, 32 * k + s) + r + Lift(d, i)
      && r' < if i + 1 <= k then Lift(1, i + 1) else Doubled(1, 32 * k + s)
  {
    var hi, lo, f := Halved(d, s), Lost(d, s), 32 * k + s;
    LiftAdds(Doubled(hi, s), lo, i);
    if i < k {
      LiftAdds(1, d, i);
      LiftGrows(d + 1, 0x1_0000_0000, i);
      LiftWord(1, i);
    } else {
      ShrHigh(hi, s, i, k);
      DoubledAdds(mid, Lift(hi, i - k), f);
      if i > k {
        if s != 0 {
          LostBits(d, s);
          ShrHigh(Doubled(lo, 32 - s), s, i - 1, k);
          DoubledAdds(was, Lift(Doubled(lo, 32 - s), i - k - 1), f);
          LiftWord(lo, i - 1);
        } else {
          LiftZero(i);
        }
      } else {
        LiftAdds(1, lo, i);
        LiftGrows(lo + 1, Doubled(1, s), i);
        LiftIsDoubled(Doubled(1, s), i);
        DoubledTwice(1, s, 32 * k);
      }
    }
  }

  /** The quotient and what has been shifted out. */
  lemma ShiftedBack(left: nat, r: nat, v: nat, shift: nat, width: nat)
    requires Doubled(left, shift) + r == v
    requires r < if width <= shift / 32 then Lift(1, width) else Doubled(1, shift)
    ensures left == v / Pow2(shift)
  {
    if width <= shift / 32 {
      LiftIsDoubled(1, width);
      DoubledTwice(1, 32 * width, shift - 32 * width);
      DoubledGrowsUp(Doubled(1, 32 * width), shift - 32 * width);
    }
    DoubledIsProduct(left, shift);
    DoubledIsProduct(1, shift);
    QuotientIs(v, Pow2(shift), left, r);
  }

  lemma ByteAsDigits(s: string, b: nat)
    requires b < 256
    ensures HexValue(s + [DigitChar(b / 16), DigitChar(b % 16)]) == 256 * HexValue(s) + b
  {
    var t := s + [DigitChar(b / 16), DigitChar(b % 16)];
    assert t[..|t| - 1] == s + [DigitChar(b / 16)];
    assert t[..|t| - 1][..|s|] == s;
  }

  /** One byte more in the digits, one byte less in what is left. */
  lemma MoveByte(h: nat, p: nat, b: nat)
    ensures Doubled(256 * h + b, 8 * p) == Doubled(h, 8 * (p + 1)) + Doubled(b, 8 * p)
  {
    DoubledAdds(256 * h, b, 8 * p);
    DoubledByByte(h);
    DoubledTwice(h, 8, 8 * p);
  }

  /** A number that grows by one more digit at the front. */
  lemma FrontDigit(d: string, i: nat, v: nat)
    requires i < |d| && v == HexValue(d[i + 1..]) + Doubled(DigitOf(d[i]), 4 * (|d| - i - 1))
    ensures v == HexValue(d[i..])
  {
    HexSplits([d[i]], d[i + 1..]);
    assert d[i..] == [d[i]] + d[i + 1..];
    assert HexValue([d[i]]) == DigitOf(d[i]);
  }

  lemma OrNibble(lo: nat, hi: nat)
    requires lo < 16 && hi < 16
    ensures Or(lo, 16 * hi) == lo + 16 * hi
  {
    DoubledByNibble(hi);
    DoubledByNibble(1);
    OrAdds(lo, hi, 4);
  }

  lemma {:induction false} HighNibble(b: nat, lo: nat, hi: nat, p1: nat)
    requires lo < 16 && hi < 16 && b == Or(lo, 16 * hi)
    ensures b < 256 && Doubled(b, 8 * p1) == Doubled(lo, 8 * p1) + Doubled(hi, 4 * (2 * p1 + 1))
  {
    OrNibble(lo, hi);
    DoubledAdds(lo, 16 * hi, 8 * p1);
    DoubledByNibble(hi);
    DoubledTwice(hi, 4, 8 * p1);
  }

  /** Digits that are never looked at are worth a multiple of the modulus. */
  lemma {:induction false} DigitsDropped(d: string, i: nat, v: nat, width: nat)
    requires i <= |d| && v == HexValue(d[i..]) && v < Lift(1, width)
    requires i > 0 ==> |d| - i == 8 * width
    ensures v == HexValue(d) % Lift(1, width)
  {
    if i == 0 {
      OneWrap(v, Lift(1, width), v);
    } else {
      var rest := HexValue(d[..i]);
      HexSplits(d[..i], d[i..]);
      assert d[..i] + d[i..] == d;
      LiftIsDoubled(rest, width);
      LiftedResidue(v, rest, width, HexValue(d));
    }
  }

  class BaseUint {
    const pn: array<word>

    ghost function Denotes(): (v: nat)
      reads pn
      ensures v < Modulus()
    {
      ValueBound(pn[..]);
      Value(pn[..])
    }

    /** 2 to the number of bits. */
    ghost function Modulus(): (m: nat)
      ensures m > 0
    {
      LiftGrowsUp(1, pn.Length);
      Lift(1, pn.Length)
    }

    constructor (width: nat)
      ensures fresh(pn) && pn.Length == width
    {
      pn := new word[width];
    }

    constructor Copy(a: BaseUint)
      ensures fresh(pn) && pn[..] == a.pn[..]
    {
      pn := new word[a.pn.Length](i requires 0 <= i < a.pn.Length reads a.pn => a.pn[i]);
    }

    /** Addition with carry. The argument may be the object itself. */
    method AddAssign(b: BaseUint)
      requires b.pn.Length == pn.Length
      modifies pn
      ensures Denotes() == (old(Denotes()) + old(b.Denotes())) % Modulus()
    {
      ghost var was, add := pn[..], b.pn[..];
      var carry := 0;
      for i := 0 to pn.Length
        invariant 0 <= carry <= 1
        invariant forall j {:trigger pn[j]} {:trigger b.pn[j]} | i <= j < pn.Length :: pn[j] == was[j] && b.pn[j] == add[j]
        invariant Value(pn[..][..i]) + Lift(carry, i) == Value(was[..i]) + Value(add[..i])
      {
        ghost var before := pn[..];
        var n: nat := carry + pn[i] as int + b.pn[i] as int;
        AddColumn(i, carry, n % 0x1_0000_0000, n / 0x1_0000_0000, was[i], add[i]);
        pn[i] := n % 0x1_0000_0000;
        carry := n / 0x1_0000_0000;
        assert pn[..][..i] == before[..i];
        ValueGrows(pn[..], i);
        ValueGrows(was, i);
        ValueGrows(add, i);
      }
      assert pn[..][..pn.Length] == pn[..] && was[..pn.Length] == was && add[..pn.Length] == add;
      LiftZero(pn.Length);
      OneWrap(Denotes(), Modulus(), Value(was) + Value(add));
    }

    /** Assigning a 64-bit number: its two halves, and zeros. */
    method AssignWord64(b: nat)
      requires b < 0x1_0000_0000_0000_0000 && pn.Length >= 2
      modifies pn
      ensures Denotes() == b
    {
      pn[0] := b % 0x1_0000_0000;
      pn[1] := b / 0x1_0000_0000;
      for i := 2 to pn.Length
        invariant pn[0] == b % 0x1_0000_0000 && pn[1] == b / 0x1_0000_0000
        invariant forall j | 2 <= j < i :: pn[j] == 0
      {
        pn[i] := 0;
      }
      ValueOfZeros(pn[..][2..]);
      assert pn[..][1..][1..] == pn[..][2..];
      assert Value(pn[..][1..]) == pn[1] + 0x1_0000_0000 * Value(pn[..][2..]);
      assert Value(pn[..]) == pn[0] + 0x1_0000_0000 * Value(pn[..][1..]);
    }

    method AddWord64(b: nat)
      requires b < 0x1_0000_0000_0000_0000 && pn.Length >= 2
      modifies pn
      ensures Denotes() == (old(Denotes()) + b) % Modulus()
    {
      var wide := new BaseUint(pn.Length);
      wide.AssignWord64(b);
      AddAssign(wide);
    }

    /** Pre-increment of one word. It is zero afterwards exactly when it has wrapped around. */
    method BumpUp(i: nat)
      requires i < pn.Length
      modifies pn
      ensures Denotes() + (if pn[i] == 0 then Lift(1, i + 1) else 0) == old(Denotes()) + Lift(1, i)
    {
      ghost var was := pn[..];
      pn[i] := Wrap(pn[i] as int + 1);
      ValueUpdates(was, i, pn[i]);
      assert pn[..] == was[i := pn[i]];
      LiftAdds(was[i], 1, i);
      LiftWord(1, i);
      LiftZero(i);
    }

    /** Pre-decrement of one word. It is all ones afterwards exactly when it has wrapped around. */
    method BumpDown(i: nat)
      requires i < pn.Length
      modifies pn
      ensures Denotes() + Lift(1, i) == old(Denotes()) + (if pn[i] == 0xffff_ffff then Lift(1, i + 1) else 0)
    {
      ghost var was := pn[..];
      pn[i] := Wrap(pn[i] as int - 1);
      ValueUpdates(was, i, pn[i]);
      assert pn[..] == was[i := pn[i]];
      LiftAdds(pn[i], 1, i);
      LiftWord(1, i);
      LiftZero(i);
    }

    /** Increment: words of all ones wrap to zero until one does not. */
    method Increment()
      requires pn.Length > 0
      modifies pn
      ensures Denotes() == (old(Denotes()) + 1) % Modulus()
    {
      ghost var was := Denotes();
      var i := 0;
      BumpUp(i);
      while pn[i] == 0 && i < pn.Length - 1
        invariant 0 <= i < pn.Length
        invariant Denotes() + (if pn[i] == 0 then Lift(1, i + 1) else 0) == was + 1
        decreases pn.Length - i
      {
        i := i + 1;
        BumpUp(i);
      }
      OneWrap(Denotes(), Modulus(), was + 1);
    }

    /** Decrement: zero words wrap to all ones until one does not. */
    method Decrement()
      requires pn.Length > 0
      modifies pn
      ensures Denotes() == (old(Denotes()) - 1) % Modulus()
    {
      ghost var was := Denotes();
      var i := 0;
      BumpDown(i);
      while pn[i] == 0xffff_ffff && i < pn.Length - 1
        invariant 0 <= i < pn.Length
        invariant Denotes() + 1 == was + (if pn[i] == 0xffff_ffff then Lift(1, i + 1) else 0)
        decreases pn.Length - i
      {
        i := i + 1;
        BumpDown(i);
      }
      OneWrap(Denotes(), Modulus(), was - 1);
    }

    static lemma ComplementStep(a: seq<word>, c: seq<word>, i: nat)
      requires i < |a| == |c| && c[i] == 0xffff_ffff - a[i] && Value(c[..i]) + Value(a[..i]) + 1 == Lift(1, i)
      ensures Value(c[..i + 1]) + Value(a[..i + 1]) + 1 == Lift(1, i + 1)
    {
      ValueGrows(c, i);
      ValueGrows(a, i);
      LiftAdds(c[i], a[i], i);
      LiftAdds(0xffff_ffff, 1, i);
      LiftWord(1, i);
    }

    /** Every bit flipped. */
    method Complement() returns (ret: BaseUint)
      ensures fresh(ret) && fresh(ret.pn) && ret.pn.Length == pn.Length
      ensures ret.Denotes() == Modulus() - 1 - Denotes()
    {
      ret := new BaseUint(pn.Length);
      for i := 0 to pn.Length
        invariant fresh(ret) && fresh(ret.pn) && ret.pn.Length == pn.Length
        invariant Value(ret.pn[..][..i]) + Value(pn[..][..i]) + 1 == Lift(1, i)
      {
        ghost var before := ret.pn[..];
        ret.pn[i] := 0xffff_ffff - pn[i];
        assert ret.pn[..][..i] == before[..i];
        ComplementStep(pn[..], ret.pn[..], i);
      }
      assert ret.pn[..][..pn.Length] == ret.pn[..] && pn[..][..pn.Length] == pn[..];
    }

    /** Two's complement: flip every bit, then add one. */
    method Negated() returns (ret: BaseUint)
      requires pn.Length > 0
      ensures fresh(ret) && fresh(ret.pn) && ret.pn.Length == pn.Length
      ensures ret.Denotes() == (Modulus() - Denotes()) % Modulus()
    {
      ret := Complement();
      ret.Increment();
    }

    method SubAssign(b: BaseUint)
      requires b.pn.Length == pn.Length > 0
      modifies pn
      ensures Denotes() == (old(Denotes()) - old(b.Denotes())) % Modulus()
    {
      ghost var v, w, m := Denotes(), b.Denotes(), Modulus();
      var negated := b.Negated();
      ghost var n := negated.Denotes();
      AddAssign(negated);
      AddingNegated(v, w, m, n, Denotes());
    }

    /** The modulus is two to the number of bits. */
    lemma ModulusIsPow2()
      ensures Modulus() == Pow2(32 * pn.Length)
    {
      LiftIsDoubled(1, pn.Length);
      DoubledIsProduct(1, 32 * pn.Length);
    }

    // ---------------------------------------------------------------- shifts

    /** pn[i] |= x where the bits of x lie above those of pn[i]. */
    method OrInto(i: nat, x: word, ghost y: nat, ghost s: nat)
      requires i < pn.Length && s <= 32 && x == Doubled(y, s) && pn[i] < Doubled(1, s)
      modifies pn
      ensures pn[..] == old(pn[..])[i := old(pn[i]) + x]
      ensures Denotes() == old(Denotes()) + Lift(x, i)
    {
      ghost var was := pn[..];
      OrFits(pn[i], x, y, s);
      LiftAdds(pn[i], x, i);
      pn[i] := Or(pn[i], x);
      ValueUpdates(was, i, pn[i]);
      assert pn[..] == was[i := pn[i]];
    }

    /** OrInto, unless the place is past the end. */
    method OrWithin(j: nat, x: word, ghost y: nat, ghost s: nat)
      requires s <= 32 && x == Doubled(y, s) && (j < pn.Length ==> pn[j] < Doubled(1, s))
      modifies pn
      ensures pn[..] == if j < pn.Length then old(pn[..])[j := old(pn[j]) + x] else old(pn[..])
      ensures Denotes() + Lift(Overflow(j, pn.Length, x), pn.Length) == old(Denotes()) + Lift(x, j)
    {
      OverflowLifted(j, pn.Length, x);
      if j < pn.Length {
        OrInto(j, x, y, s);
      }
    }

    method Clear()
      modifies pn
      ensures Denotes() == 0 && forall j | 0 <= j < pn.Length :: pn[j] == 0
    {
      for i := 0 to pn.Length
        invariant forall j | 0 <= j < i :: pn[j] == 0
      {
        pn[i] := 0;
      }
      ValueOfZeros(pn[..]);
    }

    /** Shift left: multiplication by a power of two, whatever does not fit falling off the top. */
    method ShlAssign(shift: word)
      modifies pn
      ensures Denotes() == (old(Denotes()) * Pow2(shift)) % Modulus()
    {
      var a := new BaseUint.Copy(this);
      ghost var q: nat, v := 0, Denotes();
      Clear();
      var k: nat, s: nat := shift / 32, shift % 32;
      LiftZero(pn.Length);
      DoubledAdds(0, 0, shift);
      DoubledGrowsUp(1, s);
      for i := 0 to pn.Length
        invariant fresh(a.pn) && a.pn[..] == old(pn[..])
        invariant forall j | 0 <= j < pn.Length && i + k < j :: pn[j] == 0
        invariant i + k < pn.Length ==> pn[i + k] < Doubled(1, s)
        invariant Denotes() + Lift(q, pn.Length) == Doubled(Value(a.pn[..][..i]), 32 * k + s)
      {
        q := ShlPlace(a, k, s, i, q);
      }
      assert a.pn[..][..pn.Length] == a.pn[..];
      LiftedResidue(Denotes(), q, pn.Length, Doubled(v, shift));
      DoubledIsProduct(v, shift);
    }

    /** The part of a word that a shift moves into the word above. */
    method ShlHigh(d: word, s: nat, j: nat)
      requires s < 32 && (j < pn.Length ==> pn[j] == 0)
      modifies pn
      ensures forall l | 0 <= l < pn.Length && l != j :: pn[l] == old(pn[l])
      ensures j < pn.Length ==> pn[j] < Doubled(1, s)
      ensures Denotes() + Lift(Overflow(j, pn.Length, Halved(d, 32 - s)), pn.Length) == old(Denotes()) + Lift(Halved(d, 32 - s), j)
    {
      HighBits(d, s);
      if s != 0 {
        OrWithin(j, Halved(d, 32 - s), Halved(d, 32 - s), 0);
      } else {
        OverflowLifted(j, pn.Length, 0);
        LiftZero(j);
      }
    }

    /** What does not fit adds up. */
    static lemma ShlBalance(d: nat, d': nat, d'': nat, q: nat, o: nat, o': nat, n: nat, x: nat, high: nat, low: nat)
      requires d + Lift(q, n) == x && d' + Lift(o, n) == d + high && d'' + Lift(o', n) == d' + low
      ensures d'' + Lift(q + (o + o'), n) == x + high + low
    {
      LiftAdds(q, o + o', n);
      LiftAdds(o, o', n);
    }

    /** What one more word adds, shifted: a part in its own place and a part in the next. */
    static lemma ShlNext(row: seq<word>, s: nat, i: nat, k: nat, hi: nat, lo: nat)
      requires i < |row| && s < 32 && hi == Halved(row[i], 32 - s) && lo == Lost(row[i], 32 - s)
      ensures Doubled(Value(row[..i + 1]), 32 * k + s)
        == Doubled(Value(row[..i]), 32 * k + s) + Lift(hi, i + k + 1) + Lift(Doubled(lo, s), i + k)
    {
      ShlStep(Value(row[..i]), row[i], s, i, k);
      ValueGrows(row, i);
    }

    method ShlPlace(a: BaseUint, k: nat, s: nat, i: nat, ghost q: nat) returns (ghost q': nat)
      requires a.pn.Length == pn.Length && a.pn != pn && i < pn.Length && s < 32
      requires forall j | 0 <= j < pn.Length && i + k < j :: pn[j] == 0
      requires i + k < pn.Length ==> pn[i + k] < Doubled(1, s)
      requires Denotes() + Lift(q, pn.Length) == Doubled(Value(a.pn[..][..i]), 32 * k + s)
      modifies pn
      ensures forall j | 0 <= j < pn.Length && i + 1 + k < j :: pn[j] == 0
      ensures i + 1 + k < pn.Length ==> pn[i + 1 + k] < Doubled(1, s)
      ensures Denotes() + Lift(q', pn.Length) == Doubled(Value(a.pn[..][..i + 1]), 32 * k + s)
    {
      ghost var row, hi, lo := a.pn[..], Halved(a.pn[i], 32 - s), Lost(a.pn[i], 32 - s);
      ghost var o, o' := Overflow(i + k + 1, pn.Length, hi), Overflow(i + k, pn.Length, Doubled(lo, s));
      ghost var x := Doubled(Value(row[..i]), 32 * k + s);
      ghost var high, low, d := Lift(hi, i + k + 1), Lift(Doubled(lo, s), i + k), Denotes();
      ShlNext(row, s, i, k, hi, lo);
      ShlHigh(a.pn[i], s, i + k + 1);
      ghost var d' := Denotes();
      SplitWord(a.pn[i], s);
      OrWithin(i + k, Wrap(Doubled(a.pn[i], s)), lo, s);
      q' := q + (o + o');
      ShlBalance(d, d', Denotes(), q, o, o', pn.Length, x, high, low);
      assert a.pn[..] == row;
    }

    /** Shift right: division by a power of two, for every shift, however large. */
    method ShrAssign(shift: word)
      modifies pn
      ensures Denotes() == old(Denotes()) / Pow2(shift)
    {
      var a := new BaseUint.Copy(this);
      ghost var r: nat, v := 0, Denotes();
      Clear();
      var k: nat, s: nat := shift / 32, shift % 32;
      DoubledAdds(0, 0, shift);
      for i := 0 to pn.Length
        invariant fresh(a.pn) && a.pn[..] == old(pn[..])
        invariant forall j | 0 <= j < pn.Length && i - k <= j :: pn[j] == 0
        invariant i > k ==> pn[i - k - 1] < Doubled(1, 32 - s)
        invariant Doubled(Denotes(), 32 * k + s) + r == Value(a.pn[..][..i])
        invariant r < if i <= k then Lift(1, i) else Doubled(1, 32 * k + s)
      {
        r := ShrPlace(a, k, s, i, r);
      }
      assert a.pn[..][..pn.Length] == a.pn[..];
      ShiftedBack(Denotes(), r, v, shift, pn.Length);
    }

    method ShrPlace(a: BaseUint, k: nat, s: nat, i: nat, ghost r: nat) returns (ghost r': nat)
      requires a.pn.Length == pn.Length && a.pn != pn && i < pn.Length && s < 32
      requires forall j | 0 <= j < pn.Length && i - k <= j :: pn[j] == 0
      requires i > k ==> pn[i - k - 1] < Doubled(1, 32 - s)
      requires Doubled(Denotes(), 32 * k + s) + r == Value(a.pn[..][..i])
      requires r < if i <= k then Lift(1, i) else Doubled(1, 32 * k + s)
      modifies pn
      ensures forall j | 0 <= j < pn.Length && i + 1 - k <= j :: pn[j] == 0
      ensures i + 1 > k ==> pn[i - k] < Doubled(1, 32 - s)
      ensures Doubled(Denotes(), 32 * k + s) + r' == Value(a.pn[..][..i + 1])
      ensures r' < if i + 1 <= k then Lift(1, i + 1) else Doubled(1, 32 * k + s)
    {
      ghost var d, was := a.pn[i], Denotes();
      HighBits(d, 32 - s);
      SplitWord(d, 32 - s);
      ValueGrows(a.pn[..], i);
      if i - k - 1 >= 0 && s != 0 {
        OrInto(i - k - 1, Wrap(Doubled(a.pn[i], 32 - s)), Lost(d, s), 32 - s);
      }
      ghost var mid := Denotes();
      if i - k >= 0 {
        OrInto(i - k, Halved(a.pn[i], s), Halved(d, s), 0);
      }
      r' := ShrRest(r, d, s, i, k);
      ShrStep(was, mid, Denotes(), r, d, s, i, k);
    }

    /** Numeric order, decided from the most significant word down. */
    static method Less(a: BaseUint, b: BaseUint) returns (less: bool)
      requires a.pn.Length == b.pn.Length
      ensures less == (a.Denotes() < b.Denotes())
    {
      var i := a.pn.Length;
      while i > 0
        invariant 0 <= i <= a.pn.Length && a.pn[..][i..] == b.pn[..][i..]
      {
        i := i - 1;
        assert a.pn[..][i..] == [a.pn[i]] + a.pn[..][i + 1..] && b.pn[..][i..] == [b.pn[i]] + b.pn[..][i + 1..];
        if a.pn[i] < b.pn[i] {
          ValueOrders(a.pn[..], b.pn[..], i);
          return true;
        } else if a.pn[i] > b.pn[i] {
          ValueOrders(b.pn[..], a.pn[..], i);
          return false;
        }
      }
      assert a.pn[..][0..] == a.pn[..] && b.pn[..][0..] == b.pn[..];
      return false;
    }

    // ---------------------------------------------------------------- hexadecimal text

    /** Two more digits for the next byte down. */
    static lemma HexStep(s: string, w: seq<word>, p: nat, b: nat, d: nat)
      requires p < 4 * |w| && b == ByteAt(w[p / 4], p % 4)
      requires Doubled(HexValue(s), 8 * (p + 1)) + LowBytes(w, p + 1) == d && forall c | c in s :: IsWritten(c)
      ensures var t := s + [DigitChar(b / 16), DigitChar(b % 16)];
        Doubled(HexValue(t), 8 * p) + LowBytes(w, p) == d && forall c | c in t :: IsWritten(c)
    {
      ByteAsDigits(s, b);
      LowBytesStep(w, p);
      MoveByte(HexValue(s), p, b);
    }

    /** Two digits for every byte, the most significant byte first. */
    method GetHex() returns (s: string)
      ensures |s| == 8 * pn.Length && forall c | c in s :: IsWritten(c)
      ensures HexValue(s) == Denotes()
    {
      var n := 4 * pn.Length;
      s := "";
      assert pn[..][..pn.Length] == pn[..];
      DoubledAdds(0, 0, 8 * n);
      for i := 0 to n
        invariant |s| == 2 * i && forall c | c in s :: IsWritten(c)
        invariant Doubled(HexValue(s), 8 * (n - i)) + LowBytes(pn[..], n - i) == Denotes()
      {
        var p := n - i - 1;
        var b := ByteAt(pn[p / 4], p % 4);
        HexStep(s, pn[..], p, b, Denotes());
        s := s + [DigitChar(b / 16), DigitChar(b % 16)];
      }
    }

    static lemma ByteReplaced(was: seq<word>, now: seq<word>, p: nat, b: nat)
      requires p < 4 * |was| && b < 256 && now == was[p / 4 := WithByte(was[p / 4], p % 4, b)]
      ensures ByteAt(now[p / 4], p % 4) == b
      ensures Value(now) + Doubled(ByteAt(was[p / 4], p % 4), 8 * p) == Value(was) + Doubled(b, 8 * p)
    {
      var before, w, v := ByteAt(was[p / 4], p % 4), was[p / 4], now[p / 4];
      ValueUpdates(was, p / 4, v);
      LiftAdds(v, InPlace(before, p % 4), p / 4);
      LiftAdds(w, InPlace(b, p % 4), p / 4);
      PlaceOfByte(before, p);
      PlaceOfByte(b, p);
    }

    static lemma OtherBytesStay(was: seq<word>, now: seq<word>, p: nat, b: nat)
      requires p < 4 * |was| && b < 256 && now == was[p / 4 := WithByte(was[p / 4], p % 4, b)]
      ensures forall q {:trigger Zero(now, q)} | 0 <= q < 4 * |now| && q != p && Zero(was, q) :: Zero(now, q)
    {
      forall q | 0 <= q < 4 * |was| && q != p && Zero(was, q)
        ensures Zero(now, q)
      {
        assert q / 4 != p / 4 || q % 4 != p % 4;
      }
    }

    /** *p1 = b. */
    method PutByte(p: nat, b: nat)
      requires p < 4 * pn.Length && b < 256
      modifies pn
      ensures ByteAt(pn[p / 4], p % 4) == b
      ensures forall q {:trigger Zero(pn[..], q)} | 0 <= q < 4 * pn.Length && q != p && old(Zero(pn[..], q)) :: Zero(pn[..], q)
      ensures Denotes() + Doubled(old(ByteAt(pn[p / 4], p % 4)), 8 * p) == old(Denotes()) + Doubled(b, 8 * p)
    {
      ghost var was := pn[..];
      pn[p / 4] := WithByte(pn[p / 4], p % 4, b);
      assert pn[..] == was[p / 4 := WithByte(was[p / 4], p % 4, b)];
      ByteReplaced(was, pn[..], p, b);
      OtherBytesStay(was, pn[..], p, b);
    }

    static predicate Zero(w: seq<word>, q: nat)
      requires q < 4 * |w|
    {
      ByteAt(w[q / 4], q % 4) == 0
    }

    /** Read hexadecimal text from its last digit up, two digits to a byte. Digits that do not fit are
        never looked at, so the number is read modulo 2 to the number of bits. */
    method SetHex(s: string)
      modifies pn
      ensures Denotes() == HexValue(DigitsIn(s)) % Modulus()
      ensures forall d | HexText(s, d) :: Denotes() == HexValue(d) % Modulus()
    {
      forall d | HexText(s, d)
        ensures DigitsIn(s) == d
      {
        DigitsInExactly(s, d);
      }
      Clear();
      assert forall q {:trigger Zero(pn[..], q)} | 0 <= q < 4 * pn.Length :: Zero(pn[..], q);
      ghost var blank := pn[..];
      var psz := PassSpaces(s);
      if |psz| >= 2 && psz[0] == '0' && (psz[1] == 'x' || psz[1] == 'X') {
        psz := psz[2..];
      }
      assert psz == SkipPrefix(SkipSpaces(s));
      var n := 0;
      while n < |psz| && IsDigit(psz[n])
        invariant 0 <= n <= |psz| && LeadingDigits(psz) == psz[..n] + LeadingDigits(psz[n..]) && pn[..] == blank
      {
        OneMoreDigit(psz, n);
        n := n + 1;
      }
      ReadDigits(psz[..n]);
    }

    /** *p1 = the value of a digit. */
    method PutLow(p1: nat, d: string, i: nat)
      requires p1 < 4 * pn.Length && i < |d| && |d| - i - 1 == 2 * p1
      requires Zero(pn[..], p1) && Denotes() == HexValue(d[i + 1..])
      modifies pn
      ensures Denotes() == HexValue(d[i..]) && ByteAt(pn[p1 / 4], p1 % 4) == DigitOf(d[i])
      ensures forall q {:trigger Zero(pn[..], q)} | 0 <= q < 4 * pn.Length && q != p1 && old(Zero(pn[..], q)) :: Zero(pn[..], q)
    {
      DoubledAdds(0, 0, 8 * p1);
      PutByte(p1, DigitOf(d[i]));
      FrontDigit(d, i, Denotes());
    }

    /** *p1 |= the value of the next digit << 4. */
    method OrHigh(p1: nat, d: string, i: nat)
      requires p1 < 4 * pn.Length && i < |d| && |d| - i - 1 == 2 * p1 + 1
      requires ByteAt(pn[p1 / 4], p1 % 4) < 16 && Denotes() == HexValue(d[i + 1..])
      modifies pn
      ensures Denotes() == HexValue(d[i..])
      ensures forall q {:trigger Zero(pn[..], q)} | 0 <= q < 4 * pn.Length && q != p1 && old(Zero(pn[..], q)) :: Zero(pn[..], q)
    {
      var lo, hi := ByteAt(pn[p1 / 4], p1 % 4), DigitOf(d[i]);
      var b := Or(lo, 16 * hi);
      HighNibble(b, lo, hi, p1);
      PutByte(p1, b);
      FrontDigit(d, i, Denotes());
    }

    /** The loop over the digits, from the last one up. */
    method ReadDigits(d: string)
      requires Denotes() == 0 && forall q {:trigger Zero(pn[..], q)} | 0 <= q < 4 * pn.Length :: Zero(pn[..], q)
      modifies pn
      ensures Denotes() == HexValue(d) % Modulus()
    {
      var i, p1 := |d|, 0;
      while i > 0 && p1 < 4 * pn.Length
        invariant 0 <= i <= |d| && 0 <= p1 <= 4 * pn.Length
        invariant i > 0 ==> |d| - i == 2 * p1
        invariant Denotes() == HexValue(d[i..])
        invariant i > 0 ==> forall q {:trigger Zero(pn[..], q)} | p1 <= q < 4 * pn.Length :: Zero(pn[..], q)
        decreases i
      {
        assert Zero(pn[..], p1);
        i := i - 1;
        PutLow(p1, d, i);
        if i > 0 {
          i := i - 1;
          OrHigh(p1, d, i);
          p1 := p1 + 1;
        }
      }
      DigitsDropped(d, i, Denotes(), pn.Length);
    }

    /** What is written as text is read back unchanged. */
    method Reread() returns (b: BaseUint)
      ensures fresh(b) && fresh(b.pn) && b.pn.Length == pn.Length && b.Denotes() == Denotes()
    {
      var text := GetHex();
      b := new BaseUint(pn.Length);
      b.SetHex(text);
      DigitsAreReadWhole(text);
      OneWrap(Denotes(), Modulus(), Denotes());
    }
  }
}
