/** Keys as bit strings, and the signed bit distance that steers every descent in the trie. */
module Keys {

  /** The number of bits in a Coin: a 256-bit hash followed by a 32-bit index. */
  const KEY_BITS := 288

  /** 1-based position of the highest bit in which a and b differ, 0 when they are equal. */
  function Top(a: nat, b: nat): (d: nat)
    ensures d == 0 <==> a == b
    decreases a + b
  {
    if a == b then 0 else 1 + Top(a / 2, b / 2)
  }

  /** x without its d lowest bits. */
  function Shift(x: nat, d: nat): nat
    decreases d
  {
    if d == 0 then x else Shift(x / 2, d - 1)
  }

  /** A key is a number of at most KEY_BITS bits. */
  type Key = k: nat | Top(k, 0) <= KEY_BITS witness 0

  /** The signed distance: positive when a is the smaller key, negative when it is the larger. */
  function Compare(a: nat, b: nat): int {
    var d: int := Top(a, b);
    if a > b then -d else d
  }

  function Abs(x: int): nat {
    if x < 0 then -x else x
  }

  lemma {:induction false} TopSymmetric(a: nat, b: nat)
    ensures Top(a, b) == Top(b, a)
    decreases a + b
  {
    if a != b {
      TopSymmetric(a / 2, b / 2);
    }
  }

  /** Two keys are within distance d exactly when they share every bit above position d. */
  lemma {:induction false} TopIsSharedPrefix(a: nat, b: nat, d: nat)
    ensures Top(a, b) <= d <==> Shift(a, d) == Shift(b, d)
    decreases d
  {
    if d > 0 {
      TopIsSharedPrefix(a / 2, b / 2, d - 1);
      if a == b {
        assert Top(a / 2, b / 2) == 0;
      }
    }
  }

  /** The distance is an ultrametric: of the three distances between three keys the two largest agree. */
  lemma {:induction false} TopUltrametric(a: nat, b: nat, c: nat)
    ensures Top(a, c) <= (if Top(a, b) < Top(b, c) then Top(b, c) else Top(a, b))
    ensures Top(a, b) < Top(b, c) ==> Top(a, c) == Top(b, c)
    ensures Top(b, c) < Top(a, b) ==> Top(a, c) == Top(a, b)
    decreases a + b + c
  {
    if a == c {
      TopSymmetric(a, b);
    } else if a != b && b != c {
      TopUltrametric(a / 2, b / 2, c / 2);
    }
  }

  /** Two keys at distance d split every key within d of either: it is strictly closer to exactly one
      of them, and lies on that one's side of the other. */
  lemma {:induction false} TopSplits(a: nat, b: nat, k: nat)
    requires a > b
    requires Top(b, k) <= Top(a, b) || Top(a, k) <= Top(a, b)
    ensures Top(a, k) < Top(a, b) <==> Top(b, k) == Top(a, b)
    ensures Top(b, k) < Top(a, b) <==> Top(a, k) == Top(a, b)
    ensures Top(a, k) < Top(a, b) ==> k > b
    ensures Top(b, k) < Top(a, b) ==> k < a
    decreases a
  {
    if a / 2 == b / 2 {
      assert Top(a, b) == 1;
      assert k / 2 == a / 2;
    } else {
      TopSplits(a / 2, b / 2, k / 2);
    }
  }

  /** A key closer to b than a is lies on b's side of a. */
  lemma {:induction false} CloserIsSameSide(a: nat, b: nat, c: nat)
    requires Top(b, c) < Top(a, b)
    ensures a < b <==> a < c
    ensures a > b <==> a > c
    ensures Top(a, c) == Top(a, b)
    decreases a + b + c
  {
    TopUltrametric(a, b, c);
    if b != c && a / 2 != b / 2 {
      CloserIsSameSide(a / 2, b / 2, c / 2);
    }
  }

  /** Keys strictly within the distance of l and r, one near each, are as far apart as l and r. */
  lemma NearEachSide(l: nat, r: nat, x: nat, y: nat)
    requires l > r && Top(l, x) < Top(l, r) && Top(r, y) < Top(l, r)
    ensures Top(x, y) == Top(l, r) && x > y
  {
    TopSymmetric(l, r);
    CloserIsSameSide(r, l, x);
    TopSymmetric(x, r);
    CloserIsSameSide(x, r, y);
  }

  lemma KeyDistance(a: Key, b: Key)
    ensures Top(a, b) <= KEY_BITS
  {
    TopUltrametric(a, 0, b);
    TopSymmetric(0, b);
  }
}
