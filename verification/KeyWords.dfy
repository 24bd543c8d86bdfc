/** Comparing two Coins word by word: the loop that stands behind the signed bit distance. */
module KeyWords {
  import opened Keys
  import opened Words

  /** A Coin as the machine sees it: nine words, the last one the most significant. */
  type CoinWords = w: seq<word> | |w| == 9 witness [0, 0, 0, 0, 0, 0, 0, 0, 0]

  lemma {:induction false} TopOfXor(a: nat, b: nat)
    ensures Top(Xor(a, b), 0) == Top(a, b)
    decreases a + b
  {
    if a != b {
      TopOfXor(a / 2, b / 2);
      assert Xor(a, b) / 2 == Xor(a / 2, b / 2);
      assert Xor(a, b) != 0;
    } else {
      XorOfEqual(a);
    }
  }

  lemma {:induction false} XorOfEqual(a: nat)
    ensures Xor(a, a) == 0
  {
    if a != 0 {
      XorOfEqual(a / 2);
    }
  }

  /** One more bit below. */
  lemma TopOneMore(q: nat, q': nat, b: nat, b': nat)
    requires b < 2 && b' < 2
    ensures Top(2 * q + b, 2 * q' + b') == if q != q' then 1 + Top(q, q') else if b != b' then 1 else 0
  {
    assert (2 * q + b) / 2 == q && (2 * q' + b') / 2 == q';
  }

  /** Numbers that agree in their high part differ first where their low parts do. */
  lemma {:induction false} TopOfLow(h: nat, l: nat, l': nat, s: nat)
    requires l < Doubled(1, s) && l' < Doubled(1, s)
    ensures Top(Doubled(h, s) + l, Doubled(h, s) + l') == Top(l, l')
    decreases s
  {
    if s > 0 {
      var q, m, m' := Doubled(h, s - 1), l / 2, l' / 2;
      TopOfLow(h, m, m', s - 1);
      TopOneMore(m, m', l % 2, l' % 2);
      TopOneMore(q + m, q + m', l % 2, l' % 2);
    }
  }

  /** Numbers that do not differ first where their high parts do. */
  lemma {:induction false} TopOfHigh(h: nat, l: nat, h': nat, l': nat, s: nat)
    requires l < Doubled(1, s) && l' < Doubled(1, s) && h != h'
    ensures Top(Doubled(h, s) + l, Doubled(h', s) + l') == s + Top(h, h')
    decreases s
  {
    if s > 0 {
      var q, q', m, m' := Doubled(h, s - 1), Doubled(h', s - 1), l / 2, l' / 2;
      TopOfHigh(h, m, h', m', s - 1);
      TopPositive(h, h');
      TopOneMore(q + m, q' + m', l % 2, l' % 2);
    }
  }

  lemma TopPositive(a: nat, b: nat)
    ensures a != b ==> Top(a, b) > 0
  {
  }

  lemma {:induction false} TopBound(x: nat, s: nat)
    requires x < Doubled(1, s)
    ensures Top(x, 0) <= s
  {
    if s > 0 && x > 0 {
      TopBound(x / 2, s - 1);
    }
  }

  /** Nine words make a key of 288 bits. */
  function KeyOf(w: CoinWords): Key {
    ValueBound(w);
    LiftIsDoubled(1, 9);
    TopBound(Value(w), KEY_BITS);
    Value(w)
  }

  lemma TopOfWordAndRest(h: nat, l: word, h': nat, l': word, s: nat)
    requires s == 32
    ensures Top(l + 0x1_0000_0000 * h, l' + 0x1_0000_0000 * h') == if h == h' then Top(l, l') else s + Top(h, h')
  {
    DoubledByWord(h);
    DoubledByWord(h');
    DoubledByWord(1);
    if h == h' {
      TopOfLow(h, l, l', s);
    } else {
      TopOfHigh(h, l, h', l', s);
    }
  }

  /** Where the highest differing words are, the highest differing bit is. */
  lemma {:induction false} TopOfWords(a: seq<word>, b: seq<word>, n: nat)
    requires n < |a| == |b| && a[n + 1..] == b[n + 1..] && a[n] != b[n]
    ensures Top(Value(a), Value(b)) == 32 * n + Top(a[n], b[n])
    ensures Value(a) != Value(b)
  {
    var x, y := Value(a[1..]), Value(b[1..]);
    TopPositive(a[n], b[n]);
    if n > 0 {
      assert a[1..][n..] == a[n + 1..] && b[1..][n..] == b[n + 1..];
      TopOfWords(a[1..], b[1..], n - 1);
    } else {
      assert x == y;
    }
    TopOfWordAndRest(x, a[0], y, b[0], 32);
    assert Value(a) == a[0] + 0x1_0000_0000 * x && Value(b) == b[0] + 0x1_0000_0000 * y;
  }

  /** The position of the highest bit set, counted from 0; of nothing, it wraps around to -1. */
  method Log2(word: word) returns (y: word)
    ensures y == (if word == 0 then 0x1_0000_0000 else Top(word, 0)) - 1
    ensures word != 0 ==> y < 32
  {
    var x := word;
    y := 0x1_0000_0000 - 1;
    ghost var n := 0;
    DoubledByWord(1);
    TopBound(word, 32);
    while x != 0
      invariant 0 <= x < 0x1_0000_0000 && Top(word, 0) == n + Top(x, 0) && y == (if n == 0 then 0x1_0000_0000 else n) - 1
      decreases x
    {
      x := x / 2;
      y := (y + 1) % 0x1_0000_0000;
      n := n + 1;
    }
  }

  /** How a 64-bit unsigned result narrows to the int that is returned. */
  function ToInt(x: nat): int {
    var w := x % 0x1_0000_0000;
    if w < 0x1_0000_0000 / 2 then w else w - 0x1_0000_0000
  }

  /** -log2 - 1 - 32 * n: the first two in 32 bits, the rest in 64, and then an int. */
  function Negative(y: word, n: nat): (r: int)
    requires y < 32 && n < 9
    ensures r == -(y + 1 + 32 * n)
  {
    var low := ((0x1_0000_0000 - y) % 0x1_0000_0000 + 0x1_0000_0000 - 1) % 0x1_0000_0000;
    assert low == 0x1_0000_0000 - 1 - y;
    ToInt((low - 32 * n) % (0x1_0000_0000 * 0x1_0000_0000))
  }

  function Positive(y: word, n: nat): (r: int)
    requires y < 32 && n < 9
    ensures r == y + 1 + 32 * n
  {
    ToInt(((y + 1) % 0x1_0000_0000 + 32 * n) % (0x1_0000_0000 * 0x1_0000_0000))
  }

  /** The comparison of two Coins, in the mixed unsigned arithmetic of the original, is the signed bit
      distance of the two keys. */
  method CompareWords(ka: CoinWords, kb: CoinWords) returns (r: int)
    ensures r == Compare(KeyOf(ka), KeyOf(kb))
  {
    var n := 9;
    while n > 0
      invariant 0 <= n <= 9 && ka[n..] == kb[n..]
    {
      n := n - 1;
      var a, b := ka[n], kb[n];
      assert ka[n..] == [a] + ka[n + 1..] && kb[n..] == [b] + kb[n + 1..];
      if a != b {
        TopOfWords(ka, kb, n);
        TopOfXor(a, b);
        XorIsWord(a, b);
        var y := Log2(Xor(a, b));
        if a > b {
          ValueOrders(kb, ka, n);
          return Negative(y, n);
        } else {
          ValueOrders(ka, kb, n);
          return Positive(y, n);
        }
      }
    }
    assert ka[0..] == ka && kb[0..] == kb;
    return 0;
  }

  lemma {:induction false} XorBound(a: nat, b: nat, s: nat)
    requires a < Doubled(1, s) && b < Doubled(1, s)
    ensures Xor(a, b) < Doubled(1, s)
    decreases s
  {
    if s > 0 {
      XorBound(a / 2, b / 2, s - 1);
    }
  }

  lemma XorIsWord(a: word, b: word)
    ensures Xor(a, b) < 0x1_0000_0000
  {
    DoubledByWord(1);
    XorBound(a, b, 32);
  }

  /** The same comparison, seen from the words: it is zero on equal Coins, changes sign when its
      arguments change places, and its sign is the numeric order of the keys. */
  lemma CompareIsSignedDistance(ka: CoinWords, kb: CoinWords)
    ensures var r := Compare(KeyOf(ka), KeyOf(kb));
      && (r == 0 <==> ka == kb)
      && r == -Compare(KeyOf(kb), KeyOf(ka))
      && (r > 0 <==> Value(ka) < Value(kb))
      && Abs(r) <= KEY_BITS
  {
    TopSymmetric(Value(ka), Value(kb));
    KeyDistance(KeyOf(ka), KeyOf(kb));
    ValueIsInjective(ka, kb);
  }

  lemma {:induction false} ValueIsInjective(a: seq<word>, b: seq<word>)
    requires |a| == |b|
    ensures Value(a) == Value(b) ==> a == b
  {
    if a != [] {
      ValueIsInjective(a[1..], b[1..]);
      assert a == [a[0]] + a[1..] && b == [b[0]] + b[1..];
    }
  }
}
