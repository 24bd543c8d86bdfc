/** A row of words seen as a row of bytes, the least significant byte first. */
module WordBytes {
  import opened Words

  function ByteAt(w: word, j: nat): (b: nat)
    requires j < 4
    ensures b < 256
  {
    if j == 0 then w % 0x100
    else if j == 1 then (w / 0x100) % 0x100
    else if j == 2 then (w / 0x1_0000) % 0x100
    else w / 0x100_0000
  }

  /** A byte in its place within a word. */
  function InPlace(b: nat, j: nat): nat
    requires j < 4
  {
    if j == 0 then b else if j == 1 then 0x100 * b else if j == 2 then 0x1_0000 * b else 0x100_0000 * b
  }

  /** The lowest j bytes of a word. */
  function Part(w: word, j: nat): nat
    requires j < 4
  {
    if j == 0 then 0 else if j == 1 then w % 0x100 else if j == 2 then w % 0x1_0000 else w % 0x100_0000
  }

  lemma TakeApart(b: nat, rest: nat)
    requires b < 256
    ensures (b + 0x100 * rest) % 0x100 == b && (b + 0x100 * rest) / 0x100 == rest
  {
  }

  lemma TakeTwice(w: nat)
    ensures w / 0x1_0000 == (w / 0x100) / 0x100 && w / 0x100_0000 == (w / 0x1_0000) / 0x100
  {
  }

  function FromBytes(b0: nat, b1: nat, b2: nat, b3: nat): (w: word)
    requires b0 < 256 && b1 < 256 && b2 < 256 && b3 < 256
    ensures ByteAt(w, 0) == b0 && ByteAt(w, 1) == b1 && ByteAt(w, 2) == b2 && ByteAt(w, 3) == b3
  {
    TakeApart(b0, b1 + 0x100 * (b2 + 0x100 * b3));
    TakeApart(b1, b2 + 0x100 * b3);
    TakeApart(b2, b3);
    TakeTwice(b0 + 0x100 * b1 + 0x1_0000 * b2 + 0x100_0000 * b3);
    b0 + 0x100 * b1 + 0x1_0000 * b2 + 0x100_0000 * b3
  }

  lemma WordIsItsBytes(w: word)
    ensures w == FromBytes(ByteAt(w, 0), ByteAt(w, 1), ByteAt(w, 2), ByteAt(w, 3))
  {
    assert w / 0x1_0000 == (w / 0x100) / 0x100 && w / 0x100_0000 == (w / 0x1_0000) / 0x100;
  }

  lemma SecondByte(w: nat, q: nat, r: nat)
    requires w == 0x100 * q + r && r < 0x100
    ensures w % 0x1_0000 == 0x100 * (q % 0x100) + r
  {
    assert w == 0x1_0000 * (q / 0x100) + (0x100 * (q % 0x100) + r);
  }

  lemma ThirdByte(w: nat, q: nat, r: nat)
    requires w == 0x1_0000 * q + r && r < 0x1_0000
    ensures w % 0x100_0000 == 0x1_0000 * (q % 0x100) + r
  {
    assert w == 0x100_0000 * (q / 0x100) + (0x1_0000 * (q % 0x100) + r);
  }

  lemma PartGrows(w: word, j: nat)
    requires j < 4
    ensures Part(w, j) + InPlace(ByteAt(w, j), j) == if j < 3 then Part(w, j + 1) else w
  {
    if j == 1 {
      SecondByte(w, w / 0x100, w % 0x100);
    } else if j == 2 {
      ThirdByte(w, w / 0x1_0000, w % 0x1_0000);
    }
  }

  /** A word with byte j replaced. */
  function WithByte(w: word, j: nat, b: nat): (v: word)
    requires j < 4 && b < 256
    ensures v as int + InPlace(ByteAt(w, j), j) == w as int + InPlace(b, j)
    ensures forall i | 0 <= i < 4 :: ByteAt(v, i) == if i == j then b else ByteAt(w, i)
  {
    WordIsItsBytes(w);
    var b0, b1, b2, b3 := ByteAt(w, 0), ByteAt(w, 1), ByteAt(w, 2), ByteAt(w, 3);
    if j == 0 then FromBytes(b, b1, b2, b3)
    else if j == 1 then FromBytes(b0, b, b2, b3)
    else if j == 2 then FromBytes(b0, b1, b, b3)
    else FromBytes(b0, b1, b2, b)
  }

  /** Byte p of a row of words counts for its value shifted left by p bytes. */
  lemma PlaceOfByte(b: nat, p: nat)
    ensures Lift(InPlace(b, p % 4), p / 4) == Doubled(b, 8 * p)
  {
    var m, j := p / 4, p % 4;
    DoubledByByte(b);
    DoubledByTwoBytes(b);
    DoubledByByte(Doubled(b, 16));
    DoubledTwice(b, 16, 8);
    assert InPlace(b, j) == Doubled(b, 8 * j);
    LiftIsDoubled(Doubled(b, 8 * j), m);
    DoubledTwice(b, 8 * j, 32 * m);
  }

  /** What the lowest p bytes of a row of words are worth. */
  ghost function LowBytes(w: seq<word>, p: nat): nat
    requires p <= 4 * |w|
  {
    Value(w[..p / 4]) + if p % 4 == 0 then 0 else Lift(Part(w[p / 4], p % 4), p / 4)
  }

  lemma LowBytesStep(w: seq<word>, p: nat)
    requires p < 4 * |w|
    ensures LowBytes(w, p + 1) == LowBytes(w, p) + Doubled(ByteAt(w[p / 4], p % 4), 8 * p)
  {
    var m, j := p / 4, p % 4;
    var x := w[m];
    var b := ByteAt(x, j);
    PartGrows(x, j);
    PlaceOfByte(b, p);
    LiftAdds(Part(x, j), InPlace(b, j), m);
    if j == 3 {
      assert (p + 1) / 4 == m + 1;
      ValueGrows(w, m);
    } else {
      assert (p + 1) / 4 == m;
    }
  }
}
