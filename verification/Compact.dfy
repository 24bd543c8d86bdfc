/** The compact form of a target: one byte of size and the three most significant bytes. */
module Compact {
  import opened Bytes
  import opened Mpi
  import opened Octets
  import opened Words

  function ByteOrZero(p: seq<byte>, i: nat): byte {
    if i < |p| then p[i] else 0
  }

  /** The first three bytes, or as many as there are. */
  function Mantissa(p: seq<byte>): (m: nat)
    ensures m < 0x100_0000
    ensures p != [] && p[0] < 0x80 ==> m < 0x80_0000
  {
    0x1_0000 * ByteOrZero(p, 0) as int + 0x100 * ByteOrZero(p, 1) as int + ByteOrZero(p, 2) as int
  }

  /** GetCompact. */
  function Compacted(n: int): int {
    var p := ToMpi(n);
    ToInt32(0x100_0000 * (|p| % 0x100) + Mantissa(p))
  }

  function Size(c: nat): nat {
    c / 0x100_0000
  }

  function Body(size: nat, b0: byte, b1: byte, b2: byte): (p: seq<byte>)
    ensures |p| == size
  {
    if size == 0 then [] else if size == 1 then [b0] else if size == 2 then [b0, b1] else [b0, b1, b2] + Zeros(size - 3)
  }

  /** The byte form that SetCompact builds: the three bytes it has, and zeros. */
  function Payload(c: nat): (p: seq<byte>)
    ensures |p| == Size(c)
  {
    Body(Size(c), (c / 0x1_0000) % 0x100, (c / 0x100) % 0x100, c % 0x100)
  }

  /** SetCompact, where the sign bit of the int is clear. */
  function Decompacted(c: nat): int {
    FromMpi(Payload(c))
  }

  lemma SignAndBack(u: nat)
    requires u < 0x1_0000_0000
    ensures -0x8000_0000 <= ToInt32(u) < 0x8000_0000 && ToInt32(u) % 0x1_0000_0000 == u
  {
  }

  /** What a number is packed to, byte by byte: in 32 bits its size, as far as a byte holds it, and its
      first three bytes. */
  lemma CompactBytes(n: int, word: nat)
    requires word == Compacted(n) % 0x1_0000_0000
    ensures -0x8000_0000 <= Compacted(n) < 0x8000_0000
    ensures var p := ToMpi(n);
      && word / 0x100_0000 == |p| % 0x100
      && (|p| >= 1 ==> (word / 0x1_0000) % 0x100 == p[0] as int)
      && (|p| >= 2 ==> (word / 0x100) % 0x100 == p[1] as int)
      && (|p| >= 3 ==> word % 0x100 == p[2] as int)
  {
    var p := ToMpi(n);
    var u := 0x100_0000 * (|p| % 0x100) + Mantissa(p);
    SignAndBack(u);
    PartsOfCompact(u, |p| % 0x100, ByteOrZero(p, 0), ByteOrZero(p, 1), ByteOrZero(p, 2));
  }

  /** What the compact form says: 23 bits, shifted left by the size less three bytes or right by what it is
      short of three, and negative when bit 23 is set. */
  lemma CompactSays(c: nat, size: nat, bits: nat, negative: bool)
    requires size == c / 0x100_0000 && bits == c % 0x80_0000 && (negative <==> (c / 0x80_0000) % 2 == 1)
    ensures var m := if size >= 3 then Doubled(bits, 8 * (size - 3))
      else if size == 2 then bits / 0x100 else if size == 1 then bits / 0x1_0000 else 0;
      Decompacted(c) == if negative then -m else m
  {
    var b0, b1, b2 := (c / 0x1_0000) % 0x100, (c / 0x100) % 0x100, c % 0x100;
    BitsOfCompact(c);
    ThreeBytes(b0 % 0x80, b1, b2);
    if size >= 3 {
      var zeros := Zeros(size - 3);
      assert Unsigned(Payload(c)) == [b0 % 0x80, b1, b2] + zeros;
      BigEndianSplits([b0 % 0x80, b1, b2], zeros);
      BigEndianOfZeros(zeros);
    } else if size == 2 {
      assert Unsigned(Payload(c)) == [b0 % 0x80, b1];
    } else if size == 1 {
      assert Unsigned(Payload(c)) == [b0 % 0x80];
    }
  }

  lemma BitsOfCompact(c: nat)
    ensures var b0, b1, b2 := (c / 0x1_0000) % 0x100, (c / 0x100) % 0x100, c % 0x100;
      && c % 0x80_0000 == 0x1_0000 * (b0 % 0x80) + 0x100 * b1 + b2
      && ((c / 0x80_0000) % 2 == 1 <==> b0 >= 0x80)
  {
    var b0, b1, b2, h := (c / 0x1_0000) % 0x100, (c / 0x100) % 0x100, c % 0x100, c / 0x100_0000;
    BytesOfCompact(c);
    assert c == 0x100_0000 * h + 0x1_0000 * b0 + 0x100 * b1 + b2;
    LowBits(c, 2 * h + b0 / 0x80, 0x1_0000 * (b0 % 0x80) + 0x100 * b1 + b2);
  }

  lemma LowBits(c: nat, q: nat, low: nat)
    requires c == 0x80_0000 * q + low && low < 0x80_0000
    ensures c % 0x80_0000 == low && c / 0x80_0000 == q
  {
  }

  lemma ThreeBytes(b0: byte, b1: byte, b2: byte)
    ensures BigEndian([b0]) == b0 && BigEndian([b0, b1]) == 0x100 * b0 as int + b1 as int
    ensures BigEndian([b0, b1, b2]) == 0x1_0000 * b0 as int + 0x100 * b1 as int + b2 as int
  {
    assert [b0, b1, b2][..2] == [b0, b1] && [b0, b1][..1] == [b0] && [b0][..0] == [];
  }

  /** p with everything after its third byte zeroed. */
  function Cut(p: seq<byte>): (q: seq<byte>)
    ensures |q| == |p|
  {
    if |p| <= 3 then p else p[..3] + Zeros(|p| - 3)
  }

  lemma PartsOfCompact(c: nat, size: nat, b0: byte, b1: byte, b2: byte)
    requires c == 0x100_0000 * size + (0x1_0000 * b0 as int + 0x100 * b1 as int + b2 as int)
    ensures c / 0x100_0000 == size && (c / 0x1_0000) % 0x100 == b0 as int
    ensures (c / 0x100) % 0x100 == b1 as int && c % 0x100 == b2 as int
  {
    assert c / 0x100 == 0x1_0000 * size + (0x100 * b0 as int + b1 as int);
    assert c / 0x1_0000 == 0x100 * size + b0 as int;
  }

  lemma CutIsBody(p: seq<byte>)
    ensures Cut(p) == Body(|p|, ByteOrZero(p, 0), ByteOrZero(p, 1), ByteOrZero(p, 2))
  {
    assert |p| > 3 ==> p[..3] == [p[0], p[1], p[2]];
  }

  /** What is unpacked from a packed body is the body cut off. */
  lemma PackedIsCut(p: seq<byte>, c: nat)
    requires c == 0x100_0000 * |p| + Mantissa(p)
    ensures Payload(c) == Cut(p)
  {
    PartsOfCompact(c, |p|, ByteOrZero(p, 0), ByteOrZero(p, 1), ByteOrZero(p, 2));
    CutIsBody(p);
  }

  /** The byte form of a positive number, and what its size says about it. */
  lemma PositiveBody(x: nat)
    requires x > 0
    ensures var p := ToMpi(x);
      && p != [] && p[0] < 0x80 && Minimal(p) && x == BigEndian(p)
      && Doubled(1, 8 * |p| - 8) <= 2 * x < Doubled(1, 8 * |p|)
  {
    var p := ToMpi(x);
    MpiReadsBack(x);
    SpelledReadsBack(x);
    SignedReadsBack(Spelled(x), false);
    assert Unsigned(p) == p;
    BodyBounds(p);
  }

  /** The first byte decides within a factor. */
  lemma FirstByte(p: seq<byte>, m: nat)
    requires p != [] && m == 8 * |p| - 8
    ensures Doubled(p[0], m) <= BigEndian(p) < Doubled(p[0] as int + 1, m)
  {
    BigEndianSplits([p[0]], p[1..]);
    assert p == [p[0]] + p[1..] && BigEndian([p[0]]) == p[0];
    BigEndianBound(p[1..]);
    DoubledAdds(p[0], 1, m);
  }

  lemma TwiceHalf(m: nat)
    ensures 2 * Doubled(0x80, m) == Doubled(1, m + 8)
  {
    DoubledAdds(0x80, 0x80, m);
    DoubledByByte(1);
    DoubledTwice(1, 8, m);
  }

  lemma BodyBounds(p: seq<byte>)
    requires p != [] && p[0] < 0x80 && Minimal(p)
    ensures Doubled(1, 8 * |p| - 8) <= 2 * BigEndian(p) < Doubled(1, 8 * |p|)
  {
    var m := 8 * |p| - 8;
    FirstByte(p, m);
    DoubledGrows(p[0] as int + 1, 0x80, m);
    TwiceHalf(m);
    if p[0] > 0 {
      DoubledGrows(1, p[0], m);
    } else {
      PaddedBody(p, m);
    }
  }

  lemma PaddedBody(p: seq<byte>, m: nat)
    requires |p| > 1 && p[0] == 0 && p[1] >= 0x80 && m == 8 * |p| - 8
    ensures Doubled(1, m) <= 2 * BigEndian(p)
  {
    assert p == [0] + p[1..];
    LeadingZero(p[1..]);
    FirstByte(p[1..], m - 8);
    DoubledGrows(0x80, p[1], m - 8);
    TwiceHalf(m - 8);
  }

  /** What cutting takes away is less than one part in 2 to the 15. */
  lemma CutBounds(p: seq<byte>)
    requires p != [] && p[0] < 0x80 && Minimal(p)
    ensures 0 < BigEndian(Cut(p)) <= BigEndian(p)
    ensures 0x8000 * (BigEndian(p) - BigEndian(Cut(p))) < BigEndian(p)
  {
    if |p| <= 3 {
      BodyBounds(p);
      DoubledGrowsUp(1, 8 * |p| - 8);
    } else {
      CutLosesTail(p, BigEndian(p[..3]), 8 * (|p| - 3));
      HeadIsLarge(p);
      CutLoss(BigEndian(p[..3]), 8 * (|p| - 3), BigEndian(p[3..]));
    }
  }

  lemma CutLosesTail(p: seq<byte>, head: nat, m: nat)
    requires |p| > 3 && head == BigEndian(p[..3]) && m == 8 * (|p| - 3)
    ensures BigEndian(Cut(p)) == Doubled(head, m)
    ensures BigEndian(p) == Doubled(head, m) + BigEndian(p[3..]) && BigEndian(p[3..]) < Doubled(1, m)
  {
    var rest, zeros := p[3..], Zeros(|p| - 3);
    assert p == p[..3] + rest;
    BigEndianSplits(p[..3], rest);
    BigEndianSplits(p[..3], zeros);
    BigEndianOfZeros(zeros);
    BigEndianBound(rest);
  }

  lemma CutLoss(head: nat, m: nat, rest: nat)
    requires head >= 0x8000 && rest < Doubled(1, m)
    ensures Doubled(head, m) > 0 && 0x8000 * rest < Doubled(head, m) + rest
  {
    DoubledGrows(0x8000, head, m);
    DoubledTimes15(m);
  }

  lemma HeadIsLarge(p: seq<byte>)
    requires |p| > 3 && Minimal(p) && p[0] < 0x80
    ensures BigEndian(p[..3]) >= 0x8000
  {
    var h := p[..3];
    assert h[..2] == [h[0], h[1]] && h[..2][..1] == [h[0]];
    assert BigEndian([h[0]]) == h[0] && BigEndian([h[0], h[1]]) == 0x100 * h[0] as int + h[1] as int;
    assert BigEndian(h) == 0x100 * BigEndian(h[..2]) + h[2];
  }

  lemma DoubledTimes15(m: nat)
    ensures Doubled(0x8000, m) == 0x8000 * Doubled(1, m)
  {
    var u := Doubled(1, m);
    DoubledByTwoBytes(1);
    DoubledAdds(0x8000, 0x8000, m);
    DoubledTwice(1, 16, m);
    DoubledTwice(1, m, 16);
    DoubledByTwoBytes(u);
  }

  // ------------------------------------------------------------------ main results

  /** The numbers whose size fits the compact form without touching its sign bit. */
  predicate Compactable(x: nat) {
    |ToMpi(x)| < 0x80
  }

  lemma CompactOfPositive(x: nat)
    requires x > 0 && Compactable(x)
    ensures Compacted(x) == 0x100_0000 * |ToMpi(x)| + Mantissa(ToMpi(x))
    ensures Mantissa(ToMpi(x)) < 0x80_0000 && BigEndian(ToMpi(x)) == x
  {
    PositiveBody(x);
  }

  /** Packing and unpacking a positive number loses less than one part in 2 to the 15, never adds, and
      packing what came back changes nothing. */
  lemma CompactRoundsDown(x: nat)
    requires x > 0 && Compactable(x)
    ensures 0 <= Compacted(x) < 0x8000_0000
    ensures var y := Decompacted(Compacted(x));
      0 < y <= x && 0x8000 * (x - y) < x && Compacted(y) == Compacted(x)
  {
    PositiveBody(x);
    CompactOfPositive(x);
    Unpacked(ToMpi(x), Compacted(x));
    Repacked(ToMpi(x), Decompacted(Compacted(x)));
    CutBounds(ToMpi(x));
  }

  lemma Unpacked(p: seq<byte>, c: nat)
    requires c == 0x100_0000 * |p| + Mantissa(p)
    ensures Decompacted(c) == FromMpi(Cut(p))
  {
    PackedIsCut(p, c);
  }

  lemma Repacked(p: seq<byte>, y: int)
    requires p != [] && p[0] < 0x80 && Minimal(p) && |p| < 0x80 && y == FromMpi(Cut(p))
    ensures y == BigEndian(Cut(p)) && Compacted(y) == 0x100_0000 * |p| + Mantissa(p)
  {
    CutIsWritten(p);
    CompactOfBody(y, Cut(p));
  }

  lemma CompactOfBody(n: int, q: seq<byte>)
    requires ToMpi(n) == q && |q| < 0x80
    ensures Compacted(n) == 0x100_0000 * |q| + Mantissa(q)
  {
  }

  lemma CutIsWritten(p: seq<byte>)
    requires p != [] && p[0] < 0x80 && Minimal(p)
    ensures var q := Cut(p); FromMpi(q) == BigEndian(q) && ToMpi(FromMpi(q)) == q && Mantissa(q) == Mantissa(p)
  {
    assert Unsigned(Cut(p)) == Cut(p);
    MinimalIsWritten(Cut(p));
  }

  lemma SizeIsMonotone(x: nat, x': nat)
    requires 0 < x <= x'
    ensures |ToMpi(x)| <= |ToMpi(x')|
  {
    var n, n' := |ToMpi(x)|, |ToMpi(x')|;
    PositiveBody(x);
    PositiveBody(x');
    if n > n' {
      DoubledTwice(1, 8 * n', 8 * n - 8 - 8 * n');
      DoubledGrowsUp(Doubled(1, 8 * n'), 8 * n - 8 - 8 * n');
    }
  }

  /** A larger number never has a smaller compact form. */
  lemma CompactIsMonotone(x: nat, x': nat)
    requires 0 < x <= x' && Compactable(x')
    ensures Compactable(x) && Compacted(x) <= Compacted(x')
  {
    SizeIsMonotone(x, x');
    CompactOfPositive(x);
    CompactOfPositive(x');
    if |ToMpi(x)| == |ToMpi(x')| {
      MantissaIsMonotone(ToMpi(x), ToMpi(x'));
    }
  }

  lemma HeadIsMonotone(p: seq<byte>, q: seq<byte>, k: nat)
    requires |p| == |q| >= k && BigEndian(p) <= BigEndian(q)
    ensures BigEndian(p[..k]) <= BigEndian(q[..k])
  {
    var m := 8 * (|p| - k);
    assert p == p[..k] + p[k..] && q == q[..k] + q[k..];
    BigEndianSplits(p[..k], p[k..]);
    BigEndianSplits(q[..k], q[k..]);
    BigEndianBound(q[k..]);
    HeadsCompare(BigEndian(p[..k]), BigEndian(p[k..]), BigEndian(q[..k]), BigEndian(q[k..]), m);
  }

  lemma HeadsCompare(a: nat, r: nat, b: nat, t: nat, m: nat)
    requires Doubled(a, m) + r <= Doubled(b, m) + t && t < Doubled(1, m)
    ensures a <= b
  {
    if a > b {
      DoubledAdds(b, 1, m);
      DoubledGrows(b + 1, a, m);
    }
  }

  lemma MantissaIsMonotone(p: seq<byte>, q: seq<byte>)
    requires |p| == |q| && BigEndian(p) <= BigEndian(q)
    ensures Mantissa(p) <= Mantissa(q)
  {
    if |p| <= 3 {
      ShortMantissa(p);
      ShortMantissa(q);
    } else {
      HeadIsMonotone(p, q, 3);
      ShortMantissa(p[..3]);
      ShortMantissa(q[..3]);
      assert Mantissa(p) == Mantissa(p[..3]) && Mantissa(q) == Mantissa(q[..3]);
    }
  }

  lemma ShortMantissa(p: seq<byte>)
    requires |p| <= 3
    ensures Mantissa(p) == BigEndian(p) * (if |p| == 3 then 1 else if |p| == 2 then 0x100 else if |p| == 1 then 0x1_0000 else 0x100_0000)
  {
    if |p| == 1 {
      assert p[..0] == [];
    } else if |p| == 2 {
      assert p[..1] == [p[0]] && BigEndian([p[0]]) == p[0];
    } else if |p| == 3 {
      assert p[..2] == [p[0], p[1]] && p[..2][..1] == [p[0]];
      assert BigEndian([p[0]]) == p[0] && BigEndian([p[0], p[1]]) == 0x100 * p[0] as int + p[1] as int;
    }
  }

  /** Every 256-bit number is among them. */
  lemma HashesAreCompactable(x: nat)
    requires x < 0x1_00000000_00000000_00000000_00000000_00000000_00000000_00000000_00000000
    ensures Compactable(x)
  {
    LiftIsDoubled(1, 8);
    SpelledIsShort(x, 32);
  }

  /** No bits are set where the size says there are no bytes. */
  predicate Tidy(c: nat) {
    && (Size(c) == 0 ==> c % 0x100_0000 == 0)
    && (Size(c) == 1 ==> c % 0x1_0000 == 0)
    && (Size(c) == 2 ==> c % 0x100 == 0)
  }

  /** Unpacking and packing again is the identity exactly on canonical forms: no stray bits, and no
      byte that could be left off the front. */
  lemma CompactIdentity(c: nat)
    requires c < 0x8000_0000
    ensures Compacted(Decompacted(c)) == c <==> Tidy(c) && Minimal(Payload(c))
  {
    if Tidy(c) && Minimal(Payload(c)) {
      CanonicalIsKept(c);
    }
    if Compacted(Decompacted(c)) == c {
      KeptIsCanonical(c);
    }
  }

  lemma CanonicalIsKept(c: nat)
    requires c < 0x8000_0000 && Tidy(c) && Minimal(Payload(c))
    ensures Compacted(Decompacted(c)) == c
  {
    MinimalIsWritten(Payload(c));
    BytesOfCompact(c);
    CompactOfBody(Decompacted(c), Payload(c));
  }

  lemma KeptIsCanonical(c: nat)
    requires c < 0x8000_0000 && Compacted(Decompacted(c)) == c
    ensures Tidy(c) && Minimal(Payload(c))
  {
    var p := Payload(c);
    var q := ToMpi(FromMpi(p));
    WrittenIsNoLonger(p);
    MpiReadsBack(FromMpi(p));
    SameCompact(c, q);
  }

  /** A body that packs to c has the size and the first bytes that c says, and c no others. */
  lemma SameCompact(c: nat, q: seq<byte>)
    requires c < 0x8000_0000 && |q| <= Size(c) + 1
    requires ToInt32(0x100_0000 * (|q| % 0x100) + Mantissa(q)) == c
    ensures |q| == Size(c) && Tidy(c)
    ensures (|q| > 0 ==> Payload(c)[0] == q[0]) && (|q| > 1 ==> Payload(c)[1] == q[1])
  {
    assert |q| % 0x100 == |q|;
    PartsOfCompact(c, |q|, ByteOrZero(q, 0), ByteOrZero(q, 1), ByteOrZero(q, 2));
    BytesOfCompact(c);
  }

  lemma BytesOfCompact(c: nat)
    ensures c == 0x100_0000 * Size(c) + 0x1_0000 * ((c / 0x1_0000) % 0x100) + 0x100 * ((c / 0x100) % 0x100) + c % 0x100
    ensures Tidy(c) <==> c == 0x100_0000 * Size(c) + Mantissa(Payload(c))
  {
    assert c / 0x1_0000 == (c / 0x100) / 0x100 && c / 0x100_0000 == (c / 0x1_0000) / 0x100;
  }

  lemma WrittenIsNoLonger(p: seq<byte>)
    ensures |ToMpi(FromMpi(p))| <= |p| + 1
  {
    BigEndianBound(Unsigned(p));
    SpelledIsShort(BigEndian(Unsigned(p)), |p|);
  }
}
