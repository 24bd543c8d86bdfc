/** Bytes, and the numbers they spell out most significant byte first. */
module Bytes {
  import opened Octets
  import opened Words

  function BigEndian(s: seq<byte>): nat {
    if s == [] then 0 else 256 * BigEndian(s[..|s| - 1]) + s[|s| - 1]
  }

  /** The shortest bytes that spell a number; none for zero. */
  function Spelled(n: nat): (s: seq<byte>)
    ensures n > 0 ==> s != [] && s[0] != 0
    ensures n == 0 ==> s == []
  {
    if n == 0 then [] else Spelled(n / 256) + [n % 256]
  }

  lemma {:induction false} SpelledReadsBack(n: nat)
    ensures BigEndian(Spelled(n)) == n
  {
    if n > 0 {
      SpelledReadsBack(n / 256);
      assert Spelled(n)[..|Spelled(n)| - 1] == Spelled(n / 256);
    }
  }

  lemma {:induction false} ShortestIsSpelled(s: seq<byte>)
    requires s != [] ==> s[0] != 0
    ensures Spelled(BigEndian(s)) == s
    ensures s != [] ==> BigEndian(s) > 0
  {
    if s != [] {
      var t := s[..|s| - 1];
      assert s == t + [s[|s| - 1]];
      ShortestIsSpelled(t);
    }
  }

  lemma {:induction false} BigEndianSplits(s: seq<byte>, t: seq<byte>)
    ensures BigEndian(s + t) == Doubled(BigEndian(s), 8 * |t|) + BigEndian(t)
    decreases |t|
  {
    if t == [] {
      assert s + t == s;
    } else {
      var t' := t[..|t| - 1];
      BigEndianSplits(s, t');
      assert (s + t)[..|s + t| - 1] == s + t';
      DoubledTwice(BigEndian(s), 8 * |t'|, 8);
      DoubledByByte(Doubled(BigEndian(s), 8 * |t'|));
    }
  }

  lemma {:induction false} BigEndianBound(s: seq<byte>)
    ensures BigEndian(s) < Doubled(1, 8 * |s|)
  {
    if s != [] {
      BigEndianBound(s[..|s| - 1]);
      DoubledTwice(1, 8 * |s[..|s| - 1]|, 8);
      DoubledByByte(Doubled(1, 8 * |s[..|s| - 1]|));
    }
  }

  lemma {:induction false} BigEndianOfZeros(s: seq<byte>)
    requires forall i | 0 <= i < |s| :: s[i] == 0
    ensures BigEndian(s) == 0
  {
    if s != [] {
      BigEndianOfZeros(s[..|s| - 1]);
    }
  }

  lemma {:induction false} SpelledIsShort(n: nat, k: nat)
    requires n < Doubled(1, 8 * k)
    ensures |Spelled(n)| <= k
  {
    if n > 0 {
      if k == 0 {
      } else {
        DoubledTwice(1, 8 * (k - 1), 8);
        DoubledByByte(Doubled(1, 8 * (k - 1)));
        SpelledIsShort(n / 256, k - 1);
      }
    }
  }

  // ------------------------------------------------------------------ least significant byte first

  /** The number that bytes spell, the least significant first. */
  function LittleEndian(s: seq<byte>): nat {
    if s == [] then 0 else s[0] + 256 * LittleEndian(s[1..])
  }

  lemma {:induction false} LittleEndianBound(s: seq<byte>)
    ensures LittleEndian(s) < Doubled(1, 8 * |s|)
  {
    if s != [] {
      LittleEndianBound(s[1..]);
      DoubledTwice(1, 8 * |s[1..]|, 8);
      DoubledByByte(Doubled(1, 8 * |s[1..]|));
    }
  }

  /** The first n bytes of a number, the least significant first. */
  function LowFirst(x: nat, n: nat): (s: seq<byte>)
    ensures |s| == n
    decreases n
  {
    if n == 0 then [] else [x % 256] + LowFirst(x / 256, n - 1)
  }

  lemma FourDigits(x: nat, y: nat, z: nat, w: nat)
    requires y == x / 256 && z == y / 256 && w == z / 256
    ensures x % 0x1_0000_0000 == x % 256 + 256 * (y % 256 + 256 * (z % 256 + 256 * (w % 256)))
    ensures x < 0x100 ==> y == 0
    ensures x < 0x1_0000 ==> z == 0
  {
    FourResidue(x % 256 + 256 * (y % 256 + 256 * (z % 256 + 256 * (w % 256))), w / 256, x);
  }

  lemma FourResidue(low: nat, q: nat, x: nat)
    requires x == low + 0x1_0000_0000 * q && low < 0x1_0000_0000
    ensures x % 0x1_0000_0000 == low
  {
  }

  function Reverse<T>(s: seq<T>): (r: seq<T>)
    ensures |r| == |s| && forall i {:trigger r[i]} | 0 <= i < |s| :: r[i] == s[|s| - 1 - i]
  {
    if s == [] then [] else Reverse(s[1..]) + [s[0]]
  }

  lemma ReverseSnoc<T>(s: seq<T>, x: T)
    ensures Reverse(s + [x]) == [x] + Reverse(s)
  {
  }

  /** The two orders are each other's reverse. */
  lemma {:induction false} LittleIsBigReversed(s: seq<byte>)
    ensures LittleEndian(s) == BigEndian(Reverse(s))
  {
    if s != [] {
      LittleIsBigReversed(s[1..]);
      assert Reverse(s)[..|s| - 1] == Reverse(s[1..]);
    }
  }

  /** What comes first in which order. */
  lemma TwoBytes(a: byte, b: byte)
    ensures BigEndian([a, b]) == 256 * a as int + b as int && LittleEndian([a, b]) == a as int + 256 * b as int
  {
    assert [a, b][..1] == [a] && [a, b][1..] == [b] && [a][..0] == [];
    assert BigEndian([a]) == a && LittleEndian([b]) == b;
  }

  lemma ReverseTwice<T>(s: seq<T>)
    ensures Reverse(Reverse(s)) == s
  {
  }
}
