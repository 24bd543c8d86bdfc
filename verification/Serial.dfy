/** The bytes that an output is serialized to. */
module Serial {
  import opened Bytes
  import opened Keys
  import opened Octets
  import opened Tries
  import opened WordBytes
  import opened Words

  predicate Fits(n: nat, width: nat)
    decreases width
  {
    if width == 0 then n == 0 else Fits(n / 256, width - 1)
  }

  lemma {:induction false} LowFirstInjective(m: nat, n: nat, width: nat)
    requires Fits(m, width) && Fits(n, width) && LowFirst(m, width) == LowFirst(n, width)
    ensures m == n
    decreases width
  {
    if width > 0 {
      var s, t := LowFirst(m, width), LowFirst(n, width);
      assert s[0] == t[0] && s[1..] == t[1..];
      assert s[1..] == LowFirst(m / 256, width - 1) && t[1..] == LowFirst(n / 256, width - 1);
      LowFirstInjective(m / 256, n / 256, width - 1);
    }
  }

  lemma {:induction false} NumberReadsBack(s: seq<byte>, width: nat)
    requires |s| <= width
    ensures LowFirst(LittleEndian(s), width)[..|s|] == s
    decreases width
  {
    if s != [] {
      NumberReadsBack(s[1..], width - 1);
      TakeApart(s[0], LittleEndian(s[1..]));
      assert LowFirst(LittleEndian(s), width) == [s[0]] + LowFirst(LittleEndian(s[1..]), width - 1);
      assert LowFirst(LittleEndian(s), width)[..|s|] == [s[0]] + s[1..];
    }
  }

  lemma {:induction false} FittingReadsBack(n: nat, width: nat)
    requires Fits(n, width)
    ensures LittleEndian(LowFirst(n, width)) == n
    decreases width
  {
    if width > 0 {
      FittingReadsBack(n / 256, width - 1);
      assert LowFirst(n, width)[1..] == LowFirst(n / 256, width - 1);
    }
  }

  /** A number is its lowest bytes and a multiple of what comes after them. */
  lemma {:induction false} LowBytesAndRest(n: nat, width: nat) returns (rest: nat)
    ensures n == LittleEndian(LowFirst(n, width)) + Doubled(rest, 8 * width)
    decreases width
  {
    if width == 0 {
      rest := n;
    } else {
      rest := LowBytesAndRest(n / 256, width - 1);
      assert LowFirst(n, width)[1..] == LowFirst(n / 256, width - 1);
      DoubledTwice(rest, 8 * (width - 1), 8);
      DoubledByByte(Doubled(rest, 8 * (width - 1)));
    }
  }

  /** The lowest bytes are the residue. */
  lemma {:induction false} LowBytesAreResidue(n: nat, width: nat, bits: nat)
    requires bits == 8 * width
    ensures Doubled(1, bits) > 0 && LittleEndian(LowFirst(n, width)) == n % Doubled(1, bits)
  {
    var rest := LowBytesAndRest(n, width);
    LittleEndianBound(LowFirst(n, width));
    DoubledIsProduct(rest, bits);
    DoubledIsProduct(1, bits);
    QuotientIs(n, Pow2(bits), rest, LittleEndian(LowFirst(n, width)));
  }

  /** Two, four or eight of the lowest bytes are the number, as far as it fits. */
  lemma {:induction false} LengthReadsBack(n: nat, width: nat)
    ensures width == 2 ==> LittleEndian(LowFirst(n, width)) == n % 0x1_0000
    ensures width == 4 ==> LittleEndian(LowFirst(n, width)) == n % 0x1_0000_0000
    ensures width == 8 ==> LittleEndian(LowFirst(n, width)) == n % 0x1_0000_0000_0000_0000
  {
    LowBytesAreResidue(n, width, 8 * width);
    DoubledByTwoBytes(1);
    DoubledByWord(1);
    DoubledByTwoWords(1);
  }

  lemma BeginsWith(s: seq<byte>, width: nat, value: seq<byte>, rest: seq<byte>)
    requires |s| <= width
    ensures ((LowFirst(LittleEndian(s), width) + value) + rest)[..|s|] == s
  {
    NumberReadsBack(s, width);
    var f := LowFirst(LittleEndian(s), width);
    assert ((f + value) + rest)[..|s|] == f[..|s|];
  }

  // ------------------------------------------------------------------ what fits

  lemma TopOfByte(n: nat)
    ensures Top(n, 0) <= 8 + Top(n / 256, 0)
    ensures n / 256 > 0 ==> Top(n, 0) == 8 + Top(n / 256, 0)
  {
    TopOfNibble(n);
    TopOfNibble(n / 16);
    assert n / 16 / 16 == n / 256;
  }

  lemma TopOfNibble(n: nat)
    ensures Top(n, 0) <= 4 + Top(n / 16, 0)
    ensures n / 16 > 0 ==> Top(n, 0) == 4 + Top(n / 16, 0)
  {
    var a := n / 2;
    var b := a / 2;
    var c := b / 2;
    assert c / 2 == n / 16;
    assert Top(c, 0) <= 1 + Top(c / 2, 0) && Top(b, 0) <= 1 + Top(b / 2, 0);
    assert Top(a, 0) <= 1 + Top(a / 2, 0) && Top(n, 0) <= 1 + Top(n / 2, 0);
    if n / 16 > 0 {
      assert Top(c, 0) == 1 + Top(c / 2, 0) && Top(b, 0) == 1 + Top(b / 2, 0);
      assert Top(a, 0) == 1 + Top(a / 2, 0) && Top(n, 0) == 1 + Top(n / 2, 0);
    }
  }

  lemma {:induction false} ShortFits(n: nat, width: nat)
    requires Top(n, 0) <= 8 * width
    ensures Fits(n, width)
    decreases width
  {
    if width > 0 {
      TopOfByte(n);
      ShortFits(n / 256, width - 1);
    }
  }

  lemma {:induction false} NumberIsShort(s: seq<byte>)
    ensures Top(LittleEndian(s), 0) <= 8 * |s|
  {
    if s != [] {
      NumberIsShort(s[1..]);
      TakeApart(s[0], LittleEndian(s[1..]));
      TopOfByte(LittleEndian(s));
    }
  }

  /** A signed 64-bit number's bit pattern. */
  function Pattern(v: Amount): (n: nat)
    ensures n < 0x1_0000_0000_0000_0000
  {
    if v < 0 then v + 0x1_0000_0000_0000_0000 else v
  }

  lemma PatternFits(n: nat)
    requires n < 0x1_0000_0000_0000_0000
    ensures Fits(n, 8)
  {
    var a := n / 256;
    var b := a / 256;
    var c := b / 256;
    var d := c / 256;
    var e := d / 256;
    var f := e / 256;
    var g := f / 256;
    assert a < 0x100_0000_0000_0000 && b < 0x1_0000_0000_0000 && c < 0x100_0000_0000 && d < 0x1_0000_0000;
    assert e < 0x100_0000 && f < 0x1_0000 && g < 0x100 && g / 256 == 0;
    assert Fits(g / 256, 0) && Fits(g, 1) && Fits(f, 2) && Fits(e, 3) && Fits(d, 4) && Fits(c, 5) && Fits(b, 6) && Fits(a, 7);
  }

  // ------------------------------------------------------------------ outputs

  /** A length, in one, three, five or nine bytes. */
  function VarInt(n: nat): (s: seq<byte>)
    ensures s != []
  {
    if n < 253 then [n]
    else if n <= 0xffff then [253] + LowFirst(n, 2)
    else if n <= 0xffff_ffff then [254] + LowFirst(n, 4)
    else [255] + LowFirst(n, 8)
  }

  const COIN_BYTES := 36
  const VALUE_BYTES := 8

  /** Coin and value, which take the same number of bytes in every output. */
  function Prefix(x: Txo): (s: seq<byte>)
    ensures |s| == COIN_BYTES + VALUE_BYTES
  {
    LowFirst(x.key, COIN_BYTES) + LowFirst(Pattern(x.value), VALUE_BYTES)
  }

  function Serialized(x: Txo): seq<byte> {
    Prefix(x) + (VarInt(|x.script|) + x.script)
  }

  lemma PrefixInjective(x: Txo, y: Txo)
    requires Prefix(x) == Prefix(y)
    ensures x.key == y.key && x.value == y.value
  {
    var coin, value := COIN_BYTES, VALUE_BYTES;
    var p, q := Prefix(x), Prefix(y);
    assert p[..coin] == LowFirst(x.key, coin) && q[..coin] == LowFirst(y.key, coin);
    assert p[coin..] == LowFirst(Pattern(x.value), value) && q[coin..] == LowFirst(Pattern(y.value), value);
    ShortFits(x.key, coin);
    ShortFits(y.key, coin);
    LowFirstInjective(x.key, y.key, coin);
    PatternFits(Pattern(x.value));
    PatternFits(Pattern(y.value));
    LowFirstInjective(Pattern(x.value), Pattern(y.value), value);
  }

  lemma ScriptInjective(s: seq<byte>, t: seq<byte>)
    requires VarInt(|s|) + s == VarInt(|t|) + t
    ensures s == t
  {
    var a, b := VarInt(|s|), VarInt(|t|);
    assert (a + s)[0] == a[0] && (b + t)[0] == b[0];
    assert |a| == |b|;
    assert (a + s)[|a|..] == s && (b + t)[|b|..] == t;
  }

  /** s is a code, a length in the next so many bytes, the least significant first, and a script. */
  predicate Announced(s: seq<byte>, code: byte, width: nat, length: nat, script: seq<byte>) {
    && |s| == 1 + width + |script| && s[0] == code
    && LittleEndian(s[1..1 + width]) == length && s[1 + width..] == script
  }

  /** s is the length of a script, in one, three, five or nine bytes, and the script. */
  predicate LengthThenScript(s: seq<byte>, script: seq<byte>) {
    var n := |script|;
    if n < 253 then Announced(s, n, 0, 0, script)
    else if n <= 0xffff then Announced(s, 253, 2, n, script)
    else if n <= 0xffff_ffff then Announced(s, 254, 4, n, script)
    else Announced(s, 255, 8, n % 0x1_0000_0000_0000_0000, script)
  }

  lemma {:induction false} LengthLayout(code: byte, n: nat, width: nat, script: seq<byte>) returns (length: nat)
    ensures Announced([code] + LowFirst(n, width) + script, code, width, length, script)
    ensures width == 2 && n < 0x1_0000 ==> length == n
    ensures width == 4 && n < 0x1_0000_0000 ==> length == n
    ensures width == 8 ==> length == n % 0x1_0000_0000_0000_0000
  {
    var s := [code] + LowFirst(n, width) + script;
    assert s[1..1 + width] == LowFirst(n, width);
    assert s[1 + width..] == script;
    LengthReadsBack(n, width);
    length := LittleEndian(LowFirst(n, width));
  }

  lemma {:induction false} ScriptLayout(script: seq<byte>)
    ensures LengthThenScript(VarInt(|script|) + script, script)
  {
    var n := |script|;
    if n < 253 {
      var s := [n as byte] + script;
      assert s[1..1] == [] && s[1..] == script;
    } else if n <= 0xffff {
      var length := LengthLayout(253, n, 2, script);
    } else if n <= 0xffff_ffff {
      var length := LengthLayout(254, n, 4, script);
    } else {
      var length := LengthLayout(255, n, 8, script);
    }
  }

  lemma PatternIsResidue(v: Amount)
    ensures Pattern(v) == v % 0x1_0000_0000_0000_0000
  {
  }

  lemma {:induction false} PairReadsBack(a: nat, b: nat, m: nat, n: nat)
    requires Fits(a, m) && Fits(b, n)
    ensures var s := LowFirst(a, m) + LowFirst(b, n); LittleEndian(s[..m]) == a && LittleEndian(s[m..]) == b
  {
    var s := LowFirst(a, m) + LowFirst(b, n);
    assert s[..m] == LowFirst(a, m) && s[m..] == LowFirst(b, n);
    FittingReadsBack(a, m);
    FittingReadsBack(b, n);
  }

  lemma {:induction false} PrefixLayout(x: Txo, coin: nat)
    requires coin == 36
    ensures LittleEndian(Prefix(x)[..coin]) == x.key
    ensures LittleEndian(Prefix(x)[coin..]) == x.value % 0x1_0000_0000_0000_0000
  {
    ShortFits(x.key, COIN_BYTES);
    PatternFits(Pattern(x.value));
    PatternIsResidue(x.value);
    PairReadsBack(x.key, Pattern(x.value), COIN_BYTES, VALUE_BYTES);
  }

  /** s is an output, byte by byte: the coin in 36 bytes and the value in 8, the least significant byte
      first, and then the length of the script and the script. */
  predicate LaidOut(s: seq<byte>, x: Txo) {
    && |s| > 44
    && LittleEndian(s[..36]) == x.key && LittleEndian(s[36..44]) == x.value % 0x1_0000_0000_0000_0000
    && LengthThenScript(s[44..], x.script)
  }

  lemma {:induction false} SerializedIsLaidOut(x: Txo)
    ensures LaidOut(Serialized(x), x)
  {
    var s, p := Serialized(x), Prefix(x);
    assert s[..36] == p[..36] && s[36..44] == p[36..] && s[44..] == VarInt(|x.script|) + x.script;
    PrefixLayout(x, 36);
    ScriptLayout(x.script);
  }

  lemma {:induction false} SameNumberSameBytes(s: seq<byte>, t: seq<byte>)
    requires |s| == |t| && LittleEndian(s) == LittleEndian(t)
    ensures s == t
  {
    NumberReadsBack(s, |s|);
    NumberReadsBack(t, |t|);
  }

  lemma {:induction false} OneAnnouncement(s: seq<byte>, t: seq<byte>, code: byte, width: nat, length: nat, script: seq<byte>)
    requires Announced(s, code, width, length, script) && Announced(t, code, width, length, script)
    ensures s == t
  {
    SameNumberSameBytes(s[1..1 + width], t[1..1 + width]);
    assert s == [s[0]] + s[1..1 + width] + s[1 + width..] && t == [t[0]] + t[1..1 + width] + t[1 + width..];
  }

  lemma {:induction false} OneLength(s: seq<byte>, t: seq<byte>, script: seq<byte>)
    requires LengthThenScript(s, script) && LengthThenScript(t, script)
    ensures s == t
  {
    var n := |script|;
    if n < 253 {
      OneAnnouncement(s, t, n, 0, 0, script);
    } else if n <= 0xffff {
      OneAnnouncement(s, t, 253, 2, n, script);
    } else if n <= 0xffff_ffff {
      OneAnnouncement(s, t, 254, 4, n, script);
    } else {
      OneAnnouncement(s, t, 255, 8, n % 0x1_0000_0000_0000_0000, script);
    }
  }

  /** The layout is exactly the serialization: no other bytes have it. */
  lemma {:induction false} LayoutIsExact(s: seq<byte>, x: Txo)
    ensures LaidOut(s, x) <==> s == Serialized(x)
  {
    SerializedIsLaidOut(x);
    if LaidOut(s, x) {
      var t := Serialized(x);
      SameNumberSameBytes(s[..36], t[..36]);
      SameNumberSameBytes(s[36..44], t[36..44]);
      OneLength(s[44..], t[44..], x.script);
      assert s[..44] == s[..36] + s[36..44] && t[..44] == t[..36] + t[36..44];
      assert s == s[..44] + s[44..] && t == t[..44] + t[44..];
    }
  }

  /** Different outputs have different bytes. */
  lemma SerializedInjective(x: Txo, y: Txo)
    requires Serialized(x) == Serialized(y)
    ensures x == y
  {
    var s, t, n := Serialized(x), Serialized(y), COIN_BYTES + VALUE_BYTES;
    assert s[..n] == Prefix(x) && t[..n] == Prefix(y);
    assert s[n..] == VarInt(|x.script|) + x.script && t[n..] == VarInt(|y.script|) + y.script;
    PrefixInjective(x, y);
    ScriptInjective(x.script, y.script);
  }

  /** Exactly an output with a script of 19 bytes is as long as two hashes. */
  lemma SerializedLength(x: Txo)
    ensures |Serialized(x)| == 64 <==> |x.script| == 19
  {
  }
}
