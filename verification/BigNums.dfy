/** Signed big numbers: conversions from and to fixed-width numbers, bytes and text. */
module BigNums {
  import opened Bytes
  import opened Compact
  import opened Hex
  import opened Limbs
  import opened Mpi
  import opened WordBytes
  import opened Octets
  import opened Words

  // ------------------------------------------------------------------ building a body byte by byte

  /** The body of what has been read of a number so far. */
  function BodySoFar(high: nat, negative: bool): seq<byte> {
    Signed(Spelled(high), negative)
  }

  /** The next byte: leading zeros are skipped, and the first byte that is not zero settles the sign. */
  function NextByte(body: seq<byte>, c: byte, negative: bool): seq<byte> {
    if body != [] then body + [c]
    else if c == 0 then []
    else if c >= 0x80 then [if negative then 0x80 else 0, c]
    else [c + (if negative then 0x80 else 0)]
  }

  lemma NextByteIsNext(high: nat, c: byte, negative: bool)
    ensures NextByte(BodySoFar(high, negative), c, negative) == BodySoFar(256 * high + c, negative)
  {
    var n := 256 * high + c;
    if n != 0 {
      assert n / 256 == high && n % 256 == c;
      assert Spelled(n) == Spelled(high) + [c];
      if high == 0 {
        assert Spelled(n) == [c];
        assert Signed([c], negative) == NextByte([], c, negative);
      } else {
        var m := Spelled(high);
        assert (m + [c])[1..] == m[1..] + [c];
      }
    }
  }

  lemma TopByte(n: nat)
    requires n < 0x1_0000_0000_0000_0000
    ensures n / 0x100_0000_0000_0000 < 0x100
    ensures 0x100 * n == 0x1_0000_0000_0000_0000 * (n / 0x100_0000_0000_0000) + (n * 0x100) % 0x1_0000_0000_0000_0000
  {
  }

  lemma Body64Fits(n: nat, negative: bool)
    requires n < 0x1_0000_0000_0000_0000
    ensures |Signed(Spelled(n), negative)| <= 9
  {
    DoubledByTwoWords(1);
    SpelledIsShort(n, 8);
  }

  /** One byte out of the top of the register. */
  lemma RegisterStep(magnitude: nat, i: nat, high: nat, n: nat)
    requires n < 0x1_0000_0000_0000_0000
    requires 0x1_0000_0000_0000_0000 * high + n == Doubled(magnitude, 8 * i)
    ensures n / 0x100_0000_0000_0000 < 0x100
    ensures 0x1_0000_0000_0000_0000 * (256 * high + n / 0x100_0000_0000_0000) + (n * 0x100) % 0x1_0000_0000_0000_0000
      == Doubled(magnitude, 8 * (i + 1))
  {
    TopByte(n);
    DoubledTwice(magnitude, 8 * i, 8);
    DoubledByByte(Doubled(magnitude, 8 * i));
  }

  lemma RegisterEmpty(magnitude: nat, i: nat, high: nat, n: nat)
    requires i == 8 && magnitude < 0x1_0000_0000_0000_0000 && n < 0x1_0000_0000_0000_0000
    requires 0x1_0000_0000_0000_0000 * high + n == Doubled(magnitude, 8 * i)
    ensures high == magnitude
  {
    DoubledByTwoWords(magnitude);
  }

  class BigNum {
    var value: int

    constructor (value: int)
      ensures this.value == value
    {
      this.value := value;
    }

    /** A register of 64 bits is emptied from the top, a byte at a time. */
    static method Body64(magnitude: nat, negative: bool) returns (p: seq<byte>)
      requires magnitude < 0x1_0000_0000_0000_0000
      ensures p == Signed(Spelled(magnitude), negative)
    {
      var n := magnitude;
      p := [];
      ghost var high := 0;
      for i := 0 to 8
        invariant n < 0x1_0000_0000_0000_0000 && p == BodySoFar(high, negative)
        invariant 0x1_0000_0000_0000_0000 * high + n == Doubled(magnitude, 8 * i)
      {
        RegisterStep(magnitude, i, high, n);
        var c := n / 0x100_0000_0000_0000;
        NextByteIsNext(high, c, negative);
        p := NextByte(p, c, negative);
        n := (n * 0x100) % 0x1_0000_0000_0000_0000;
        high := 256 * high + c;
      }
      RegisterEmpty(magnitude, 8, high, n);
    }

    /** -n in 64 bits. */
    static function Negated64(n: int): (m: int)
      requires -0x8000_0000_0000_0000 <= n < 0
      ensures m == if n == -0x8000_0000_0000_0000 then n else -n
    {
      if n == -0x8000_0000_0000_0000 then n else -n
    }

    /** The bits of a signed 64-bit number read as unsigned. */
    static function AsUnsigned(m: int): (u: nat)
      ensures u < 0x1_0000_0000_0000_0000
    {
      m % 0x1_0000_0000_0000_0000
    }

    static lemma MagnitudeAsUnsigned(n: int)
      requires -0x8000_0000_0000_0000 <= n < 0x8000_0000_0000_0000
      ensures AsUnsigned(if n < 0 then Negated64(n) else n) == if n < 0 then -n else n
    {
    }

    /** Every signed 64-bit number arrives unchanged. The smallest one is its own negation; its bits
        read as unsigned are the right magnitude all the same. */
    method SetInt64(n: int)
      requires -0x8000_0000_0000_0000 <= n < 0x8000_0000_0000_0000
      modifies this
      ensures value == n
    {
      var m := AsUnsigned(if n < 0 then Negated64(n) else n);
      MagnitudeAsUnsigned(n);
      var p := Body64(m, n < 0);
      MpiReadsBack(n);
      Body64Fits(m, n < 0);
      Mpi2BnReads(p, value);
      value := Mpi2Bn(Header(|p|) + p, value);
    }

    method SetUint64(n: nat)
      requires n < 0x1_0000_0000_0000_0000
      modifies this
      ensures value == n
    {
      var p := Body64(n, false);
      assert p == ToMpi(n);
      MpiReadsBack(n);
      Body64Fits(n, false);
      Mpi2BnReads(p, value);
      value := Mpi2Bn(Header(|p|) + p, value);
    }

    // ---------------------------------------------------------------- fixed-width numbers

    /** The words of a fixed-width number, read as bytes from the top. */
    method SetUint(n: BaseUint)
      requires n.pn.Length < 0x100_0000
      modifies this
      ensures value == n.Denotes()
    {
      var psrc, p := 4 * n.pn.Length, [];
      ghost var high := 0;
      DoubledOfZero(8 * psrc);
      assert n.pn[..][..n.pn.Length] == n.pn[..];
      while psrc > 0
        invariant 0 <= psrc <= 4 * n.pn.Length
        invariant p == BodySoFar(high, false)
        invariant Doubled(high, 8 * psrc) + LowBytes(n.pn[..], psrc) == n.Denotes()
      {
        psrc := psrc - 1;
        var c := ByteAt(n.pn[psrc / 4], psrc % 4);
        LowBytesStep(n.pn[..], psrc);
        MoveByte(high, psrc, c);
        NextByteIsNext(high, c, false);
        p := NextByte(p, c, false);
        high := 256 * high + c;
      }
      MpiReadsBack(high);
      LiftIsDoubled(1, n.pn.Length);
      SpelledIsShort(high, 4 * n.pn.Length);
      Mpi2BnReads(p, value);
      value := Mpi2Bn(Header(|p|) + p, value);
    }

    /** The magnitude, modulo 2 to the number of bits. */
    method GetUint(width: nat) returns (n: BaseUint)
      ensures fresh(n) && fresh(n.pn) && n.pn.Length == width
      ensures n.Denotes() == (if value < 0 then -value else value) % n.Modulus()
    {
      var vch := Bn2Mpi(value)[4..];
      if vch != [] {
        vch := vch[0 := vch[0] % 0x80];
      }
      MagnitudeBytes(value);
      assert vch == Unsigned(ToMpi(value));
      n := new BaseUint(width);
      n.Clear();
      assert forall q {:trigger BaseUint.Zero(n.pn[..], q)} | 0 <= q < 4 * width :: BaseUint.Zero(n.pn[..], q);
      FillFromEnd(n, vch);
    }

    /** Bytes are put in from the last one up, as far as there is room. */
    static method FillFromEnd(n: BaseUint, vch: seq<byte>)
      requires n.Denotes() == 0
      requires forall q {:trigger BaseUint.Zero(n.pn[..], q)} | 0 <= q < 4 * n.pn.Length :: BaseUint.Zero(n.pn[..], q)
      modifies n.pn
      ensures n.Denotes() == BigEndian(vch) % n.Modulus()
    {
      var i, j := 0, |vch| - 1;
      while i < 4 * n.pn.Length && j >= 0
        invariant 0 <= i <= 4 * n.pn.Length && i + j + 1 == |vch| && -1 <= j
        invariant forall q {:trigger BaseUint.Zero(n.pn[..], q)} | i <= q < 4 * n.pn.Length :: BaseUint.Zero(n.pn[..], q)
        invariant n.Denotes() == BigEndian(vch[j + 1..])
      {
        assert BaseUint.Zero(n.pn[..], i);
        DoubledOfZero(8 * i);
        FrontByte(vch, j);
        n.PutByte(i, vch[j]);
        i, j := i + 1, j - 1;
      }
      BytesDropped(vch, j + 1, n.Denotes(), n.pn.Length);
    }

    // ---------------------------------------------------------------- byte strings

    method SetVch(vch: seq<byte>)
      modifies this
      ensures |vch| < MPI_LIMIT ==> value == FromMpi(Reverse(vch))
      ensures var n := |vch| % 0x1_0000_0000;
        value == if n < MPI_LIMIT then FromMpi(Reverse(vch)[..n]) else old(value)
    {
      var body := Reverse(vch);
      Mpi2BnReadsFront(body, value, |vch| % 0x1_0000_0000);
      if |body| < MPI_LIMIT {
        Mpi2BnReads(body, value);
      }
      value := Mpi2Bn(Header(|body|) + body, value);
    }

    method GetVch() returns (vch: seq<byte>)
      ensures vch == Reverse(ToMpi(value))
    {
      var bytes := Bn2Mpi(value);
      assert bytes[4..] == ToMpi(value);
      vch := Reverse(bytes[4..]);
    }

    // ---------------------------------------------------------------- the compact form

    /** With the sign bit of the int set, the size that is read from it is no size of any buffer's body,
        and the number stays as it was. */
    method SetCompact(nCompact: int)
      requires -0x8000_0000 <= nCompact < 0x8000_0000 && (nCompact < 0 ==> nCompact < -0x400_0000)
      modifies this
      ensures value == if nCompact >= 0 then Decompacted(nCompact) else old(value)
    {
      var nSize: nat := (nCompact / 0x100_0000) % 0x1_0000_0000;
      SizeOfCompact(nCompact, nSize);
      var vch: seq<byte> := Zeros((4 + nSize) % 0x1_0000_0000);
      vch := vch[3 := nSize % 0x100];
      if nSize >= 1 {
        vch := vch[4 := (nCompact / 0x1_0000) % 0x100];
      }
      if nSize >= 2 {
        vch := vch[5 := (nCompact / 0x100) % 0x100];
      }
      if nSize >= 3 {
        vch := vch[6 := nCompact % 0x100];
      }
      assert nCompact >= 0 ==> vch[..4] == [0, 0, 0, nSize] && vch[4..] == Payload(nCompact);
      CompactIsRead(nCompact, vch, value);
      value := Mpi2Bn(vch, value);
    }

    method GetCompact() returns (nCompact: int)
      requires |ToMpi(value)| < 0x8000_0000
      ensures nCompact == Compacted(value)
    {
      var vch := Bn2Mpi(value);
      var nSize := |vch| - 4;
      assert vch[4..] == ToMpi(value);
      var n := (nSize % 0x100) * 0x100_0000;
      if nSize >= 1 {
        n := n + vch[4] as int * 0x1_0000;
      }
      if nSize >= 2 {
        n := n + vch[5] as int * 0x100;
      }
      if nSize >= 3 {
        n := n + vch[6] as int;
      }
      return ToInt32(n);
    }

    // ---------------------------------------------------------------- text

    /** Digits are produced from the last one up and turned around at the end. */
    method ToText(base: nat) returns (str: string)
      requires 2 <= base <= 16
      ensures str == TextOf(value, base) && Says(str, value, base)
    {
      TextSays(value, base);
      var bn: nat := if value < 0 then -value else value;
      if bn == 0 {
        return "0";
      }
      str := "";
      ghost var m := bn;
      assert Reverse(str) == "";
      while bn > 0
        invariant Digits(bn, base) + Reverse(str) == Digits(m, base)
        decreases bn
      {
        DigitsStep(bn, base, Reverse(str));
        ReverseSnoc(str, LastDigit(bn, base));
        str := str + [LastDigit(bn, base)];
        bn := WithoutLast(bn, base);
      }
      if value < 0 {
        ReverseSnoc(str, '-');
        str := str + "-";
      }
      str := Reverse(str);
    }

    /** Spaces, a sign, 0x and spaces again may stand before the digits. */
    method SetHex(str: string)
      modifies this
      ensures value == NumberIn(str)
      ensures forall negative, d | NumberText(str, negative, d) :: value == if negative then -(HexValue(d) as int) else HexValue(d)
    {
      forall negative, d | NumberText(str, negative, d)
        ensures NumberIn(str) == if negative then -(HexValue(d) as int) else HexValue(d)
      {
        NumberTextIsRead(str, negative, d);
      }
      var psz := PassSpaces(str);
      var fNegative := false;
      if psz != [] && psz[0] == '-' {
        fNegative := true;
        psz := psz[1..];
      }
      psz := PassSpaces(SkipPrefix(psz));
      ReadHex(psz);
      if fNegative {
        value := 0 - value;
      }
    }

    /** Digits are shifted in one by one, as far as there are any. */
    method ReadHex(psz: string)
      modifies this
      ensures value == HexValue(LeadingDigits(psz))
    {
      value := 0;
      var n := 0;
      while n < |psz| && IsDigit(psz[n])
        invariant 0 <= n <= |psz| && LeadingDigits(psz) == psz[..n] + LeadingDigits(psz[n..])
        invariant value == HexValue(psz[..n])
      {
        OneMoreDigit(psz, n);
        NextDigit(psz, n);
        value := 16 * value;
        value := value + DigitOf(psz[n]);
        n := n + 1;
      }
    }
  }

  // ------------------------------------------------------------------ what the loops rest on

  lemma DoubledOfZero(s: nat)
    ensures Doubled(0, s) == 0
  {
    DoubledAdds(0, 0, s);
  }

  /** The upper eight bits of an int, as an unsigned number. */
  lemma SizeOfCompact(c: int, size: nat)
    requires -0x8000_0000 <= c < 0x8000_0000 && size == (c / 0x100_0000) % 0x1_0000_0000
    ensures c >= 0 ==> size == Size(c) < 0x80
    ensures -0x400_0000 > c ==> 0x8000_0000 <= size < 0x1_0000_0000 - 4
  {
  }

  lemma CompactIsRead(c: int, vch: seq<byte>, before: int)
    requires -0x8000_0000 <= c < 0x8000_0000 && (c < 0 ==> 0x8000_0000 <= |vch| < 0x1_0000_0000)
    requires c >= 0 ==> |vch| >= 4 && vch[..4] == [0, 0, 0, |vch| - 4] && vch[4..] == Payload(c) && |vch| - 4 < 0x80
    ensures Mpi2Bn(vch, before) == if c >= 0 then Decompacted(c) else before
  {
    if c >= 0 {
      assert vch == Header(|vch| - 4) + Payload(c);
      Mpi2BnReads(Payload(c), before);
    }
  }

  lemma MagnitudeBytes(n: int)
    ensures BigEndian(Unsigned(ToMpi(n))) == if n < 0 then -n else n
  {
    MpiReadsBack(n);
    if n != 0 {
      SignedReadsBack(Spelled(if n < 0 then -n else n), n < 0);
    }
  }

  lemma FrontByte(s: seq<byte>, j: nat)
    requires j < |s|
    ensures BigEndian(s[j..]) == BigEndian(s[j + 1..]) + Doubled(s[j], 8 * (|s| - j - 1))
  {
    BigEndianSplits([s[j]], s[j + 1..]);
    assert s[j..] == [s[j]] + s[j + 1..] && BigEndian([s[j]]) == s[j];
  }

  /** Bytes that do not fit are worth a multiple of the modulus. */
  lemma BytesDropped(s: seq<byte>, i: nat, v: nat, width: nat)
    requires i <= |s| && v == BigEndian(s[i..]) && v < Lift(1, width)
    requires i > 0 ==> |s| - i == 4 * width
    ensures v == BigEndian(s) % Lift(1, width)
  {
    if i == 0 {
      OneWrap(v, Lift(1, width), v);
    } else {
      BigEndianSplits(s[..i], s[i..]);
      assert s == s[..i] + s[i..];
      LiftIsDoubled(BigEndian(s[..i]), width);
      LiftedResidue(v, BigEndian(s[..i]), width, BigEndian(s));
    }
  }

  // ------------------------------------------------------------------ text

  function LastDigit(n: nat, base: nat): (c: char)
    requires 2 <= base <= 16
    ensures IsWritten(c)
  {
    DigitChar(n % base)
  }

  function WithoutLast(n: nat, base: nat): (q: nat)
    requires 2 <= base <= 16
    ensures n > 0 ==> q < n
  {
    n / base
  }

  function Digits(n: nat, base: nat): (d: string)
    requires 2 <= base <= 16
    ensures forall c | c in d :: IsWritten(c)
    ensures n > 0 ==> d != ""
  {
    if n == 0 then "" else Digits(WithoutLast(n, base), base) + [LastDigit(n, base)]
  }

  /** The number that digits spell in a base, the most significant first. */
  function ValueIn(d: string, base: nat): nat {
    if d == "" then 0 else base * ValueIn(d[..|d| - 1], base) + DigitOf(d[|d| - 1])
  }

  lemma ValueSnoc(d: string, c: char, base: nat)
    ensures ValueIn(d + [c], base) == base * ValueIn(d, base) + DigitOf(c)
  {
    assert (d + [c])[..|d|] == d;
  }

  lemma LastAndRest(n: nat, base: nat)
    requires 2 <= base <= 16
    ensures base * WithoutLast(n, base) + DigitOf(LastDigit(n, base)) == n && DigitOf(LastDigit(n, base)) < base
    ensures WithoutLast(n, base) == 0 ==> DigitOf(LastDigit(n, base)) == n
  {
  }

  /** The digits of a number spell it, are digits of the base, and have no zero in front. */
  lemma {:induction false} DigitsSpell(n: nat, base: nat)
    requires 2 <= base <= 16
    ensures ValueIn(Digits(n, base), base) == n
    ensures forall c | c in Digits(n, base) :: DigitOf(c) < base
    ensures n > 0 ==> Digits(n, base)[0] != '0'
  {
    if n > 0 {
      DigitsSpell(WithoutLast(n, base), base);
      ValueSnoc(Digits(WithoutLast(n, base), base), LastDigit(n, base), base);
      LastAndRest(n, base);
    }
  }

  /** What a text says in a base: a sign where the number is negative, and the digits of its magnitude. */
  predicate Says(str: string, n: int, base: nat) {
    && str != "" && (str[0] == '-' <==> n < 0)
    && var d := if n < 0 then str[1..] else str;
       && d != "" && ValueIn(d, base) == (if n < 0 then -n else n) && (forall c | c in d :: IsWritten(c) && DigitOf(c) < base)
       && (d[0] == '0' ==> d == "0")
  }

  lemma TextSays(n: int, base: nat)
    requires 2 <= base <= 16
    ensures Says(TextOf(n, base), n, base)
  {
    var m: nat := if n < 0 then -n else n;
    DigitsSpell(m, base);
    if n == 0 {
      assert ValueIn("0", base) == base * ValueIn("", base) + DigitOf('0');
    } else if n < 0 {
      assert TextOf(n, base)[1..] == Digits(m, base);
    } else {
      assert Digits(m, base)[0] in Digits(m, base);
    }
  }

  lemma DigitsStep(n: nat, base: nat, r: string)
    requires 2 <= base <= 16 && n > 0
    ensures Digits(n, base) + r == Digits(WithoutLast(n, base), base) + ([LastDigit(n, base)] + r)
  {
  }

  function TextOf(n: int, base: nat): string
    requires 2 <= base <= 16
  {
    if n == 0 then "0" else if n < 0 then "-" + Digits(-n, base) else Digits(n, base)
  }

  /** What SetHex makes of a text. */
  function NumberIn(s: string): int {
    var t := SkipSpaces(s);
    var negative := t != [] && t[0] == '-';
    var n: int := HexValue(LeadingDigits(SkipSpaces(SkipPrefix(if negative then t[1..] else t))));
    if negative then -n else n
  }

  lemma SignAndDigits(prefix: string, more: string, d: string, rest: string)
    requires AllHex(d) && IsPrefix(prefix) && AllSpaces(more) && (rest != "" ==> !IsDigit(rest[0]))
    requires d == "" && rest != "" ==> !IsSpace(rest[0])
    requires prefix == "" && more == "" && d == "0" && rest != "" ==> rest[0] != 'x' && rest[0] != 'X'
    ensures LeadingDigits(SkipSpaces(SkipPrefix(prefix + (more + (d + rest))))) == d
  {
    var u := more + (d + rest);
    if more == "" {
      assert u == d + rest;
      FrontOfDigits(prefix, d, rest);
    } else {
      assert u[0] == more[0] && more[0] in more;
    }
    PrefixIsSkipped(prefix, u);
    assert d != "" ==> (d + rest)[0] == d[0] && d[0] in d;
    SpacesAreSkipped(more, d + rest);
    DigitsAreTaken(d, rest);
  }

  lemma NumberPartsAreRead(s: string, spaces: string, negative: bool, prefix: string, more: string, d: string, rest: string)
    requires NumberParts(s, spaces, negative, prefix, more, d, rest)
    ensures NumberIn(s) == if negative then -(HexValue(d) as int) else HexValue(d)
  {
    var u := prefix + (more + (d + rest));
    var t := (if negative then "-" else "") + u;
    SignAndDigits(prefix, more, d, rest);
    if negative {
      assert t[1..] == u;
    } else {
      assert t == u;
      UnsignedFront(prefix, more, d, rest);
    }
    SpacesAreSkipped(spaces, t);
  }

  lemma UnsignedFront(prefix: string, more: string, d: string, rest: string)
    requires AllHex(d) && IsPrefix(prefix) && (rest != "" ==> !IsDigit(rest[0])) && (prefix == "" ==> more == "")
    requires prefix == "" && d == "" && rest != "" ==> !IsSpace(rest[0]) && rest[0] != '-'
    ensures var u := prefix + (more + (d + rest)); u != "" ==> !IsSpace(u[0]) && u[0] != '-'
  {
    var u := prefix + (more + (d + rest));
    if prefix != "" {
      assert u[0] == '0';
    } else if d != "" {
      assert u[0] == d[0] && d[0] in d;
    } else {
      assert u == rest;
    }
  }

  /** A text says a number: a sign and hexadecimal digits, with all that may stand around them. */
  ghost predicate NumberText(s: string, negative: bool, d: string) {
    exists spaces, prefix, more, rest :: NumberParts(s, spaces, negative, prefix, more, d, rest)
  }

  lemma NumberTextIsRead(s: string, negative: bool, d: string)
    requires NumberText(s, negative, d)
    ensures NumberIn(s) == if negative then -(HexValue(d) as int) else HexValue(d)
  {
    var spaces, prefix, more, rest :| NumberParts(s, spaces, negative, prefix, more, d, rest);
    NumberPartsAreRead(s, spaces, negative, prefix, more, d, rest);
  }

  lemma FirstIsIn(s: string, t: string)
    requires s != ""
    ensures (s + t)[0] == s[0] && s[0] in s
  {
  }

  lemma NothingBefore(t: string, prefix: string, v: string, more: string, w: string)
    requires t == prefix + v && prefix == "" && v == more + w && AllSpaces(more) && (t != "" ==> !IsSpace(t[0]))
    ensures more == "" && t == w
  {
    if more != "" {
      FirstIsIn(more, w);
    }
  }

  lemma NoPrefixHidden(u: string, prefix: string, v: string, more: string, w: string, d: string, rest: string)
    requires u == prefix + v && v == more + w && w == d + rest
    requires prefix == "" ==> !(|u| >= 2 && u[0] == '0' && (u[1] == 'x' || u[1] == 'X'))
    ensures prefix == "" && more == "" && d == "0" && rest != "" ==> rest[0] != 'x' && rest[0] != 'X'
  {
    if prefix == "" && more == "" && d == "0" && rest != "" {
      assert u == w && u[0] == d[0] && u[1] == rest[0];
    }
  }

  /** Every text can be taken apart in that way, so that says of every text what is read. */
  lemma EveryTextSays(s: string) returns (negative: bool, d: string)
    ensures NumberText(s, negative, d)
  {
    var spaces := SpacesBefore(s);
    var t := SkipSpaces(s);
    negative := t != "" && t[0] == '-';
    var u := if negative then t[1..] else t;
    assert t == (if negative then "-" else "") + u;
    var prefix := PrefixBefore(u);
    var v := SkipPrefix(u);
    var more := SpacesBefore(v);
    var w := SkipSpaces(v);
    d := LeadingDigits(w);
    var rest := DigitsBefore(w);
    if !negative && prefix == "" {
      NothingBefore(t, prefix, v, more, w);
    }
    NoPrefixHidden(u, prefix, v, more, w, d, rest);
    assert NumberParts(s, spaces, negative, prefix, more, d, rest);
  }

  lemma {:induction false} DigitsReadBack(n: nat)
    ensures HexValue(Digits(n, 16)) == n
  {
    if n > 0 {
      DigitsReadBack(n / 16);
      assert Digits(n, 16)[..|Digits(n, 16)| - 1] == Digits(n / 16, 16);
    }
  }

  /** Text round trip: every number, of either sign, is read back from its own hexadecimal text. */
  lemma TextReadsBack(n: int)
    ensures NumberIn(TextOf(n, 16)) == n
  {
    var m: nat := if n < 0 then -n else n;
    if n == 0 {
      PlainDigits("0");
      assert HexValue("0") == 0;
    } else {
      DigitsReadBack(m);
      PlainDigits(Digits(m, 16));
      assert n < 0 ==> TextOf(n, 16)[1..] == Digits(m, 16);
    }
  }

  lemma PlainDigits(d: string)
    requires d != "" && forall c | c in d :: IsDigit(c)
    ensures d[0] != '-' && SkipSpaces(d) == d && SkipPrefix(d) == d && LeadingDigits(d) == d
  {
    AllDigits(d);
    assert d[0] in d;
    assert |d| >= 2 ==> d[1] in d;
  }

  /** Byte string round trip. */
  lemma VchReadsBack(n: int)
    ensures FromMpi(Reverse(Reverse(ToMpi(n)))) == n
  {
    ReverseTwice(ToMpi(n));
    MpiReadsBack(n);
  }

  /** A fixed-width number survives the way through a big number. */
  method ThroughBigNum(n: BaseUint) returns (m: BaseUint)
    requires n.pn.Length < 0x100_0000
    ensures m.pn.Length == n.pn.Length && m.Denotes() == n.Denotes()
  {
    var b := new BigNum(0);
    b.SetUint(n);
    m := b.GetUint(n.pn.Length);
    OneWrap(n.Denotes(), n.Modulus(), n.Denotes());
  }

  /** What is read from the front of a number's body is not the number. */
  lemma FrontIsLess(n: int, k: nat)
    requires k + 1 < |ToMpi(n)|
    ensures FromMpi(ToMpi(n)[..k]) != n
  {
    WrittenIsNoLonger(ToMpi(n)[..k]);
  }

  lemma FrontOfBody(n: int, k: nat, read: int)
    requires k == |ToMpi(n)| % 0x1_0000_0000
    requires read == if k < MPI_LIMIT then FromMpi(ToMpi(n)[..k]) else 0
    ensures read == n <==> |ToMpi(n)| < MPI_LIMIT
  {
    MpiReadsBack(n);
    if |ToMpi(n)| == k {
      assert ToMpi(n)[..k] == ToMpi(n);
    } else if k < MPI_LIMIT {
      FrontIsLess(n, k);
    }
  }

  /** A big number survives the way through its byte string exactly when that is short enough for the
      int that its length is passed in. */
  method ThroughVch(a: BigNum) returns (b: BigNum)
    ensures fresh(b) && (b.value == a.value <==> |ToMpi(a.value)| < MPI_LIMIT)
  {
    var vch := a.GetVch();
    b := new BigNum(0);
    b.SetVch(vch);
    ReverseTwice(ToMpi(a.value));
    FrontOfBody(a.value, |vch| % 0x1_0000_0000, b.value);
  }

  /** A big number survives the way through its hexadecimal text. */
  method ThroughText(a: BigNum) returns (b: BigNum)
    ensures fresh(b) && b.value == a.value
  {
    var text := a.ToText(16);
    b := new BigNum(0);
    b.SetHex(text);
    TextReadsBack(a.value);
  }
}
