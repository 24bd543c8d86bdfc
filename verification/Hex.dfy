/** Hexadecimal text. */
module Hex {
  import opened Words

  /** The table of digit values: everything that is no digit counts as 0. */
  function DigitOf(c: char): (d: nat)
    ensures d < 16
  {
    if '0' <= c <= '9' then c as nat - '0' as nat
    else if 'a' <= c <= 'f' then c as nat - 'a' as nat + 10
    else if 'A' <= c <= 'F' then c as nat - 'A' as nat + 10
    else 0
  }

  predicate IsDigit(c: char) {
    DigitOf(c) != 0 || c == '0'
  }

  /** Digits are read in both cases, and written in lower case. */
  predicate IsWritten(c: char) {
    IsDigit(c) && !('A' <= c <= 'F')
  }

  predicate IsSpace(c: char) {
    c == ' ' || 9 <= c as nat <= 13
  }

  /** Lower-case, as printf writes it. */
  function DigitChar(d: nat): (c: char)
    requires d < 16
    ensures IsWritten(c) && DigitOf(c) == d
  {
    if d < 10 then '0' + d as char else 'a' + (d - 10) as char
  }

  /** The digits by character, in both cases; they are written in lower case. */
  lemma DigitTable(d: nat)
    requires d < 16
    ensures DigitChar(d) == "0123456789abcdef"[d]
    ensures DigitOf("0123456789abcdef"[d]) == DigitOf("0123456789ABCDEF"[d]) == d
  {
  }

  /** Which characters are written. */
  lemma WrittenTable(c: char)
    ensures IsWritten(c) <==> c in "0123456789abcdef"
  {
    if IsWritten(c) {
      assert c == "0123456789abcdef"[DigitOf(c)];
    }
  }

  /** Which characters are digits, and which are spaces. */
  lemma CharacterTable(c: char)
    ensures IsDigit(c) <==> c in "0123456789abcdefABCDEF"
    ensures IsSpace(c) <==> c == ' ' || '\t' <= c <= '\r'
  {
    var digits := "0123456789abcdefABCDEF";
    if IsDigit(c) {
      var d := DigitOf(c);
      assert c == digits[d] || c == digits[d + 6];
    }
  }

  /** The number that a row of digits stands for, the most significant digit first. */
  function HexValue(s: string): nat {
    if s == [] then 0 else 16 * HexValue(s[..|s| - 1]) + DigitOf(s[|s| - 1])
  }

  /** A row of digits is its leading part, shifted left by four bits a digit, and its trailing part. */
  lemma {:induction false} HexSplits(s: string, t: string)
    ensures HexValue(s + t) == Doubled(HexValue(s), 4 * |t|) + HexValue(t)
    decreases |t|
  {
    if t == [] {
      assert s + t == s;
    } else {
      var t' := t[..|t| - 1];
      HexSplits(s, t');
      assert (s + t)[..|s + t| - 1] == s + t';
      DoubledTwice(HexValue(s), 4 * |t'|, 4);
      DoubledByNibble(Doubled(HexValue(s), 4 * |t'|));
    }
  }

  function SkipSpaces(s: string): string {
    if s != [] && IsSpace(s[0]) then SkipSpaces(s[1..]) else s
  }

  method PassSpaces(s: string) returns (t: string)
    ensures t == SkipSpaces(s)
  {
    t := s;
    while t != [] && IsSpace(t[0])
      invariant SkipSpaces(t) == SkipSpaces(s)
      decreases |t|
    {
      t := t[1..];
    }
  }

  function SkipPrefix(s: string): string {
    if |s| >= 2 && s[0] == '0' && (s[1] == 'x' || s[1] == 'X') then s[2..] else s
  }

  function LeadingDigits(s: string): (d: string)
    ensures |d| <= |s| && d == s[..|d|]
    ensures forall c | c in d :: IsDigit(c)
    ensures |d| < |s| ==> !IsDigit(s[|d|])
  {
    if s != [] && IsDigit(s[0]) then [s[0]] + LeadingDigits(s[1..]) else []
  }

  lemma OneMoreDigit(s: string, n: nat)
    requires n < |s| && IsDigit(s[n])
    ensures s[..n] + LeadingDigits(s[n..]) == s[..n + 1] + LeadingDigits(s[n + 1..])
  {
    var t, u := s[n..], LeadingDigits(s[n + 1..]);
    assert t[1..] == s[n + 1..] && t[0] == s[n];
    assert LeadingDigits(t) == [t[0]] + u;
    assert s[..n] + ([s[n]] + u) == (s[..n] + [s[n]]) + u;
    assert s[..n + 1] == s[..n] + [s[n]];
  }

  lemma NextDigit(s: string, n: nat)
    requires n < |s|
    ensures HexValue(s[..n + 1]) == 16 * HexValue(s[..n]) + DigitOf(s[n])
  {
    assert s[..n + 1][..n] == s[..n];
  }

  /** The digits that are read out of a text: leading spaces and 0x are skipped, and reading stops at
      the first character that is no digit. */
  function DigitsIn(s: string): string {
    LeadingDigits(SkipPrefix(SkipSpaces(s)))
  }

  lemma {:induction false} AllDigits(s: string)
    requires forall c | c in s :: IsDigit(c)
    ensures LeadingDigits(s) == s
  {
    if s != [] {
      AllDigits(s[1..]);
      assert s[0] in s;
    }
  }

  /** Text of nothing but digits is read whole. */
  lemma DigitsAreReadWhole(s: string)
    requires forall c | c in s :: IsDigit(c)
    ensures DigitsIn(s) == s
  {
    AllDigits(s);
    assert s != [] ==> s[0] in s;
    assert |s| >= 2 ==> s[1] in s;
  }

  // ------------------------------------------------------------------ what is read out of a text

  predicate AllSpaces(s: string) {
    forall c | c in s :: IsSpace(c)
  }

  predicate AllHex(s: string) {
    forall c | c in s :: IsDigit(c)
  }

  predicate IsPrefix(s: string) {
    s == "" || s == "0x" || s == "0X"
  }

  /** A text taken apart: spaces, perhaps 0x, digits, and something that does not go on with a digit. */
  predicate HexParts(s: string, spaces: string, prefix: string, d: string, rest: string) {
    && s == spaces + (prefix + (d + rest))
    && AllSpaces(spaces) && IsPrefix(prefix) && AllHex(d)
    && (rest != "" ==> !IsDigit(rest[0]))
    && (prefix == "" && d == "" && rest != "" ==> !IsSpace(rest[0]))
    && (prefix == "" && d == "0" && rest != "" ==> rest[0] != 'x' && rest[0] != 'X')
  }

  lemma {:induction false} SpacesAreSkipped(spaces: string, t: string)
    requires AllSpaces(spaces) && (t != "" ==> !IsSpace(t[0]))
    ensures SkipSpaces(spaces + t) == t
  {
    if spaces == "" {
      assert spaces + t == t;
    } else {
      SpacesAreSkipped(spaces[1..], t);
      assert spaces[0] in spaces && (spaces + t)[1..] == spaces[1..] + t;
    }
  }

  lemma {:induction false} DigitsAreTaken(d: string, rest: string)
    requires AllHex(d) && (rest != "" ==> !IsDigit(rest[0]))
    ensures LeadingDigits(d + rest) == d
  {
    if d == "" {
      assert d + rest == rest;
    } else {
      DigitsAreTaken(d[1..], rest);
      assert d[0] in d && (d + rest)[1..] == d[1..] + rest;
    }
  }

  lemma PrefixIsSkipped(prefix: string, t: string)
    requires IsPrefix(prefix)
    requires prefix == "" && |t| >= 2 && t[0] == '0' ==> t[1] != 'x' && t[1] != 'X'
    ensures SkipPrefix(prefix + t) == t
  {
    assert prefix == "" ==> prefix + t == t;
  }

  /** What stands in front of the digits, and cannot be taken for something else. */
  lemma FrontOfDigits(prefix: string, d: string, rest: string)
    requires AllHex(d) && IsPrefix(prefix) && (rest != "" ==> !IsDigit(rest[0]))
    requires prefix == "" && d == "0" && rest != "" ==> rest[0] != 'x' && rest[0] != 'X'
    ensures var t := d + rest; prefix == "" && |t| >= 2 && t[0] == '0' ==> t[1] != 'x' && t[1] != 'X'
    ensures prefix + d != "" ==> !IsSpace((prefix + (d + rest))[0]) && (prefix + (d + rest))[0] != '-'
  {
    var t := d + rest;
    assert d != "" ==> t[0] == d[0] && d[0] in d;
    assert |d| >= 2 ==> t[1] == d[1] && d[1] in d;
  }

  lemma PartsAreRead(s: string, spaces: string, prefix: string, d: string, rest: string)
    requires HexParts(s, spaces, prefix, d, rest)
    ensures DigitsIn(s) == d
  {
    FrontOfDigits(prefix, d, rest);
    SpacesAreSkipped(spaces, prefix + (d + rest));
    PrefixIsSkipped(prefix, d + rest);
    DigitsAreTaken(d, rest);
  }

  lemma {:induction false} SpacesBefore(s: string) returns (spaces: string)
    ensures s == spaces + SkipSpaces(s) && AllSpaces(spaces)
    ensures SkipSpaces(s) != "" ==> !IsSpace(SkipSpaces(s)[0])
  {
    if s != "" && IsSpace(s[0]) {
      var more := SpacesBefore(s[1..]);
      spaces := [s[0]] + more;
      assert s == [s[0]] + s[1..];
    } else {
      spaces := "";
    }
  }

  lemma PrefixBefore(t: string) returns (prefix: string)
    ensures IsPrefix(prefix) && t == prefix + SkipPrefix(t)
    ensures prefix == "" ==> !(|t| >= 2 && t[0] == '0' && (t[1] == 'x' || t[1] == 'X'))
  {
    prefix := t[..|t| - |SkipPrefix(t)|];
    assert t == prefix + SkipPrefix(t);
  }

  lemma DigitsBefore(u: string) returns (rest: string)
    ensures u == LeadingDigits(u) + rest && AllHex(LeadingDigits(u)) && (rest != "" ==> !IsDigit(rest[0]))
    ensures LeadingDigits(u) == "0" && rest != "" ==> |u| >= 2 && u[0] == '0' && rest[0] == u[1]
    ensures LeadingDigits(u) == "" ==> rest == u
  {
    rest := u[|LeadingDigits(u)|..];
    assert u == LeadingDigits(u) + rest;
  }

  lemma DigitsHaveParts(s: string) returns (spaces: string, prefix: string, rest: string)
    ensures HexParts(s, spaces, prefix, DigitsIn(s), rest)
  {
    var t := SkipSpaces(s);
    spaces := SpacesBefore(s);
    prefix := PrefixBefore(t);
    rest := DigitsBefore(SkipPrefix(t));
    assert prefix == "" ==> t == SkipPrefix(t);
  }

  /** d are the digits of a text. */
  ghost predicate HexText(s: string, d: string) {
    exists spaces, prefix, rest :: HexParts(s, spaces, prefix, d, rest)
  }

  /** However a text is taken apart in that way, its digits are the ones that are read, and every text can be. */
  lemma DigitsInExactly(s: string, d: string)
    ensures HexText(s, d) <==> DigitsIn(s) == d
  {
    if spaces, prefix, rest :| HexParts(s, spaces, prefix, d, rest) {
      PartsAreRead(s, spaces, prefix, d, rest);
    }
    if DigitsIn(s) == d {
      var spaces, prefix, rest := DigitsHaveParts(s);
    }
  }

  /** What 0x in front changes: nothing. */
  lemma PrefixedValue(d: string)
    requires AllHex(d)
    ensures DigitsIn("0x" + d) == DigitsIn("0X" + d) == d
  {
    assert "0x" + d == "" + ("0x" + (d + "")) && "0X" + d == "" + ("0X" + (d + ""));
    PartsAreRead("0x" + d, "", "0x", d, "");
    PartsAreRead("0X" + d, "", "0X", d, "");
  }

  /** A number's text taken apart: spaces, perhaps a sign, perhaps 0x, perhaps more spaces, digits, and
      something that cannot be taken for a part of any of them. */
  predicate NumberParts(s: string, spaces: string, negative: bool, prefix: string, more: string, d: string, rest: string) {
    var signed := negative || prefix != "";
    && s == spaces + ((if negative then "-" else "") + (prefix + (more + (d + rest))))
    && AllSpaces(spaces) && IsPrefix(prefix) && AllSpaces(more) && AllHex(d)
    && (!signed ==> more == "")
    && (rest != "" ==> !IsDigit(rest[0]))
    && (d == "" && rest != "" ==> !IsSpace(rest[0]) && (rest[0] == '-' ==> signed))
    && (prefix == "" && more == "" && d == "0" && rest != "" ==> rest[0] != 'x' && rest[0] != 'X')
  }
}
