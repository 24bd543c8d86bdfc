/** The byte form in which big numbers come and go: four bytes of length, then the magnitude, most
    significant byte first, with the sign in the top bit. */
module Mpi {
  import opened Bytes
  import opened Octets
  import opened Words

  // ------------------------------------------------------------------ sign and magnitude bytes

  /** The sign goes into the top bit of the first byte, before which a byte is put when it is taken. */
  function Signed(magnitude: seq<byte>, negative: bool): seq<byte> {
    if magnitude == [] then []
    else if magnitude[0] >= 0x80 then [if negative then 0x80 else 0] + magnitude
    else [magnitude[0] + (if negative then 0x80 else 0)] + magnitude[1..]
  }

  /** The body of the MPI form of a number, without the four bytes of length. */
  function ToMpi(n: int): seq<byte> {
    Signed(Spelled(if n < 0 then -n else n), n < 0)
  }

  function Unsigned(p: seq<byte>): seq<byte> {
    if p == [] then [] else [p[0] % 0x80] + p[1..]
  }

  function FromMpi(p: seq<byte>): int {
    if p != [] && p[0] >= 0x80 then -(BigEndian(Unsigned(p)) as int) else BigEndian(Unsigned(p))
  }

  /** No byte could be left off the front. */
  predicate Minimal(p: seq<byte>) {
    p != [] ==> p[0] % 0x80 != 0 || (|p| > 1 && p[1] >= 0x80)
  }

  lemma LeadingZero(s: seq<byte>)
    ensures BigEndian([0] + s) == BigEndian(s)
  {
    BigEndianSplits([0], s);
    DoubledAdds(0, 0, 8 * |s|);
  }

  lemma SignedReadsBack(m: seq<byte>, negative: bool)
    requires m != [] && m[0] != 0
    ensures var p := Signed(m, negative);
      p != [] && (p[0] >= 0x80 <==> negative) && BigEndian(Unsigned(p)) == BigEndian(m) && Minimal(p)
  {
    var p := Signed(m, negative);
    if m[0] >= 0x80 {
      LeadingZero(m);
      assert Unsigned(p) == [0] + m;
      assert p[1] == m[0];
    } else {
      assert Unsigned(p) == m;
    }
  }

  lemma MpiReadsBack(n: int)
    ensures FromMpi(ToMpi(n)) == n && Minimal(ToMpi(n))
  {
    var m: nat := if n < 0 then -n else n;
    SpelledReadsBack(m);
    if n != 0 {
      SignedReadsBack(Spelled(m), n < 0);
    }
  }

  /** Taking the sign off a minimal body leaves the shortest magnitude, perhaps after a zero. */
  lemma MinimalIsSigned(p: seq<byte>)
    requires Minimal(p) && p != []
    ensures BigEndian(Unsigned(p)) > 0 && Signed(Spelled(BigEndian(Unsigned(p))), p[0] >= 0x80) == p
  {
    var u := Unsigned(p);
    assert p == [p[0]] + p[1..] && u == [u[0]] + p[1..] && u[1..] == p[1..];
    if u[0] == 0 {
      LeadingZero(p[1..]);
      ShortestIsSpelled(p[1..]);
      assert Signed(p[1..], p[0] >= 0x80) == [p[0]] + p[1..];
    } else {
      ShortestIsSpelled(u);
      assert Signed(u, p[0] >= 0x80) == [p[0]] + p[1..];
    }
  }

  /** The minimal bodies are exactly those that are written. */
  lemma MinimalIsWritten(p: seq<byte>)
    ensures Minimal(p) <==> ToMpi(FromMpi(p)) == p
  {
    MpiReadsBack(FromMpi(p));
    if Minimal(p) && p != [] {
      MinimalIsSigned(p);
    }
  }

  // ------------------------------------------------------------------ the MPI form

  /** Four bytes of length, as far as they go. */
  function Header(size: nat): (h: seq<byte>)
    ensures |h| == 4
  {
    [(size / 0x100_0000) % 0x100, (size / 0x1_0000) % 0x100, (size / 0x100) % 0x100, size % 0x100]
  }

  /** The four bytes spell the size, as far as it fits 32 bits. */
  lemma HeaderReadsBack(size: nat)
    ensures BigEndian(Header(size)) == size % 0x1_0000_0000
  {
    FourBytes(Header(size));
    var y := size / 0x100;
    var z := y / 0x100;
    FourDigits(size, y, z, z / 0x100);
    assert z == size / 0x1_0000 && z / 0x100 == size / 0x100_0000;
  }

  lemma FourBytes(h: seq<byte>)
    requires |h| == 4
    ensures BigEndian(h) == h[3] as int + 0x100 * (h[2] as int + 0x100 * (h[1] as int + 0x100 * h[0] as int))
  {
    var a, b, c := h[..1], h[..2], h[..3];
    assert a[..0] == [] && b[..1] == a && c[..2] == b;
    assert BigEndian(a) == h[0];
    assert BigEndian(b) == 0x100 * BigEndian(a) + h[1] as int;
    assert BigEndian(c) == 0x100 * BigEndian(b) + h[2] as int;
  }

  /** How 32 unsigned bits read as an int. */
  function ToInt32(u: nat): int
    requires u < 0x1_0000_0000
  {
    if u < 0x8000_0000 then u else u - 0x1_0000_0000
  }

  /** BN_bn2mpi. */
  function Bn2Mpi(n: int): (bytes: seq<byte>)
    ensures |bytes| >= 4
  {
    Header(|ToMpi(n)|) + ToMpi(n)
  }

  /** BN_mpi2bn is told a size as an int: a size that is too small, or a header that does not match it,
      leaves the number as it was. */
  function Mpi2Bn(bytes: seq<byte>, before: int): int {
    var size := ToInt32(|bytes| % 0x1_0000_0000);
    if size >= 4 && BigEndian(bytes[..4]) == size - 4 then FromMpi(bytes[4..size]) else before
  }

  /** Bodies shorter than this are read. */
  const MPI_LIMIT: nat := 0x8000_0000 - 4

  lemma Mpi2BnReads(body: seq<byte>, before: int)
    requires |body| < MPI_LIMIT
    ensures Mpi2Bn(Header(|body|) + body, before) == FromMpi(body)
  {
    Mpi2BnReadsFront(body, before, |body|);
    assert body[..|body|] == body;
  }

  /** Of any body, as much is read as its size fits 32 bits, if what fits is below the limit. */
  lemma Mpi2BnReadsFront(body: seq<byte>, before: int, n: nat)
    requires n == |body| % 0x1_0000_0000
    ensures Mpi2Bn(Header(|body|) + body, before) == if n < MPI_LIMIT then FromMpi(body[..n]) else before
  {
    var bytes, size := Header(|body|) + body, ToInt32((|body| + 4) % 0x1_0000_0000);
    HeaderReadsBack(|body|);
    SizeWithHeader(|body|);
    Mpi2BnOfSize(bytes, before, size);
    assert bytes[..4] == Header(|body|);
    assert n < MPI_LIMIT ==> size == n + 4 && bytes[4..size] == body[..n];
  }

  lemma Mpi2BnOfSize(bytes: seq<byte>, before: int, size: int)
    requires size == ToInt32(|bytes| % 0x1_0000_0000)
    ensures size < 4 ==> Mpi2Bn(bytes, before) == before
    ensures size >= 4 ==> size <= |bytes|
    ensures size >= 4 && BigEndian(bytes[..4]) == size - 4 ==> Mpi2Bn(bytes, before) == FromMpi(bytes[4..size])
  {
  }

  /** What the size of body and header narrows to. */
  lemma SizeWithHeader(size: nat)
    ensures var n := size % 0x1_0000_0000;
      ToInt32((size + 4) % 0x1_0000_0000) == if n < MPI_LIMIT then n + 4
        else if n < 0x1_0000_0000 - 4 then n + 4 - 0x1_0000_0000 else n - (0x1_0000_0000 - 4)
  {
    var q, n := size / 0x1_0000_0000, size % 0x1_0000_0000;
    assert size + 4 == 0x1_0000_0000 * q + (n + 4);
    assert n + 4 >= 0x1_0000_0000 ==> size + 4 == 0x1_0000_0000 * (q + 1) + (n - (0x1_0000_0000 - 4));
  }
}
