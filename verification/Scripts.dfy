/** Script bytes: how instructions are written, read back, counted and deleted. */
module Scripts {
  import opened BigNums
  import opened Bytes
  import opened Mpi
  import opened Octets
  import opened Words

  const OP_PUSHDATA1: byte := 76
  const OP_PUSHDATA2: byte := 77
  const OP_PUSHDATA4: byte := 78
  const OP_1: byte := 81
  const OP_16: byte := 96
  const OP_CHECKSIG: byte := 172
  const OP_CHECKSIGVERIFY: byte := 173
  const OP_CHECKMULTISIG: byte := 174
  const OP_CHECKMULTISIGVERIFY: byte := 175
  const OP_INVALIDOPCODE: byte := 255

  // ------------------------------------------------------------------ reading one instruction

  /** An instruction: its opcode and the data it pushes. */
  datatype Instr = Instr(code: byte, data: seq<byte>)

  /** How many bytes after the opcode say how long the data is. */
  function LengthBytes(code: byte): nat {
    if code == OP_PUSHDATA1 then 1 else if code == OP_PUSHDATA2 then 2 else if code == OP_PUSHDATA4 then 4 else 0
  }

  /** How much data an instruction says it has; s is long enough to say so. */
  function DataSize(s: seq<byte>): nat
    requires s != [] && 1 + LengthBytes(s[0]) <= |s|
  {
    if s[0] < OP_PUSHDATA1 then s[0]
    else if s[0] <= OP_PUSHDATA4 then LittleEndian(s[1..1 + LengthBytes(s[0])])
    else 0
  }

  /** A whole instruction stands at the front of s. */
  predicate Readable(s: seq<byte>) {
    s != [] && 1 + LengthBytes(s[0]) <= |s| && 1 + LengthBytes(s[0]) + DataSize(s) <= |s|
  }

  /** The number of bytes of the instruction at the front. */
  function Extent(s: seq<byte>): (n: nat)
    requires Readable(s)
    ensures 0 < n <= |s|
  {
    1 + LengthBytes(s[0]) + DataSize(s)
  }

  function Read(s: seq<byte>): Instr
    requires Readable(s)
  {
    Instr(s[0], s[1 + LengthBytes(s[0])..Extent(s)])
  }

  /** How instructions lie in the bytes: codes up to 75 are themselves the length of the data, 76, 77 and 78
      have it in the next one, two or four bytes, the least significant first, and all others have no data. */
  lemma InstructionLayout(s: seq<byte>, width: nat, size: nat)
    requires s != [] && width == if s[0] == 76 then 1 else if s[0] == 77 then 2 else if s[0] == 78 then 4 else 0
    requires 1 + width <= |s| ==> size == if s[0] <= 75 then s[0] else LittleEndian(s[1..1 + width])
    ensures Readable(s) <==> 1 + width <= |s| && 1 + width + size <= |s|
    ensures Readable(s) ==> Extent(s) == 1 + width + size && Read(s) == Instr(s[0], s[1 + width..1 + width + size])
  {
    assert width == 0 && 1 <= |s| ==> s[1..1 + width] == [];
  }

  /** One instruction and nothing more. */
  predicate Single(b: seq<byte>) {
    Readable(b) && Extent(b) == |b|
  }

  /** Reading looks at nothing beyond the instruction. */
  lemma ReadingIsLocal(b: seq<byte>, s: seq<byte>)
    requires Single(b)
    ensures Readable(b + s) && Extent(b + s) == |b| && Read(b + s) == Read(b)
    ensures (b + s)[..|b|] == b && (b + s)[|b|..] == s
  {
    var l := LengthBytes(b[0]);
    assert (b + s)[0] == b[0] && (b + s)[1..1 + l] == b[1..1 + l];
    assert (b + s)[1 + l..|b|] == b[1 + l..];
  }

  /** The front of a readable script is a single instruction. */
  lemma FrontIsSingle(s: seq<byte>)
    requires Readable(s)
    ensures Single(s[..Extent(s)]) && Read(s[..Extent(s)]) == Read(s)
  {
    var b, l := s[..Extent(s)], LengthBytes(s[0]);
    assert b[1..1 + l] == s[1..1 + l];
    assert b[1 + l..] == s[1 + l..Extent(s)];
  }

  /** No instruction is the beginning of another. */
  lemma PrefixFree(a: seq<byte>, b: seq<byte>)
    requires Single(a) && Single(b) && a <= b
    ensures a == b
  {
    ReadingIsLocal(a, b[|a|..]);
    assert a + b[|a|..] == b;
  }

  // ------------------------------------------------------------------ a script as a list of instructions

  /** The instructions of a script, each in its own bytes, up to where it cannot be read any further. */
  function Ops(s: seq<byte>): seq<seq<byte>>
    decreases |s|
  {
    if Readable(s) then [s[..Extent(s)]] + Ops(s[Extent(s)..]) else []
  }

  /** What cannot be read any further. */
  function Tail(s: seq<byte>): seq<byte>
    decreases |s|
  {
    if Readable(s) then Tail(s[Extent(s)..]) else s
  }

  function Flat(ops: seq<seq<byte>>): seq<byte> {
    if ops == [] then [] else ops[0] + Flat(ops[1..])
  }

  lemma Regroup(a: seq<byte>, b: seq<byte>, c: seq<byte>)
    ensures a + (b + c) == (a + b) + c
  {
  }

  lemma Regroup3(a: seq<byte>, b: seq<byte>, c: seq<byte>, d: seq<byte>)
    ensures ((a + b) + c) + d == a + ((b + c) + d)
  {
    Regroup(a + b, c, d);
    Regroup(a, b, c + d);
    Regroup(b, c, d);
  }

  lemma FlatCons(b: seq<byte>, ops: seq<seq<byte>>, t: seq<byte>)
    ensures Flat([b] + ops) + t == b + (Flat(ops) + t)
  {
    assert ([b] + ops)[1..] == ops;
  }

  /** A script is its instructions and its tail. */
  lemma {:induction false} OpsAndTail(s: seq<byte>)
    ensures Flat(Ops(s)) + Tail(s) == s
    ensures forall b | b in Ops(s) :: Single(b)
    ensures !Readable(Tail(s))
    decreases |s|
  {
    if Readable(s) {
      var b, rest := s[..Extent(s)], s[Extent(s)..];
      FrontIsSingle(s);
      OpsAndTail(rest);
      FlatCons(b, Ops(rest), Tail(rest));
      assert s == b + rest;
    }
  }

  /** Reading is unique: whatever single instructions are put in a row before something unreadable are
      the ones that are read back. */
  lemma {:induction false} ReadsBackOps(ops: seq<seq<byte>>, tail: seq<byte>)
    requires (forall b | b in ops :: Single(b)) && !Readable(tail)
    ensures Ops(Flat(ops) + tail) == ops && Tail(Flat(ops) + tail) == tail
    decreases |ops|
  {
    if ops == [] {
      assert Flat(ops) + tail == tail;
    } else {
      var rest := Flat(ops[1..]) + tail;
      assert Flat(ops) + tail == ops[0] + rest;
      ReadingIsLocal(ops[0], rest);
      ReadsBackOps(ops[1..], tail);
    }
  }

  // ------------------------------------------------------------------ writing

  /** The instruction that pushes data, in one of four classes by length. */
  function PushOf(data: seq<byte>): seq<byte> {
    if |data| < OP_PUSHDATA1 as int then [|data|] + data
    else if |data| <= 0xff then [OP_PUSHDATA1] + LowFirst(|data|, 1) + data
    else if |data| <= 0xffff then [OP_PUSHDATA2] + LowFirst(|data|, 2) + data
    else [OP_PUSHDATA4] + LowFirst(|data|, 4) + data
  }

  /** What is put into a script: a bare opcode, or data to push. */
  datatype Item = Opcode(code: byte) | Push(data: seq<byte>)

  function Written(item: Item): seq<byte> {
    match item
    case Opcode(c) => [c]
    case Push(d) => PushOf(d)
  }

  /** A bare opcode stands for itself unless it is one that takes data along. */
  predicate Writable(item: Item) {
    match item
    case Opcode(c) => c == 0 || c > OP_PUSHDATA4
    case Push(d) => |d| < 0x1_0000_0000
  }

  function Meant(item: Item): Instr {
    match item
    case Opcode(c) => Instr(c, [])
    case Push(d) => Instr(PushOf(d)[0], d)
  }

  lemma LowFirstReadsBack(x: nat)
    ensures x < 0x100 ==> LittleEndian(LowFirst(x, 1)) == x
    ensures x < 0x1_0000 ==> LittleEndian(LowFirst(x, 2)) == x
    ensures LittleEndian(LowFirst(x, 4)) == x % 0x1_0000_0000
  {
    var y := x / 256;
    var z := y / 256;
    var w := z / 256;
    LowestByte(x, 1);
    LowestByte(x, 2);
    LowestByte(y, 1);
    LowestByte(x, 4);
    LowestByte(y, 3);
    LowestByte(z, 2);
    LowestByte(w, 1);
    FourDigits(x, y, z, w);
  }

  lemma LowestByte(x: nat, n: nat)
    requires n > 0
    ensures LittleEndian(LowFirst(x, n)) == x % 256 + 256 * LittleEndian(LowFirst(x / 256, n - 1))
  {
    assert LowFirst(x, n)[1..] == LowFirst(x / 256, n - 1);
  }

  // ------------------------------------------------------------------ written and read back

  lemma PushParts(code: byte, length: seq<byte>, data: seq<byte>)
    requires |length| == LengthBytes(code) && code <= OP_PUSHDATA4
    requires (if code < OP_PUSHDATA1 then code as nat else LittleEndian(length)) == |data|
    ensures var b := [code] + length + data; Single(b) && Read(b) == Instr(code, data)
  {
    var b := [code] + length + data;
    assert b[1..1 + |length|] == length;
    assert b[1 + |length|..] == data;
  }

  /** Every item that can be written is one instruction, and is read back as what it means. */
  lemma WrittenReadsBack(item: Item)
    requires Writable(item)
    ensures Single(Written(item)) && Read(Written(item)) == Meant(item)
  {
    match item {
      case Opcode(c) =>
        assert Written(item)[1..] == [];
      case Push(d) =>
        LowFirstReadsBack(|d|);
        if |d| < OP_PUSHDATA1 as int {
          PushParts(|d|, [], d);
          assert [|d| as byte] + [] + d == PushOf(d);
        } else if |d| <= 0xff {
          PushParts(OP_PUSHDATA1, LowFirst(|d|, 1), d);
        } else if |d| <= 0xffff {
          PushParts(OP_PUSHDATA2, LowFirst(|d|, 2), d);
        } else {
          PushParts(OP_PUSHDATA4, LowFirst(|d|, 4), d);
        }
    }
  }

  /** The condition is exact: anything else that is written is not an instruction of its own. */
  lemma WritableIsExact(item: Item)
    ensures Writable(item) <==> Single(Written(item))
  {
    if Writable(item) {
      WrittenReadsBack(item);
    } else {
      match item {
        case Opcode(c) =>
        case Push(d) =>
          LowFirstReadsBack(|d|);
          var b := PushOf(d);
          assert b[1..5] == LowFirst(|d|, 4);
      }
    }
  }

  /** How much an instruction of each code can push. */
  lemma {:induction false} DataFits(o: seq<byte>)
    requires Single(o)
    ensures var n := |Read(o).data|;
      && |o| == 1 + LengthBytes(o[0]) + n
      && (o[0] < 76 ==> n == o[0]) && (o[0] == 76 ==> n < 0x100) && (o[0] == 77 ==> n < 0x1_0000)
      && (o[0] > 78 ==> n == 0)
  {
    if 76 <= o[0] <= 77 {
      LittleEndianBound(o[1..1 + LengthBytes(o[0])]);
      DoubledByByte(1);
      DoubledByTwoBytes(1);
    }
  }

  /** What is pushed stands behind its length, and no instruction that pushes the same is shorter. */
  lemma PushIsShortest(data: seq<byte>, o: seq<byte>)
    requires |data| < 0x1_0000_0000 && Single(o) && Read(o).data == data
    ensures var b, n := PushOf(data), |data|;
      && |b| <= |o|
      && (n <= 75 ==> b == [n] + data)
      && (76 <= n <= 0xff ==> b == [76, n] + data)
      && (0x100 <= n <= 0xffff ==> |b| == 3 + n && b[0] == 77 && LittleEndian(b[1..3]) == n && b[3..] == data)
      && (0x1_0000 <= n ==> |b| == 5 + n && b[0] == 78 && LittleEndian(b[1..5]) == n && b[5..] == data)
  {
    DataFits(o);
    LowFirstReadsBack(|data|);
    var n := |data|;
    if 76 <= n <= 0xff {
      assert LowFirst(n, 1) == [n];
    } else if 0x100 <= n <= 0xffff {
      assert PushOf(data)[1..3] == LowFirst(n, 2);
    } else if 0x1_0000 <= n {
      assert PushOf(data)[1..5] == LowFirst(n, 4);
    }
  }

  function WrittenAll(items: seq<Item>): seq<seq<byte>> {
    seq(|items|, i requires 0 <= i < |items| => Written(items[i]))
  }

  /** Script round trip: any sequence of opcodes and pushes, of whatever lengths, is read back. */
  lemma ScriptReadsBack(items: seq<Item>)
    requires forall i | 0 <= i < |items| :: Writable(items[i])
    ensures var ops := Ops(Flat(WrittenAll(items)));
      && Tail(Flat(WrittenAll(items))) == [] && ops == WrittenAll(items)
      && forall i {:trigger ops[i]} | 0 <= i < |items| :: Single(ops[i]) && Read(ops[i]) == Meant(items[i])
  {
    var ops := WrittenAll(items);
    forall i | 0 <= i < |items|
      ensures Single(ops[i]) && Read(ops[i]) == Meant(items[i])
    {
      WrittenReadsBack(items[i]);
    }
    assert Flat(ops) + [] == Flat(ops);
    ReadsBackOps(ops, []);
  }

  // ------------------------------------------------------------------ deleting

  /** Find and delete, from a cursor at the front of s. */
  function Swept(s: seq<byte>, b: seq<byte>): seq<byte>
    requires b != []
    decreases |s|
  {
    if b <= s then Swept(s[|b|..], b)
    else if Readable(s) then s[..Extent(s)] + Swept(s[Extent(s)..], b)
    else s
  }

  /** A list of instructions without one of them. */
  function Without(ops: seq<seq<byte>>, b: seq<byte>): seq<seq<byte>> {
    if ops == [] then [] else (if ops[0] == b then [] else [ops[0]]) + Without(ops[1..], b)
  }

  /** A script with one instruction filtered out, and its unreadable tail kept. */
  function Filtered(s: seq<byte>, b: seq<byte>): seq<byte> {
    Flat(Without(Ops(s), b)) + Tail(s)
  }

  /** Deleting a single instruction is filtering the list of instructions. */
  lemma {:induction false} SweepIsFilter(s: seq<byte>, b: seq<byte>)
    requires Single(b)
    ensures Swept(s, b) == Filtered(s, b)
    decreases |s|
  {
    if b <= s {
      var rest := s[|b|..];
      ReadingIsLocal(b, rest);
      assert s == b + rest;
      SweepIsFilter(rest, b);
      assert Readable(s) && s[..Extent(s)] == b && s[Extent(s)..] == rest;
      assert Ops(s) == [b] + Ops(rest) && Ops(s)[1..] == Ops(rest);
      assert Without(Ops(s), b) == [] + Without(Ops(rest), b) == Without(Ops(rest), b);
      assert Tail(s) == Tail(rest);
    } else if Readable(s) {
      var front, rest := s[..Extent(s)], s[Extent(s)..];
      SweepIsFilter(rest, b);
      assert front <= s && front != b;
      assert Ops(s) == [front] + Ops(rest) && Ops(s)[1..] == Ops(rest);
      assert Without(Ops(s), b) == [front] + Without(Ops(rest), b);
      FlatCons(front, Without(Ops(rest), b), Tail(rest));
    } else {
      assert Without(Ops(s), b) == [] && Flat([]) + s == s;
    }
  }

  lemma SweepFilters(s: seq<byte>, b: seq<byte>)
    requires b != []
    ensures Single(b) ==> Swept(s, b) == Filtered(s, b)
  {
    if Single(b) {
      SweepIsFilter(s, b);
    }
  }

  /** Filtering out what is not there changes nothing. */
  lemma {:induction false} NothingIsFiltered(ops: seq<seq<byte>>, b: seq<byte>)
    requires b !in ops
    ensures Without(ops, b) == ops
  {
    if ops != [] {
      NothingIsFiltered(ops[1..], b);
    }
  }

  /** Find and delete is a filter exactly for single instructions; for anything else that is not empty,
      the script made of just that is the counterexample. */
  lemma FilterExactly(b: seq<byte>)
    requires b != []
    ensures (forall s :: Swept(s, b) == Filtered(s, b)) <==> Single(b)
  {
    if Single(b) {
      forall s
        ensures Swept(s, b) == Filtered(s, b)
      {
        SweepIsFilter(s, b);
      }
    } else {
      assert Swept(b, b) == Swept([], b) == [];
      OpsAndTail(b);
      if b in Ops(b) {
        assert false;
      }
      NothingIsFiltered(Ops(b), b);
      assert Filtered(b, b) == b;
    }
  }

  // ------------------------------------------------------------------ deleting twice

  /** An instruction so many times over, and then r. */
  function Repeated(c: seq<byte>, n: nat, r: seq<byte>): seq<byte> {
    if n == 0 then r else c + Repeated(c, n - 1, r)
  }

  /** A pattern that is one instruction over and over, and at most a beginning of it after that; or
      that cannot be read at all. */
  predicate Periodic(b: seq<byte>) {
    Ops(b) != [] ==> (forall o | o in Ops(b) :: o == Ops(b)[0]) && Tail(b) <= Ops(b)[0]
  }

  lemma {:induction false} PeriodicIsRepeated(b: seq<byte>, c: seq<byte>)
    requires forall o | o in Ops(b) :: o == c
    ensures b == Repeated(c, |Ops(b)|, Tail(b))
    decreases |b|
  {
    if Readable(b) {
      var front, rest := b[..Extent(b)], b[Extent(b)..];
      assert Ops(b) == [front] + Ops(rest);
      forall o | o in Ops(rest)
        ensures o == c
      {
        assert o in [front] + Ops(rest);
      }
      PeriodicIsRepeated(rest, c);
      assert front in Ops(b) && b == front + rest;
    }
  }

  lemma {:induction false} FewerIsPrefix(c: seq<byte>, m: nat, n: nat, r: seq<byte>)
    requires m < n && r <= c
    ensures Repeated(c, m, r) <= Repeated(c, n, r)
  {
    if m > 0 {
      FewerIsPrefix(c, m - 1, n - 1, r);
      var x, y := Repeated(c, m - 1, r), Repeated(c, n - 1, r);
      assert c + y == (c + x) + y[|x|..];
    } else {
      var y := Repeated(c, n - 1, r);
      assert c + y == r + (c[|r|..] + y);
    }
  }

  /** What stands in front of two instructions cannot tell them apart. */
  lemma SameFront(a: seq<byte>, x: seq<byte>, c: seq<byte>, y: seq<byte>)
    requires Single(a) && Single(c) && c + y <= a + x
    ensures a == c && y <= x
  {
    var s := a + x;
    assert c <= s && a <= s;
    if |c| <= |a| {
      assert c == s[..|c|] == a[..|c|];
      PrefixFree(c, a);
    } else {
      assert a == s[..|a|] == c[..|a|];
      PrefixFree(a, c);
    }
    assert (c + y)[|c|..] == y && s[|c|..] == x;
    assert s[|c|..][..|y|] == y;
  }

  /** Something unreadable at the beginning of an instruction and more is the beginning of the instruction. */
  lemma UnreadableFront(r: seq<byte>, a: seq<byte>, x: seq<byte>)
    requires !Readable(r) && Single(a) && r <= a + x
    ensures r <= a
  {
    var s := a + x;
    if |r| <= |a| {
      assert r == s[..|r|] == a[..|r|];
    } else {
      assert r[..|a|] == s[..|a|] == a;
      assert a + r[|a|..] == r;
      ReadingIsLocal(a, r[|a|..]);
    }
  }

  lemma Behind(s: seq<byte>)
    requires Readable(s)
    ensures var front, rest := s[..Extent(s)], s[Extent(s)..]; Single(front) && s == front + rest
  {
    FrontIsSingle(s);
  }

  lemma RowGrows(c: seq<byte>, m: nat, r: seq<byte>, rest: seq<byte>)
    requires m > 0 && Repeated(c, m - 1, r) <= rest
    ensures Repeated(c, m, r) <= c + rest
  {
    var x := Repeated(c, m - 1, r);
    assert c + rest == (c + x) + rest[|x|..];
  }

  /** A row of fewer instructions than the pattern has is at the front of what is left only if it was there. */
  lemma {:induction false} SweptBegins(s: seq<byte>, c: seq<byte>, m: nat, n: nat, r: seq<byte>, b: seq<byte>)
    requires Single(c) && r <= c && !Readable(r) && m < n && b == Repeated(c, n, r) && b != []
    requires Repeated(c, m, r) <= Swept(s, b)
    ensures Repeated(c, m, r) <= s
    decreases |s|
  {
    if b <= s {
      FewerIsPrefix(c, m, n, r);
    } else if Readable(s) {
      var front, rest := s[..Extent(s)], s[Extent(s)..];
      Behind(s);
      if m == 0 {
        UnreadableFront(r, front, Swept(rest, b));
      } else {
        SameFront(front, Swept(rest, b), c, Repeated(c, m - 1, r));
        SweptBegins(rest, c, m - 1, n, r, b);
        RowGrows(c, m, r, rest);
      }
    }
  }

  /** Deletion brings no copy of a row of instructions together. */
  lemma NothingNewInRow(front: seq<byte>, rest: seq<byte>, c: seq<byte>, n: nat, r: seq<byte>, b: seq<byte>)
    requires Single(c) && r <= c && !Readable(r) && n > 0 && Single(front) && b == Repeated(c, n, r) && b != []
    requires b <= front + Swept(rest, b)
    ensures b <= front + rest
  {
    SameFront(front, Swept(rest, b), c, Repeated(c, n - 1, r));
    SweptBegins(rest, c, n - 1, n, r, b);
    RowGrows(c, n, r, rest);
  }

  /** Nor of any other periodic pattern. */
  lemma NothingNew(front: seq<byte>, rest: seq<byte>, b: seq<byte>)
    requires b != [] && Periodic(b) && Single(front)
    ensures b <= front + Swept(rest, b) ==> b <= front + rest
  {
    var x, c, n, r := Swept(rest, b), b[..if Readable(b) then Extent(b) else 0], |Ops(b)|, Tail(b);
    OpsAndTail(b);
    if b <= front + x {
      if Readable(b) {
        FrontIsSingle(b);
        PeriodicIsRepeated(b, c);
        NothingNewInRow(front, rest, c, n, r, b);
      } else {
        UnreadableFront(b, front, x);
      }
    }
  }

  lemma {:induction false} PeriodicSweepsOnce(s: seq<byte>, b: seq<byte>)
    requires b != [] && Periodic(b)
    ensures Swept(Swept(s, b), b) == Swept(s, b)
    decreases |s|
  {
    if b <= s {
      PeriodicSweepsOnce(s[|b|..], b);
    } else if Readable(s) {
      var front, rest := s[..Extent(s)], s[Extent(s)..];
      Behind(s);
      NothingNew(front, rest, b);
      PeriodicSweepsOnce(rest, b);
      ReadingIsLocal(front, Swept(rest, b));
    }
  }

  /** Bytes that go on as an instruction in front of them would are that instruction over and over. */
  lemma {:induction false} ShiftedIsPeriodic(c: seq<byte>, s: seq<byte>)
    requires Single(c) && s <= c + s
    ensures (forall o | o in Ops(s) :: o == c) && Tail(s) <= c
    decreases |s|
  {
    if Readable(s) {
      var front, rest := s[..Extent(s)], s[Extent(s)..];
      Behind(s);
      SameFront(c, s, front, rest);
      ShiftedIsPeriodic(c, rest);
    } else {
      UnreadableFront(s, c, s);
    }
  }

  lemma {:induction false} TooShortToSweep(s: seq<byte>, b: seq<byte>)
    requires |s| < |b|
    ensures Swept(s, b) == s
    decreases |s|
  {
    if Readable(s) {
      Behind(s);
      TooShortToSweep(s[Extent(s)..], b);
    }
  }

  /** The pattern with its own first instruction before it and the others after it: where the first
      copy is passed over, deletion leaves the pattern. */
  lemma PassedOver(c: seq<byte>, r: seq<byte>, b: seq<byte>)
    requires Single(c) && b == c + r && !(b <= c + (b + r))
    ensures Swept(c + (b + r), b) == b && Swept(b, b) == []
  {
    ReadingIsLocal(c, b + r);
    TooShortToSweep(r, b);
    assert (b + r)[|b|..] == r && b[|b|..] == [];
    assert Swept(b + r, b) == Swept(r, b) && Swept(b, b) == Swept([], b);
  }

  lemma OnceIsPeriodic(c: seq<byte>, r: seq<byte>, b: seq<byte>)
    requires Single(c) && b == c + r && b <= c + (b + r)
    ensures Periodic(b)
  {
    SameFront(c, b + r, c, r);
    assert r == (b + r)[..|r|] == b[..|r|];
    ShiftedIsPeriodic(c, r);
    ReadingIsLocal(c, r);
    assert Ops(b) == [c] + Ops(r) && Tail(b) == Tail(r);
  }

  /** Deleting b from s twice is deleting it once. */
  predicate OnceIsEnough(s: seq<byte>, b: seq<byte>)
    requires b != []
  {
    Swept(Swept(s, b), b) == Swept(s, b)
  }

  /** Deleting twice is deleting once, on all scripts, exactly for these patterns. */
  lemma IdempotentExactly(b: seq<byte>)
    requires b != []
    ensures (forall s :: OnceIsEnough(s, b)) <==> Periodic(b)
  {
    if Periodic(b) {
      forall s
        ensures OnceIsEnough(s, b)
      {
        PeriodicSweepsOnce(s, b);
      }
    } else {
      var c, r := b[..Extent(b)], b[Extent(b)..];
      Behind(b);
      if b <= c + (b + r) {
        OnceIsPeriodic(c, r, b);
      }
      PassedOver(c, r, b);
      assert !OnceIsEnough(c + (b + r), b);
    }
  }

  /** Deleting a single instruction twice is deleting it once. */
  lemma SweepIsIdempotent(s: seq<byte>, b: seq<byte>)
    requires Single(b)
    ensures Periodic(b) && Swept(Swept(s, b), b) == Swept(s, b)
  {
    assert b + [] == b;
    ReadingIsLocal(b, []);
    assert Ops(b) == [b] + Ops([]) && Tail(b) == Tail([]);
    PeriodicSweepsOnce(s, b);
  }

  /** With two instructions to delete at once, deleting twice may delete more. */
  lemma PairsAreNotIdempotent()
    ensures var b, s: seq<byte> := [OP_1, OP_16], [OP_1, OP_1, OP_16, OP_16];
      Swept(s, b) == b && Swept(Swept(s, b), b) == []
  {
    var b: seq<byte>, s: seq<byte> := [OP_1, OP_16], [OP_1, OP_1, OP_16, OP_16];
    assert s[1] != b[1];
    assert s[..1] == [OP_1] && s[1..] == [OP_1, OP_16, OP_16];
    assert s[1..][2..] == [OP_16];
    assert Swept([OP_16], b) == [OP_16];
    assert Swept(s[1..], b) == [OP_16];
    assert [OP_1] + [OP_16] == b;
  }

  // ------------------------------------------------------------------ numbers

  /** How a number is written: small ones as an opcode of their own, others as pushed bytes. */
  function NumberItem(n: int): Item {
    if n == -1 || 1 <= n <= 16 then Opcode(n + 80) else Push(Reverse(ToMpi(n)))
  }

  /** What an instruction that pushes a number pushes. */
  function NumberOf(i: Instr): int {
    if i.code == OP_1 - 2 || OP_1 <= i.code <= OP_16 then i.code as int - 80 else FromMpi(Reverse(i.data))
  }

  /** A number that is written is read back, provided its bytes can be pushed at all. */
  lemma NumberReadsBack(n: int)
    requires |ToMpi(n)| < 0x1_0000_0000
    ensures var b := Written(NumberItem(n)); Single(b) && NumberOf(Read(b)) == n
  {
    WrittenReadsBack(NumberItem(n));
    VchReadsBack(n);
  }

  /** The bytes of a number: one opcode for minus one and for one to sixteen, an empty push for zero, and a
      push of its shortest signed bytes, the least significant first, for any other. */
  lemma NumberBytes(n: int)
    ensures Written(NumberItem(n)) ==
      if n == -1 then [79] else if n == 0 then [0] else if 1 <= n <= 16 then [80 + n] else PushOf(Reverse(ToMpi(n)))
  {
  }

  // ------------------------------------------------------------------ counting

  function Weight(code: byte): nat {
    if code == OP_CHECKSIG || code == OP_CHECKSIGVERIFY then 1
    else if code == OP_CHECKMULTISIG || code == OP_CHECKMULTISIGVERIFY then 20
    else 0
  }

  function SigOps(ops: seq<seq<byte>>): nat {
    if ops == [] then 0 else (if ops[0] == [] then 0 else Weight(ops[0][0])) + SigOps(ops[1..])
  }

  /** The count goes by the opcode in front of every instruction: one each for 172 and 173, twenty each for
      174 and 175, nothing for any other. */
  lemma {:induction false} SigOpsByCode(ops: seq<seq<byte>>, codes: seq<byte>)
    requires |ops| == |codes| && forall i {:trigger ops[i]} | 0 <= i < |ops| :: ops[i] != [] && ops[i][0] == codes[i]
    ensures var m := multiset(codes); SigOps(ops) == m[172] + m[173] + 20 * (m[174] + m[175])
  {
    if ops != [] {
      SigOpsByCode(ops[1..], codes[1..]);
      assert codes == [codes[0]] + codes[1..];
    }
  }

  lemma CountFromFront<T>(s: seq<T>, x: T)
    requires s != []
    ensures multiset(s)[x] == multiset(s[1..])[x] + if s[0] == x then 1 else 0
  {
    assert s == [s[0]] + s[1..];
  }

  lemma CodeOfItem(item: Item, code: byte)
    requires Writable(item) && code > OP_PUSHDATA4
    ensures Meant(item).code == code <==> item == Opcode(code)
  {
  }

  lemma {:induction false} CodeIsOpcode(items: seq<Item>, codes: seq<byte>, code: byte)
    requires |codes| == |items| && code > OP_PUSHDATA4
    requires forall i {:trigger codes[i]} | 0 <= i < |items| :: Writable(items[i]) && Meant(items[i]).code == codes[i]
    ensures multiset(codes)[code] == multiset(items)[Opcode(code)]
  {
    if items != [] {
      var rest, next := items[1..], codes[1..];
      forall i | 0 <= i < |rest|
        ensures Writable(rest[i]) && Meant(rest[i]).code == next[i]
      {
        assert codes[i + 1] == next[i];
      }
      CodeIsOpcode(rest, next, code);
      assert Meant(items[0]).code == codes[0] && Writable(items[0]);
      CodeOfItem(items[0], code);
      CountFromFront(items, Opcode(code));
      CountFromFront(codes, code);
    }
  }

  /** Of any row of opcodes and pushes that is written, the opcodes are counted, and what is pushed is not,
      whatever bytes it has. */
  lemma SigOpsOfItems(items: seq<Item>)
    requires forall i | 0 <= i < |items| :: Writable(items[i])
    ensures var m := multiset(items);
      SigOps(Ops(Flat(WrittenAll(items)))) == m[Opcode(172)] + m[Opcode(173)] + 20 * (m[Opcode(174)] + m[Opcode(175)])
  {
    ScriptReadsBack(items);
    var ops := Ops(Flat(WrittenAll(items)));
    var codes: seq<byte> := seq(|ops|, i requires 0 <= i < |ops| => Meant(items[i]).code);
    assert forall i {:trigger ops[i]} | 0 <= i < |ops| :: ops[i] != [] && ops[i][0] == Read(ops[i]).code;
    SigOpsByCode(ops, codes);
    CodeIsOpcode(items, codes, 172);
    CodeIsOpcode(items, codes, 173);
    CodeIsOpcode(items, codes, 174);
    CodeIsOpcode(items, codes, 175);
  }

  lemma {:induction false} SigOpsAdds(a: seq<seq<byte>>, b: seq<seq<byte>>)
    ensures SigOps(a + b) == SigOps(a) + SigOps(b)
  {
    if a == [] {
      assert a + b == b;
    } else {
      SigOpsAdds(a[1..], b);
      assert (a + b)[1..] == a[1..] + b;
    }
  }

  lemma {:induction false} FlatAdds(a: seq<seq<byte>>, b: seq<seq<byte>>)
    ensures Flat(a + b) == Flat(a) + Flat(b)
  {
    if a == [] {
      assert a + b == b;
    } else {
      FlatAdds(a[1..], b);
      assert (a + b)[1..] == a[1..] + b;
      Regroup(a[0], Flat(a[1..]), Flat(b));
    }
  }

  /** Where one script ends readably another may begin: their signature operations add up. */
  lemma SigOpsOfConcatenation(s: seq<byte>, t: seq<byte>)
    requires Tail(s) == []
    ensures SigOps(Ops(s + t)) == SigOps(Ops(s)) + SigOps(Ops(t))
  {
    OpsAndTail(s);
    OpsAndTail(t);
    FlatAdds(Ops(s), Ops(t));
    assert Flat(Ops(s)) == s;
    Regroup(s, Flat(Ops(t)), Tail(t));
    ReadsBackOps(Ops(s) + Ops(t), Tail(t));
    SigOpsAdds(Ops(s), Ops(t));
  }

  lemma PrefixAt(s: seq<byte>, pc: nat, b: seq<byte>)
    requires pc <= |s|
    ensures b <= s[pc..] <==> |s| - pc >= |b| && s[pc..pc + |b|] == b
  {
    if b <= s[pc..] {
      assert s[pc..pc + |b|] == s[pc..][..|b|];
    }
  }

  /** What a deletion that has come as far as a cursor will leave. */
  function Pending(s: seq<byte>, pc: nat, b: seq<byte>, more: bool): (r: seq<byte>)
    requires pc <= |s| && b != []
    ensures !more ==> r == s
    ensures pc == 0 && more ==> r == Swept(s[0..], b)
  {
    s[..pc] + (if more then Swept(s[pc..], b) else s[pc..])
  }

  lemma PendingPastOne(s: seq<byte>, pc: nat, b: seq<byte>)
    requires pc <= |s| && b != [] && !(b <= s[pc..]) && Readable(s[pc..])
    ensures pc + Extent(s[pc..]) <= |s| && Pending(s, pc, b, true) == Pending(s, pc + Extent(s[pc..]), b, true)
  {
    var t := s[pc..];
    var n := Extent(t);
    assert s[..pc + n] == s[..pc] + t[..n] && s[pc + n..] == t[n..];
    Regroup(s[..pc], t[..n], Swept(t[n..], b));
  }

  lemma PendingAtEnd(s: seq<byte>, pc: nat, b: seq<byte>)
    requires pc <= |s| && b != [] && !(b <= s[pc..]) && !Readable(s[pc..])
    ensures Pending(s, pc, b, true) == s
  {
    assert s == s[..pc] + s[pc..];
  }

  /** The bytes after the opcode at a cursor say how long its data is. */
  lemma SizeAt(s: seq<byte>, cursor: nat)
    requires cursor < |s| && cursor + 1 + LengthBytes(s[cursor]) <= |s|
    ensures var n := LengthBytes(s[cursor]); s[cursor + 1..cursor + 1 + n] == s[cursor..][1..1 + n]
  {
  }

  lemma DataAt(s: seq<byte>, cursor: nat, pc: nat, data: seq<byte>)
    requires cursor < |s| && cursor + 1 + LengthBytes(s[cursor]) <= pc <= |s|
    requires data == s[cursor + 1 + LengthBytes(s[cursor])..pc]
    ensures data == s[cursor..][1 + LengthBytes(s[cursor])..pc - cursor]
  {
  }

  predicate Pushes(b: seq<byte>) {
    b != [] && b[0] <= OP_16
  }

  /** Of what is written, every push counts as one, and of the bare opcodes those up to 96. */
  lemma PushesOfItems(items: seq<Item>)
    requires forall i | 0 <= i < |items| :: Writable(items[i])
    ensures (forall b | b in Ops(Flat(WrittenAll(items))) :: Pushes(b))
      <==> forall i | 0 <= i < |items| :: items[i].Opcode? ==> items[i].code <= 96
  {
    ScriptReadsBack(items);
    var ops := Ops(Flat(WrittenAll(items)));
    forall i | 0 <= i < |items|
      ensures ops[i] in ops && (Pushes(ops[i]) <==> (items[i].Opcode? ==> items[i].code <= 96))
    {
      assert Single(ops[i]) && Read(ops[i]) == Meant(items[i]);
    }
  }

  // ------------------------------------------------------------------ the script itself

  class Script {
    var bytes: seq<byte>

    constructor ()
      ensures bytes == []
    {
      bytes := [];
    }

    /** An opcode that does not fit a byte is refused. */
    method AddOpcode(opcode: int) returns (ok: bool)
      modifies this
      ensures ok <==> 0 <= opcode <= 0xff
      ensures bytes == if ok then old(bytes) + Written(Opcode(opcode)) else old(bytes)
    {
      if opcode < 0 || opcode > 0xff {
        return false;
      }
      bytes := bytes + [opcode];
      return true;
    }

    method AddData(b: seq<byte>)
      modifies this
      ensures bytes == old(bytes) + Written(Push(b))
    {
      ghost var was := bytes;
      if |b| < OP_PUSHDATA1 as int {
        bytes := bytes + [|b|];
        Regroup(was, [|b|], b);
      } else if |b| <= 0xff {
        bytes := bytes + [OP_PUSHDATA1];
        bytes := bytes + [|b|];
        assert LowFirst(|b|, 1) == [|b|];
        Regroup3(was, [OP_PUSHDATA1], LowFirst(|b|, 1), b);
      } else if |b| <= 0xffff {
        bytes := bytes + [OP_PUSHDATA2];
        bytes := bytes + LowFirst(|b|, 2);
        Regroup3(was, [OP_PUSHDATA2], LowFirst(|b|, 2), b);
      } else {
        bytes := bytes + [OP_PUSHDATA4];
        bytes := bytes + LowFirst(|b|, 4);
        Regroup3(was, [OP_PUSHDATA4], LowFirst(|b|, 4), b);
      }
      bytes := bytes + b;
    }

    method AddInt64(n: int)
      requires -0x8000_0000_0000_0000 <= n < 0x8000_0000_0000_0000
      modifies this
      ensures bytes == old(bytes) + Written(NumberItem(n))
    {
      if n == -1 || (n >= 1 && n <= 16) {
        bytes := bytes + [n + (OP_1 as int - 1)];
      } else {
        var bn := new BigNum(0);
        bn.SetInt64(n);
        var vch := bn.GetVch();
        AddData(vch);
      }
    }

    method AddUint64(n: nat)
      requires n < 0x1_0000_0000_0000_0000
      modifies this
      ensures bytes == old(bytes) + Written(NumberItem(n))
    {
      if n >= 1 && n <= 16 {
        bytes := bytes + [n + (OP_1 as int - 1)];
      } else {
        var bn := new BigNum(0);
        bn.SetUint64(n);
        var vch := bn.GetVch();
        AddData(vch);
      }
    }

    /** Read the instruction at a cursor and move the cursor past it. On failure the cursor has moved
        past what could be read, and the opcode is invalid. */
    method GetOp(cursor: nat) returns (ok: bool, pc: nat, opcode: byte, data: seq<byte>)
      requires cursor <= |bytes|
      ensures ok <==> Readable(bytes[cursor..])
      ensures ok ==> pc == cursor + Extent(bytes[cursor..]) && Instr(opcode, data) == Read(bytes[cursor..])
      ensures !ok ==> cursor <= pc <= |bytes| && opcode == OP_INVALIDOPCODE == 255 && data == []
      ensures !ok && cursor == |bytes| ==> pc == cursor
      ensures !ok && cursor < |bytes| ==>
        var n := LengthBytes(bytes[cursor]); pc == if cursor + 1 + n <= |bytes| then cursor + 1 + n else cursor + 1
    {
      pc, opcode, data := cursor, OP_INVALIDOPCODE, [];
      if pc >= |bytes| {
        return false, pc, opcode, data;
      }
      var op := bytes[pc];
      pc := pc + 1;
      var found := [];
      if op <= OP_PUSHDATA4 {
        var nSize: nat := 0;
        if op < OP_PUSHDATA1 {
          nSize := op;
        } else {
          var width: nat := LengthBytes(op);
          if |bytes| - pc < width {
            return false, pc, opcode, data;
          }
          nSize := LittleEndian(bytes[pc..pc + width]);
          pc := pc + width;
        }
        SizeAt(bytes, cursor);
        if pc + nSize > |bytes| {
          return false, pc, opcode, data;
        }
        found := bytes[pc..pc + nSize];
        pc := pc + nSize;
      }
      DataAt(bytes, cursor, pc, found);
      return true, pc, op, found;
    }

    /** Erase b as often as it stands at the cursor. */
    method EraseAt(pc: nat, b: seq<byte>)
      requires pc <= |bytes| && b != []
      modifies this
      ensures pc <= |bytes| <= old(|bytes|)
      ensures !(b <= bytes[pc..]) && Pending(bytes, pc, b, true) == old(Pending(bytes, pc, b, true))
    {
      while |bytes| - pc >= |b| && bytes[pc..pc + |b|] == b
        invariant pc <= |bytes| <= old(|bytes|) && bytes[..pc] == old(bytes[..pc])
        invariant Swept(bytes[pc..], b) == Swept(old(bytes[pc..]), b)
        decreases |bytes|
      {
        ghost var s := bytes[pc..];
        PrefixAt(bytes, pc, b);
        bytes := bytes[..pc] + bytes[pc + |b|..];
        assert bytes[pc..] == s[|b|..];
      }
      PrefixAt(bytes, pc, b);
    }

    /** Move the cursor past an instruction that is not b. */
    method PassOne(pc: nat, ghost b: seq<byte>) returns (more: bool, next: nat)
      requires pc <= |bytes| && b != [] && !(b <= bytes[pc..])
      ensures pc <= next <= |bytes| && (more ==> pc < next)
      ensures Pending(bytes, next, b, more) == Pending(bytes, pc, b, true)
    {
      var opcode, data;
      more, next, opcode, data := GetOp(pc);
      if more {
        PendingPastOne(bytes, pc, b);
      } else {
        PendingAtEnd(bytes, pc, b);
        next := pc;
      }
    }

    /** Erase b wherever it stands at the beginning of an instruction. The loop ends for every b. */
    method FindAndDelete(b: seq<byte>)
      modifies this
      ensures bytes == if b == [] then old(bytes) else Swept(old(bytes), b)
      ensures Single(b) ==> bytes == Filtered(old(bytes), b)
    {
      if b == [] {
        return;
      }
      var pc, more := 0, true;
      assert bytes[0..] == bytes;
      while more
        invariant 0 <= pc <= |bytes|
        invariant Swept(old(bytes), b) == Pending(bytes, pc, b, more)
        decreases |bytes| - pc, more
      {
        EraseAt(pc, b);
        more, pc := PassOne(pc, b);
      }
      SweepFilters(old(bytes), b);
    }

    method GetSigOpCount() returns (n: nat)
      ensures n == SigOps(Ops(bytes))
    {
      n := 0;
      var pc := 0;
      assert bytes[0..] == bytes;
      while pc < |bytes|
        invariant 0 <= pc <= |bytes| && n + SigOps(Ops(bytes[pc..])) == SigOps(Ops(bytes))
        decreases |bytes| - pc
      {
        ghost var s := bytes[pc..];
        var ok, next, opcode, data := GetOp(pc);
        if !ok {
          return;
        }
        assert bytes[next..] == s[Extent(s)..];
        assert Ops(s)[1..] == Ops(s[Extent(s)..]) && Ops(s)[0][0] == opcode;
        pc := next;
        if opcode == OP_CHECKSIG || opcode == OP_CHECKSIGVERIFY {
          n := n + 1;
        } else if opcode == OP_CHECKMULTISIG || opcode == OP_CHECKMULTISIGVERIFY {
          n := n + 20;
        }
      }
    }

    method IsPushOnly() returns (ok: bool)
      ensures ok <==> Tail(bytes) == [] && forall b | b in Ops(bytes) :: Pushes(b)
    {
      OpsAndTail(bytes);
      var pc := 0;
      assert bytes[0..] == bytes;
      while pc < |bytes|
        invariant 0 <= pc <= |bytes| && Tail(bytes) == Tail(bytes[pc..])
        invariant forall b | b in Ops(bytes[pc..]) :: b in Ops(bytes)
        invariant forall b | b in Ops(bytes) :: b in Ops(bytes[pc..]) || Pushes(b)
        decreases |bytes| - pc
      {
        ghost var s := bytes[pc..];
        var done, next, opcode, data := GetOp(pc);
        if !done {
          return false;
        }
        assert bytes[next..] == s[Extent(s)..];
        assert Ops(s) == [s[..Extent(s)]] + Ops(s[Extent(s)..]);
        assert s[..Extent(s)] in Ops(s);
        pc := next;
        if opcode > OP_16 {
          return false;
        }
      }
      return true;
    }
  }
}
