/** How a target comes out of a block's bits: as a fresh big number is set from them. */
module Targets {
  import opened BigNums
  import opened BlockTrees
  import opened Compact
  import opened Mpi
  import opened Words

  /** Set a fresh big number from the bits, as an int. */
  method ReadTarget(bits: Bits) returns (target: int)
    ensures target == Target(bits)
  {
    var bnTarget := new BigNum(0);
    bnTarget.SetCompact(ToInt32(bits));
    target := bnTarget.value;
  }

  /** The target in numbers: 23 bits, shifted by the size, and negative when bit 23 is set; nothing at all
      when the sign bit of the int is. */
  lemma TargetSays(bits: Bits, size: nat, low: nat, negative: bool)
    requires size == bits / 0x100_0000 && low == bits % 0x80_0000 && (negative <==> (bits / 0x80_0000) % 2 == 1)
    ensures var m := if size >= 128 then 0 else if size >= 3 then Doubled(low, 8 * (size - 3))
      else if size == 2 then low / 0x100 else if size == 1 then low / 0x1_0000 else 0;
      Target(bits) == if negative then -m else m
  {
    CompactSays(bits, size, low, negative);
  }

  /** The work of a block, as it is computed from its bits. */
  method ReadWork(b: Block) returns (work: nat)
    ensures work == Work(b)
  {
    var bnTarget := ReadTarget(b.bits);
    if bnTarget <= 0 {
      return 0;
    }
    work := Share(HASHES, bnTarget + 1);
  }
}
