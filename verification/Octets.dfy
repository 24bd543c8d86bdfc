/** The unit that everything serialized is made of. */
module Octets {
  type byte = b: int | 0 <= b < 256

  function Zeros(n: nat): (z: seq<byte>)
    ensures |z| == n && forall i {:trigger z[i]} | 0 <= i < n :: z[i] == 0
  {
    seq(n, _ => 0)
  }
}
