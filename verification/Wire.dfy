/** Bytes on the wire: octets, big-endian integers and the wrap-around of 32-bit sequence numbers. */
module Wire {

  newtype byte = x: int | 0 <= x < 0x100
  type uint16 = x: int | 0 <= x < 0x1_0000
  type uint32 = x: int | 0 <= x < 0x1_0000_0000
  type Bytes = seq<byte>

  datatype Option<+T> = None | Some(value: T)

  function Be16(hi: byte, lo: byte): (n: nat)
    ensures n < 0x1_0000
  {
    0x100 * hi as nat + lo as nat
  }

  function Be24(a: byte, b: byte, c: byte): nat {
    0x1_0000 * a as nat + 0x100 * b as nat + c as nat
  }

  function Be32(a: byte, b: byte, c: byte, d: byte): (n: nat)
    ensures n < 0x1_0000_0000
  {
    0x1_0000 * Be16(a, b) + Be16(c, d)
  }

  function Put16(n: uint16): (s: Bytes)
    ensures |s| == 2 && Be16(s[0], s[1]) == n
  {
    [(n / 0x100) as byte, (n % 0x100) as byte]
  }

  function Put24(n: nat): (s: Bytes)
    requires n < 0x100_0000
    ensures |s| == 3 && Be24(s[0], s[1], s[2]) == n
  {
    [(n / 0x1_0000) as byte, (n / 0x100 % 0x100) as byte, (n % 0x100) as byte]
  }

  function Put32(n: uint32): (s: Bytes)
    ensures |s| == 4 && Be32(s[0], s[1], s[2], s[3]) == n
  {
    Put16(n / 0x1_0000) + Put16(n % 0x1_0000)
  }

  /** A slice of a slice is a slice. */
  lemma {:induction false} SliceOfSlice<T>(s: seq<T>, a: nat, b: nat, c: nat, d: nat)
    requires a <= b <= |s| && c <= d <= b - a
    ensures s[a..b][c..d] == s[a + c..a + d]
  {
    var t, u := s[a..b][c..d], s[a + c..a + d];
    assert |t| == |u| && forall i :: 0 <= i < |t| ==> t[i] == u[i];
  }
}
