/** Little-endian fields in byte buffers. */
module Endian {
  newtype Octet = b: int | 0 <= b < 256

  /** `width` bytes of `n`, least significant first; higher bytes are cut off. */
  function Bytes(n: nat, width: nat): (s: seq<Octet>)
    ensures |s| == width
  {
    if width == 0 then [] else [(n % 256) as Octet] + Bytes(n / 256, width - 1)
  }

  function Read(s: seq<Octet>): nat {
    if s == [] then 0 else s[0] as nat + 256 * Read(s[1..])
  }

  function Pow256(width: nat): nat {
    if width == 0 then 1 else 256 * Pow256(width - 1)
  }

  lemma {:induction false} ReadBound(s: seq<Octet>)
    ensures Read(s) < Pow256(|s|)
  {
    if s != [] {
      ReadBound(s[1..]);
    }
  }

  /** The low bytes of a wide field are the bytes of a narrow one. */
  lemma {:induction false} BytesPrefix(n: nat, width: nat, narrow: nat)
    requires narrow <= width
    ensures Bytes(n, width)[..narrow] == Bytes(n, narrow)
  {
    if narrow > 0 {
      BytesPrefix(n / 256, width - 1, narrow - 1);
      assert Bytes(n, width)[..narrow] == [(n % 256) as Octet] + Bytes(n / 256, width - 1)[..narrow - 1];
    }
  }

  lemma FourDigits(n: nat, n1: nat, n2: nat, n3: nat, n4: nat, b0: nat, b1: nat, b2: nat, b3: nat)
    requires b0 < 256 && b1 < 256 && b2 < 256 && b3 < 256
    requires n == 256 * n1 + b0 && n1 == 256 * n2 + b1 && n2 == 256 * n3 + b2 && n3 == 256 * n4 + b3
    ensures b0 + 256 * (b1 + 256 * (b2 + 256 * b3)) == n % 0x1_0000_0000
  {
    WordRemainder(n, n4, b0 + 256 * (b1 + 256 * (b2 + 256 * b3)));
  }

  lemma WordRemainder(n: nat, q: nat, r: nat)
    requires n == 0x1_0000_0000 * q + r && r < 0x1_0000_0000
    ensures n % 0x1_0000_0000 == r
  {
  }

  /** Four bytes of any number read as its low word. */
  lemma LowWord(n: nat)
    ensures Read(Bytes(n, 4)) == n % 0x1_0000_0000
  {
    var n1 := n / 256;
    var n2 := n1 / 256;
    var n3 := n2 / 256;
    ReadOne(n3, 0);
    ReadOne(n2, 1);
    ReadOne(n1, 2);
    ReadOne(n, 3);
    FourDigits(n, n1, n2, n3, n3 / 256, n % 256, n1 % 256, n2 % 256, n3 % 256);
  }

  lemma ReadOne(n: nat, width: nat)
    ensures Read(Bytes(n, width + 1)) == n % 256 + 256 * Read(Bytes(n / 256, width))
  {
    assert Bytes(n, width + 1)[1..] == Bytes(n / 256, width);
  }
}
