/** Bytes, disk blocks and the little-endian 32-bit words the kernel lays over them. */
module Words {

  type byte = x: int | 0 <= x < 256
  type word = x: int | 0 <= x < 0x1_0000_0000

  const BSIZE := 512

  type Block = b: seq<byte> | |b| == BSIZE witness seq(BSIZE, _ => 0)

  function Zeros(n: nat): (z: seq<byte>)
    ensures |z| == n
    ensures forall i :: 0 <= i < n ==> z[i] == 0
  {
    seq(n, _ => 0)
  }

  /** The i-th 32-bit word of a byte array, as `((uint*)s)[i]` reads it on a little-endian machine. */
  function Word(s: seq<byte>, i: nat): (v: word)
    requires 4 * i + 4 <= |s|
    ensures v == 0 <==> s[4 * i] == 0 && s[4 * i + 1] == 0 && s[4 * i + 2] == 0 && s[4 * i + 3] == 0
  {
    var b0: int, b1: int, b2: int, b3: int := s[4 * i], s[4 * i + 1], s[4 * i + 2], s[4 * i + 3];
    b0 + 0x100 * b1 + 0x1_0000 * b2 + 0x100_0000 * b3
  }

  /** The byte array after `((uint*)s)[i] = v`. */
  function SetWord(s: seq<byte>, i: nat, v: word): (r: seq<byte>)
    requires 4 * i + 4 <= |s|
    ensures |r| == |s|
    ensures Word(r, i) == v
    ensures forall j: nat :: j != i && 4 * j + 4 <= |s| ==> Word(r, j) == Word(s, j)
  {
    var r := s[4 * i := v % 0x100]
              [4 * i + 1 := v / 0x100 % 0x100]
              [4 * i + 2 := v / 0x1_0000 % 0x100]
              [4 * i + 3 := v / 0x100_0000];
    assert Word(r, i) == v by { SplitBytes(v); }
    r
  }

  lemma SplitBytes(v: word)
    ensures v == v % 0x100 + 0x100 * (v / 0x100 % 0x100) + 0x1_0000 * (v / 0x1_0000 % 0x100)
                 + 0x100_0000 * (v / 0x100_0000)
  {
    assert v / 0x1_0000 == (v / 0x100) / 0x100;
    assert v / 0x100_0000 == (v / 0x1_0000) / 0x100;
  }

  /** The least significant byte comes first. */
  lemma LittleEndian(s: seq<byte>, i: nat)
    requires 4 * i + 4 <= |s|
    ensures var v := Word(s, i);
      && s[4 * i] == v % 0x100 && s[4 * i + 1] == v / 0x100 % 0x100
      && s[4 * i + 2] == v / 0x1_0000 % 0x100 && s[4 * i + 3] == v / 0x100_0000
  {
    var b0: int, b1: int, b2: int, b3: int := s[4 * i], s[4 * i + 1], s[4 * i + 2], s[4 * i + 3];
    var v := Word(s, i);
    assert v / 0x100 == b1 + 0x100 * (b2 + 0x100 * b3);
    assert v / 0x1_0000 == b2 + 0x100 * b3;
  }

  /** An array of zero bytes holds only zero words. */
  lemma ZeroWords(n: nat, i: nat)
    requires 4 * i + 4 <= n
    ensures Word(Zeros(n), i) == 0
  {
  }
}
