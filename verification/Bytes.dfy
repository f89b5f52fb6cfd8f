/** Bytes and little-endian packing, as `struct.pack("<...")` and `int.from_bytes` do it. */
module Bytes {
  import opened Words

  type byte = uint8

  datatype Option<+T> = None | Some(value: T)

  /** Python's `data[start:start + n]`, which clamps at the end. */
  function Slice(data: seq<byte>, start: nat, n: nat): seq<byte> {
    if start >= |data| then [] else data[start..if start + n < |data| then start + n else |data|]
  }

  function Low(v: nat): byte {
    v % 0x100
  }

  /** "<H": the two low bytes, least significant first. */
  function Pack16(v: nat): (s: seq<byte>)
    ensures |s| == 2
  {
    [Low(v), Low(v / 0x100)]
  }

  function Unpack16(s: seq<byte>): uint16
    requires |s| == 2
  {
    s[0] as int + 0x100 * s[1] as int
  }

  /** "<I": the four low bytes, least significant first. */
  function Pack32(v: nat): (s: seq<byte>)
    ensures |s| == 4
  {
    [Low(v), Low(v / 0x100), Low(v / 0x1_0000), Low(v / 0x100_0000)]
  }

  function Unpack32(s: seq<byte>): (v: nat)
    requires |s| == 4
    ensures v < 0x1_0000_0000
  {
    s[0] as int + 0x100 * s[1] as int + 0x1_0000 * s[2] as int + 0x100_0000 * s[3] as int
  }

  lemma Unpack16OfPack16(v: uint16)
    ensures Unpack16(Pack16(v)) == v
  {
  }

  lemma Pack16OfUnpack16(s: seq<byte>)
    requires |s| == 2
    ensures Pack16(Unpack16(s)) == s
  {
  }

  lemma Unpack32OfPack32(v: nat)
    requires v < 0x1_0000_0000
    ensures Unpack32(Pack32(v)) == v
  {
    assert v / 0x1_0000 == v / 0x100 / 0x100 && v / 0x100_0000 == v / 0x1_0000 / 0x100;
  }

  /** `int.from_bytes(s, "little")`, for any length. */
  function FromLe(s: seq<byte>): nat {
    if s == [] then 0 else s[0] + 0x100 * FromLe(s[1..])
  }

  /** Packed fields are little-endian: the least significant byte comes first. */
  lemma UnpackIsLittleEndian(s: seq<byte>)
    ensures |s| == 2 ==> Unpack16(s) == FromLe(s)
    ensures |s| == 4 ==> Unpack32(s) == FromLe(s)
  {
    if |s| == 2 {
      assert s[1..][1..] == [];
    } else if |s| == 4 {
      assert s[1..][1..][1..][1..] == [];
      assert FromLe(s[1..][1..][1..]) == s[3] && FromLe(s[1..][1..]) == s[2] as int + 0x100 * s[3] as int;
    }
  }

  /** A number is 0 iff all its bytes are. */
  lemma {:induction false} FromLeZero(s: seq<byte>)
    ensures FromLe(s) == 0 <==> forall i | 0 <= i < |s| :: s[i] == 0
  {
    if s != [] {
      FromLeZero(s[1..]);
      assert s == [s[0]] + s[1..];
    }
  }

  lemma Pack32OfUnpack32(s: seq<byte>)
    requires |s| == 4
    ensures Pack32(Unpack32(s)) == s
  {
    var v := Unpack32(s);
    var b, c, d: int := s[1], s[2], s[3];
    assert v / 0x100 == b + 0x100 * c + 0x1_0000 * d;
    assert v / 0x1_0000 == c + 0x100 * d;
    assert v / 0x100_0000 == d;
  }

  function Power(n: nat): nat {
    if n == 0 then 1 else 0x100 * Power(n - 1)
  }

  /** The weight of the last byte. */
  lemma {:induction false} FromLeLast(s: seq<byte>, b: byte)
    ensures FromLe(s + [b]) == FromLe(s) + b * Power(|s|)
  {
    if s == [] {
      assert [] + [b] == [b] && [b][1..] == [];
    } else {
      assert (s + [b])[1..] == s[1..] + [b];
      FromLeLast(s[1..], b);
      assert b * Power(|s|) == 0x100 * (b * Power(|s| - 1));
    }
  }
}
