/** The TLV stream shared by firmware, software and BCF files: a 16-bit type, a 16-bit length and
    the value, all little-endian. */
module TlvStream {
  import opened Bytes
  import opened Words

  const MAX_LENGTH := 0xFFFF
  const HEADER_SIZE := 4

  /** TLV types and magic numbers that several programs name. */
  const MAGIC: uint16 := 0x8000
  const EOF: uint16 := 0x8F00
  const SW_MAGIC_NUMBER := 0x57534D4D
  const FW_MAGIC_NUMBER := 0x57464D4D
  const BCF_MAGIC_NUMBER := 0x43424D4D

  datatype Tlv = Tlv(kind: uint16, data: seq<byte>)

  /** What the reader finds at the front of a stream. */
  datatype Step = End | TruncatedHeader | TruncatedData | Found(tlv: Tlv, rest: seq<byte>)

  function Encode(t: Tlv): seq<byte> {
    Pack16(t.kind) + Pack16(|t.data|) + t.data
  }

  function EncodeAll(ts: seq<Tlv>): seq<byte> {
    if ts == [] then [] else Encode(ts[0]) + EncodeAll(ts[1..])
  }

  predicate Fits(t: Tlv) {
    |t.data| <= MAX_LENGTH
  }

  predicate AllFit(ts: seq<Tlv>) {
    forall i | 0 <= i < |ts| :: Fits(ts[i])
  }

  function ReadTlv(s: seq<byte>): (r: Step)
    ensures r.Found? ==> |r.rest| < |s|
  {
    if s == [] then End
    else if |s| < HEADER_SIZE then TruncatedHeader
    else
      var kind := Unpack16(s[..2]);
      var length := Unpack16(s[2..4]);
      if |s| < HEADER_SIZE + length then TruncatedData
      else Found(Tlv(kind, s[4..4 + length]), s[4 + length..])
  }

  /** The whole stream, when it is a sequence of complete TLVs. */
  function ParseAll(s: seq<byte>): Option<seq<Tlv>>
    decreases |s|
  {
    match ReadTlv(s)
    case End => Some([])
    case Found(t, rest) =>
      (match ParseAll(rest)
       case None => None
       case Some(ts) => Some([t] + ts))
    case _ => None
  }

  /** The header fields at an offset. */
  function KindAt(s: seq<byte>, offset: nat): uint16
    requires offset + HEADER_SIZE <= |s|
  {
    Unpack16(s[offset..offset + 2])
  }

  function LengthAt(s: seq<byte>, offset: nat): uint16
    requires offset + HEADER_SIZE <= |s|
  {
    Unpack16(s[offset + 2..offset + 4])
  }

  /** Where one TLV stands in a stream. */
  lemma TlvAt(front: seq<byte>, t: Tlv, rest: seq<byte>)
    requires Fits(t)
    ensures var s := front + Encode(t) + rest;
            var i := |front|;
            && i + HEADER_SIZE + |t.data| == |front + Encode(t)| <= |s|
            && KindAt(s, i) == t.kind && LengthAt(s, i) == |t.data|
            && s[i + HEADER_SIZE..i + HEADER_SIZE + |t.data|] == t.data
  {
    var s, i := front + Encode(t) + rest, |front|;
    Unpack16OfPack16(t.kind);
    Unpack16OfPack16(|t.data|);
    assert s[i..i + 2] == Pack16(t.kind) && s[i + 2..i + 4] == Pack16(|t.data|);
  }

  lemma ReadOfEncode(t: Tlv, rest: seq<byte>)
    requires Fits(t)
    ensures ReadTlv(Encode(t) + rest) == Found(t, rest)
  {
    var s := Encode(t) + rest;
    Unpack16OfPack16(t.kind);
    Unpack16OfPack16(|t.data|);
    assert s[..2] == Pack16(t.kind);
    assert s[2..4] == Pack16(|t.data|);
    assert s[4..4 + |t.data|] == t.data;
    assert s[4 + |t.data|..] == rest;
  }

  lemma EncodeOfRead(s: seq<byte>)
    requires ReadTlv(s).Found?
    ensures Fits(ReadTlv(s).tlv)
    ensures Encode(ReadTlv(s).tlv) + ReadTlv(s).rest == s
  {
    Pack16OfUnpack16(s[..2]);
    Pack16OfUnpack16(s[2..4]);
    assert s == s[..2] + s[2..4] + s[4..];
  }

  /** Reading back what was written gives the same TLVs... */
  lemma {:induction false} ParseOfEncode(ts: seq<Tlv>)
    requires AllFit(ts)
    ensures ParseAll(EncodeAll(ts)) == Some(ts)
  {
    if ts != [] {
      ReadOfEncode(ts[0], EncodeAll(ts[1..]));
      ParseOfEncode(ts[1..]);
      assert ts == [ts[0]] + ts[1..];
    }
  }

  /** ... and writing back what was read gives the same bytes. */
  lemma {:induction false} EncodeOfParse(s: seq<byte>)
    requires ParseAll(s).Some?
    ensures AllFit(ParseAll(s).value)
    ensures EncodeAll(ParseAll(s).value) == s
    decreases |s|
  {
    if s != [] {
      EncodeOfRead(s);
      EncodeOfParse(ReadTlv(s).rest);
    }
  }

  lemma {:induction false} EncodeAllAppend(ts: seq<Tlv>, us: seq<Tlv>)
    ensures EncodeAll(ts + us) == EncodeAll(ts) + EncodeAll(us)
  {
    hide Encode;
    if ts == [] {
      assert ts + us == us;
    } else {
      var all, head, tail := ts + us, Encode(ts[0]), ts[1..];
      EncodeAllAppend(tail, us);
      assert all[0] == ts[0] && all[1..] == tail + us;
      assert EncodeAll(all) == head + EncodeAll(tail + us) && EncodeAll(ts) == head + EncodeAll(tail);
      hide EncodeAll;
      Associate(head, EncodeAll(tail), EncodeAll(us));
    }
  }

  /** The generator over an open file: `pos` is the file position, `Next` one resumption of it. */
  class TlvReader {
    const infile: seq<byte>
    var pos: nat

    ghost predicate Valid()
      reads this
    {
      pos <= |infile|
    }

    ghost function Remaining(): seq<byte>
      requires Valid()
      reads this
    {
      infile[pos..]
    }

    constructor (infile: seq<byte>)
      ensures Valid() && Remaining() == infile
    {
      this.infile := infile;
      pos := 0;
    }

    /** File read: at most n bytes, fewer at the end of the file. */
    method Read(n: nat) returns (data: seq<byte>)
      requires Valid()
      modifies this
      ensures Valid()
      ensures data == old(Remaining())[..if n < |old(Remaining())| then n else |old(Remaining())|]
      ensures Remaining() == old(Remaining())[|data|..]
    {
      var stop := if n < |infile| - pos then pos + n else |infile|;
      data := infile[pos..stop];
      pos := stop;
    }

    method Next() returns (r: Step)
      requires Valid()
      modifies this
      ensures Valid()
      ensures r == ReadTlv(old(Remaining()))
      ensures r.Found? ==> Remaining() == r.rest
    {
      ghost var s := Remaining();
      var header := Read(HEADER_SIZE);
      if header == [] {
        return End;
      }
      if |header| != HEADER_SIZE {
        return TruncatedHeader;
      }
      assert header[..2] == s[..2] && header[2..4] == s[2..4];
      var kind, length := Unpack16(header[..2]), Unpack16(header[2..4]);
      ghost var body := Remaining();
      assert body == s[4..];
      var data := Read(length);
      if |data| != length {
        return TruncatedData;
      }
      assert data == s[4..4 + length];
      assert Remaining() == s[4 + length..];
      return Found(Tlv(kind, data), infile[pos..]);
    }
  }
}
