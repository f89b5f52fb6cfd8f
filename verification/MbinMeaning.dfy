/** What compressing an MBIN file preserves: the memory images it loads, its other TLVs and its
    shape. */
module MbinMeaning {
  import opened Bytes
  import opened TlvStream
  import opened Words
  import opened MbinCompress

  // ---------- Which inputs are accepted ----------

  /** The order rules for what follows the TLVs already read. */
  predicate Ordered(ts: seq<Tlv>, sawMagic: bool, sawEof: bool) {
    if ts == [] then sawMagic && sawEof
    else !sawEof && (sawMagic || ValidateMagic(ts[0]).Ok?) && Ordered(ts[1..], true, ts[0].kind == EOF)
  }

  /** A valid magic TLV first, an EOF TLV last and nowhere else. */
  predicate WellFormed(ts: seq<Tlv>) {
    && |ts| >= 2
    && ValidateMagic(ts[0]).Ok?
    && ts[|ts| - 1].kind == EOF
    && forall i | 0 <= i < |ts| - 1 :: ts[i].kind != EOF
  }

  function ExpandAll(z: Codec, size: nat, ts: seq<Tlv>): Result<seq<Tlv>>
    requires size > 0
  {
    if ts == [] then Ok([])
    else match Expand(z, size, ts[0])
         case Err(e) => Err(e)
         case Ok(us) => Prepend(us, ExpandAll(z, size, ts[1..]))
  }

  lemma {:induction false} OrderedTail(ts: seq<Tlv>)
    requires ts != []
    ensures Ordered(ts, true, false)
       <==> ts[|ts| - 1].kind == EOF && forall i | 0 <= i < |ts| - 1 :: ts[i].kind != EOF
  {
    if |ts| > 1 {
      var tail := ts[1..];
      OrderedTail(tail);
      assert tail[|tail| - 1] == ts[|ts| - 1];
      if ts[0].kind != EOF && forall i | 0 <= i < |tail| - 1 :: tail[i].kind != EOF {
        forall i | 0 <= i < |ts| - 1 ensures ts[i].kind != EOF {
          assert i > 0 ==> ts[i] == tail[i - 1];
        }
      }
      assert forall i | 0 <= i < |tail| :: tail[i] == ts[i + 1];
    }
  }

  lemma OrderedMeaning(ts: seq<Tlv>)
    ensures Ordered(ts, false, false) <==> WellFormed(ts)
  {
    if ts != [] {
      OrderedTail(ts);
      assert Ordered(ts, false, false) <==> ValidateMagic(ts[0]).Ok? && Ordered(ts, true, false);
    }
  }

  lemma {:induction false} RunMeaning(z: Codec, size: nat, s: seq<byte>, sawMagic: bool, sawEof: bool)
    requires size > 0
    ensures var r := Run(z, size, s, sawMagic, sawEof);
            var p := ParseAll(s);
            && (r.Ok? <==> p.Some? && Ordered(p.value, sawMagic, sawEof) && ExpandAll(z, size, p.value).Ok?)
            && (r.Ok? ==> r == ExpandAll(z, size, p.value))
    decreases |s|
  {
    var step := ReadTlv(s);
    if step.Found? {
      RunMeaning(z, size, step.rest, true, step.tlv.kind == EOF);
      var p := ParseAll(step.rest);
      if p.Some? {
        assert ([step.tlv] + p.value)[1..] == p.value;
      }
    }
  }

  /** A file is accepted iff it is a complete TLV stream of the right shape whose segments all
      expand, and the output is the concatenation of the expansions. */
  lemma Accepted(z: Codec, size: int, s: seq<byte>)
    requires 0 < size <= 0xFFFF
    ensures var r := Compressed(z, false, size, s);
            var p := ParseAll(s);
            && (r.Ok? <==> p.Some? && WellFormed(p.value) && ExpandAll(z, size, p.value).Ok?)
            && (r.Ok? ==> r == ExpandAll(z, size, p.value))
  {
    RunMeaning(z, size, s, false, false);
    if ParseAll(s).Some? {
      OrderedMeaning(ParseAll(s).value);
    }
  }

  // ---------- Loading ----------

  type Memory = map<nat, byte>
  datatype Images = Images(fw: Memory, sw: Memory)

  function WriteAt(m: Memory, address: nat, data: seq<byte>): Memory
    decreases |data|
  {
    if data == [] then m else WriteAt(m[address := data[0]], address + 1, data[1..])
  }

  function Store(im: Images, firmware: bool, address: nat, data: seq<byte>): Images {
    if firmware then im.(fw := WriteAt(im.fw, address, data)) else im.(sw := WriteAt(im.sw, address, data))
  }

  /** Loading one TLV: segments are written to their image at their address, other TLVs write
      nothing, malformed segments are refused. */
  function LoadTlv(z: Codec, im: Images, t: Tlv): Option<Images> {
    var fw := t.kind == FW_SEGMENT || t.kind == FW_SEGMENT_DEFLATED;
    if IsPlain(t.kind) then
      if |t.data| < 4 then None else Some(Store(im, fw, Unpack32(t.data[..4]), t.data[4..]))
    else if IsDeflated(t.kind) then
      if |t.data| < 6 then None
      else
        match z.inflate(t.data[6..])
        case None => None
        case Some(raw) =>
          if |raw| != Unpack16(t.data[4..6]) then None
          else Some(Store(im, fw, Unpack32(t.data[..4]), raw))
    else Some(im)
  }

  function Load(z: Codec, im: Images, ts: seq<Tlv>): Option<Images>
    decreases |ts|
  {
    if ts == [] then Some(im)
    else match LoadTlv(z, im, ts[0])
         case None => None
         case Some(im') => Load(z, im', ts[1..])
  }

  function LoadFile(z: Codec, s: seq<byte>): Option<Images> {
    match ParseAll(s)
    case None => None
    case Some(ts) => Load(z, Images(map[], map[]), ts)
  }

  lemma {:induction false} LoadAppend(z: Codec, im: Images, ts: seq<Tlv>, us: seq<Tlv>)
    ensures Load(z, im, ts + us)
         == match Load(z, im, ts) case None => None case Some(mid) => Load(z, mid, us)
    decreases |ts|
  {
    if ts == [] {
      assert ts + us == us;
    } else {
      assert (ts + us)[1..] == ts[1..] + us;
      match LoadTlv(z, im, ts[0])
      case None =>
      case Some(mid) => LoadAppend(z, mid, ts[1..], us);
    }
  }

  lemma {:induction false} WriteAtSplit(m: Memory, address: nat, data: seq<byte>, n: nat)
    requires n <= |data|
    ensures WriteAt(WriteAt(m, address, data[..n]), address + n, data[n..]) == WriteAt(m, address, data)
    decreases n
  {
    if n == 0 {
      assert data[0..] == data;
    } else {
      WriteAtSplit(m[address := data[0]], address + 1, data[1..], n - 1);
      assert data[1..][..n - 1] == data[..n][1..];
      assert data[1..][n - 1..] == data[n..];
    }
  }

  lemma LoadChunk(z: Codec, im: Images, kind: uint16, address: nat, chunk: seq<byte>)
    requires RoundTrips(z) && IsDeflated(kind)
    requires address < ADDRESS_LIMIT && |chunk| <= 0xFFFF
    ensures LoadTlv(z, im, ChunkTlv(z, kind, address, chunk))
         == Some(Store(im, kind == FW_SEGMENT_DEFLATED, address, chunk))
  {
    var t := ChunkTlv(z, kind, address, chunk);
    Unpack32OfPack32(address);
    Unpack16OfPack16(|chunk|);
    assert t.data[..4] == Pack32(address);
    assert t.data[4..6] == Pack16(|chunk|);
    assert t.data[6..] == z.deflate(chunk);
  }

  lemma LoadCons(z: Codec, im: Images, t: Tlv, us: seq<Tlv>)
    ensures Load(z, im, [t] + us) == match LoadTlv(z, im, t) case None => None case Some(mid) => Load(z, mid, us)
  {
    assert ([t] + us)[1..] == us;
  }

  lemma StoreSlice(im: Images, fw: bool, address: nat, data: seq<byte>, offset: nat, size: nat)
    requires offset <= |data|
    ensures var chunk := Slice(data, offset, size);
            Store(Store(im, fw, address + offset, chunk), fw, address + (offset + |chunk|), data[offset + |chunk|..])
            == Store(im, fw, address + offset, data[offset..])
  {
    var chunk := Slice(data, offset, size);
    var rest := data[offset..];
    assert rest[..|chunk|] == chunk && rest[|chunk|..] == data[offset + |chunk|..];
    WriteAtSplit(if fw then im.fw else im.sw, address + offset, rest, |chunk|);
  }

  /** The chunks of a segment load as the segment itself. */
  lemma {:induction false} LoadChunks(z: Codec, size: nat, im: Images, kind: uint16, address: nat,
                                      data: seq<byte>, offset: nat)
    requires RoundTrips(z) && IsDeflated(kind) && 0 < size <= 0xFFFF && offset <= |data|
    requires Chunks(z, size, kind, address, data, offset).Ok?
    ensures Load(z, im, Chunks(z, size, kind, address, data, offset).value)
         == Some(Store(im, kind == FW_SEGMENT_DEFLATED, address + offset, data[offset..]))
    decreases |data| - offset
  {
    hide ChunkTlv, LoadTlv;
    var fw := kind == FW_SEGMENT_DEFLATED;
    if offset == |data| {
      assert Store(im, fw, address + offset, data[offset..]) == im;
    } else {
      var chunk := Slice(data, offset, size);
      LoadChunk(z, im, kind, address + offset, chunk);
      LoadCons(z, im, ChunkTlv(z, kind, address + offset, chunk),
               Chunks(z, size, kind, address, data, offset + size).value);
      StoreSlice(im, fw, address, data, offset, size);
      if offset + size <= |data| {
        LoadChunks(z, size, Store(im, fw, address + offset, chunk), kind, address, data, offset + size);
      }
    }
  }

  lemma LoadExpand(z: Codec, size: nat, im: Images, t: Tlv)
    requires RoundTrips(z) && 0 < size <= 0xFFFF && Expand(z, size, t).Ok?
    ensures Load(z, im, Expand(z, size, t).value) == LoadTlv(z, im, t)
  {
    hide Load, Chunks, Store, Unpack32;
    if IsPlain(t.kind) {
      var data := t.data[4..];
      LoadChunks(z, size, im, DeflatedKind(t.kind), Unpack32(t.data[..4]), data, 0);
      assert data[0..] == data;
    } else {
      LoadOne(z, im, t);
    }
  }

  lemma LoadOne(z: Codec, im: Images, t: Tlv)
    ensures Load(z, im, [t]) == LoadTlv(z, im, t)
  {
    assert [t][1..] == [];
  }

  lemma {:induction false} LoadExpandAll(z: Codec, size: nat, im: Images, ts: seq<Tlv>)
    requires RoundTrips(z) && 0 < size <= 0xFFFF && ExpandAll(z, size, ts).Ok?
    ensures Load(z, im, ExpandAll(z, size, ts).value) == Load(z, im, ts)
    decreases |ts|
  {
    if ts != [] {
      var head := Expand(z, size, ts[0]).value;
      LoadExpand(z, size, im, ts[0]);
      LoadAppend(z, im, head, ExpandAll(z, size, ts[1..]).value);
      match LoadTlv(z, im, ts[0])
      case None =>
      case Some(mid) => LoadExpandAll(z, size, mid, ts[1..]);
    }
  }

  /** Chunk i of a segment starts i * size bytes in; there is one exactly while that is inside the
      segment. */
  lemma {:induction false} ChunkAt(z: Codec, size: nat, kind: uint16, address: nat,
                                   data: seq<byte>, offset: nat, i: nat)
    requires size > 0 && Chunks(z, size, kind, address, data, offset).Ok?
    ensures var ts := Chunks(z, size, kind, address, data, offset).value;
            var at := offset + i * size;
            && (i < |ts| <==> at < |data|)
            && (i < |ts| ==> ts[i] == ChunkTlv(z, kind, address + at, Slice(data, at, size)))
    decreases i
  {
    hide ChunkTlv, Slice;
    if i > 0 {
      assert offset + size + (i - 1) * size == offset + i * size;
      if offset < |data| {
        ChunkAt(z, size, kind, address, data, offset + size, i - 1);
      }
    }
  }

  // ---------- Main results ----------

  lemma {:induction false} ChunksShape(z: Codec, size: nat, kind: uint16, address: nat, data: seq<byte>, offset: nat)
    requires size > 0 && Chunks(z, size, kind, address, data, offset).Ok?
    ensures var ts := Chunks(z, size, kind, address, data, offset).value;
            AllFit(ts) && forall i | 0 <= i < |ts| :: ts[i].kind == kind
    decreases |data| - offset
  {
    hide Pack16, Pack32, Slice;
    if offset < |data| {
      ChunksShape(z, size, kind, address, data, offset + size);
    }
  }

  lemma {:induction false} ExpandAllShape(z: Codec, size: nat, ts: seq<Tlv>)
    requires size > 0 && ExpandAll(z, size, ts).Ok?
    ensures var us := ExpandAll(z, size, ts).value;
            AllFit(us) && forall i | 0 <= i < |us| :: !IsPlain(us[i].kind)
  {
    if ts != [] {
      ExpandAllShape(z, size, ts[1..]);
      if IsPlain(ts[0].kind) {
        ChunksShape(z, size, DeflatedKind(ts[0].kind), Unpack32(ts[0].data[..4]), ts[0].data[4..], 0);
      }
    }
  }

  /** The output file is a complete TLV stream, namely the one the script meant to write. */
  lemma OutputParses(z: Codec, size: int, s: seq<byte>)
    requires Compressed(z, false, size, s).Ok?
    ensures ParseAll(EncodeAll(Compressed(z, false, size, s).value))
         == Some(Compressed(z, false, size, s).value)
  {
    Accepted(z, size, s);
    ExpandAllShape(z, size, ParseAll(s).value);
    ParseOfEncode(Compressed(z, false, size, s).value);
  }

  lemma {:induction false} ChunksWrittenFit(z: Codec, size: nat, kind: uint16, address: nat,
                                            data: seq<byte>, offset: nat)
    requires size > 0
    ensures AllFit(ChunksWritten(z, size, kind, address, data, offset))
    decreases |data| - offset
  {
    if offset < |data| {
      ChunksWrittenFit(z, size, kind, address, data, offset + size);
    }
  }

  lemma ExpandWrittenFits(z: Codec, size: nat, t: Tlv)
    requires size > 0
    ensures AllFit(ExpandWritten(z, size, t))
  {
    if IsPlain(t.kind) && |t.data| >= 4 {
      ChunksWrittenFit(z, size, DeflatedKind(t.kind), Unpack32(t.data[..4]), t.data[4..], 0);
    }
  }

  /** Whatever stops a run, the file it leaves is a complete TLV stream. */
  lemma {:induction false} LeftoverParses(z: Codec, size: nat, s: seq<byte>, sawMagic: bool, sawEof: bool)
    requires size > 0
    ensures var ts := Written(z, size, s, sawMagic, sawEof); AllFit(ts) && ParseAll(EncodeAll(ts)) == Some(ts)
    decreases |s|
  {
    var step := ReadTlv(s);
    if step.Found? {
      ExpandWrittenFits(z, size, step.tlv);
      LeftoverParses(z, size, step.rest, true, step.tlv.kind == EOF);
    }
    ParseOfEncode(Written(z, size, s, sawMagic, sawEof));
  }

  /** A run that succeeds leaves exactly what it meant to write. */
  lemma {:induction false} LeftoverOfSuccess(z: Codec, size: nat, s: seq<byte>, sawMagic: bool, sawEof: bool)
    requires size > 0 && Run(z, size, s, sawMagic, sawEof).Ok?
    ensures Written(z, size, s, sawMagic, sawEof) == Run(z, size, s, sawMagic, sawEof).value
    decreases |s|
  {
    var step := ReadTlv(s);
    if step.Found? {
      ExpandAllWritten(z, size, step.tlv);
      LeftoverOfSuccess(z, size, step.rest, true, step.tlv.kind == EOF);
    }
  }

  /** Loading the output gives exactly the images that loading the input gives. */
  lemma ImagesPreserved(z: Codec, size: int, s: seq<byte>)
    requires RoundTrips(z) && Compressed(z, false, size, s).Ok?
    ensures LoadFile(z, EncodeAll(Compressed(z, false, size, s).value)) == LoadFile(z, s)
  {
    Accepted(z, size, s);
    OutputParses(z, size, s);
    LoadExpandAll(z, size, Images(map[], map[]), ParseAll(s).value);
  }

  /** TLVs that carry no segment in either form. */
  function Others(ts: seq<Tlv>): seq<Tlv> {
    if ts == [] then [] else IfOther(ts[0]) + Others(ts[1..])
  }

  function IfOther(t: Tlv): seq<Tlv> {
    if IsPlain(t.kind) || IsDeflated(t.kind) then [] else [t]
  }

  lemma {:induction false} OthersAppend(ts: seq<Tlv>, us: seq<Tlv>)
    ensures Others(ts + us) == Others(ts) + Others(us)
  {
    hide IfOther;
    if ts == [] {
      assert ts + us == us;
    } else {
      var all, head, tail := ts + us, IfOther(ts[0]), ts[1..];
      OthersAppend(tail, us);
      assert all[0] == ts[0] && all[1..] == tail + us;
      assert Others(all) == head + Others(tail + us) && Others(ts) == head + Others(tail);
      hide Others;
      Associate(head, Others(tail), Others(us));
    }
  }

  lemma {:induction false} OthersOfDeflated(ts: seq<Tlv>)
    requires forall i | 0 <= i < |ts| :: IsDeflated(ts[i].kind)
    ensures Others(ts) == []
  {
    if ts != [] {
      OthersOfDeflated(ts[1..]);
    }
  }

  lemma {:induction false} OthersOfExpandAll(z: Codec, size: nat, ts: seq<Tlv>)
    requires size > 0 && ExpandAll(z, size, ts).Ok?
    ensures Others(ExpandAll(z, size, ts).value) == Others(ts)
  {
    if ts != [] {
      var head := Expand(z, size, ts[0]).value;
      OthersOfExpandAll(z, size, ts[1..]);
      OthersAppend(head, ExpandAll(z, size, ts[1..]).value);
      if IsPlain(ts[0].kind) {
        ChunksShape(z, size, DeflatedKind(ts[0].kind), Unpack32(ts[0].data[..4]), ts[0].data[4..], 0);
        OthersOfDeflated(head);
      }
    }
  }

  /** Every TLV that is not a segment survives, unchanged and in order. */
  lemma OthersPreserved(z: Codec, size: int, s: seq<byte>)
    requires Compressed(z, false, size, s).Ok?
    ensures ParseAll(s).Some?
    ensures Others(Compressed(z, false, size, s).value) == Others(ParseAll(s).value)
  {
    Accepted(z, size, s);
    OthersOfExpandAll(z, size, ParseAll(s).value);
  }

  lemma {:induction false} ExpandAllFixed(z: Codec, size: nat, ts: seq<Tlv>)
    requires size > 0 && AllFit(ts)
    requires forall i | 0 <= i < |ts| :: !IsPlain(ts[i].kind)
    ensures ExpandAll(z, size, ts) == Ok(ts)
  {
    if ts != [] {
      ExpandAllFixed(z, size, ts[1..]);
      assert ts == [ts[0]] + ts[1..];
    }
  }

  lemma {:induction false} ExpandAllEnds(z: Codec, size: nat, ts: seq<Tlv>)
    requires size > 0 && ExpandAll(z, size, ts).Ok?
    requires ts != [] && ts[|ts| - 1].kind == EOF && forall i | 0 <= i < |ts| - 1 :: ts[i].kind != EOF
    ensures var us := ExpandAll(z, size, ts).value;
            && us != [] && us[|us| - 1].kind == EOF
            && (forall i | 0 <= i < |us| - 1 :: us[i].kind != EOF)
            && (!IsPlain(ts[0].kind) ==> us[0] == ts[0])
  {
    hide Expand;
    var head := Expand(z, size, ts[0]).value;
    ExpandEnd(z, size, ts[0]);
    if |ts| == 1 {
      assert ExpandAll(z, size, ts).value == head + [];
    } else {
      ExpandAllEnds(z, size, ts[1..]);
      var us, tail := ExpandAll(z, size, ts).value, ExpandAll(z, size, ts[1..]).value;
      assert us == head + tail;
      assert us[|us| - 1] == tail[|tail| - 1];
    }
  }

  lemma ExpandEnd(z: Codec, size: nat, t: Tlv)
    requires size > 0 && Expand(z, size, t).Ok?
    ensures t.kind != EOF ==> forall u | u in Expand(z, size, t).value :: u.kind != EOF
    ensures !IsPlain(t.kind) ==> Expand(z, size, t).value == [t]
  {
    if IsPlain(t.kind) {
      ChunksShape(z, size, DeflatedKind(t.kind), Unpack32(t.data[..4]), t.data[4..], 0);
    }
  }

  /** The output keeps the shape of an MBIN file, begins with the input's own magic TLV and holds no
      plain segment. */
  lemma OutputWellFormed(z: Codec, size: int, s: seq<byte>)
    requires Compressed(z, false, size, s).Ok?
    ensures var out := Compressed(z, false, size, s).value;
            && WellFormed(out)
            && AllFit(out)
            && (forall i | 0 <= i < |out| :: !IsPlain(out[i].kind))
            && ParseAll(s).Some? && ParseAll(s).value != [] && out[0] == ParseAll(s).value[0]
  {
    Accepted(z, size, s);
    var ts := ParseAll(s).value;
    ExpandAllShape(z, size, ts);
    ExpandAllEnds(z, size, ts);
    var out := Compressed(z, false, size, s).value;
    assert out[0] == ts[0];
    assert |out| >= 2;
  }

  /** Compressing an output again, at any chunk size, reproduces it byte for byte. */
  lemma CompressIdempotent(z: Codec, size: int, again: int, s: seq<byte>)
    requires Compressed(z, false, size, s).Ok? && 0 < again <= 0xFFFF
    ensures var out := Compressed(z, false, size, s).value;
            Compressed(z, false, again, EncodeAll(out)) == Ok(out)
  {
    var out := Compressed(z, false, size, s).value;
    OutputWellFormed(z, size, s);
    OutputParses(z, size, s);
    ExpandAllFixed(z, again, out);
    Accepted(z, again, EncodeAll(out));
  }

  // ---------- In bytes ----------

  const MAGIC_HEADER: seq<byte> := [0x00, 0x80, 0x04, 0x00]
  const EOF_TLV: seq<byte> := [0x00, 0x8F, 0x00, 0x00]
  const MMFW: seq<byte> := [0x4D, 0x4D, 0x46, 0x57]
  const MMSW: seq<byte> := [0x4D, 0x4D, 0x53, 0x57]
  const MMBC: seq<byte> := [0x4D, 0x4D, 0x42, 0x43]

  /** A magic TLV has type 0x8000 and four bytes: "MMFW", "MMSW" or "MMBC". */
  lemma MagicMeaning(t: Tlv)
    ensures ValidateMagic(t) == Err(BadMagic) <==> t.kind != 0x8000 || |t.data| != 4
    ensures ValidateMagic(t) == Ok(Firmware) <==> t.kind == 0x8000 && t.data == MMFW
    ensures ValidateMagic(t) == Ok(Software) <==> t.kind == 0x8000 && t.data == MMSW
    ensures ValidateMagic(t) == Ok(Bcf) <==> t.kind == 0x8000 && t.data == MMBC
    ensures ValidateMagic(t).Err? ==> ValidateMagic(t).error in {BadMagic, UnknownMagic}
  {
    if |t.data| == 4 {
      Pack32OfUnpack32(t.data);
      Pack32OfUnpack32(MMFW);
      Pack32OfUnpack32(MMSW);
      Pack32OfUnpack32(MMBC);
      assert Unpack32(MMFW) == FW_MAGIC_NUMBER && Unpack32(MMSW) == SW_MAGIC_NUMBER;
      assert Unpack32(MMBC) == BCF_MAGIC_NUMBER;
    }
  }

  lemma HeaderBytes()
    ensures Pack16(0x8000) + Pack16(4) == MAGIC_HEADER && Encode(Tlv(EOF, [])) == EOF_TLV
  {
  }

  /** A file of a magic TLV and an EOF TLV is accepted for exactly the three magics, by every run. */
  method AcceptsMagic(z: Codec, abspath: string -> string, inputPath: string, outputPath: string,
                      magic: seq<byte>, chunkSize: int)
    returns (r: Result<Output>, file: Option<seq<byte>>)
    requires |magic| == 4 && abspath(inputPath) != abspath(outputPath) && 1 <= chunkSize <= 65535
    ensures magic == MMFW || magic == MMSW || magic == MMBC ==>
              r.Ok? && r.value.file == MAGIC_HEADER + magic + EOF_TLV
    ensures magic != MMFW && magic != MMSW && magic != MMBC ==> r == Err(UnknownMagic) && file == Some([])
  {
    ghost var first, last := Tlv(MAGIC, magic), Tlv(EOF, []);
    var input := MAGIC_HEADER + magic + EOF_TLV;
    HeaderBytes();
    assert input == Encode(first) + (Encode(last) + []);
    MagicMeaning(first);
    RunOfTwo(z, chunkSize, first, last);
    r, file := CompressMbin(z, abspath, inputPath, outputPath, input, chunkSize);
  }

  lemma RunOfTwo(z: Codec, size: nat, first: Tlv, last: Tlv)
    requires size > 0 && first.kind == MAGIC && |first.data| == 4 && last == Tlv(EOF, [])
    ensures var s := Encode(first) + (Encode(last) + []);
            if ValidateMagic(first).Ok? then
              Run(z, size, s, false, false) == Ok([first, last]) && EncodeAll([first, last]) == s
            else
              Run(z, size, s, false, false) == Err(ValidateMagic(first).error)
              && Written(z, size, s, false, false) == []
  {
    hide Encode, ReadTlv, ValidateMagic;
    ReadOfEncode(first, Encode(last) + []);
    ReadOfEncode(last, []);
    EndOfStream();
    assert Expand(z, size, first) == Ok([first]) && Expand(z, size, last) == Ok([last]);
    assert Run(z, size, [], true, true) == Ok([]);
    assert Run(z, size, Encode(last) + [], true, false) == Ok([last] + []);
    assert [first] + ([last] + []) == [first, last];
    assert [first, last][1..] == [last] && [last][1..] == [];
    assert EncodeAll([last]) == Encode(last) + [];
  }

  lemma EndOfStream()
    ensures ReadTlv([]) == End
  {
  }

  /** The bytes of a chunk: its type, the length of the value, the address, the length of the chunk before
      compression, all least significant byte first, and the compressed bytes. */
  lemma ChunkBytes(z: Codec, kind: uint16, address: nat, chunk: seq<byte>)
    requires address < 0x1_0000_0000 && |chunk| <= 0xFFFF && Fits(ChunkTlv(z, kind, address, chunk))
    ensures var s := Encode(ChunkTlv(z, kind, address, chunk));
            && |s| == 10 + |z.deflate(chunk)|
            && FromLe(s[..2]) == kind && FromLe(s[2..4]) == 6 + |z.deflate(chunk)|
            && FromLe(s[4..8]) == address && FromLe(s[8..10]) == |chunk| && s[10..] == z.deflate(chunk)
  {
    var s, length := Encode(ChunkTlv(z, kind, address, chunk)), 6 + |z.deflate(chunk)|;
    assert s[..2] == Pack16(kind) && s[2..4] == Pack16(length);
    assert s[4..8] == Pack32(address) && s[8..10] == Pack16(|chunk|);
    Unpack16OfPack16(kind);
    Unpack16OfPack16(length);
    Unpack16OfPack16(|chunk|);
    Unpack32OfPack32(address);
    UnpackIsLittleEndian(Pack16(kind));
    UnpackIsLittleEndian(Pack16(length));
    UnpackIsLittleEndian(Pack16(|chunk|));
    UnpackIsLittleEndian(Pack32(address));
  }

  /** Firmware segments (0x8001) become type 0x8002, software segments (0x8201) type 0x8202, at the address in
      their first four bytes; all other TLVs stay. */
  lemma ExpandedKinds(z: Codec, size: nat, t: Tlv)
    requires size > 0 && Expand(z, size, t).Ok?
    ensures var us := Expand(z, size, t).value;
            if t.kind == 0x8001 || t.kind == 0x8201 then
              && |t.data| >= 4
              && (us == [] <==> |t.data| == 4)
              && (forall i | 0 <= i < |us| :: us[i].kind == if t.kind == 0x8001 then 0x8002 else 0x8202)
              && (us != [] ==> |us[0].data| >= 4 && FromLe(us[0].data[..4]) == FromLe(t.data[..4]))
            else us == [t]
  {
    if IsPlain(t.kind) {
      var address, data := Unpack32(t.data[..4]), t.data[4..];
      ChunksShape(z, size, DeflatedKind(t.kind), address, data, 0);
      UnpackIsLittleEndian(t.data[..4]);
      if data != [] {
        var first := Expand(z, size, t).value[0];
        assert first == ChunkTlv(z, DeflatedKind(t.kind), address, Slice(data, 0, size));
        assert first.data[..4] == Pack32(address);
        Unpack32OfPack32(address);
        UnpackIsLittleEndian(Pack32(address));
      }
    }
  }

  // ---------- Which exception ----------

  /** TLVs that all expand, none of them EOF but perhaps the last, after a valid magic. */
  predicate Clear(z: Codec, size: nat, ts: seq<Tlv>)
    requires size > 0
  {
    && AllFit(ts)
    && (ts != [] ==> ValidateMagic(ts[0]).Ok?)
    && (forall i | 0 <= i < |ts| :: Expand(z, size, ts[i]).Ok?)
    && forall i | 0 <= i < |ts| - 1 :: ts[i].kind != 0x8F00
  }

  lemma {:induction false} RunPast(z: Codec, size: nat, ts: seq<Tlv>, tail: seq<byte>, sawMagic: bool)
    requires size > 0 && AllFit(ts)
    requires ts != [] ==> sawMagic || ValidateMagic(ts[0]).Ok?
    requires forall i | 0 <= i < |ts| :: Expand(z, size, ts[i]).Ok?
    requires forall i | 0 <= i < |ts| - 1 :: ts[i].kind != 0x8F00
    ensures SameVerdict(Run(z, size, EncodeAll(ts) + tail, sawMagic, false),
                        Run(z, size, tail, sawMagic || ts != [], ts != [] && ts[|ts| - 1].kind == 0x8F00))
  {
    hide Encode, ReadTlv, ValidateMagic, Expand;
    if ts == [] {
      assert EncodeAll(ts) + tail == tail;
    } else {
      var rest := EncodeAll(ts[1..]) + tail;
      assert EncodeAll(ts) + tail == Encode(ts[0]) + rest;
      ReadOfEncode(ts[0], rest);
      if |ts| > 1 {
        RunPast(z, size, ts[1..], tail, true);
      } else {
        assert rest == tail;
      }
    }
  }

  /** The exception at a TLV after clear ones: after an EOF TLV, for a bad magic in front, or the one its
      expansion raises, in this order. */
  lemma ExceptionAtTlv(z: Codec, size: nat, ts: seq<Tlv>, t: Tlv, rest: seq<byte>)
    requires size > 0 && Clear(z, size, ts) && Fits(t)
    ensures var r := Run(z, size, EncodeAll(ts) + (Encode(t) + rest), false, false);
            if ts != [] && ts[|ts| - 1].kind == 0x8F00 then r == Err(FollowsEof)
            else if ts == [] && ValidateMagic(t).Err? then r == Err(ValidateMagic(t).error)
            else Expand(z, size, t).Err? ==> r == Err(Expand(z, size, t).error)
  {
    hide Encode, ReadTlv, ValidateMagic, Expand;
    RunPast(z, size, ts, Encode(t) + rest, false);
    ReadOfEncode(t, rest);
  }

  /** The exception at the end of the file, after clear TLVs: fewer than four bytes are half a header, more a
      TLV with too little data; and a complete file needs a TLV, and an EOF TLV. */
  lemma ExceptionAtEnd(z: Codec, size: nat, ts: seq<Tlv>, tail: seq<byte>)
    requires size > 0 && Clear(z, size, ts)
    requires |tail| >= 4 ==> |tail| < 4 + FromLe(tail[2..4])
    ensures var r := Run(z, size, EncodeAll(ts) + tail, false, false);
            if 0 < |tail| < 4 then r == Err(HeaderTruncated)
            else if |tail| >= 4 then r == Err(DataTruncated)
            else if ts == [] then r == Err(EmptyInput)
            else if ts[|ts| - 1].kind != 0x8F00 then r == Err(NoEof)
            else r.Ok?
  {
    RunPast(z, size, ts, tail, false);
    if |tail| >= 4 {
      UnpackIsLittleEndian(tail[2..4]);
    }
  }

  /** TLV `t` after the clear TLVs `ts` raises an exception. */
  predicate StopsAt(z: Codec, size: nat, ts: seq<Tlv>, t: Tlv)
    requires size > 0
  {
    || (ts != [] && ts[|ts| - 1].kind == 0x8F00)
    || (ts == [] && ValidateMagic(t).Err?)
    || Expand(z, size, t).Err?
  }

  /** Every input is one of the two: clear TLVs and then one that raises an exception, or clear TLVs and then
      the end of the file, perhaps inside a TLV. */
  lemma EveryInputStops(z: Codec, size: nat, s: seq<byte>) returns (ts: seq<Tlv>, tail: seq<byte>)
    requires size > 0
    ensures Clear(z, size, ts) && s == EncodeAll(ts) + tail
    ensures || (|tail| >= 4 ==> |tail| < 4 + FromLe(tail[2..4]))
            || exists t, rest :: tail == Encode(t) + rest && Fits(t) && StopsAt(z, size, ts, t)
  {
    hide Expand, ValidateMagic, Encode, ReadTlv;
    ts, tail := [], s;
    while ReadTlv(tail).Found? && !StopsAt(z, size, ts, ReadTlv(tail).tlv)
      invariant Clear(z, size, ts) && s == EncodeAll(ts) + tail
      decreases |tail|
    {
      Advance(s, ts, tail);
      ts, tail := ts + [ReadTlv(tail).tlv], ReadTlv(tail).rest;
    }
    if ReadTlv(tail).Found? {
      EncodeOfRead(tail);
    } else {
      NotFound(tail);
    }
  }

  lemma NotFound(s: seq<byte>)
    requires !ReadTlv(s).Found?
    ensures |s| >= 4 ==> |s| < 4 + FromLe(s[2..4])
  {
    if |s| >= 4 {
      UnpackIsLittleEndian(s[2..4]);
    }
  }

  /** What expanding a TLV raises: no address, an address beyond 32 bits, or a chunk that grew too large. */
  lemma ExpandExceptions(z: Codec, size: nat, t: Tlv, i: nat)
    requires size > 0 && Fits(t)
    ensures Expand(z, size, t) == Err(NoAddress) <==> (t.kind == 0x8001 || t.kind == 0x8201) && |t.data| < 4
    ensures t.kind != 0x8001 && t.kind != 0x8201 ==> Expand(z, size, t).Ok?
    ensures (t.kind == 0x8001 || t.kind == 0x8201) && |t.data| >= 4 ==>
              var address, data := FromLe(t.data[..4]), t.data[4..];
              && (FirstBad(z, size, address, data, i) ==>
                    Expand(z, size, t) == Err(if address + i * size >= 0x1_0000_0000 then AddressRange else TooLarge))
              && ((forall j: nat | j * size < |data| :: ChunkFine(z, size, address, data, j)) ==>
                    Expand(z, size, t).Ok?)
  {
    if IsPlain(t.kind) && |t.data| >= 4 {
      var address, data := Unpack32(t.data[..4]), t.data[4..];
      UnpackIsLittleEndian(t.data[..4]);
      ChunksNeverNoAddress(z, size, DeflatedKind(t.kind), address, data, 0);
      if FirstBad(z, size, address, data, i) {
        ChunksRaise(z, size, DeflatedKind(t.kind), address, data, 0, i);
      }
      if forall j: nat | j * size < |data| :: ChunkFine(z, size, address, data, j) {
        ChunksFine(z, size, DeflatedKind(t.kind), address, data, 0);
      }
    }
  }

  /** Chunk j has an address in 32 bits and, compressed, fits in a TLV with its six bytes in front. */
  predicate ChunkFine(z: Codec, size: nat, address: nat, data: seq<byte>, j: nat) {
    address + j * size < 0x1_0000_0000 && 6 + |z.deflate(Slice(data, j * size, size))| <= 65535
  }

  /** Chunk i is the first that is not fine. */
  predicate FirstBad(z: Codec, size: nat, address: nat, data: seq<byte>, i: nat) {
    && i * size < |data| && !ChunkFine(z, size, address, data, i)
    && forall j: nat | j < i :: ChunkFine(z, size, address, data, j)
  }

  /** A chunk that is not fine has a first one before it or at it. */
  lemma FirstBadExists(z: Codec, size: nat, address: nat, data: seq<byte>, j: nat) returns (i: nat)
    requires j * size < |data| && !ChunkFine(z, size, address, data, j)
    ensures i <= j && FirstBad(z, size, address, data, i)
  {
    hide ChunkFine;
    i := 0;
    while ChunkFine(z, size, address, data, i)
      invariant i <= j && forall k: nat | k < i :: ChunkFine(z, size, address, data, k)
      decreases j - i
    {
      i := i + 1;
    }
    assert i * size <= j * size;
  }

  lemma {:induction false} ChunksNeverNoAddress(z: Codec, size: nat, kind: uint16, address: nat,
                                                data: seq<byte>, offset: nat)
    requires size > 0
    ensures Chunks(z, size, kind, address, data, offset) != Err(NoAddress)
    decreases |data| - offset
  {
    if offset < |data| {
      ChunksNeverNoAddress(z, size, kind, address, data, offset + size);
    }
  }

  lemma {:induction false} ChunksRaise(z: Codec, size: nat, kind: uint16, address: nat, data: seq<byte>,
                                       k: nat, i: nat)
    requires size > 0 && k <= i && FirstBad(z, size, address, data, i)
    ensures Chunks(z, size, kind, address, data, k * size)
         == Err(if address + i * size >= 0x1_0000_0000 then AddressRange else TooLarge)
    decreases i - k
  {
    hide Chunks, ChunkFine;
    if k == i {
      ChunkRaises(z, size, kind, address, data, i);
    } else {
      assert ChunkFine(z, size, address, data, k);
      MoreChunks(size, data, k, i);
      ChunkPasses(z, size, kind, address, data, k);
      ChunksRaise(z, size, kind, address, data, k + 1, i);
    }
  }

  lemma MoreChunks(size: nat, data: seq<byte>, k: nat, i: nat)
    requires size > 0 && k < i && i * size < |data|
    ensures k * size < |data|
  {
    assert k * size < i * size;
  }

  lemma ChunkRaises(z: Codec, size: nat, kind: uint16, address: nat, data: seq<byte>, i: nat)
    requires size > 0 && i * size < |data| && !ChunkFine(z, size, address, data, i)
    ensures Chunks(z, size, kind, address, data, i * size)
         == Err(if address + i * size >= 0x1_0000_0000 then AddressRange else TooLarge)
  {
    hide Slice;
  }

  /** A chunk that is fine leaves the verdict to the chunks after it. */
  lemma ChunkPasses(z: Codec, size: nat, kind: uint16, address: nat, data: seq<byte>, k: nat)
    requires size > 0 && k * size < |data| && ChunkFine(z, size, address, data, k)
    ensures SameVerdict(Chunks(z, size, kind, address, data, k * size),
                        Chunks(z, size, kind, address, data, (k + 1) * size))
  {
    hide Slice;
    assert (k + 1) * size == k * size + size;
  }

  lemma {:induction false} ChunksFine(z: Codec, size: nat, kind: uint16, address: nat, data: seq<byte>, k: nat)
    requires size > 0 && forall j: nat | j * size < |data| :: ChunkFine(z, size, address, data, j)
    ensures Chunks(z, size, kind, address, data, k * size).Ok?
    decreases |data| - k * size
  {
    hide Chunks, ChunkFine;
    if k * size < |data| {
      assert ChunkFine(z, size, address, data, k);
      assert (k + 1) * size == k * size + size;
      ChunkPasses(z, size, kind, address, data, k);
      ChunksFine(z, size, kind, address, data, k + 1);
    } else {
      NoChunks(z, size, kind, address, data, k * size);
    }
  }

  lemma NoChunks(z: Codec, size: nat, kind: uint16, address: nat, data: seq<byte>, offset: nat)
    requires size > 0 && offset >= |data|
    ensures Chunks(z, size, kind, address, data, offset) == Ok([])
  {
  }

  // ---------- What an exception leaves in the file ----------

  lemma {:induction false} WrittenPast(z: Codec, size: nat, ts: seq<Tlv>, tail: seq<byte>, sawMagic: bool)
    requires size > 0 && AllFit(ts)
    requires ts != [] ==> sawMagic || ValidateMagic(ts[0]).Ok?
    requires forall i | 0 <= i < |ts| :: Expand(z, size, ts[i]).Ok?
    requires forall i | 0 <= i < |ts| - 1 :: ts[i].kind != 0x8F00
    ensures ExpandAll(z, size, ts).Ok?
    ensures Written(z, size, EncodeAll(ts) + tail, sawMagic, false)
         == ExpandAll(z, size, ts).value
            + Written(z, size, tail, sawMagic || ts != [], ts != [] && ts[|ts| - 1].kind == 0x8F00)
  {
    hide Encode, ReadTlv, ValidateMagic, Expand, ExpandWritten;
    if ts == [] {
      assert EncodeAll(ts) + tail == tail;
    } else {
      var rest := EncodeAll(ts[1..]) + tail;
      assert EncodeAll(ts) + tail == Encode(ts[0]) + rest;
      ReadOfEncode(ts[0], rest);
      ExpandAllWritten(z, size, ts[0]);
      if |ts| > 1 {
        WrittenPast(z, size, ts[1..], tail, true);
      } else {
        assert rest == tail;
      }
    }
  }

  /** What an exception at a TLV after clear ones leaves: the clear ones expanded, and what its own expansion
      had written. */
  lemma LeftoverAtTlv(z: Codec, size: nat, ts: seq<Tlv>, t: Tlv, rest: seq<byte>)
    requires size > 0 && Clear(z, size, ts) && Fits(t)
    ensures ExpandAll(z, size, ts).Ok?
    ensures var before := ExpandAll(z, size, ts).value;
            var file := Written(z, size, EncodeAll(ts) + (Encode(t) + rest), false, false);
            if ts != [] && ts[|ts| - 1].kind == 0x8F00 then file == before
            else if ts == [] && ValidateMagic(t).Err? then file == []
            else Expand(z, size, t).Err? ==> file == before + ExpandWritten(z, size, t)
  {
    hide Encode, ReadTlv, ValidateMagic, Expand, ExpandWritten;
    WrittenPast(z, size, ts, Encode(t) + rest, false);
    ReadOfEncode(t, rest);
  }

  /** Of a segment without an address nothing is written, and of one that chunk i stops the chunks before it. */
  lemma SegmentLeaves(z: Codec, size: nat, t: Tlv, i: nat)
    requires size > 0 && (t.kind == 0x8001 || t.kind == 0x8201)
    ensures |t.data| < 4 ==> ExpandWritten(z, size, t) == []
    ensures |t.data| >= 4 && FirstBad(z, size, FromLe(t.data[..4]), t.data[4..], i) ==>
              var file := ExpandWritten(z, size, t);
              && |file| == i
              && forall j | 0 <= j < i ::
                   file[j] == ChunkTlv(z, if t.kind == 0x8001 then 0x8002 else 0x8202,
                                       FromLe(t.data[..4]) + j * size, Slice(t.data[4..], j * size, size))
  {
    hide ChunkTlv, Slice, FirstBad, FromLe, Unpack32;
    if |t.data| >= 4 {
      UnpackIsLittleEndian(t.data[..4]);
      if FirstBad(z, size, FromLe(t.data[..4]), t.data[4..], i) {
        ChunksBefore(z, size, DeflatedKind(t.kind), FromLe(t.data[..4]), t.data[4..], 0, i);
      }
    }
  }

  /** What is left when the file ends after clear TLVs, or inside the next one: the clear ones expanded. */
  lemma LeftoverAtEnd(z: Codec, size: nat, ts: seq<Tlv>, tail: seq<byte>)
    requires size > 0 && Clear(z, size, ts)
    requires |tail| >= 4 ==> |tail| < 4 + FromLe(tail[2..4])
    ensures ExpandAll(z, size, ts).Ok?
    ensures Written(z, size, EncodeAll(ts) + tail, false, false) == ExpandAll(z, size, ts).value
  {
    WrittenPast(z, size, ts, tail, false);
    if |tail| >= 4 {
      UnpackIsLittleEndian(tail[2..4]);
    }
  }

  /** Of a segment whose first bad chunk is i the chunks k to i - 1 are in the file. */
  lemma {:induction false} ChunksBefore(z: Codec, size: nat, kind: uint16, address: nat, data: seq<byte>,
                                        k: nat, i: nat)
    requires size > 0 && k <= i && FirstBad(z, size, address, data, i)
    ensures var ts := ChunksWritten(z, size, kind, address, data, k * size);
            && |ts| == i - k
            && forall j | k <= j < i ::
                 ts[j - k] == ChunkTlv(z, kind, address + j * size, Slice(data, j * size, size))
    decreases i - k
  {
    hide ChunkTlv, Slice, Fits, FirstBad;
    if k == i {
      ChunkStops(z, size, kind, address, data, i);
    } else {
      ChunkWritten(z, size, kind, address, data, k, i);
      ChunksBefore(z, size, kind, address, data, k + 1, i);
    }
  }

  lemma ChunkStops(z: Codec, size: nat, kind: uint16, address: nat, data: seq<byte>, i: nat)
    requires size > 0 && FirstBad(z, size, address, data, i)
    ensures ChunksWritten(z, size, kind, address, data, i * size) == []
  {
    hide Slice;
    assert !ChunkFine(z, size, address, data, i);
  }

  lemma ChunkWritten(z: Codec, size: nat, kind: uint16, address: nat, data: seq<byte>, k: nat, i: nat)
    requires size > 0 && k < i && FirstBad(z, size, address, data, i)
    ensures ChunksWritten(z, size, kind, address, data, k * size)
         == [ChunkTlv(z, kind, address + k * size, Slice(data, k * size, size))]
            + ChunksWritten(z, size, kind, address, data, (k + 1) * size)
  {
    hide Slice;
    assert ChunkFine(z, size, address, data, k);
    assert (k + 1) * size == k * size + size;
    assert k * size < i * size;
  }

  // ---------- The counters ----------

  /** The positions of the segments that were already compressed, and of the TLVs that are no segments. */
  function DeflatedAt(ts: seq<Tlv>): set<nat> {
    set i: nat | i < |ts| && (ts[i].kind == 0x8002 || ts[i].kind == 0x8202)
  }

  function OtherAt(ts: seq<Tlv>): set<nat> {
    set i: nat | i < |ts| && ts[i].kind !in {0x8001, 0x8002, 0x8201, 0x8202}
  }

  /** The counters that a run reports count these positions. */
  lemma {:induction false} CountsMeaning(ts: seq<Tlv>)
    ensures CountDeflated(ts) == |DeflatedAt(ts)|
    ensures CountOther(ts) == |OtherAt(ts)|
  {
    hide DeflatedAt, OtherAt;
    if ts == [] {
      NoPositions();
    } else {
      var n := |ts| - 1;
      CountsMeaning(ts[..n]);
      OneMoreDeflated(ts[..n], ts[n]);
      OneMoreOther(ts[..n], ts[n]);
      assert ts[..n] + [ts[n]] == ts;
    }
  }

  lemma NoPositions()
    ensures DeflatedAt([]) == {} && OtherAt([]) == {}
  {
  }

  lemma OneMoreDeflated(ts: seq<Tlv>, t: Tlv)
    ensures |DeflatedAt(ts + [t])| == |DeflatedAt(ts)| + if IsDeflated(t.kind) then 1 else 0
  {
    var all := ts + [t];
    assert forall i | 0 <= i < |ts| :: all[i] == ts[i];
    assert |ts| !in DeflatedAt(ts);
    assert DeflatedAt(all) == if IsDeflated(t.kind) then DeflatedAt(ts) + {|ts|} else DeflatedAt(ts);
  }

  lemma OneMoreOther(ts: seq<Tlv>, t: Tlv)
    ensures |OtherAt(ts + [t])| == |OtherAt(ts)| + if IsPlain(t.kind) || IsDeflated(t.kind) then 0 else 1
  {
    var all := ts + [t];
    assert forall i | 0 <= i < |ts| :: all[i] == ts[i];
    assert |ts| !in OtherAt(ts);
    assert OtherAt(all) == if IsPlain(t.kind) || IsDeflated(t.kind) then OtherAt(ts) else OtherAt(ts) + {|ts|};
  }
}
