/** `scripts/compress-mbin.py`: rewriting the plain segments of an MBIN file as deflated chunks. */
module MbinCompress {
  import opened Bytes
  import opened TlvStream
  import opened Words

  const FW_SEGMENT: uint16 := 0x8001
  const FW_SEGMENT_DEFLATED: uint16 := 0x8002
  const SW_SEGMENT: uint16 := 0x8201
  const SW_SEGMENT_DEFLATED: uint16 := 0x8202

  const ADDRESS_LIMIT := 0x1_0000_0000

  /** zlib, as a pair of functions. */
  datatype Codec = Codec(deflate: seq<byte> -> seq<byte>, inflate: seq<byte> -> Option<seq<byte>>)

  ghost predicate RoundTrips(z: Codec) {
    forall x: seq<byte> :: z.inflate(z.deflate(x)) == Some(x)
  }

  /** The exceptions the script raises. `AddressRange` is the one `struct.pack` raises for a chunk
      address that does not fit in 32 bits. */
  datatype Error =
    | SamePath | ChunkSize | HeaderTruncated | DataTruncated | FollowsEof | BadMagic
    | UnknownMagic | NoAddress | AddressRange | TooLarge | EmptyInput | NoEof

  datatype Result<+T> = Ok(value: T) | Err(error: Error)

  datatype InputType = Firmware | Software | Bcf

  /** What the script leaves behind: the output file and the writer's counters. */
  datatype Output = Output(file: seq<byte>, compressed: nat, preservedCompressed: nat,
                           preservedOther: nat, total: nat)

  predicate IsPlain(kind: uint16) {
    kind == FW_SEGMENT || kind == SW_SEGMENT
  }

  predicate IsDeflated(kind: uint16) {
    kind == FW_SEGMENT_DEFLATED || kind == SW_SEGMENT_DEFLATED
  }

  function DeflatedKind(kind: uint16): uint16
    requires IsPlain(kind)
  {
    if kind == FW_SEGMENT then FW_SEGMENT_DEFLATED else SW_SEGMENT_DEFLATED
  }

  function ValidateMagic(t: Tlv): Result<InputType> {
    if t.kind != MAGIC || |t.data| != 4 then Err(BadMagic)
    else
      var magic := Unpack32(t.data);
      if magic == FW_MAGIC_NUMBER then Ok(Firmware)
      else if magic == SW_MAGIC_NUMBER then Ok(Software)
      else if magic == BCF_MAGIC_NUMBER then Ok(Bcf)
      else Err(UnknownMagic)
  }

  // ---------- What a run computes ----------

  function Prepend(ts: seq<Tlv>, r: Result<seq<Tlv>>): Result<seq<Tlv>> {
    match r
    case Ok(us) => Ok(ts + us)
    case Err(e) => Err(e)
  }

  lemma PrependNothing(r: Result<seq<Tlv>>)
    ensures Prepend([], r) == r
  {
    if r.Ok? {
      assert [] + r.value == r.value;
    }
  }

  /** Both succeed or both raise the same exception. */
  predicate SameVerdict(a: Result<seq<Tlv>>, b: Result<seq<Tlv>>) {
    (a.Ok? <==> b.Ok?) && (a.Err? ==> a == b)
  }

  lemma PrependPrepend(ts: seq<Tlv>, us: seq<Tlv>, r: Result<seq<Tlv>>)
    ensures Prepend(ts, Prepend(us, r)) == Prepend(ts + us, r)
  {
    if r.Ok? {
      assert ts + (us + r.value) == (ts + us) + r.value;
    }
  }

  function ChunkTlv(z: Codec, kind: uint16, address: nat, chunk: seq<byte>): Tlv {
    Tlv(kind, Pack32(address) + Pack16(|chunk|) + z.deflate(chunk))
  }

  /** The TLVs that replace one plain segment, from the chunk at `offset` on. */
  function Chunks(z: Codec, size: nat, kind: uint16, address: nat, data: seq<byte>, offset: nat): Result<seq<Tlv>>
    requires size > 0
    decreases |data| - offset
  {
    if offset >= |data| then Ok([])
    else if address + offset >= ADDRESS_LIMIT then Err(AddressRange)
    else
      var t := ChunkTlv(z, kind, address + offset, Slice(data, offset, size));
      if !Fits(t) then Err(TooLarge)
      else Prepend([t], Chunks(z, size, kind, address, data, offset + size))
  }

  /** The TLVs that replace one TLV of the input. */
  function Expand(z: Codec, size: nat, t: Tlv): Result<seq<Tlv>>
    requires size > 0
  {
    if IsPlain(t.kind) then
      if |t.data| < 4 then Err(NoAddress)
      else Chunks(z, size, DeflatedKind(t.kind), Unpack32(t.data[..4]), t.data[4..], 0)
    else if Fits(t) then Ok([t]) else Err(TooLarge)
  }

  function Run(z: Codec, size: nat, s: seq<byte>, sawMagic: bool, sawEof: bool): Result<seq<Tlv>>
    requires size > 0
    decreases |s|
  {
    match ReadTlv(s)
    case End => if !sawMagic then Err(EmptyInput) else if !sawEof then Err(NoEof) else Ok([])
    case TruncatedHeader => Err(HeaderTruncated)
    case TruncatedData => Err(DataTruncated)
    case Found(t, rest) =>
      if sawEof then Err(FollowsEof)
      else if !sawMagic && ValidateMagic(t).Err? then Err(ValidateMagic(t).error)
      else
        match Expand(z, size, t)
        case Err(e) => Err(e)
        case Ok(ts) => Prepend(ts, Run(z, size, rest, true, t.kind == EOF))
  }

  // ---------- What is in the output file, also after an exception ----------

  function ChunksWritten(z: Codec, size: nat, kind: uint16, address: nat, data: seq<byte>, offset: nat): seq<Tlv>
    requires size > 0
    decreases |data| - offset
  {
    if offset >= |data| || address + offset >= ADDRESS_LIMIT then []
    else
      var t := ChunkTlv(z, kind, address + offset, Slice(data, offset, size));
      if !Fits(t) then [] else [t] + ChunksWritten(z, size, kind, address, data, offset + size)
  }

  function ExpandWritten(z: Codec, size: nat, t: Tlv): seq<Tlv>
    requires size > 0
  {
    if IsPlain(t.kind) then
      if |t.data| < 4 then []
      else ChunksWritten(z, size, DeflatedKind(t.kind), Unpack32(t.data[..4]), t.data[4..], 0)
    else if Fits(t) then [t] else []
  }

  function Written(z: Codec, size: nat, s: seq<byte>, sawMagic: bool, sawEof: bool): seq<Tlv>
    requires size > 0
    decreases |s|
  {
    match ReadTlv(s)
    case Found(t, rest) =>
      if sawEof || (!sawMagic && ValidateMagic(t).Err?) then []
      else if Expand(z, size, t).Err? then ExpandWritten(z, size, t)
      else ExpandWritten(z, size, t) + Written(z, size, rest, true, t.kind == EOF)
    case _ => []
  }

  lemma {:induction false} ChunksAllWritten(z: Codec, size: nat, kind: uint16, address: nat,
                                            data: seq<byte>, offset: nat)
    requires size > 0 && Chunks(z, size, kind, address, data, offset).Ok?
    ensures ChunksWritten(z, size, kind, address, data, offset) == Chunks(z, size, kind, address, data, offset).value
    decreases |data| - offset
  {
    if offset < |data| {
      ChunksAllWritten(z, size, kind, address, data, offset + size);
    }
  }

  lemma ExpandAllWritten(z: Codec, size: nat, t: Tlv)
    requires size > 0 && Expand(z, size, t).Ok?
    ensures ExpandWritten(z, size, t) == Expand(z, size, t).value
  {
    if IsPlain(t.kind) {
      ChunksAllWritten(z, size, DeflatedKind(t.kind), Unpack32(t.data[..4]), t.data[4..], 0);
    }
  }

  /** The TLVs of the output file, or the exception raised. */
  function Compressed(z: Codec, samePath: bool, size: int, s: seq<byte>): Result<seq<Tlv>> {
    if samePath then Err(SamePath)
    else if size <= 0 || size > 0xFFFF then Err(ChunkSize)
    else Run(z, size, s, false, false)
  }

  function CountDeflated(ts: seq<Tlv>): nat {
    if ts == [] then 0
    else CountDeflated(ts[..|ts| - 1]) + if IsDeflated(ts[|ts| - 1].kind) then 1 else 0
  }

  /** TLVs that are segments in neither form. */
  function CountOther(ts: seq<Tlv>): nat {
    if ts == [] then 0
    else
      var kind := ts[|ts| - 1].kind;
      CountOther(ts[..|ts| - 1]) + if IsPlain(kind) || IsDeflated(kind) then 0 else 1
  }

  // ---------- The script's own steps ----------

  class MbinWriter {
    const codec: Codec
    const chunkSize: nat
    var outfile: seq<byte>
    var compressed: nat
    var preservedCompressed: nat
    var preservedOther: nat
    var total: nat
    /** The TLVs in the output file. */
    ghost var written: seq<Tlv>

    ghost predicate Valid()
      reads this
    {
      && chunkSize > 0
      && outfile == EncodeAll(written)
      && total == |written|
    }

    /** The TLV count is the sum of the three category counters. */
    ghost predicate Balanced()
      reads this
    {
      total == compressed + preservedCompressed + preservedOther
    }

    constructor (codec: Codec, chunkSize: nat)
      requires chunkSize > 0
      ensures this.codec == codec && this.chunkSize == chunkSize
      ensures Valid() && Balanced() && written == []
      ensures compressed == preservedCompressed == preservedOther == 0
    {
      this.codec, this.chunkSize := codec, chunkSize;
      outfile, written, total := [], [], 0;
      compressed, preservedCompressed, preservedOther := 0, 0, 0;
    }

    method AddTlv(t: Tlv) returns (ok: bool)
      requires Valid()
      modifies `outfile, `total, `written
      ensures Valid()
      ensures ok == Fits(t)
      ensures written == old(written) + if ok then [t] else []
    {
      if |t.data| > MAX_LENGTH {
        return false;
      }
      EncodeAllAppend(written, [t]);
      assert EncodeAll([t]) == Encode(t);
      outfile := outfile + (Pack16(t.kind) + Pack16(|t.data|));
      outfile := outfile + t.data;
      assert outfile == old(outfile) + Encode(t);
      total := total + 1;
      written := written + [t];
      return true;
    }

    /** The body of the chunk loop. */
    method AddChunk(kind: uint16, address: nat, chunk: seq<byte>) returns (r: Result<()>)
      requires Valid() && Balanced()
      modifies `outfile, `total, `written, `compressed
      ensures Valid() && Balanced()
      ensures var t := ChunkTlv(codec, kind, address, chunk);
              if address >= ADDRESS_LIMIT then r == Err(AddressRange) && written == old(written)
              else if !Fits(t) then r == Err(TooLarge) && written == old(written)
              else r.Ok? && written == old(written) + [t]
    {
      if address >= ADDRESS_LIMIT {
        return Err(AddressRange);
      }
      var ok := AddTlv(ChunkTlv(codec, kind, address, chunk));
      if !ok {
        assert written == old(written);
        return Err(TooLarge);
      }
      compressed := compressed + 1;
      return Ok(());
    }

    method AddCompressedSegment(kind: uint16, address: nat, data: seq<byte>) returns (r: Result<()>)
      requires Valid() && Balanced()
      modifies `outfile, `total, `written, `compressed
      ensures Valid() && Balanced()
      ensures written == old(written) + ChunksWritten(codec, chunkSize, kind, address, data, 0)
      ensures match Chunks(codec, chunkSize, kind, address, data, 0)
              case Err(e) => r == Err(e)
              case Ok(ts) => r.Ok?
    {
      hide ChunkTlv, Slice, EncodeAll;
      var offset := 0;
      ghost var all := ChunksWritten(codec, chunkSize, kind, address, data, 0);
      ghost var verdict := Chunks(codec, chunkSize, kind, address, data, 0);
      while offset < |data|
        invariant 0 <= offset
        invariant Valid() && Balanced()
        invariant old(written) + all == written + ChunksWritten(codec, chunkSize, kind, address, data, offset)
        invariant SameVerdict(verdict, Chunks(codec, chunkSize, kind, address, data, offset))
        decreases |data| - offset
      {
        ghost var before := written;
        var chunk := Slice(data, offset, chunkSize);
        r := AddChunk(kind, address + offset, chunk);
        if r.Err? {
          assert before + [] == before;
          return;
        }
        Associate(before, [ChunkTlv(codec, kind, address + offset, chunk)],
                  ChunksWritten(codec, chunkSize, kind, address, data, offset + chunkSize));
        offset := offset + chunkSize;
      }
      assert written + [] == written;
      return Ok(());
    }

    /** The body of the script's loop for one input TLV. */
    method AddInput(t: Tlv) returns (r: Result<()>)
      requires Valid() && Balanced()
      modifies this
      ensures Valid() && Balanced()
      ensures written == old(written) + ExpandWritten(codec, chunkSize, t)
      ensures match Expand(codec, chunkSize, t)
              case Err(e) => r == Err(e)
              case Ok(ts) =>
                && r.Ok?
                && preservedCompressed == old(preservedCompressed) + (if IsDeflated(t.kind) then 1 else 0)
                && preservedOther
                   == old(preservedOther) + if IsPlain(t.kind) || IsDeflated(t.kind) then 0 else 1
    {
      if IsPlain(t.kind) {
        if |t.data| < 4 {
          return Err(NoAddress);
        }
        r := AddCompressedSegment(DeflatedKind(t.kind), Unpack32(t.data[..4]), t.data[4..]);
      } else {
        var ok := AddTlv(t);
        if !ok {
          return Err(TooLarge);
        }
        if IsDeflated(t.kind) {
          preservedCompressed := preservedCompressed + 1;
        } else {
          preservedOther := preservedOther + 1;
        }
        return Ok(());
      }
    }
  }

  /** `rest` is what is left of `input` once the TLVs `seen` have been read. */
  ghost predicate At(input: seq<byte>, seen: seq<Tlv>, rest: seq<byte>) {
    AllFit(seen) && input == EncodeAll(seen) + rest
  }

  lemma Advance(input: seq<byte>, seen: seq<Tlv>, rest: seq<byte>)
    requires At(input, seen, rest) && ReadTlv(rest).Found?
    ensures At(input, seen + [ReadTlv(rest).tlv], ReadTlv(rest).rest)
  {
    var t := ReadTlv(rest).tlv;
    EncodeOfRead(rest);
    EncodeAllAppend(seen, [t]);
    assert EncodeAll([t]) == Encode(t);
  }

  lemma CountAppend(seen: seq<Tlv>, t: Tlv)
    ensures CountDeflated(seen + [t]) == CountDeflated(seen) + (if IsDeflated(t.kind) then 1 else 0)
    ensures CountOther(seen + [t])
         == CountOther(seen) + (if IsPlain(t.kind) || IsDeflated(t.kind) then 0 else 1)
  {
    assert (seen + [t])[..|seen|] == seen;
  }

  /** The loop of a run: what has been read and written so far, and that the rest of the run completes
      both the verdict and the file of the whole. */
  ghost predicate Going(z: Codec, size: nat, input: seq<byte>, seen: seq<Tlv>, rest: seq<byte>, out: seq<Tlv>,
                        sawMagic: bool, sawEof: bool)
  {
    && size > 0 && At(input, seen, rest)
    && Run(z, size, input, false, false) == Prepend(out, Run(z, size, rest, sawMagic, sawEof))
    && Written(z, size, input, false, false) == out + Written(z, size, rest, sawMagic, sawEof)
  }

  lemma GoingStarts(z: Codec, size: nat, input: seq<byte>)
    requires size > 0
    ensures Going(z, size, input, [], input, [], false, false)
  {
    PrependNothing(Run(z, size, input, false, false));
    assert [] + Written(z, size, input, false, false) == Written(z, size, input, false, false);
  }

  /** One TLV expanded. */
  lemma GoingOn(z: Codec, size: nat, input: seq<byte>, seen: seq<Tlv>, rest: seq<byte>, out: seq<Tlv>,
                sawMagic: bool)
    requires Going(z, size, input, seen, rest, out, sawMagic, false) && ReadTlv(rest).Found?
    requires var t := ReadTlv(rest).tlv; (sawMagic || ValidateMagic(t).Ok?) && Expand(z, size, t).Ok?
    ensures var t := ReadTlv(rest).tlv;
            Going(z, size, input, seen + [t], ReadTlv(rest).rest, out + ExpandWritten(z, size, t), true, t.kind == EOF)
  {
    hide Expand, ExpandWritten, ValidateMagic, Encode, At;
    var t, after := ReadTlv(rest).tlv, ReadTlv(rest).rest;
    Advance(input, seen, rest);
    ExpandAllWritten(z, size, t);
    PrependPrepend(out, Expand(z, size, t).value, Run(z, size, after, true, t.kind == EOF));
    Associate(out, ExpandWritten(z, size, t), Written(z, size, after, true, t.kind == EOF));
  }

  /** A run that stops here: with an exception before or while expanding the TLV at hand, or at the end. */
  lemma GoingStops(z: Codec, size: nat, input: seq<byte>, seen: seq<Tlv>, rest: seq<byte>, out: seq<Tlv>,
                   sawMagic: bool, sawEof: bool)
    requires Going(z, size, input, seen, rest, out, sawMagic, sawEof)
    ensures var last := Run(z, size, rest, sawMagic, sawEof);
            && (last.Err? ==> Run(z, size, input, false, false) == last)
            && (last == Ok([]) ==> Run(z, size, input, false, false) == Ok(out))
    ensures Written(z, size, rest, sawMagic, sawEof) == [] ==> Written(z, size, input, false, false) == out
    ensures ReadTlv(rest).Found? && !sawEof && (sawMagic || ValidateMagic(ReadTlv(rest).tlv).Ok?)
            && Expand(z, size, ReadTlv(rest).tlv).Err? ==>
              Written(z, size, input, false, false) == out + ExpandWritten(z, size, ReadTlv(rest).tlv)
  {
    assert out + [] == out;
  }

  /** The whole run. `file` is what it leaves in the output file, None if that was never opened. */
  method CompressMbin(z: Codec, abspath: string -> string, inputPath: string, outputPath: string,
                      input: seq<byte>, chunkSize: int)
    returns (r: Result<Output>, file: Option<seq<byte>>)
    ensures match Compressed(z, abspath(inputPath) == abspath(outputPath), chunkSize, input)
            case Err(e) => r == Err(e)
            case Ok(out) =>
              && r.Ok? && file == Some(r.value.file)
              && r.value.file == EncodeAll(out)
              && r.value.total == r.value.compressed + r.value.preservedCompressed + r.value.preservedOther
              && r.value.total == |out|
              && ParseAll(input).Some?
              && r.value.preservedCompressed == CountDeflated(ParseAll(input).value)
              && r.value.preservedOther == CountOther(ParseAll(input).value)
    ensures file == if abspath(inputPath) == abspath(outputPath) || chunkSize <= 0 || chunkSize > 0xFFFF then None
                    else Some(EncodeAll(Written(z, chunkSize, input, false, false)))
  {
    if abspath(inputPath) == abspath(outputPath) {
      return Err(SamePath), None;
    }
    if chunkSize <= 0 || chunkSize > 0xFFFF {
      return Err(ChunkSize), None;
    }
    r, file := CompressFile(z, input, chunkSize);
  }

  method CompressFile(z: Codec, input: seq<byte>, chunkSize: nat) returns (r: Result<Output>, file: Option<seq<byte>>)
    requires chunkSize > 0
    ensures file == Some(EncodeAll(Written(z, chunkSize, input, false, false)))
    ensures match Run(z, chunkSize, input, false, false)
            case Err(e) => r == Err(e)
            case Ok(out) =>
              && r.Ok? && file == Some(r.value.file)
              && r.value.file == EncodeAll(out)
              && r.value.total == r.value.compressed + r.value.preservedCompressed + r.value.preservedOther
              && r.value.total == |out|
              && ParseAll(input).Some?
              && r.value.preservedCompressed == CountDeflated(ParseAll(input).value)
              && r.value.preservedOther == CountOther(ParseAll(input).value)
  {
    hide Expand, ExpandWritten, ValidateMagic, Encode, ReadTlv, Going;
    var sawMagic, sawEof := false, false;
    var infile := new TlvReader(input);
    var outbin := new MbinWriter(z, chunkSize);
    ghost var seen: seq<Tlv>, rest := [], input;
    GoingStarts(z, chunkSize, input);
    var next := infile.Next();
    while next.Found?
      invariant infile.Valid() && outbin.Valid() && outbin.Balanced()
      invariant outbin.codec == z && outbin.chunkSize == chunkSize
      invariant Going(z, chunkSize, input, seen, rest, outbin.written, sawMagic, sawEof)
      invariant next == ReadTlv(rest) && (next.Found? ==> infile.Remaining() == next.rest)
      invariant outbin.preservedCompressed == CountDeflated(seen)
      invariant outbin.preservedOther == CountOther(seen)
      decreases |rest|
    {
      var t := next.tlv;
      GoingStops(z, chunkSize, input, seen, rest, outbin.written, sawMagic, sawEof);
      CountAppend(seen, t);
      ghost var magicBefore := sawMagic;
      if sawEof {
        return Err(FollowsEof), Some(outbin.outfile);
      }
      if !sawMagic {
        var inputType := ValidateMagic(t);
        if inputType.Err? {
          return Err(inputType.error), Some(outbin.outfile);
        }
        sawMagic := true;
      }
      ghost var out := outbin.written;
      var added := outbin.AddInput(t);
      if added.Err? {
        return Err(added.error), Some(outbin.outfile);
      }
      GoingOn(z, chunkSize, input, seen, rest, out, magicBefore);
      if t.kind == EOF {
        sawEof := true;
      }
      seen, rest := seen + [t], next.rest;
      next := infile.Next();
    }
    GoingStops(z, chunkSize, input, seen, rest, outbin.written, sawMagic, sawEof);
    file := Some(outbin.outfile);
    if next == TruncatedHeader {
      return Err(HeaderTruncated), file;
    }
    if next == TruncatedData {
      return Err(DataTruncated), file;
    }
    if !sawMagic {
      return Err(EmptyInput), file;
    }
    if !sawEof {
      return Err(NoEof), file;
    }
    AllRead(z, chunkSize, input, seen, rest, outbin.written, sawMagic, sawEof);
    return Ok(Output(outbin.outfile, outbin.compressed, outbin.preservedCompressed,
                     outbin.preservedOther, outbin.total)), file;
  }

  lemma AllRead(z: Codec, size: nat, input: seq<byte>, seen: seq<Tlv>, rest: seq<byte>, out: seq<Tlv>,
                sawMagic: bool, sawEof: bool)
    requires Going(z, size, input, seen, rest, out, sawMagic, sawEof) && ReadTlv(rest).End?
    ensures ParseAll(input) == Some(seen)
  {
    ParseOfEncode(seen);
    assert input == EncodeAll(seen);
  }
}
