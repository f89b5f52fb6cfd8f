/** The on-target firmware/BCF check: it walks a TLV stream through a reader that may return less
    than it was asked for (`test_wlan_fw_bcf.c`, `mmhal_wlan_binaries.c`). */
module FwValidator {
  import opened Bytes
  import opened TlvStream
  import opened Words
  import MbinCompress
  import MbinMeaning

  const MAX_TLVS := 50
  const MIN_READ := 4

  /** A filled-in `mmhal_robuf`: a buffer of some length, or a null pointer with a length field. */
  datatype Robuf = Null(size: nat) | Data(bytes: seq<byte>) {
    function Len(): nat {
      if Null? then size else |bytes|
    }
  }

  /** `file_read_fn(offset, requested_len, robuf)`. */
  type Reader = (nat, nat) -> Robuf

  /** `NullRead`: the magic check dereferences a null buffer. */
  datatype Verdict = Passed | Failed | NullRead

  // ---------- Readers ----------

  /** The reader's contract: a prefix of what was asked for, of at least 4 bytes if there are that
      many, and nothing at or beyond the end of the file. */
  predicate ConformingAt(file: seq<byte>, offset: nat, requested: nat, r: Robuf) {
    if offset >= |file| || requested == 0 then r.Len() == 0
    else
      && r.Data?
      && Min(MIN_READ, Min(requested, |file| - offset)) <= |r.bytes| <= Min(requested, |file| - offset)
      && r.bytes == file[offset..offset + |r.bytes|]
  }

  ghost predicate Conforming(file: seq<byte>, read: Reader) {
    forall offset: nat, requested: nat :: ConformingAt(file, offset, requested, read(offset, requested))
  }

  /** Everything asked for, as far as the file goes. */
  function OneShot(file: seq<byte>): Reader {
    (offset: nat, requested: nat) =>
      if offset > |file| then Null(0) else Data(file[offset..offset + Min(|file| - offset, requested)])
  }

  /** The built-in readers. `read_len` is an unsigned subtraction made before the range check. */
  method ReadFile(file: seq<byte>, offset: nat, requested: nat) returns (robuf: Robuf)
    requires |file| < M && offset < M
    ensures robuf == OneShot(file)(offset, requested)
    ensures ConformingAt(file, offset, requested, robuf)
    ensures offset > |file| ==> robuf == Null(0)
    ensures offset <= |file| ==>
              && robuf.Data? && file[offset..offset + |robuf.bytes|] == robuf.bytes
              && (|robuf.bytes| == requested || (|robuf.bytes| < requested && offset + |robuf.bytes| == |file|))
  {
    var readLen := Word(|file| - offset);
    if offset > |file| {
      return Null(0);
    }
    return Data(file[offset..offset + if readLen < requested then readLen else requested]);
  }

  lemma OneShotConforms(file: seq<byte>)
    ensures Conforming(file, OneShot(file))
  {
    forall offset: nat, requested: nat
      ensures ConformingAt(file, offset, requested, OneShot(file)(offset, requested))
    {
    }
  }

  // ---------- The check, for an arbitrary reader ----------

  datatype Payload = Complete | Broken(verdict: Verdict)

  /** Reading a TLV's value piece by piece; every piece of the first TLV is compared with the magic. */
  function ReadPayload(read: Reader, offset: nat, remaining: nat, first: bool, magic: nat): Payload
    decreases remaining
  {
    if remaining == 0 then Complete
    else
      var r := read(offset, remaining);
      if r.Len() == 0 || r.Len() > remaining then Broken(Failed)
      else if first && r.Len() < 4 then Broken(Failed)
      else if first && r.Null? then Broken(NullRead)
      else if first && Unpack32(r.bytes[..4]) != magic then Broken(Failed)
      else ReadPayload(read, Word(offset + r.Len()), remaining - r.Len(), first, magic)
  }

  function Walk(read: Reader, offset: nat, count: nat, magic: nat): Verdict
    decreases MAX_TLVS - count
  {
    if count >= MAX_TLVS then Failed
    else
      var r := read(offset, HEADER_SIZE);
      if r.Len() == 0 || r.Null? || r.Len() < HEADER_SIZE then Failed
      else
        var kind, length := KindAt(r.bytes, 0), LengthAt(r.bytes, 0);
        if count == 0 && kind != MAGIC then Failed
        else if kind == EOF then Passed
        else
          match ReadPayload(read, Word(offset + HEADER_SIZE), length, count == 0, magic)
          case Broken(v) => v
          case Complete => Walk(read, Word(offset + HEADER_SIZE + length), count + 1, magic)
  }

  /** The inner loop: the value of a TLV, whose header is at `start`, from `offset` on. */
  method ReadValue(read: Reader, from: nat, length: nat, first: bool, magic: nat, ghost start: nat)
    returns (payload: Payload, offset: nat)
    requires from == Word(start + HEADER_SIZE)
    ensures payload == ReadPayload(read, from, length, first, magic)
    ensures payload.Complete? ==> offset == Word(start + HEADER_SIZE + length)
  {
    hide Word, Unpack32;
    offset := from;
    var remaining: nat := length;
    while remaining > 0
      invariant remaining <= length && offset == Word(start + HEADER_SIZE + (length - remaining))
      invariant ReadPayload(read, from, length, first, magic) == ReadPayload(read, offset, remaining, first, magic)
    {
      var robuf := read(offset, remaining);
      if robuf.Len() == 0 {
        return Broken(Failed), offset;
      }
      if robuf.Len() > remaining {
        return Broken(Failed), offset;
      }
      if first {
        if robuf.Len() < 4 {
          return Broken(Failed), offset;
        }
        if robuf.Null? {
          return Broken(NullRead), offset;
        }
        if Unpack32(robuf.bytes[..4]) != magic {
          return Broken(Failed), offset;
        }
      }
      WordSum(start + HEADER_SIZE + (length - remaining), robuf.Len());
      offset := Word(offset + robuf.Len());
      remaining := remaining - robuf.Len();
    }
    return Complete, offset;
  }

  method ExecuteFwBcfTest(read: Reader, magic: nat) returns (verdict: Verdict)
    ensures verdict == Walk(read, 0, 0, magic)
  {
    hide ReadPayload, KindAt, LengthAt, Word;
    var offset: nat := 0;
    var numTlvs: nat := 0;
    while numTlvs < MAX_TLVS
      invariant 0 <= numTlvs <= MAX_TLVS
      invariant Walk(read, 0, 0, magic) == Walk(read, offset, numTlvs, magic)
    {
      var robuf := read(offset, HEADER_SIZE);
      if robuf.Len() == 0 {
        return Failed;
      }
      if robuf.Null? {
        return Failed;
      }
      if robuf.Len() < HEADER_SIZE {
        return Failed;
      }
      var kind, length := KindAt(robuf.bytes, 0), LengthAt(robuf.bytes, 0);
      if numTlvs == 0 && kind != MAGIC {
        return Failed;
      }
      if kind == EOF {
        return Passed;
      }
      var payload;
      payload, offset := ReadValue(read, Word(offset + HEADER_SIZE), length, numTlvs == 0, magic, offset);
      if payload.Broken? {
        return payload.verdict;
      }
      numTlvs := numTlvs + 1;
    }
    return Failed;
  }

  // ---------- What the verdict means ----------

  /** The offset after the TLV at an offset. */
  function EndAt(file: seq<byte>, offset: nat): nat
    requires offset + HEADER_SIZE <= |file|
  {
    offset + HEADER_SIZE + LengthAt(file, offset)
  }

  /** Complete TLVs lead to an EOF header that is still among the first MAX_TLVS headers. */
  predicate ReachesEof(file: seq<byte>, offset: nat, count: nat)
    decreases MAX_TLVS - count
  {
    && count < MAX_TLVS
    && offset + HEADER_SIZE <= |file|
    && (|| KindAt(file, offset) == EOF
        || (EndAt(file, offset) <= |file| && ReachesEof(file, EndAt(file, offset), count + 1)))
  }

  predicate MagicAccepted(data: seq<byte>, magic: nat) {
    data == [] || (|data| >= 4 && Unpack32(data[..4]) == magic)
  }

  predicate HasMagicHeader(file: seq<byte>) {
    |file| >= HEADER_SIZE && KindAt(file, 0) == MAGIC
  }

  /** The verdict when every read returns all that was asked for. */
  predicate Sound(file: seq<byte>, magic: nat) {
    && HasMagicHeader(file)
    && EndAt(file, 0) <= |file|
    && MagicAccepted(file[HEADER_SIZE..EndAt(file, 0)], magic)
    && ReachesEof(file, EndAt(file, 0), 1)
  }

  lemma HeaderRead(file: seq<byte>, read: Reader, offset: nat)
    requires Conforming(file, read)
    ensures var r := read(offset, HEADER_SIZE);
            if offset + HEADER_SIZE > |file| then r.Len() < HEADER_SIZE
            else
              && r.Data? && |r.bytes| == HEADER_SIZE
              && KindAt(r.bytes, 0) == KindAt(file, offset) && LengthAt(r.bytes, 0) == LengthAt(file, offset)
  {
    var r := read(offset, HEADER_SIZE);
    assert ConformingAt(file, offset, HEADER_SIZE, r);
    if offset + HEADER_SIZE <= |file| {
      assert r.bytes[0..2] == file[offset..offset + 2] && r.bytes[2..4] == file[offset + 2..offset + 4];
    }
  }

  /** One piece of a value, from a conforming reader. */
  lemma PieceRead(file: seq<byte>, read: Reader, offset: nat, remaining: nat)
    requires Conforming(file, read) && offset <= |file| < M && remaining > 0
    ensures var r := read(offset, remaining);
            if offset == |file| then r.Len() == 0
            else
              && r.Data? && 0 < r.Len() <= remaining && offset + r.Len() <= |file|
              && Word(offset + r.Len()) == offset + r.Len()
  {
    assert ConformingAt(file, offset, remaining, read(offset, remaining));
  }

  lemma {:induction false} LaterPayload(file: seq<byte>, read: Reader, offset: nat, remaining: nat, magic: nat)
    requires Conforming(file, read) && offset <= |file| < M
    ensures ReadPayload(read, offset, remaining, false, magic)
         == if remaining == 0 || offset + remaining <= |file| then Complete else Broken(Failed)
    decreases remaining
  {
    hide Conforming, Word, Unpack32;
    if remaining > 0 {
      var r := read(offset, remaining);
      PieceRead(file, read, offset, remaining);
      if 0 < r.Len() {
        LaterPayload(file, read, offset + r.Len(), remaining - r.Len(), magic);
      }
    }
  }

  lemma {:induction false} LaterTlvs(file: seq<byte>, read: Reader, offset: nat, count: nat, magic: nat)
    requires Conforming(file, read) && offset <= |file| < M && count >= 1
    ensures Walk(read, offset, count, magic) == if ReachesEof(file, offset, count) then Passed else Failed
    decreases MAX_TLVS - count
  {
    hide KindAt, LengthAt, ReadPayload, Conforming, ConformingAt;
    if count < MAX_TLVS {
      HeaderRead(file, read, offset);
      if offset + HEADER_SIZE <= |file| {
        LaterPayload(file, read, offset + HEADER_SIZE, LengthAt(file, offset), magic);
        if EndAt(file, offset) <= |file| {
          LaterTlvs(file, read, EndAt(file, offset), count + 1, magic);
        }
      }
    }
  }

  lemma {:induction false} FirstPayloadRest(file: seq<byte>, read: Reader, offset: nat, remaining: nat, magic: nat)
    requires Conforming(file, read) && offset <= |file| < M
    ensures var p := ReadPayload(read, offset, remaining, true, magic);
            && (p == Complete || p == Broken(Failed))
            && (p == Complete && remaining > 0 ==> offset + remaining <= |file|)
    decreases remaining
  {
    hide Conforming, Word, Unpack32;
    if remaining > 0 {
      var r := read(offset, remaining);
      PieceRead(file, read, offset, remaining);
      if 0 < r.Len() {
        FirstPayloadRest(file, read, offset + r.Len(), remaining - r.Len(), magic);
      }
    }
  }

  /** With a value of at most four bytes the magic check does not depend on how reads are split;
      with a longer one it can only become stricter. */
  lemma FirstPayload(file: seq<byte>, read: Reader, length: nat, magic: nat)
    requires Conforming(file, read) && HEADER_SIZE <= |file| < M
    ensures var p := ReadPayload(read, HEADER_SIZE, length, true, magic);
            var sound := HEADER_SIZE + length <= |file|
                         && MagicAccepted(file[HEADER_SIZE..HEADER_SIZE + length], magic);
            && (p == Complete || p == Broken(Failed))
            && (p == Complete ==> sound)
            && (length <= 4 && sound ==> p == Complete)
  {
    if length > 0 {
      var r := read(HEADER_SIZE, length);
      assert ConformingAt(file, HEADER_SIZE, length, r);
      FirstPayloadRest(file, read, HEADER_SIZE, length, magic);
      if r.Len() >= 4 && HEADER_SIZE + length <= |file| {
        assert r.bytes[..4] == file[HEADER_SIZE..HEADER_SIZE + length][..4];
      }
    }
  }

  /** The verdict on a file with a magic header is that on the magic TLV's value, then that on the
      TLVs after it. */
  lemma FirstTlv(file: seq<byte>, read: Reader, magic: nat)
    requires Conforming(file, read) && HasMagicHeader(file) && |file| < M
    ensures Walk(read, 0, 0, magic)
         == match ReadPayload(read, HEADER_SIZE, LengthAt(file, 0), true, magic)
            case Broken(v) => v
            case Complete =>
              if EndAt(file, 0) <= |file| && ReachesEof(file, EndAt(file, 0), 1) then Passed else Failed
  {
    hide ReadPayload, Conforming, ConformingAt, ReachesEof;
    HeaderRead(file, read, 0);
    FirstPayloadRest(file, read, HEADER_SIZE, LengthAt(file, 0), magic);
    if EndAt(file, 0) <= |file| {
      LaterTlvs(file, read, EndAt(file, 0), 1, magic);
    }
  }

  lemma BadFirstTlv(file: seq<byte>, read: Reader, magic: nat)
    requires Conforming(file, read) && !HasMagicHeader(file)
    ensures Walk(read, 0, 0, magic) == Failed
  {
    HeaderRead(file, read, 0);
  }

  lemma WalkVerdict(file: seq<byte>, read: Reader, magic: nat)
    requires Conforming(file, read) && |file| < M
    ensures Walk(read, 0, 0, magic) != NullRead
    ensures Walk(read, 0, 0, magic) == Passed ==> Sound(file, magic)
    ensures Sound(file, magic) && LengthAt(file, 0) <= 4 ==> Walk(read, 0, 0, magic) == Passed
  {
    hide Walk, ReadPayload, ReachesEof, Conforming, ConformingAt;
    if HasMagicHeader(file) {
      FirstTlv(file, read, magic);
      FirstPayload(file, read, LengthAt(file, 0), magic);
    } else {
      BadFirstTlv(file, read, magic);
    }
  }

  lemma OneShotPayload(file: seq<byte>, length: nat, magic: nat)
    requires HEADER_SIZE + length <= |file| < M
    ensures ReadPayload(OneShot(file), HEADER_SIZE, length, true, magic).Complete?
       <==> MagicAccepted(file[HEADER_SIZE..HEADER_SIZE + length], magic)
  {
    if length > 0 {
      var r := OneShot(file)(HEADER_SIZE, length);
      assert Min(|file| - HEADER_SIZE, length) == length;
      assert r == Data(file[HEADER_SIZE..HEADER_SIZE + length]);
      assert ReadPayload(OneShot(file), HEADER_SIZE + length, 0, true, magic) == Complete;
    }
  }

  lemma OneShotVerdict(file: seq<byte>, magic: nat)
    requires |file| < M
    ensures Walk(OneShot(file), 0, 0, magic) == if Sound(file, magic) then Passed else Failed
  {
    hide Walk, ReadPayload, ReachesEof, Conforming, ConformingAt, OneShot;
    OneShotConforms(file);
    WalkVerdict(file, OneShot(file), magic);
    if Sound(file, magic) {
      FirstTlv(file, OneShot(file), magic);
      OneShotPayload(file, LengthAt(file, 0), magic);
    }
  }

  /** A conforming reader that delivers the magic TLV's value in two pieces, the last of one byte. */
  function SplitReader(file: seq<byte>, length: nat): Reader {
    (offset: nat, requested: nat) =>
      if offset == HEADER_SIZE && requested == length && 4 < length && HEADER_SIZE + length <= |file|
      then Data(file[HEADER_SIZE..HEADER_SIZE + length - 1])
      else OneShot(file)(offset, requested)
  }

  lemma SplitReaderConforms(file: seq<byte>, length: nat)
    ensures Conforming(file, SplitReader(file, length))
  {
    var read := SplitReader(file, length);
    OneShotConforms(file);
    forall offset: nat, requested: nat
      ensures ConformingAt(file, offset, requested, read(offset, requested))
    {
      assert ConformingAt(file, offset, requested, OneShot(file)(offset, requested));
    }
  }

  lemma SplitReaderFails(file: seq<byte>, magic: nat)
    requires Sound(file, magic) && LengthAt(file, 0) > 4 && |file| < M
    ensures Walk(SplitReader(file, LengthAt(file, 0)), 0, 0, magic) == Failed
  {
    hide Walk, ReachesEof, Conforming, ConformingAt;
    var length := LengthAt(file, 0);
    var read := SplitReader(file, length);
    SplitReaderConforms(file, length);
    FirstTlv(file, read, magic);
    assert read(HEADER_SIZE, length).Len() == length - 1;
    var last: nat := HEADER_SIZE + length - 1;
    assert Min(|file| - last, 1) == 1;
    assert OneShot(file)(last, 1) == Data(file[last..last + 1]);
    assert read(last, 1) == Data(file[last..last + 1]);
    assert ReadPayload(read, HEADER_SIZE + length - 1, 1, true, magic) == Broken(Failed);
    WalkVerdict(file, read, magic);
    FirstPayloadRest(file, read, HEADER_SIZE, length, magic);
  }

  /** The verdict is independent of how a conforming reader splits its reads exactly when the file
      is rejected anyway or its magic TLV holds at most four bytes. */
  lemma SplitIndependence(file: seq<byte>, magic: nat)
    requires |file| < M
    ensures (forall read: Reader | Conforming(file, read) ::
               Walk(read, 0, 0, magic) == Walk(OneShot(file), 0, 0, magic))
       <==> (Sound(file, magic) ==> LengthAt(file, 0) <= 4)
  {
    hide Walk, ReachesEof, ConformingAt;
    OneShotVerdict(file, magic);
    if Sound(file, magic) && LengthAt(file, 0) > 4 {
      var read := SplitReader(file, LengthAt(file, 0));
      SplitReaderConforms(file, LengthAt(file, 0));
      SplitReaderFails(file, magic);
      assert Conforming(file, read) && Walk(read, 0, 0, magic) != Walk(OneShot(file), 0, 0, magic);
    } else {
      forall read: Reader | Conforming(file, read)
        ensures Walk(read, 0, 0, magic) == Walk(OneShot(file), 0, 0, magic)
      {
        WalkVerdict(file, read, magic);
      }
    }
  }

  // ---------- In terms of TLVs ----------

  /** `s` is the TLVs `ts`, none of them EOF, followed by a tail that starts with an EOF header. */
  ghost predicate LeadsToEof(s: seq<byte>, ts: seq<Tlv>, tail: seq<byte>) {
    && AllFit(ts)
    && s == EncodeAll(ts) + tail
    && (forall i | 0 <= i < |ts| :: ts[i].kind != EOF)
    && |tail| >= HEADER_SIZE
    && KindAt(tail, 0) == EOF
  }

  /** The complete TLV at an offset. */
  lemma CutTlv(file: seq<byte>, offset: nat) returns (t: Tlv)
    requires offset + HEADER_SIZE <= |file| && EndAt(file, offset) <= |file|
    ensures t == Tlv(KindAt(file, offset), file[offset + HEADER_SIZE..EndAt(file, offset)]) && Fits(t)
    ensures file[offset..] == Encode(t) + file[EndAt(file, offset)..]
  {
    t := Tlv(KindAt(file, offset), file[offset + HEADER_SIZE..EndAt(file, offset)]);
    Pack16OfUnpack16(file[offset..offset + 2]);
    Pack16OfUnpack16(file[offset + 2..offset + 4]);
    assert |t.data| == LengthAt(file, offset);
    assert Encode(t) == file[offset..EndAt(file, offset)];
  }

  lemma LeadsMore(t: Tlv, s: seq<byte>, ts: seq<Tlv>, tail: seq<byte>)
    requires LeadsToEof(s, ts, tail) && Fits(t) && t.kind != EOF
    ensures LeadsToEof(Encode(t) + s, [t] + ts, tail)
  {
    hide Encode;
    assert ([t] + ts)[1..] == ts;
    assert Encode(t) + (EncodeAll(ts) + tail) == (Encode(t) + EncodeAll(ts)) + tail;
  }

  lemma {:induction false} ReachesEofGives(file: seq<byte>, offset: nat, count: nat)
    returns (ts: seq<Tlv>, tail: seq<byte>)
    requires ReachesEof(file, offset, count)
    ensures LeadsToEof(file[offset..], ts, tail) && count + |ts| < MAX_TLVS
    decreases MAX_TLVS - count
  {
    if KindAt(file, offset) == EOF {
      ts, tail := [], file[offset..];
      assert tail[0..2] == file[offset..offset + 2];
      assert tail == EncodeAll([]) + tail;
    } else {
      var t := CutTlv(file, offset);
      ts, tail := ReachesEofGives(file, EndAt(file, offset), count + 1);
      LeadsMore(t, file[EndAt(file, offset)..], ts, tail);
      ts := [t] + ts;
    }
  }

  lemma {:induction false} ReachesEofFrom(front: seq<byte>, ts: seq<Tlv>, tail: seq<byte>, count: nat)
    requires AllFit(ts) && count + |ts| < MAX_TLVS
    requires |tail| >= HEADER_SIZE && KindAt(tail, 0) == EOF
    ensures ReachesEof(front + EncodeAll(ts) + tail, |front|, count)
    decreases |ts|
  {
    hide Encode;
    var file := front + EncodeAll(ts) + tail;
    if ts == [] {
      assert file == front + tail;
      assert file[|front|..|front| + 2] == tail[0..2];
    } else {
      var next := front + Encode(ts[0]);
      TlvAt(front, ts[0], EncodeAll(ts[1..]) + tail);
      assert file == front + Encode(ts[0]) + (EncodeAll(ts[1..]) + tail);
      assert file == next + EncodeAll(ts[1..]) + tail;
      ReachesEofFrom(next, ts[1..], tail, count + 1);
    }
  }

  ghost predicate SoundStream(file: seq<byte>, ts: seq<Tlv>, tail: seq<byte>, magic: nat) {
    && LeadsToEof(file, ts, tail)
    && 0 < |ts| < MAX_TLVS
    && ts[0].kind == MAGIC
    && MagicAccepted(ts[0].data, magic)
  }

  lemma SoundFromStream(file: seq<byte>, ts: seq<Tlv>, tail: seq<byte>, magic: nat)
    requires SoundStream(file, ts, tail, magic)
    ensures Sound(file, magic) && LengthAt(file, 0) == |ts[0].data|
  {
    hide Encode;
    var rest := EncodeAll(ts[1..]) + tail;
    TlvAt([], ts[0], rest);
    assert file == [] + Encode(ts[0]) + rest;
    ReachesEofFrom(Encode(ts[0]), ts[1..], tail, 1);
    assert file == Encode(ts[0]) + EncodeAll(ts[1..]) + tail;
    assert |[] + Encode(ts[0])| == |Encode(ts[0])|;
  }

  lemma StreamFromSound(file: seq<byte>, magic: nat) returns (ts: seq<Tlv>, tail: seq<byte>)
    requires Sound(file, magic)
    ensures SoundStream(file, ts, tail, magic)
  {
    hide Encode, ReachesEof, KindAt, LengthAt;
    var t := CutTlv(file, 0);
    ts, tail := ReachesEofGives(file, EndAt(file, 0), 1);
    LeadsMore(t, file[EndAt(file, 0)..], ts, tail);
    ts := [t] + ts;
    assert file[0..] == file;
  }

  /** A file is sound iff it is a magic TLV, then further complete TLVs, then an EOF header within
      the first MAX_TLVS headers. An empty magic TLV is accepted without any comparison. */
  lemma SoundMeaning(file: seq<byte>, magic: nat)
    ensures Sound(file, magic) <==> exists ts: seq<Tlv>, tail: seq<byte> :: SoundStream(file, ts, tail, magic)
  {
    hide Sound, LeadsToEof;
    if Sound(file, magic) {
      var ts, tail := StreamFromSound(file, magic);
    }
    if exists ts: seq<Tlv>, tail: seq<byte> :: SoundStream(file, ts, tail, magic) {
      var ts: seq<Tlv>, tail: seq<byte> :| SoundStream(file, ts, tail, magic);
      SoundFromStream(file, ts, tail, magic);
    }
  }

  /** A magic TLV with no value passes whatever magic number was expected. */
  lemma EmptyMagicPasses(magic: nat)
    ensures var file: seq<byte> := [0x00, 0x80, 0, 0, 0x00, 0x8F, 0, 0];
            Walk(OneShot(file), 0, 0, magic) == Passed
  {
    var file: seq<byte> := [0x00, 0x80, 0, 0, 0x00, 0x8F, 0, 0];
    assert KindAt(file, 0) == MAGIC && LengthAt(file, 0) == 0;
    assert KindAt(file, 4) == EOF;
    assert ReachesEof(file, 4, 1);
    OneShotVerdict(file, magic);
  }

  /** Every firmware the compressor writes with at most MAX_TLVS TLVs passes, through any
      conforming reader. */
  lemma CompressedFirmwarePasses(z: MbinCompress.Codec, size: int, input: seq<byte>, read: Reader)
    requires MbinCompress.Compressed(z, false, size, input).Ok?
    requires var out := MbinCompress.Compressed(z, false, size, input).value;
             && |out| <= 50
             && Conforming(EncodeAll(out), read)
    requires ParseAll(input).Some? && ParseAll(input).value != []
    requires MbinCompress.ValidateMagic(ParseAll(input).value[0]) == MbinCompress.Ok(MbinCompress.Firmware)
    ensures Walk(read, 0, 0, FW_MAGIC_NUMBER) == Passed
  {
    var out := MbinCompress.Compressed(z, false, size, input).value;
    MbinMeaning.OutputWellFormed(z, size, input);
    WellFormedPasses(out, read, FW_MAGIC_NUMBER);
  }

  /** Few TLVs make a small file. */
  lemma {:induction false} EncodedSize(ts: seq<Tlv>)
    requires AllFit(ts)
    ensures |EncodeAll(ts)| <= |ts| * (HEADER_SIZE + MAX_LENGTH)
  {
    if ts != [] {
      EncodedSize(ts[1..]);
    }
  }

  lemma WellFormedPasses(out: seq<Tlv>, read: Reader, magic: nat)
    requires MbinMeaning.WellFormed(out) && AllFit(out) && |out| <= MAX_TLVS
    requires Unpack32(out[0].data) == magic && Conforming(EncodeAll(out), read)
    ensures Walk(read, 0, 0, magic) == Passed
  {
    hide Encode, Walk, Sound, Conforming;
    var file := EncodeAll(out);
    var last := |out| - 1;
    var ts, tail := out[..last], Encode(out[last]);
    assert out == ts + [out[last]];
    EncodeAllAppend(ts, [out[last]]);
    assert EncodeAll([out[last]]) == tail + EncodeAll([]) == tail;
    TlvAt([], out[last], []);
    assert [] + tail + [] == tail;
    assert ts[0].data[..4] == ts[0].data;
    assert SoundStream(file, ts, tail, magic);
    SoundFromStream(file, ts, tail, magic);
    EncodedSize(out);
    WalkVerdict(file, read, magic);
  }

  // ---------- Readers that keep no contract ----------

  /** A piece that the check accepts: not empty, not longer than asked for, and in the first TLV data that
      starts with the expected magic. */
  predicate PieceAccepted(r: Robuf, requested: nat, first: bool, magic: nat) {
    && 0 < r.Len() <= requested
    && (first ==> r.Data? && |r.bytes| >= 4 && FromLe(r.bytes[..4]) == magic)
  }

  /** Accepted pieces of these lengths make up the value. */
  predicate Tiled(read: Reader, offset: nat, remaining: nat, first: bool, magic: nat, lens: seq<nat>)
    decreases |lens|
  {
    if lens == [] then remaining == 0
    else
      && remaining > 0 && PieceAccepted(read(offset, remaining), remaining, first, magic)
      && lens[0] == read(offset, remaining).Len()
      && Tiled(read, (offset + lens[0]) % 0x1_0000_0000, remaining - lens[0], first, magic, lens[1..])
  }

  /** For every reader: a value is read completely iff accepted pieces make it up; otherwise the check fails,
      or dereferences null, which only a null piece of at least four bytes in the first TLV makes it do. */
  lemma {:induction false} PayloadMeaning(read: Reader, offset: nat, remaining: nat, first: bool, magic: nat)
    returns (lens: seq<nat>)
    ensures var p := ReadPayload(read, offset, remaining, first, magic);
            && (p == Complete <==> Tiled(read, offset, remaining, first, magic, lens))
            && (p != Complete ==> p == Broken(Failed) || (first && p == Broken(NullRead)))
    decreases remaining
  {
    lens := [];
    if remaining > 0 {
      var r := read(offset, remaining);
      if r.Data? && |r.bytes| >= 4 {
        UnpackIsLittleEndian(r.bytes[..4]);
      }
      if PieceAccepted(r, remaining, first, magic) {
        var rest := PayloadMeaning(read, Word(offset + r.Len()), remaining - r.Len(), first, magic);
        lens := [r.Len()] + rest;
        assert lens[1..] == rest;
      }
    }
  }

  lemma {:induction false} TiledIsComplete(read: Reader, offset: nat, remaining: nat, first: bool, magic: nat,
                                           lens: seq<nat>)
    requires Tiled(read, offset, remaining, first, magic, lens)
    ensures ReadPayload(read, offset, remaining, first, magic) == Complete
    decreases |lens|
  {
    if lens != [] {
      var r := read(offset, remaining);
      if first {
        UnpackIsLittleEndian(r.bytes[..4]);
      }
      TiledIsComplete(read, (offset + lens[0]) % 0x1_0000_0000, remaining - lens[0], first, magic, lens[1..]);
    }
  }

  /** A null piece of at least four bytes, where the magic is expected, is dereferenced. */
  lemma NullPieceIsRead(read: Reader, offset: nat, remaining: nat, magic: nat)
    requires remaining > 0 && read(offset, remaining).Null? && 4 <= read(offset, remaining).Len() <= remaining
    ensures ReadPayload(read, offset, remaining, true, magic) == Broken(NullRead)
  {
  }

  /** For every reader, one TLV of the check: what its header and value must be, and where it goes on; after
      50 TLVs, or with any other header, the check fails. */
  lemma OneTlv(read: Reader, offset: nat, count: nat, magic: nat)
    ensures var r := read(offset, 4);
            var v := Walk(read, offset, count, magic);
            if count >= 50 || r.Null? || |r.bytes| < 4 then v == Failed
            else
              var kind, length := FromLe(r.bytes[..2]), FromLe(r.bytes[2..4]);
              if count == 0 && kind != 0x8000 then v == Failed
              else if kind == 0x8F00 then v == Passed
              else
                match ReadPayload(read, (offset + 4) % 0x1_0000_0000, length, count == 0, magic)
                case Broken(w) => v == w
                case Complete => v == Walk(read, (offset + 4 + length) % 0x1_0000_0000, count + 1, magic)
  {
    var r := read(offset, 4);
    if r.Data? && |r.bytes| >= 4 {
      UnpackIsLittleEndian(r.bytes[0..2]);
      UnpackIsLittleEndian(r.bytes[2..4]);
      assert r.bytes[0..2] == r.bytes[..2];
    }
  }
}
