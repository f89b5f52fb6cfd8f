/** The regulatory regions of a BCF, as `scripts/bcf_info.py` extracts them, and the whole chain from the
    file to the lookup in the driver. */
module BcfRegions {
  import opened Bytes
  import opened BcfTable
  import opened TlvStream
  import opened Words

  const REGDOM: uint16 := 0x8101
  const CHIPS: uint16 := 0x8104

  /** `NotAscii` is the decoding error that a region payload outside ASCII raises. */
  datatype Error = TooSmall | BadMagic | NotAscii
  datatype Parsed = Parsed(regions: seq<Code>, chip: Option<seq<byte>>) | Failed(error: Error)

  predicate IsAscii(s: seq<byte>) {
    forall i | 0 <= i < |s| :: s[i] < 0x80
  }

  function StripZeros(s: seq<byte>): seq<byte> {
    if s != [] && s[|s| - 1] == 0 then StripZeros(s[..|s| - 1]) else s
  }

  /** The TLV walk from `offset` on, given what the TLVs before it yielded; without the final
      de-duplication. */
  function Scan(data: seq<byte>, offset: nat, regions: seq<Code>, chip: Option<seq<byte>>): Parsed
    decreases |data| - offset
  {
    if offset + HEADER_SIZE > |data| then Parsed(regions, chip)
    else
      var kind, length := KindAt(data, offset), LengthAt(data, offset);
      var payload, next := Slice(data, offset + HEADER_SIZE, length), offset + HEADER_SIZE + length;
      if kind == REGDOM then
        if !IsAscii(RegionOf(payload)) then Failed(NotAscii)
        else Scan(data, next, regions + [RegionOf(payload)], chip)
      else if kind == CHIPS then Scan(data, next, regions, Some(StripZeros(payload)))
      else if kind == EOF then Parsed(regions, chip)
      else Scan(data, next, regions, chip)
  }

  /** The country code at the start of a region payload. */
  function RegionOf(payload: seq<byte>): Code {
    Slice(payload, 0, 2)
  }

  /** `list(dict.fromkeys(codes))`: first occurrences, in order. */
  function Dedup(codes: seq<Code>): seq<Code> {
    if codes == [] then []
    else
      var before, last := Dedup(codes[..|codes| - 1]), codes[|codes| - 1];
      if last in before then before else before + [last]
  }

  /** Where a code first occurs. */
  function FirstAt(codes: seq<Code>, c: Code): (k: nat)
    requires c in codes
    ensures k < |codes| && codes[k] == c && forall j | 0 <= j < k :: codes[j] != c
  {
    var n := |codes| - 1;
    assert codes == codes[..n] + [codes[n]];
    if c in codes[..n] then FirstAt(codes[..n], c) else n
  }

  /** De-duplication keeps exactly the codes that occur, in the order of their first occurrences. */
  lemma {:induction false} DedupMeaning(codes: seq<Code>)
    ensures forall c :: c in Dedup(codes) <==> c in codes
    ensures forall i, j | 0 <= i < j < |Dedup(codes)| ::
              Dedup(codes)[i] in codes && Dedup(codes)[j] in codes
              && FirstAt(codes, Dedup(codes)[i]) < FirstAt(codes, Dedup(codes)[j])
  {
    if codes != [] {
      var n := |codes| - 1;
      DedupMeaning(codes[..n]);
      assert codes == codes[..n] + [codes[n]];
      assert forall c | c in codes[..n] :: FirstAt(codes, c) == FirstAt(codes[..n], c);
    }
  }

  method ParseBcf(data: seq<byte>) returns (r: Parsed)
    ensures |data| < HEADER_SIZE ==> r == Failed(TooSmall)
    ensures |data| >= HEADER_SIZE ==>
              r == if KindAt(data, 0) != MAGIC
                      || FromLe(Slice(data, HEADER_SIZE, LengthAt(data, 0))) != BCF_MAGIC_NUMBER
                   then Failed(BadMagic)
                   else match Scan(data, HEADER_SIZE + LengthAt(data, 0), [], None)
                        case Failed(e) => Failed(e)
                        case Parsed(regions, chip) => Parsed(Dedup(regions), chip)
  {
    hide KindAt, LengthAt, Slice, RegionOf, StripZeros, Dedup, FromLe, IsAscii;
    if |data| < HEADER_SIZE {
      return Failed(TooSmall);
    }
    var magicLength := LengthAt(data, 0);
    var magic := FromLe(Slice(data, HEADER_SIZE, magicLength));
    if KindAt(data, 0) != MAGIC || magic != BCF_MAGIC_NUMBER {
      return Failed(BadMagic);
    }
    var offset := HEADER_SIZE + magicLength;
    var regdoms: seq<Code>, chip: Option<seq<byte>> := [], None;
    ghost var whole := Scan(data, offset, [], None);
    while offset + HEADER_SIZE <= |data|
      invariant offset >= 0
      invariant Scan(data, offset, regdoms, chip) == whole
      decreases |data| - offset
    {
      var kind, length := KindAt(data, offset), LengthAt(data, offset);
      offset := offset + HEADER_SIZE;
      var payload := Slice(data, offset, length);
      offset := offset + length;
      if kind == REGDOM {
        if !IsAscii(RegionOf(payload)) {
          return Failed(NotAscii);
        }
        regdoms := regdoms + [RegionOf(payload)];
      } else if kind == CHIPS {
        chip := Some(StripZeros(payload));
      } else if kind == EOF {
        break;
      }
    }
    return Parsed(Dedup(regdoms), chip);
  }

  // ---------- From TLVs to the lookup ----------

  /** Some region TLV of the stream, before its first EOF, names the code. */
  ghost predicate Named(ts: seq<Tlv>, code: Code) {
    exists i :: NamedAt(ts, code, i)
  }

  /** A region TLV before the first EOF. */
  predicate RegionAt(ts: seq<Tlv>, i: int) {
    0 <= i < |ts| && ts[i].kind == 0x8101 && forall j | 0 <= j < i :: ts[j].kind != 0x8F00
  }

  predicate NamedAt(ts: seq<Tlv>, code: Code, i: int) {
    RegionAt(ts, i) && |ts[i].data| >= 2 && ts[i].data[..2] == code
  }

  /** Every region payload before EOF starts with a clean pair, and the last region does not end in white
      space. */
  ghost predicate RegionsIntact(ts: seq<Tlv>) {
    && (forall i | RegionAt(ts, i) :: |ts[i].data| >= 2 && CleanPair(ts[i].data[..2]))
    && var codes := Dedup(RegionCodes(ts));
       codes != [] && |codes[|codes| - 1]| == 2 ==> !IsSpace(codes[|codes| - 1][1])
  }

  /** What the walk collects: the codes of the region TLVs before the first EOF, and the last chip. */
  function RegionCodes(ts: seq<Tlv>): seq<Code> {
    if ts == [] || ts[0].kind == EOF then []
    else if ts[0].kind == REGDOM then [RegionOf(ts[0].data)] + RegionCodes(ts[1..])
    else RegionCodes(ts[1..])
  }

  function LastChip(ts: seq<Tlv>, chip: Option<seq<byte>>): Option<seq<byte>> {
    if ts == [] || ts[0].kind == EOF then chip
    else LastChip(ts[1..], if ts[0].kind == CHIPS then Some(StripZeros(ts[0].data)) else chip)
  }

  predicate AllAscii(codes: seq<Code>) {
    forall i, k | 0 <= i < |codes| && 0 <= k < |codes[i]| :: codes[i][k] < 0x80
  }

  lemma AllAsciiCons(code: Code, codes: seq<Code>)
    ensures AllAscii([code] + codes) <==> IsAscii(code) && AllAscii(codes)
  {
    var all := [code] + codes;
    assert all[0] == code && forall i | 0 <= i < |codes| :: codes[i] == all[i + 1];
    assert forall i | 0 < i < |all| :: all[i] == codes[i - 1];
  }

  /** Stripping removes exactly the zeros at the end. */
  lemma {:induction false} StripZerosMeaning(s: seq<byte>)
    ensures var t := StripZeros(s);
            && t <= s && (forall i | |t| <= i < |s| :: s[i] == 0) && (t != [] ==> t[|t| - 1] != 0)
    decreases |s|
  {
    if s != [] && s[|s| - 1] == 0 {
      StripZerosMeaning(s[..|s| - 1]);
    }
  }

  /** TLV i is the last chip TLV before the first EOF. */
  predicate LastChipAt(ts: seq<Tlv>, i: int) {
    && 0 <= i < |ts| && ts[i].kind == 0x8104 && (forall j | 0 <= j <= i :: ts[j].kind != 0x8F00)
    && forall k | i < k < |ts| && ts[k].kind == 0x8104 :: exists j | i < j < k :: ts[j].kind == 0x8F00
  }

  /** The chip is that of the last chip TLV before the first EOF, or none. */
  lemma {:induction false} LastChipMeaning(ts: seq<Tlv>, chip: Option<seq<byte>>)
    returns (i: int)
    ensures LastChip(ts, chip) == chip || LastChipAt(ts, i)
    ensures LastChipAt(ts, i) ==> LastChip(ts, chip) == Some(StripZeros(ts[i].data))
    ensures !LastChipAt(ts, i) ==>
              forall k | 0 <= k < |ts| && ts[k].kind == 0x8104 :: exists j | 0 <= j < k :: ts[j].kind == 0x8F00
  {
    i := -1;
    if ts != [] && ts[0].kind != EOF {
      var tail := ts[1..];
      var k := LastChipMeaning(tail, if ts[0].kind == CHIPS then Some(StripZeros(ts[0].data)) else chip);
      assert forall j | 0 <= j < |tail| :: tail[j] == ts[j + 1];
      assert forall j | 0 < j < |ts| :: ts[j] == tail[j - 1];
      if LastChipAt(tail, k) {
        i := k + 1;
        ShiftChip(ts, k);
      } else {
        NoLaterChip(ts);
        i := if ts[0].kind == CHIPS then 0 else -1;
      }
    }
  }

  lemma ShiftChip(ts: seq<Tlv>, k: int)
    requires ts != [] && ts[0].kind != EOF && LastChipAt(ts[1..], k)
    ensures LastChipAt(ts, k + 1)
  {
    var tail := ts[1..];
    assert forall j | 0 < j < |ts| :: ts[j] == tail[j - 1];
    forall m | k + 1 < m < |ts| && ts[m].kind == 0x8104 ensures exists j | k + 1 < j < m :: ts[j].kind == 0x8F00 {
      assert tail[m - 1].kind == 0x8104;
      var j :| k < j < m - 1 && tail[j].kind == 0x8F00;
      assert ts[j + 1].kind == 0x8F00;
    }
  }

  lemma NoLaterChip(ts: seq<Tlv>)
    requires ts != []
    requires var tail := ts[1..];
             forall k | 0 <= k < |tail| && tail[k].kind == 0x8104 :: exists j | 0 <= j < k :: tail[j].kind == 0x8F00
    ensures forall k | 0 < k < |ts| && ts[k].kind == 0x8104 :: exists j | 0 < j < k :: ts[j].kind == 0x8F00
  {
    var tail := ts[1..];
    assert forall j | 0 < j < |ts| :: ts[j] == tail[j - 1];
    forall m | 0 < m < |ts| && ts[m].kind == 0x8104 ensures exists j | 0 < j < m :: ts[j].kind == 0x8F00 {
      assert tail[m - 1].kind == 0x8104;
      var j :| 0 <= j < m - 1 && tail[j].kind == 0x8F00;
      assert ts[j + 1].kind == 0x8F00;
    }
  }

  /** Over complete TLVs the walk yields exactly those, or the decoding error. */
  lemma {:induction false} ScanCollects(front: seq<byte>, ts: seq<Tlv>, regions: seq<Code>, chip: Option<seq<byte>>)
    requires AllFit(ts)
    ensures Scan(front + EncodeAll(ts), |front|, regions, chip)
         == if AllAscii(RegionCodes(ts)) then Parsed(regions + RegionCodes(ts), LastChip(ts, chip))
            else Failed(NotAscii)
    decreases |ts|
  {
    hide Encode, KindAt, LengthAt, StripZeros, IsAscii, AllAscii;
    if ts == [] {
      NothingIsAscii();
      assert regions + [] == regions;
    } else {
      var t, next, rest, tail := ts[0], front + Encode(ts[0]), EncodeAll(ts[1..]), RegionCodes(ts[1..]);
      assert front + EncodeAll(ts) == next + rest;
      TlvAt(front, t, rest);
      SliceInside(front + EncodeAll(ts), |front| + HEADER_SIZE, |t.data|);
      if t.kind == REGDOM {
        var code := RegionOf(t.data);
        ScanCollects(next, ts[1..], regions + [code], chip);
        assert RegionCodes(ts)[0] == code && RegionCodes(ts)[1..] == tail;
        AllAsciiCons(code, tail);
        assert regions + [code] + tail == regions + ([code] + tail);
      } else if t.kind != EOF {
        ScanCollects(next, ts[1..], regions, if t.kind == CHIPS then Some(StripZeros(t.data)) else chip);
      } else {
        NothingIsAscii();
        assert regions + [] == regions;
      }
    }
  }

  lemma NothingIsAscii()
    ensures AllAscii([])
  {
  }

  /** A last TLV with less data than its header says counts with what there is. */
  lemma ScanTruncated(front: seq<byte>, kind: uint16, length: uint16, data: seq<byte>,
                      regions: seq<Code>, chip: Option<seq<byte>>)
    requires |data| < length
    ensures var r := Scan(front + (Pack16(kind) + Pack16(length) + data), |front|, regions, chip);
            if kind == 0x8101 then
              r == if forall i | 0 <= i < |data| && i < 2 :: data[i] < 0x80
                   then Parsed(regions + [if |data| < 2 then data else data[..2]], chip) else Failed(NotAscii)
            else if kind == 0x8104 then r == Parsed(regions, Some(StripZeros(data)))
            else r == Parsed(regions, chip)
  {
    hide StripZeros;
    var s := front + (Pack16(kind) + Pack16(length) + data);
    var at, body := |front|, |front| + HEADER_SIZE;
    Unpack16OfPack16(kind);
    Unpack16OfPack16(length);
    assert s[at..at + 2] == Pack16(kind) && s[at + 2..at + 4] == Pack16(length);
    assert s[body..] == data;
    assert Slice(s, body, length) == data;
    assert RegionOf(data) == if |data| < 2 then data else data[..2];
  }

  /** A rest too short for a header is ignored. */
  lemma ScanRest(data: seq<byte>, offset: nat, regions: seq<Code>, chip: Option<seq<byte>>)
    requires offset + 4 > |data|
    ensures Scan(data, offset, regions, chip) == Parsed(regions, chip)
  {
  }

  lemma SliceInside(data: seq<byte>, start: nat, n: nat)
    requires start + n <= |data|
    ensures Slice(data, start, n) == data[start..start + n]
  {
  }

  lemma RegionAtTail(ts: seq<Tlv>, i: int)
    requires ts != []
    ensures RegionAt(ts, i)
       <==> if i == 0 then ts[0].kind == REGDOM else ts[0].kind != EOF && RegionAt(ts[1..], i - 1)
  {
    assert forall j | 0 < j < |ts| :: ts[j] == ts[1..][j - 1];
    if i > 0 && ts[0].kind != EOF && RegionAt(ts[1..], i - 1) {
      assert forall j | 0 <= j < i :: j == 0 || ts[j] == ts[1..][j - 1];
    }
    if i > 0 && RegionAt(ts, i) {
      assert forall j | 0 <= j < i - 1 :: ts[1..][j] == ts[j + 1];
    }
  }

  /** Exactly the codes of the region TLVs before the first EOF are collected. */
  lemma {:induction false} CollectedMeaning(ts: seq<Tlv>, code: Code)
    ensures code in RegionCodes(ts) <==> FromPayload(ts, code)
  {
    if ts != [] {
      forall i ensures RegionAt(ts, i)
                  <==> if i == 0 then ts[0].kind == REGDOM else ts[0].kind != EOF && RegionAt(ts[1..], i - 1)
      {
        RegionAtTail(ts, i);
      }
      CollectedMeaning(ts[1..], code);
      if ts[0].kind != EOF && code in RegionCodes(ts[1..]) {
        var i :| RegionAt(ts[1..], i) && RegionOf(ts[1..][i].data) == code;
        assert RegionAt(ts, i + 1) && ts[i + 1] == ts[1..][i];
      }
      if i :| RegionAt(ts, i) && RegionOf(ts[i].data) == code {
        if i > 0 {
          assert RegionAt(ts[1..], i - 1) && ts[1..][i - 1] == ts[i];
        }
      }
    }
  }

  /** A two-byte code is collected iff a region TLV names it. */
  lemma CollectedIffNamed(ts: seq<Tlv>, code: Code)
    requires |code| == 2
    ensures code in RegionCodes(ts) <==> Named(ts, code)
  {
    CollectedMeaning(ts, code);
    if Named(ts, code) {
      var i :| NamedAt(ts, code, i);
      assert RegionOf(ts[i].data) == code;
    }
    if i :| RegionAt(ts, i) && RegionOf(ts[i].data) == code {
      assert NamedAt(ts, code, i);
    }
  }

  ghost predicate FromPayload(ts: seq<Tlv>, code: Code) {
    exists i :: RegionAt(ts, i) && RegionOf(ts[i].data) == code
  }

  /** Every code of the list comes from a region payload before EOF, and the other way round. */
  lemma ListedPayloads(ts: seq<Tlv>, codes: seq<Code>)
    requires codes == Dedup(RegionCodes(ts))
    ensures forall i | 0 <= i < |codes| :: FromPayload(ts, codes[i])
    ensures forall k | RegionAt(ts, k) :: RegionOf(ts[k].data) in codes
  {
    DedupMeaning(RegionCodes(ts));
    forall i | 0 <= i < |codes| ensures FromPayload(ts, codes[i]) {
      assert codes[i] in codes && codes[i] in RegionCodes(ts);
      CollectedMeaning(ts, codes[i]);
    }
    forall k | RegionAt(ts, k) ensures RegionOf(ts[k].data) in codes {
      CollectedMeaning(ts, RegionOf(ts[k].data));
    }
  }

  lemma RegionBytes(data: seq<byte>)
    ensures |RegionOf(data)| <= 2
    ensures |RegionOf(data)| == 2 <==> |data| >= 2
    ensures |data| >= 2 ==> RegionOf(data) == data[..2]
  {
  }

  lemma CleanPayloads(ts: seq<Tlv>, codes: seq<Code>)
    requires codes == Dedup(RegionCodes(ts))
    ensures (forall i | RegionAt(ts, i) :: |ts[i].data| >= 2 && CleanPair(ts[i].data[..2]))
       <==> AllClean(codes)
    ensures forall i | 0 <= i < |codes| :: |codes[i]| <= 2
  {
    ListedPayloads(ts, codes);
    hide RegionOf, Dedup, RegionCodes, CleanPair;
    forall j | 0 <= j < |codes| ensures |codes[j]| <= 2 {
      assert FromPayload(ts, codes[j]);
      var k :| RegionAt(ts, k) && RegionOf(ts[k].data) == codes[j];
      RegionBytes(ts[k].data);
    }
    if forall i | RegionAt(ts, i) :: |ts[i].data| >= 2 && CleanPair(ts[i].data[..2]) {
      forall j | 0 <= j < |codes| ensures CleanPair(codes[j]) {
        assert FromPayload(ts, codes[j]);
        var k :| RegionAt(ts, k) && RegionOf(ts[k].data) == codes[j];
        RegionBytes(ts[k].data);
      }
    }
    if AllClean(codes) {
      forall i | RegionAt(ts, i) ensures |ts[i].data| >= 2 && CleanPair(ts[i].data[..2]) {
        var j :| 0 <= j < |codes| && codes[j] == RegionOf(ts[i].data);
        RegionBytes(ts[i].data);
        OnlyPairsAreClean(codes[j]);
      }
    }
  }

  lemma OnlyPairsAreClean(c: Code)
    ensures CleanPair(c) ==> |c| == 2
  {
  }

  /** The table of a BCF is aligned with its region list exactly when its regions are intact. */
  lemma AlignedStream(ts: seq<Tlv>)
    ensures Aligned(Dedup(RegionCodes(ts))) <==> RegionsIntact(ts)
  {
    var codes := Dedup(RegionCodes(ts));
    CleanPayloads(ts, codes);
    AlignedExactly(codes);
    hide Aligned, IsSpace, RegionAt, NoSemicolon, Dedup, RegionCodes;
  }

  /** The firmware's table, or nothing when the build stops: at an error, or without any region. */
  method BuildTable(data: seq<byte>) returns (table: Option<seq<byte>>)
    ensures table == if !HasBcfMagic(data) then None
                     else match Scan(data, HEADER_SIZE + LengthAt(data, 0), [], None)
                          case Failed(_) => None
                          case Parsed(codes, _) => if codes == [] then None else Some(Table(Dedup(codes)))
  {
    hide KindAt, LengthAt, FromLe, Scan, Table;
    var parsed := ParseBcf(data);
    if parsed.Failed? || parsed.regions == [] {
      return None;
    }
    return Some(Table(parsed.regions));
  }

  predicate HasBcfMagic(data: seq<byte>) {
    && |data| >= HEADER_SIZE && KindAt(data, 0) == MAGIC
    && FromLe(Slice(data, HEADER_SIZE, LengthAt(data, 0))) == BCF_MAGIC_NUMBER
  }

  /** The magic number of a BCF: the bytes "MMBC", and behind them only zeros. */
  lemma MagicValue(s: seq<byte>)
    ensures FromLe(s) == BCF_MAGIC_NUMBER <==>
              && |s| >= 4 && s[..4] == [0x4D, 0x4D, 0x42, 0x43]
              && forall i | 4 <= i < |s| :: s[i] == 0
  {
    hide FromLe, Unpack32;
    if |s| < 4 {
      ShortNumber(s);
    } else {
      FourBytes(s[..4]);
      FromLeSplit(s);
      FromLeZero(s[4..]);
      assert forall i | 4 <= i < |s| :: s[i] == s[4..][i - 4];
    }
  }

  lemma FourBytes(s: seq<byte>)
    requires |s| == 4
    ensures Unpack32(s) == BCF_MAGIC_NUMBER <==> s == [0x4D, 0x4D, 0x42, 0x43]
  {
  }

  lemma FromLeSplit(s: seq<byte>)
    requires |s| >= 4
    ensures FromLe(s) == Unpack32(s[..4]) + 0x1_0000_0000 * FromLe(s[4..])
  {
    assert s[1..][1..][1..][1..] == s[4..];
    assert FromLe(s[1..][1..]) == s[2] + 0x100 * (s[3] + 0x100 * FromLe(s[4..]));
    assert FromLe(s) == s[0] + 0x100 * (s[1] + 0x100 * FromLe(s[1..][1..]));
  }

  lemma ShortNumber(s: seq<byte>)
    requires |s| < 4
    ensures FromLe(s) < 0x100_0000
  {
    if |s| == 3 {
      assert s[1..][1..][1..] == [];
    } else if |s| == 2 {
      assert s[1..][1..] == [];
    } else if |s| == 1 {
      assert s[1..] == [];
    }
  }

  /** Which files count as a BCF, in bytes: a magic TLV whose value, as far as the file holds it, is the magic
      number. */
  lemma BcfMagicMeaning(data: seq<byte>)
    ensures HasBcfMagic(data) <==>
              && |data| >= 4 && data[0] == 0x00 && data[1] == 0x80
              && var value := Slice(data, 4, data[2] as int + 0x100 * data[3] as int);
                 && |value| >= 4 && value[..4] == [0x4D, 0x4D, 0x42, 0x43]
                 && forall i | 4 <= i < |value| :: value[i] == 0
  {
    hide Slice, FromLe;
    if |data| >= 4 {
      assert KindAt(data, 0) == data[0] as int + 0x100 * data[1] as int;
      assert LengthAt(data, 0) == data[2] as int + 0x100 * data[3] as int;
      MagicValue(Slice(data, 4, data[2] as int + 0x100 * data[3] as int));
    }
  }

  predicate BcfStream(ts: seq<Tlv>) {
    AllFit(ts) && ts != [] && ts[0].kind == MAGIC && FromLe(ts[0].data) == BCF_MAGIC_NUMBER
  }

  lemma BcfHeader(ts: seq<Tlv>)
    requires BcfStream(ts)
    ensures var data := EncodeAll(ts);
            && HasBcfMagic(data)
            && Scan(data, HEADER_SIZE + LengthAt(data, 0), [], None)
               == if AllAscii(RegionCodes(ts)) then Parsed(RegionCodes(ts), LastChip(ts[1..], None))
                  else Failed(NotAscii)
  {
    hide Encode, KindAt, LengthAt, FromLe, Scan;
    var data, head, rest := EncodeAll(ts), Encode(ts[0]), EncodeAll(ts[1..]);
    TlvAt([], ts[0], rest);
    assert data == [] + head + rest == head + rest;
    SliceInside(data, HEADER_SIZE, |ts[0].data|);
    ScanCollects(head, ts[1..], [], None);
    assert [] + RegionCodes(ts[1..]) == RegionCodes(ts[1..]) == RegionCodes(ts);
  }

  /** The whole chain from a BCF to the lookup, for every stream of complete TLVs that starts with the BCF
      magic: None when the build stops. When the regions are intact, a country code is accepted iff a region
      TLV before EOF names it. */
  method RegionLookup(ts: seq<Tlv>, code: Code, beyond: byte) returns (ret: Option<int>)
    requires BcfStream(ts) && |code| == 2
    ensures ret.None? <==> !AllAscii(RegionCodes(ts)) || RegionCodes(ts) == []
    ensures ret.Some? ==>
              var table := Table(Dedup(RegionCodes(ts)));
              && (ret.value == 0 || ret.value == -EINVAL)
              && (ret.value == 0 <==> InTable(table, code) || (ReadsPast(table, code) && code[1] == beyond))
    ensures RegionsIntact(ts) && AllAscii(RegionCodes(ts)) ==> (ret == Some(0) <==> Named(ts, code))
  {
    hide Table, InTable, ReadsPast, RegionCodes, RegionsIntact, Named, Scan, KindAt, LengthAt, FromLe, Encode;
    BcfHeader(ts);
    ghost var codes := RegionCodes(ts);
    CollectedIffNamed(ts, code);
    if RegionsIntact(ts) {
      AlignedStream(ts);
      LookupFindsListed(Dedup(codes), code);
      DedupMeaning(codes);
    }
    var table := BuildTable(EncodeAll(ts));
    if table.None? {
      return None;
    }
    var r, past := BcfRegDne(table.value, code, beyond);
    return Some(r);
  }

  // ---------- Regions that are not intact ----------

  const BCF_HEAD := Tlv(MAGIC, [0x4D, 0x4D, 0x42, 0x43])

  /** Regions "A", "US", "J" and one region "A". */
  const SHIFTED := [BCF_HEAD, Tlv(REGDOM, [0x41]), Tlv(REGDOM, [0x55, 0x53]), Tlv(REGDOM, [0x4A]), Tlv(EOF, [])]
  const SHIFTED_CODES: seq<Code> := [[0x41], [0x55, 0x53], [0x4A]]
  const HALF := [BCF_HEAD, Tlv(REGDOM, [0x41]), Tlv(EOF, [])]

  lemma MagicNumber()
    ensures FromLe(BCF_HEAD.data) == BCF_MAGIC_NUMBER
  {
    assert BCF_HEAD.data[1..][1..][1..] == [0x43];
    assert FromLe(BCF_HEAD.data[1..][1..][1..]) == 0x43;
    assert FromLe(BCF_HEAD.data[1..][1..]) == 0x42 + 0x100 * 0x43;
  }

  /** One region of at most two bytes in front. */
  lemma OneRegion(data: seq<byte>, ts: seq<Tlv>)
    requires |data| <= 2
    ensures RegionCodes([Tlv(REGDOM, data)] + ts) == [data] + RegionCodes(ts)
  {
    var all := [Tlv(REGDOM, data)] + ts;
    assert all[1..] == ts && RegionOf(data) == data;
  }

  lemma OneCode(c: Code)
    ensures Dedup([c]) == [c] && Concat([c]) == c
  {
    assert [c][1..] == [] && c + [] == c;
  }

  lemma ShiftedCodes()
    ensures BcfStream(SHIFTED) && RegionCodes(SHIFTED) == SHIFTED_CODES
  {
    MagicNumber();
    var end := [Tlv(EOF, [])];
    OneRegion([0x4A], end);
    OneRegion([0x55, 0x53], [Tlv(REGDOM, [0x4A])] + end);
    OneRegion([0x41], [Tlv(REGDOM, [0x55, 0x53])] + ([Tlv(REGDOM, [0x4A])] + end));
    assert SHIFTED[1..] == [Tlv(REGDOM, [0x41])] + ([Tlv(REGDOM, [0x55, 0x53])] + ([Tlv(REGDOM, [0x4A])] + end));
  }

  lemma ShiftedDedup()
    ensures Dedup(SHIFTED_CODES) == SHIFTED_CODES
  {
    var two := SHIFTED_CODES[..2];
    assert two == [[0x41], [0x55, 0x53]] && two[..1] == [[0x41]];
    assert Dedup(two[..1]) == [[0x41]];
  }

  lemma ShiftedTable()
    ensures Table(SHIFTED_CODES) == [0x41, 0x55, 0x53, 0x4A]
  {
    hide Table;
    TableIsConcat(SHIFTED_CODES);
    var two := SHIFTED_CODES[1..];
    assert two == [[0x55, 0x53], [0x4A]] && two[1..] == [[0x4A]];
    assert Concat(two[1..]) == [0x4A];
  }

  /** Two region payloads of one byte shift what stands between them: through the whole chain the code
      "US" that the file names is refused, and "AU", which it does not name, is accepted. */
  method ShortPayloadShifts(beyond: byte) returns (named: Option<int>, unnamed: Option<int>)
    ensures Named(SHIFTED, [0x55, 0x53]) && named == Some(-EINVAL)
    ensures !Named(SHIFTED, [0x41, 0x55]) && unnamed == Some(0)
  {
    hide Table, Dedup, RegionCodes, Named, BcfStream, RegionsIntact, InTable, ReadsPast;
    ShiftedCodes();
    ShiftedDedup();
    ShiftedTable();
    CollectedIffNamed(SHIFTED, [0x55, 0x53]);
    CollectedIffNamed(SHIFTED, [0x41, 0x55]);
    named := RegionLookup(SHIFTED, [0x55, 0x53], beyond);
    unnamed := RegionLookup(SHIFTED, [0x41, 0x55], beyond);
    ShiftedLookups();
  }

  lemma ShiftedLookups()
    ensures var table: seq<byte> := [0x41, 0x55, 0x53, 0x4A];
            && !InTable(table, [0x55, 0x53]) && !ReadsPast(table, [0x55, 0x53])
            && InTable(table, [0x41, 0x55])
  {
    var table: seq<byte> := [0x41, 0x55, 0x53, 0x4A];
    assert 0 % 2 == 0 && table[0] == 0x41 && table[1] == 0x55;
  }

  /** A stream of one region of two bytes at most. */
  lemma OneRegionStream(data: seq<byte>)
    requires |data| <= 2
    ensures var ts := [BCF_HEAD, Tlv(REGDOM, data), Tlv(EOF, [])];
            BcfStream(ts) && RegionCodes(ts) == [data] && Dedup(RegionCodes(ts)) == [data]
  {
    var ts := [BCF_HEAD, Tlv(REGDOM, data), Tlv(EOF, [])];
    MagicNumber();
    OneRegion(data, [Tlv(EOF, [])]);
    assert ts[1..] == [Tlv(REGDOM, data)] + [Tlv(EOF, [])];
    OneCode(data);
  }

  /** In a table of one byte. */
  lemma HalfLookup(b: byte, code: Code)
    requires |code| == 2
    ensures !InTable([b], code) && (ReadsPast([b], code) <==> code[0] == b)
  {
  }

  /** One such payload leaves half an entry, and the answer for "AB" is that of the byte behind the
      array. */
  method HalfEntryReadsOn(beyond: byte) returns (ret: Option<int>)
    ensures !Named(HALF, [0x41, 0x42]) && (ret == Some(0) <==> beyond == 0x42)
  {
    hide Table, Dedup, RegionCodes, Named, BcfStream, RegionsIntact, InTable, ReadsPast;
    OneRegionStream([0x41]);
    OneCode([0x41]);
    TableIsConcat([[0x41]]);
    CollectedIffNamed(HALF, [0x41, 0x42]);
    HalfLookup(0x41, [0x41, 0x42]);
    ret := RegionLookup(HALF, [0x41, 0x42], beyond);
  }

  const SPACED := [BCF_HEAD, Tlv(REGDOM, [0x55, 0x20]), Tlv(EOF, [])]

  /** A last region that ends in a space: the table has lost the space, and the answer for the region is that
      of the byte behind the array. */
  method TrailingSpaceReadsOn(beyond: byte) returns (ret: Option<int>)
    ensures Named(SPACED, [0x55, 0x20]) && (ret == Some(0) <==> beyond == 0x20)
  {
    hide Table, Dedup, RegionCodes, Named, BcfStream, RegionsIntact, InTable, ReadsPast;
    OneRegionStream([0x55, 0x20]);
    SpaceIsStripped();
    CollectedIffNamed(SPACED, [0x55, 0x20]);
    HalfLookup(0x55, [0x55, 0x20]);
    ret := RegionLookup(SPACED, [0x55, 0x20], beyond);
  }
}
