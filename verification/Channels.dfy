/** S1G access-point channels: deriving an operating channel from a primary channel and a bandwidth
    (`wifi_mgmt.c`, access-point section). */
module Channels {
  import opened Words

  const SKIP_OP_CLASS_CHECK: int := -1
  const ENOENT := 2
  const MHZ := 1000000

  type int16 = n: int | -0x8000 <= n < 0x8000
  /** A centre frequency that the source's casts to `int32_t` leave alone. */
  type Hertz = n: int | 0 <= n < 0x8000_0000

  datatype Channel = Channel(centre: Hertz, bw: uint8, num: uint8, globalClass: int16, s1gClass: int16)

  /** A possibly null channel list. */
  datatype ChannelList = NoList | Channels(entries: seq<Channel>)

  /** The out-parameters of `derive_operating_channel`, written on success. */
  datatype Derived = Derived(opClass: uint16, num: uint16, idx: uint8, primaryBw: uint8)

  datatype Result<+T> = Ok(value: T) | Err(code: int)

  function ToUint16(n: int16): uint16 {
    if n < 0 then n + 0x1_0000 else n
  }

  function ToInt16(n: uint16): int16 {
    if n >= 0x8000 then n - 0x1_0000 else n
  }

  /** C division, which truncates towards zero. */
  function TruncDiv(a: int, b: int): int
    requires b > 0
  {
    if a >= 0 then a / b else -((-a) / b)
  }

  /** The operating-class rule shared by validation and lookup. */
  predicate ClassMatches(c: Channel, opClass: uint16) {
    || c.globalClass == SKIP_OP_CLASS_CHECK
    || c.s1gClass == SKIP_OP_CLASS_CHECK
    || c.globalClass == ToInt16(opClass)
    || c.s1gClass == ToInt16(opClass)
  }

  /** The rule on the class fields: -1 in either matches every class; otherwise one of the two, as a 16-bit
      value, is the class. */
  lemma ClassMatchesMeaning(c: Channel, opClass: uint16)
    ensures ClassMatches(c, opClass) <==>
              || c.globalClass == -1 || c.s1gClass == -1
              || c.globalClass % 0x1_0000 == opClass || c.s1gClass % 0x1_0000 == opClass
  {
  }

  /** The primary's centre lies strictly inside the channel. */
  predicate Spans(c: Channel, primary: Channel, bw: uint8) {
    var half := bw * MHZ / 2;
    c.bw == bw && c.centre - half < primary.centre < c.centre + half
  }

  /** The distance of the centres is less than half the bandwidth. */
  lemma SpansMeaning(c: Channel, primary: Channel, bw: uint8)
    ensures Spans(c, primary, bw) <==>
              && c.bw == bw
              && 2 * (primary.centre - c.centre) < bw * 1000000 && 2 * (c.centre - primary.centre) < bw * 1000000
  {
  }

  predicate DistinctNumbers(cs: seq<Channel>) {
    forall i, j | 0 <= i < j < |cs| :: cs[i].num != cs[j].num
  }

  predicate ValidCombination(cs: seq<Channel>, opClass: uint16, num: uint16, bw: uint8, idx: uint8) {
    && idx < bw
    && exists i :: 0 <= i < |cs| && cs[i].num == num && cs[i].bw == bw && ClassMatches(cs[i], opClass)
  }

  method ApChannelIsValid(list: ChannelList, opClass: uint16, num: uint16, bw: uint8, idx: uint8)
    returns (valid: bool)
    ensures valid <==> list.Channels? && ValidCombination(list.entries, opClass, num, bw, idx)
    ensures valid <==>
              && list.Channels? && idx < bw
              && exists c | c in list.entries ::
                   && c.num == num && c.bw == bw
                   && (|| c.globalClass == -1 || c.s1gClass == -1
                       || c.globalClass % 0x1_0000 == opClass || c.s1gClass % 0x1_0000 == opClass)
  {
    if list.NoList? || bw == 0 || idx >= bw {
      return false;
    }
    var i := 0;
    while i < |list.entries|
      invariant 0 <= i <= |list.entries|
      invariant forall k | 0 <= k < i ::
                  !(list.entries[k].num == num && list.entries[k].bw == bw && ClassMatches(list.entries[k], opClass))
    {
      var c := list.entries[i];
      ClassMatchesMeaning(c, opClass);
      if c.num == num && c.bw == bw && ClassMatches(c, opClass) {
        assert c in list.entries;
        return true;
      }
      i := i + 1;
    }
    return false;
  }

  /** The position of a primary channel in an operating channel, before the range check; the sum is one
      of 32-bit values. */
  function PrimaryIndex(op: Channel, primary: Channel): int {
    TruncDiv(Int32(primary.centre - op.centre + (op.bw - primary.bw) * 500000), MHZ)
  }

  predicate IsOperating(c: Channel, opClass: uint16, num: uint16) {
    c.num == num && ClassMatches(c, opClass)
  }

  /** The first entry from i on that an operating class and channel number select, or -1. */
  function FirstOperating(cs: seq<Channel>, opClass: uint16, num: uint16, i: nat): (k: int)
    ensures k == -1 || i <= k < |cs|
    decreases |cs| - i
  {
    if i >= |cs| then -1 else if IsOperating(cs[i], opClass, num) then i else FirstOperating(cs, opClass, num, i + 1)
  }

  /** The first entry from i on with a channel number, or -1. */
  function FirstNumbered(cs: seq<Channel>, num: uint8, i: nat): (k: int)
    ensures k == -1 || i <= k < |cs|
    decreases |cs| - i
  {
    if i >= |cs| then -1 else if cs[i].num == num then i else FirstNumbered(cs, num, i + 1)
  }

  /** The first entry from i on that spans a primary at a bandwidth, or -1. */
  function FirstSpanning(cs: seq<Channel>, primary: Channel, bw: uint8, i: nat): (k: int)
    ensures k == -1 || i <= k < |cs|
    decreases |cs| - i
  {
    if i >= |cs| then -1 else if Spans(cs[i], primary, bw) then i else FirstSpanning(cs, primary, bw, i + 1)
  }

  /** Both searches run in one pass and each keeps its first hit. */
  method CalcPrimaryChanIdx(list: ChannelList, opClass: uint16, num: uint16, primaryNum: uint8)
    returns (idx: int)
    ensures list.NoList? ==> idx == -ENOENT
    ensures list.Channels? ==> idx == IndexOf(list.entries, FirstOperating(list.entries, opClass, num, 0),
                                              FirstNumbered(list.entries, primaryNum, 0))
    ensures list.Channels? && idx != -1 ==>
              exists op, primary | op in list.entries && primary in list.entries ::
                && op.num == num && ClassMatches(op, opClass)
                && primary.num == primaryNum && primary.bw <= 2 && primary.bw <= op.bw
                && 0 <= idx < op.bw
  {
    hide Int32, TruncDiv;
    if list.NoList? {
      return -ENOENT;
    }
    var cs := list.entries;
    var op, primary := -1, -1;
    var i := 0;
    while i < |cs|
      invariant 0 <= i <= |cs| && -1 <= op < i && -1 <= primary < i
      invariant op >= 0 ==> cs[op].num == num && ClassMatches(cs[op], opClass)
      invariant primary >= 0 ==> cs[primary].num == primaryNum
      invariant FirstOperating(cs, opClass, num, 0) == if op >= 0 then op else FirstOperating(cs, opClass, num, i)
      invariant FirstNumbered(cs, primaryNum, 0) == if primary >= 0 then primary else FirstNumbered(cs, primaryNum, i)
    {
      if op < 0 && cs[i].num == num && ClassMatches(cs[i], opClass) {
        op := i;
      }
      if primary < 0 && cs[i].num == primaryNum {
        primary := i;
      }
      i := i + 1;
    }
    if op < 0 || primary < 0 || cs[primary].bw > 2 || cs[primary].bw > cs[op].bw {
      return -1;
    }
    var delta := cs[primary].centre - cs[op].centre;
    var margin := (cs[op].bw - cs[primary].bw) * 500000;
    idx := TruncDiv(Int32(delta + margin), MHZ);
    if idx < 0 || idx >= cs[op].bw {
      return -1;
    }
    assert cs[op] in cs && cs[primary] in cs;
  }

  /** The index of the primary entry p in the operating entry o, or -1 if there is none. */
  function IndexOf(cs: seq<Channel>, o: int, p: int): (idx: int)
    ensures idx < 0x100
  {
    if !(0 <= o < |cs| && 0 <= p < |cs|) || cs[p].bw > 2 || cs[p].bw > cs[o].bw then -1
    else
      var i := PrimaryIndex(cs[o], cs[p]);
      if 0 <= i < cs[o].bw then i else -1
  }

  method FindOperatingChannel(cs: seq<Channel>, primary: Channel, bw: uint8) returns (op: int)
    ensures op == FirstSpanning(cs, primary, bw, 0)
  {
    op := 0;
    while op < |cs|
      invariant 0 <= op <= |cs|
      invariant FirstSpanning(cs, primary, bw, 0) == FirstSpanning(cs, primary, bw, op)
    {
      var half := bw * MHZ / 2;
      var delta := primary.centre - cs[op].centre;
      if cs[op].bw == bw && delta > -half && delta < half {
        return;
      }
      op := op + 1;
    }
    return -1;
  }

  /** The operating class reported for a channel. */
  function ReportedClass(c: Channel): uint16 {
    ToUint16(if c.s1gClass != SKIP_OP_CLASS_CHECK then c.s1gClass else c.globalClass)
  }

  /** A primary of at most min(2, bw) MHz exists and some bw-wide entry spans its centre. */
  ghost predicate Derivable(cs: seq<Channel>, primaryNum: uint8, bw: uint8) {
    exists p, o :: DerivableFrom(cs, primaryNum, bw, p, o)
  }

  predicate DerivableFrom(cs: seq<Channel>, primaryNum: uint8, bw: uint8, p: int, o: int) {
    && 0 <= p < |cs| && 0 <= o < |cs|
    && cs[p].num == primaryNum && cs[p].bw <= 2 && cs[p].bw <= bw
    && Spans(cs[o], cs[p], bw)
  }

  lemma IndexInRange(op: Channel, primary: Channel)
    requires Spans(op, primary, op.bw) && primary.bw <= 2
    ensures 0 <= PrimaryIndex(op, primary) < op.bw
  {
    var shifted := primary.centre - op.centre + (op.bw - primary.bw) * 500000;
    assert -MHZ < shifted < op.bw * MHZ && Int32(shifted) == shifted;
  }

  lemma ReportedClassMatches(c: Channel)
    ensures ClassMatches(c, ReportedClass(c))
  {
    assert ToInt16(ToUint16(c.s1gClass)) == c.s1gClass;
  }

  /** The search for a spanning channel fails iff none spans, and finds the first that does. */
  lemma {:induction false} FirstSpanningMeaning(cs: seq<Channel>, primary: Channel, bw: uint8, i: nat)
    requires i <= |cs|
    ensures var o := FirstSpanning(cs, primary, bw, i);
            if o < 0 then o == -1 && forall k | i <= k < |cs| :: !Spans(cs[k], primary, bw)
            else i <= o < |cs| && Spans(cs[o], primary, bw) && forall k | i <= k < o :: !Spans(cs[k], primary, bw)
    decreases |cs| - i
  {
    if i < |cs| && !Spans(cs[i], primary, bw) {
      FirstSpanningMeaning(cs, primary, bw, i + 1);
    }
  }

  /** With distinct numbers an entry is found again by its number and a class it matches. */
  lemma {:induction false} OperatingFinds(cs: seq<Channel>, opClass: uint16, k: nat, i: nat)
    requires DistinctNumbers(cs) && i <= k < |cs| && ClassMatches(cs[k], opClass)
    ensures FirstOperating(cs, opClass, cs[k].num, i) == k
    decreases k - i
  {
    if i < k {
      OperatingFinds(cs, opClass, k, i + 1);
    }
  }

  lemma {:induction false} FirstNumberedMeaning(cs: seq<Channel>, num: uint8, i: nat)
    requires i <= |cs|
    ensures var p := FirstNumbered(cs, num, i);
            if p < 0 then forall k | i <= k < |cs| :: cs[k].num != num
            else cs[p].num == num && forall k | i <= k < p :: cs[k].num != num
    decreases |cs| - i
  {
    if i < |cs| && cs[i].num != num {
      FirstNumberedMeaning(cs, num, i + 1);
    }
  }

  /** The first entry that the class and number select; it is no later than an entry they belong to. */
  lemma {:induction false} FirstOperatingMeaning(cs: seq<Channel>, opClass: uint16, num: uint16, i: nat, k: nat)
    requires i <= k < |cs| && IsOperating(cs[k], opClass, num)
    ensures var q := FirstOperating(cs, opClass, num, i);
            && i <= q <= k && cs[q].num == num && ClassMatches(cs[q], opClass)
            && forall j | i <= j < q :: cs[j].num != num || !ClassMatches(cs[j], opClass)
    decreases k - i
  {
    if !IsOperating(cs[i], opClass, num) {
      FirstOperatingMeaning(cs, opClass, num, i + 1, k);
    }
  }

  /** The first entry with the primary's number is narrow enough and some bw-wide entry spans it. */
  predicate FirstDerivable(cs: seq<Channel>, primaryNum: uint8, bw: uint8) {
    var p := FirstNumbered(cs, primaryNum, 0);
    p >= 0 && cs[p].bw <= 2 && cs[p].bw <= bw && FirstSpanning(cs, cs[p], bw, 0) >= 0
  }

  /** The entry that the reported class and the number of entry o select: what the index is computed
      against. */
  function FoundAgain(cs: seq<Channel>, o: int): int
    requires 0 <= o < |cs|
  {
    FirstOperating(cs, ReportedClass(cs[o]), cs[o].num, 0)
  }

  /** The primary entry, the first entry that spans it, and the index computed for them. */
  function PrimaryEntry(cs: seq<Channel>, primaryNum: uint8): int {
    FirstNumbered(cs, primaryNum, 0)
  }

  function OperatingEntry(cs: seq<Channel>, primaryNum: uint8, bw: uint8): (o: int)
    requires FirstDerivable(cs, primaryNum, bw)
    ensures 0 <= o < |cs|
  {
    FirstSpanning(cs, cs[PrimaryEntry(cs, primaryNum)], bw, 0)
  }

  function ComputedIndex(cs: seq<Channel>, primaryNum: uint8, bw: uint8): (idx: int)
    requires FirstDerivable(cs, primaryNum, bw)
    ensures idx < 0x100
  {
    IndexOf(cs, FoundAgain(cs, OperatingEntry(cs, primaryNum, bw)), PrimaryEntry(cs, primaryNum))
  }

  /** The values belong to the entry with the primary's number and the first entry that spans it. */
  predicate DerivedFrom(cs: seq<Channel>, primaryNum: uint8, bw: uint8, d: Derived) {
    && FirstDerivable(cs, primaryNum, bw)
    && var primary, op := cs[PrimaryEntry(cs, primaryNum)], cs[OperatingEntry(cs, primaryNum, bw)];
       d == Derived(ReportedClass(op), op.num, d.idx, primary.bw) && d.idx == PrimaryIndex(op, primary)
  }

  /** What a caller is promised: an operating channel is derived iff there is one, its values belong to
      the first one, and the access-point check accepts them. */
  ghost predicate AsPromised(cs: seq<Channel>, primaryNum: uint8, bw: uint8, r: Result<Derived>) {
    if Derivable(cs, primaryNum, bw) then
      && r.Ok?
      && DerivedFrom(cs, primaryNum, bw, r.value)
      && ValidCombination(cs, r.value.opClass, r.value.num, bw, r.value.idx)
    else r.Err?
  }

  /** The lower edge of an entry. */
  function Edge(c: Channel): int {
    c.centre - c.bw * 500000
  }

  /** A primary lies in the same 1 MHz step of two entries, inside the first, and is no wider than it. */
  predicate SameStep(found: Channel, op: Channel, primary: Channel) {
    && primary.bw <= found.bw
    && TruncDiv(Edge(primary) - Edge(op), MHZ) == TruncDiv(Edge(primary) - Edge(found), MHZ) < found.bw
  }

  /** If any entry with the primary's number can be derived from, the first one can, and it lies in the same
      step of the entry found again as of the entry that spans it. A condition on the entries alone. */
  ghost predicate Unambiguous(cs: seq<Channel>, primaryNum: uint8, bw: uint8) {
    Derivable(cs, primaryNum, bw) ==>
      && FirstDerivable(cs, primaryNum, bw)
      && var o := OperatingEntry(cs, primaryNum, bw);
         var q := FoundAgain(cs, o);
         0 <= q && SameStep(cs[q], cs[o], cs[PrimaryEntry(cs, primaryNum)])
  }

  lemma Shifted(op: Channel, primary: Channel)
    ensures primary.centre - op.centre + (op.bw - primary.bw) * 500000 == Edge(primary) - Edge(op)
  {
  }

  /** The index against the entry found again is the index in the spanning entry exactly when the primary
      lies in the same step of both. */
  lemma IndexBySteps(cs: seq<Channel>, q: int, o: int, p: int)
    requires 0 <= q < |cs| && 0 <= o < |cs| && 0 <= p < |cs|
    requires Spans(cs[o], cs[p], cs[o].bw) && cs[p].bw <= 2
    ensures IndexOf(cs, q, p) == PrimaryIndex(cs[o], cs[p]) <==> SameStep(cs[q], cs[o], cs[p])
  {
    hide TruncDiv, Int32;
    Shifted(cs[q], cs[p]);
    Shifted(cs[o], cs[p]);
    IndexInRange(cs[o], cs[p]);
    StepInRange(Edge(cs[p]) - Edge(cs[q]), cs[q].bw);
    StepInRange(Edge(cs[p]) - Edge(cs[o]), cs[o].bw);
  }

  /** A 32-bit step is a step in range exactly when the distance is. */
  lemma StepInRange(d: int, bw: uint8)
    requires -0xA000_0000 < d < 0xA000_0000
    ensures var i, step := TruncDiv(Int32(d), MHZ), TruncDiv(d, MHZ);
            (0 <= i < bw || 0 <= step < bw) ==> i == step
  {
    if d >= W {
      assert Int32(d) == d - M && TruncDiv(d, MHZ) >= 0x100 && TruncDiv(d - M, MHZ) < 0;
    } else if d < -W {
      assert Int32(d) == d + M && TruncDiv(d, MHZ) < 0 && TruncDiv(d + M, MHZ) >= 0x100;
    } else {
      assert Int32(d) == d;
    }
  }

  /** Where the entries stand on one 1 MHz grid, steps are the same exactly when the lower edges are. */
  lemma SameStepOnGrid(found: Channel, op: Channel, primary: Channel)
    requires (Edge(primary) - Edge(found)) % MHZ == 0 && (Edge(primary) - Edge(op)) % MHZ == 0
    ensures SameStep(found, op, primary) <==>
              && primary.bw <= found.bw && Edge(found) == Edge(op)
              && Edge(primary) < Edge(found) + found.bw * MHZ
  {
    var d, e := Edge(primary) - Edge(found), Edge(primary) - Edge(op);
    assert d == TruncDiv(d, MHZ) * MHZ && e == TruncDiv(e, MHZ) * MHZ;
  }

  lemma FirstIsDerivable(cs: seq<Channel>, primaryNum: uint8, bw: uint8)
    requires FirstDerivable(cs, primaryNum, bw)
    ensures var p, o := PrimaryEntry(cs, primaryNum), OperatingEntry(cs, primaryNum, bw);
            DerivableFrom(cs, primaryNum, bw, p, o) && IsOperating(cs[o], ReportedClass(cs[o]), cs[o].num)
    ensures Derivable(cs, primaryNum, bw)
  {
    var p, o := PrimaryEntry(cs, primaryNum), OperatingEntry(cs, primaryNum, bw);
    FirstNumberedMeaning(cs, primaryNum, 0);
    FirstSpanningMeaning(cs, cs[p], bw, 0);
    ReportedClassMatches(cs[o]);
    assert DerivableFrom(cs, primaryNum, bw, p, o);
  }

  /** Distinct numbers leave no ambiguity. */
  lemma DistinctIsUnambiguous(cs: seq<Channel>, primaryNum: uint8, bw: uint8)
    requires DistinctNumbers(cs)
    ensures Unambiguous(cs, primaryNum, bw)
  {
    if Derivable(cs, primaryNum, bw) {
      var p, o :| DerivableFrom(cs, primaryNum, bw, p, o);
      FirstNumberedMeaning(cs, primaryNum, 0);
      assert PrimaryEntry(cs, primaryNum) == p;
      FirstSpanningMeaning(cs, cs[p], bw, 0);
      FirstIsDerivable(cs, primaryNum, bw);
      var first := OperatingEntry(cs, primaryNum, bw);
      OperatingFinds(cs, ReportedClass(cs[first]), first, 0);
      IndexInRange(cs[first], cs[p]);
      IndexBySteps(cs, first, first, p);
    }
  }

  /** The derivation is as promised exactly for unambiguous lists. */
  lemma PromiseMeaning(cs: seq<Channel>, primaryNum: uint8, bw: uint8, r: Result<Derived>)
    requires r.Ok? <==> FirstDerivable(cs, primaryNum, bw) && ComputedIndex(cs, primaryNum, bw) >= 0
    requires r.Ok? ==>
               var primary, op := cs[PrimaryEntry(cs, primaryNum)], cs[OperatingEntry(cs, primaryNum, bw)];
               r.value == Derived(ReportedClass(op), op.num, ComputedIndex(cs, primaryNum, bw), primary.bw)
    ensures AsPromised(cs, primaryNum, bw, r) <==> Unambiguous(cs, primaryNum, bw)
  {
    if FirstDerivable(cs, primaryNum, bw) {
      FirstIsDerivable(cs, primaryNum, bw);
      var p, o := PrimaryEntry(cs, primaryNum), OperatingEntry(cs, primaryNum, bw);
      assert cs[o].bw == bw;
      IndexInRange(cs[o], cs[p]);
      FirstOperatingMeaning(cs, ReportedClass(cs[o]), cs[o].num, 0, o);
      IndexBySteps(cs, FoundAgain(cs, o), o, p);
    }
  }

  /** For every list: when the derivation succeeds, with what values, and exactly when that is what a
      caller is promised. */
  method DeriveOperatingChannel(list: ChannelList, primaryNum: uint8, bw: uint8) returns (r: Result<Derived>)
    ensures r.Err? ==> r.code == -ENOENT
    ensures r.Ok? <==>
              && list.Channels? && FirstDerivable(list.entries, primaryNum, bw)
              && ComputedIndex(list.entries, primaryNum, bw) >= 0
    ensures r.Ok? ==>
              var cs := list.entries;
              var primary, op := cs[PrimaryEntry(cs, primaryNum)], cs[OperatingEntry(cs, primaryNum, bw)];
              r.value == Derived(ReportedClass(op), op.num, ComputedIndex(cs, primaryNum, bw), primary.bw)
    ensures r.Ok? ==>
              var op := list.entries[OperatingEntry(list.entries, primaryNum, bw)];
              r.value.opClass == (if op.s1gClass != -1 then op.s1gClass else op.globalClass) % 0x1_0000
    ensures list.Channels? ==>
              (AsPromised(list.entries, primaryNum, bw, r) <==> Unambiguous(list.entries, primaryNum, bw))
    ensures list.Channels? && DistinctNumbers(list.entries) ==> AsPromised(list.entries, primaryNum, bw, r)
  {
    if list.NoList? {
      return Err(-ENOENT);
    }
    var cs := list.entries;
    r := DeriveFrom(cs, primaryNum, bw);
    PromiseMeaning(cs, primaryNum, bw, r);
    if DistinctNumbers(cs) {
      DistinctIsUnambiguous(cs, primaryNum, bw);
    }
  }

  /** The derivation over a list that is there. */
  method DeriveFrom(cs: seq<Channel>, primaryNum: uint8, bw: uint8) returns (r: Result<Derived>)
    ensures r.Err? ==> r.code == -ENOENT
    ensures r.Ok? <==> FirstDerivable(cs, primaryNum, bw) && ComputedIndex(cs, primaryNum, bw) >= 0
    ensures r.Ok? ==>
              var primary, op := cs[PrimaryEntry(cs, primaryNum)], cs[OperatingEntry(cs, primaryNum, bw)];
              r.value == Derived(ReportedClass(op), op.num, ComputedIndex(cs, primaryNum, bw), primary.bw)
  {
    var p := 0;
    while p < |cs| && cs[p].num != primaryNum
      invariant 0 <= p <= |cs|
      invariant FirstNumbered(cs, primaryNum, 0) == FirstNumbered(cs, primaryNum, p)
    {
      p := p + 1;
    }
    if p == |cs| || cs[p].bw > 2 || cs[p].bw > bw {
      return Err(-ENOENT);
    }
    var o := FindOperatingChannel(cs, cs[p], bw);
    if o < 0 {
      return Err(-ENOENT);
    }
    var opClass := ReportedClass(cs[o]);
    FirstIsDerivable(cs, primaryNum, bw);
    FirstOperatingMeaning(cs, opClass, cs[o].num, 0, o);
    var idx := CalcPrimaryChanIdx(Channels(cs), opClass, cs[o].num, primaryNum);
    if idx < 0 {
      return Err(-ENOENT);
    }
    return Ok(Derived(opClass, cs[o].num, idx, cs[p].bw));
  }

  /** On the 1 MHz grid of an operating channel, the centre of grid position i gets index i, and a
      grid centre determines its index: positions and indices correspond one to one. */
  lemma GridIndex(op: Channel, primary: Channel, i: int)
    requires 0 <= i < op.bw && primary.bw <= 2
    requires exists j :: 0 <= j < op.bw && OnGrid(op, primary, j)
    ensures PrimaryIndex(op, primary) == i <==> OnGrid(op, primary, i)
  {
    var j :| 0 <= j < op.bw && OnGrid(op, primary, j);
    assert primary.centre - op.centre + (op.bw - primary.bw) * 500000 == j * MHZ;
    assert Int32(j * MHZ) == j * MHZ;
    assert PrimaryIndex(op, primary) == j;
  }

  predicate OnGrid(op: Channel, primary: Channel, i: int) {
    primary.centre == op.centre + (2 * i + primary.bw - op.bw) * 500000
  }

  // ---------- Repeated channel numbers ----------

  const FAR_ENTRY := [Channel(900000000, 1, 7, 1, 1), Channel(920500000, 1, 3, 1, 1), Channel(921000000, 2, 7, 1, 1)]
  const WIDE_ENTRY := [Channel(922000000, 8, 7, 1, 1), Channel(923500000, 1, 3, 1, 1), Channel(924000000, 2, 7, 1, 1)]
  const WIDE_PRIMARY := [Channel(922000000, 8, 3, 1, 1), Channel(923500000, 1, 3, 1, 1), Channel(924000000, 2, 7, 1, 1)]

  /** The index is computed against an earlier entry of the same number, far below: the derivation fails
      although an operating channel spans the primary. */
  method RepeatedNumberFails() returns (r: Result<Derived>)
    ensures Derivable(FAR_ENTRY, 3, 2) && r == Err(-ENOENT)
  {
    EntriesOf(FAR_ENTRY);
    r := DeriveOperatingChannel(Channels(FAR_ENTRY), 3, 2);
    FirstIsDerivable(FAR_ENTRY, 3, 2);
  }

  lemma WideEntryIndex()
    ensures FirstDerivable(WIDE_ENTRY, 3, 2)
    ensures PrimaryEntry(WIDE_ENTRY, 3) == 1 && OperatingEntry(WIDE_ENTRY, 3, 2) == 2
    ensures ComputedIndex(WIDE_ENTRY, 3, 2) == 5 && ReportedClass(WIDE_ENTRY[2]) == 1
  {
    EntriesOf(WIDE_ENTRY);
    assert !Spans(WIDE_ENTRY[0], WIDE_ENTRY[1], 2) && !Spans(WIDE_ENTRY[1], WIDE_ENTRY[1], 2);
    assert Spans(WIDE_ENTRY[2], WIDE_ENTRY[1], 2);
    assert FoundAgain(WIDE_ENTRY, 2) == 0;
    assert PrimaryIndex(WIDE_ENTRY[0], WIDE_ENTRY[1]) == 5;
  }

  /** The earlier entry is a wider channel: the derivation succeeds with an index that the access-point
      check rejects. */
  method RepeatedNumberMisleads() returns (r: Result<Derived>, valid: bool)
    ensures r == Ok(Derived(1, 7, 5, 1)) && !valid
  {
    WideEntryIndex();
    r := DeriveOperatingChannel(Channels(WIDE_ENTRY), 3, 2);
    valid := ApChannelIsValid(Channels(WIDE_ENTRY), 1, 7, 2, 5);
  }

  /** The earlier entry repeats the primary's number and is too wide for a primary. */
  method RepeatedPrimaryFails() returns (r: Result<Derived>)
    ensures Derivable(WIDE_PRIMARY, 3, 2) && r == Err(-ENOENT)
  {
    EntriesOf(WIDE_PRIMARY);
    r := DeriveOperatingChannel(Channels(WIDE_PRIMARY), 3, 2);
    assert DerivableFrom(WIDE_PRIMARY, 3, 2, 1, 2);
  }

  /** The searches in a list of three, entry by entry. */
  lemma EntriesOf(cs: seq<Channel>)
    requires |cs| == 3
    ensures forall num: uint8 ::
              FirstNumbered(cs, num, 0)
              == if cs[0].num == num then 0 else if cs[1].num == num then 1 else if cs[2].num == num then 2 else -1
    ensures forall primary: Channel, bw: uint8 ::
              FirstSpanning(cs, primary, bw, 0)
              == if Spans(cs[0], primary, bw) then 0 else if Spans(cs[1], primary, bw) then 1
                 else if Spans(cs[2], primary, bw) then 2 else -1
    ensures forall opClass: uint16, num: uint16 ::
              FirstOperating(cs, opClass, num, 0)
              == if IsOperating(cs[0], opClass, num) then 0 else if IsOperating(cs[1], opClass, num) then 1
                 else if IsOperating(cs[2], opClass, num) then 2 else -1
  {
    forall num: uint8
      ensures FirstNumbered(cs, num, 1) == if cs[1].num == num then 1 else FirstNumbered(cs, num, 2)
    {
    }
    forall primary: Channel, bw: uint8
      ensures FirstSpanning(cs, primary, bw, 1)
           == if Spans(cs[1], primary, bw) then 1 else FirstSpanning(cs, primary, bw, 2)
    {
    }
    forall opClass: uint16, num: uint16
      ensures FirstOperating(cs, opClass, num, 1)
           == if IsOperating(cs[1], opClass, num) then 1 else FirstOperating(cs, opClass, num, 2)
    {
    }
  }
}
