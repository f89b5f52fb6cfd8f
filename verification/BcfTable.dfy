/** From the list of region codes to the table in the image and the lookup in it: printed by
    `scripts/bcf_info.py`, captured and flattened by the firmware CMake file, searched by `bcf_reg_dne`
    in `net_mgmt.c`. */
module BcfTable {
  import opened Bytes
  import opened Words

  const SEMICOLON: byte := 0x3B
  const NEWLINE: byte := 0x0A
  const CARRIAGE_RETURN: byte := 0x0D
  const EINVAL := 22

  type Code = seq<byte>

  /** Visible ASCII other than the list separator: what passes through the printed list unchanged. */
  predicate Visible(b: byte) {
    0x21 <= b <= 0x7E && b != SEMICOLON
  }

  // ---------- The table and its lookup ----------

  /** `";".join(codes)`, as printed. */
  function Join(codes: seq<Code>): seq<byte> {
    if codes == [] then [] else if |codes| == 1 then codes[0] else codes[0] + [SEMICOLON] + Join(codes[1..])
  }

  /** `string(REPLACE ";" "" ...)`. */
  function DropSemicolons(s: seq<byte>): seq<byte> {
    if s == [] then [] else IfKept(s[0]) + DropSemicolons(s[1..])
  }

  function IfKept(b: byte): seq<byte> {
    if b == SEMICOLON then [] else [b]
  }

  /** What the capture of a program's output drops: NUL bytes, and the carriage return of a line end. */
  predicate Dropped(s: seq<byte>)
    requires s != []
  {
    s[0] == 0 || (s[0] == CARRIAGE_RETURN && |s| > 1 && s[1] == NEWLINE)
  }

  function FixText(s: seq<byte>): seq<byte> {
    if s == [] then [] else (if Dropped(s) then [] else [s[0]]) + FixText(s[1..])
  }

  /** White space: tab to carriage return, and space. */
  predicate IsSpace(b: byte) {
    0x09 <= b <= 0x0D || b == 0x20
  }

  /** `OUTPUT_STRIP_TRAILING_WHITESPACE`. */
  function StripSpaces(s: seq<byte>): seq<byte> {
    if s != [] && IsSpace(s[|s| - 1]) then StripSpaces(s[..|s| - 1]) else s
  }

  /** The printed line. */
  function Line(codes: seq<Code>): seq<byte> {
    Join(codes) + [NEWLINE]
  }

  /** The line in bytes: codes separated by ';' (0x3B), a line feed at the end; and what counts as white
      space in it. */
  lemma LineMeaning(codes: seq<Code>, b: byte)
    ensures Line([]) == [0x0A]
    ensures |codes| == 1 ==> Line(codes) == codes[0] + [0x0A]
    ensures |codes| > 1 ==> Line(codes) == codes[0] + [0x3B] + Line(codes[1..])
    ensures IsSpace(b) <==> b in {0x09, 0x0A, 0x0B, 0x0C, 0x0D, 0x20}
  {
  }

  /** The table in the image: the printed line, captured and flattened. */
  function Table(codes: seq<Code>): seq<byte> {
    DropSemicolons(StripSpaces(FixText(Line(codes))))
  }

  /** A whole entry of the table is the code. */
  predicate InTable(regions: seq<byte>, code: Code)
    requires |code| >= 2
  {
    exists k :: 0 <= k < |regions| - 1 && k % 2 == 0 && code[0] == regions[k] && code[1] == regions[k + 1]
  }

  /** The search reads one byte past the end of the table. */
  predicate ReadsPast(regions: seq<byte>, code: Code)
    requires |code| >= 2
  {
    |regions| % 2 == 1 && !InTable(regions, code) && code[0] == regions[|regions| - 1]
  }

  /** Looking a country code up in the flat table, for tables of any length; `beyond` is the byte behind
      the array. */
  method BcfRegDne(regions: seq<byte>, code: Code, beyond: byte) returns (ret: int, ghost past: bool)
    requires |code| >= 2
    ensures ret == 0 || ret == -22
    ensures past <==> ReadsPast(regions, code)
    ensures ret == 0 <==> InTable(regions, code) || (past && code[1] == beyond)
  {
    past := false;
    var i := 0;
    while i < |regions|
      invariant 0 <= i <= |regions| + 1 && i % 2 == 0
      invariant forall k :: 0 <= k < i && k < |regions| - 1 && k % 2 == 0 ==>
                              !(code[0] == regions[k] && code[1] == regions[k + 1])
      invariant past <==> i > |regions| && code[0] == regions[|regions| - 1]
      invariant past ==> code[1] != beyond
    {
      if code[0] == regions[i] {
        past := i + 1 == |regions|;
        if code[1] == if i + 1 < |regions| then regions[i + 1] else beyond {
          return 0, past;
        }
      }
      i := i + 2;
    }
    return -EINVAL, past;
  }

  predicate AllVisible(codes: seq<Code>) {
    forall i, k | 0 <= i < |codes| && 0 <= k < |codes[i]| :: Visible(codes[i][k])
  }

  function Concat(codes: seq<Code>): seq<byte> {
    if codes == [] then [] else codes[0] + Concat(codes[1..])
  }

  predicate NoSemicolon(c: Code) {
    forall i | 0 <= i < |c| :: c[i] != SEMICOLON
  }

  lemma {:induction false} DropAppend(s: seq<byte>, t: seq<byte>)
    ensures DropSemicolons(s + t) == DropSemicolons(s) + DropSemicolons(t)
  {
    hide IfKept;
    if s == [] {
      assert s + t == t;
    } else {
      var all, head, tail := s + t, IfKept(s[0]), s[1..];
      DropAppend(tail, t);
      assert all[0] == s[0] && all[1..] == tail + t;
      assert DropSemicolons(all) == head + DropSemicolons(tail + t) && DropSemicolons(s) == head + DropSemicolons(tail);
      hide DropSemicolons;
      Associate(head, DropSemicolons(tail), DropSemicolons(t));
    }
  }

  lemma {:induction false} DropCount(s: seq<byte>)
    ensures |DropSemicolons(s)| <= |s|
    ensures |DropSemicolons(s)| == |s| <==> NoSemicolon(s)
    ensures NoSemicolon(s) ==> DropSemicolons(s) == s
  {
    if s != [] {
      var tail := s[1..];
      DropCount(tail);
      assert NoSemicolon(s) <==> s[0] != SEMICOLON && NoSemicolon(tail) by {
        assert forall i | 0 < i < |s| :: s[i] == tail[i - 1];
        assert forall i | 0 <= i < |tail| :: tail[i] == s[i + 1];
      }
    }
  }

  lemma {:induction false} FlattenedIsConcat(codes: seq<Code>)
    requires forall i | 0 <= i < |codes| :: NoSemicolon(codes[i])
    ensures DropSemicolons(Join(codes)) == Concat(codes)
  {
    if codes != [] {
      DropCount(codes[0]);
      JoinSplit(codes);
      FlattenedIsConcat(codes[1..]);
    }
  }

  /** What is left of the list, code by code. */
  lemma JoinSplit(codes: seq<Code>)
    requires codes != []
    ensures DropSemicolons(Join(codes)) == DropSemicolons(codes[0]) + DropSemicolons(Join(codes[1..]))
  {
    var one: seq<byte>, first, rest := [SEMICOLON], codes[0], Join(codes[1..]);
    assert one[1..] == [] && DropSemicolons(one) == [];
    assert Join(codes) == if |codes| == 1 then first else first + one + rest;
    assert |codes| == 1 ==> rest == [] && DropSemicolons(rest) == [];
    hide DropSemicolons, Join;
    if |codes| > 1 {
      DropAppend(first + one, rest);
      DropAppend(first, one);
      assert DropSemicolons(first) + DropSemicolons(one) == DropSemicolons(first);
    } else {
      assert DropSemicolons(first) + DropSemicolons(rest) == DropSemicolons(first);
    }
  }

  /** What print, capture and flattening leave of a code: two bytes, none a separator or NUL, that are not a
      line end. */
  predicate CleanPair(c: Code) {
    |c| == 2 && NoSemicolon(c) && c[0] != 0 && c[1] != 0 && !(c[0] == CARRIAGE_RETURN && c[1] == NEWLINE)
  }

  predicate AllClean(codes: seq<Code>) {
    forall i | 0 <= i < |codes| :: CleanPair(codes[i])
  }

  lemma AllCleanTail(codes: seq<Code>)
    requires codes != []
    ensures AllClean(codes) <==> CleanPair(codes[0]) && AllClean(codes[1..])
  {
    var tail := codes[1..];
    assert forall i | 0 < i < |codes| :: codes[i] == tail[i - 1];
    assert forall i | 0 <= i < |tail| :: tail[i] == codes[i + 1];
  }

  /** Clean codes, the last of which does not end in white space. */
  predicate Intact(codes: seq<Code>) {
    && AllClean(codes)
    && (codes != [] ==> !IsSpace(codes[|codes| - 1][1]))
  }

  predicate TwoEach(codes: seq<Code>) {
    forall i | 0 <= i < |codes| :: |codes[i]| == 2 && NoSemicolon(codes[i])
  }

  lemma TwoEachTail(codes: seq<Code>)
    requires codes != []
    ensures TwoEach(codes) <==> |codes[0]| == 2 && NoSemicolon(codes[0]) && TwoEach(codes[1..])
  {
    var tail := codes[1..];
    assert forall i | 0 < i < |codes| :: codes[i] == tail[i - 1];
    assert forall i | 0 <= i < |tail| :: tail[i] == codes[i + 1];
  }

  lemma {:induction false} JoinCount(codes: seq<Code>)
    requires forall i | 0 <= i < |codes| :: |codes[i]| <= 2
    ensures |DropSemicolons(Join(codes))| <= 2 * |codes|
    ensures |DropSemicolons(Join(codes))| == 2 * |codes| <==> TwoEach(codes)
  {
    if codes != [] {
      DropCount(codes[0]);
      JoinSplit(codes);
      TwoEachTail(codes);
      JoinCount(codes[1..]);
    }
  }

  lemma FixUnfolds(s: seq<byte>)
    requires s != []
    ensures !Dropped(s) ==> FixText(s) == [s[0]] + FixText(s[1..])
    ensures Dropped(s) ==> FixText(s) == FixText(s[1..])
  {
  }

  /** Fixing drops only what a flat table would show. */
  lemma {:induction false} FixCount(s: seq<byte>)
    ensures |FixText(s)| <= |s|
    ensures |DropSemicolons(FixText(s))| <= |DropSemicolons(s)|
    ensures |DropSemicolons(FixText(s))| == |DropSemicolons(s)| <==> FixText(s) == s
  {
    if s != [] {
      var tail := s[1..];
      FixCount(tail);
      FixUnfolds(s);
      hide FixText;
      assert s == [s[0]] + tail;
      DropAppend([s[0]], tail);
      DropAppend([s[0]], FixText(tail));
      assert |DropSemicolons([s[0]])| == if s[0] == SEMICOLON then 0 else 1 by {
        assert [s[0]][1..] == [];
      }
      assert [s[0]] + FixText(tail) == s <==> FixText(tail) == tail by {
        assert ([s[0]] + FixText(tail))[1..] == FixText(tail);
      }
    }
  }

  lemma {:induction false} FixEnd(s: seq<byte>)
    ensures var f := FixText(s + [NEWLINE]); f != [] && f[|f| - 1] == NEWLINE
  {
    var line := s + [NEWLINE];
    if s != [] {
      assert line[1..] == s[1..] + [NEWLINE];
      FixEnd(s[1..]);
    }
  }

  /** Stripping removes only what a flat table would show. */
  lemma {:induction false} StripCount(s: seq<byte>)
    ensures |StripSpaces(s)| <= |s|
    ensures |DropSemicolons(StripSpaces(s))| <= |DropSemicolons(s)|
    ensures |DropSemicolons(StripSpaces(s))| == |DropSemicolons(s)| <==> StripSpaces(s) == s
    decreases |s|
  {
    if s != [] && IsSpace(s[|s| - 1]) {
      var front, last := s[..|s| - 1], s[|s| - 1];
      StripCount(front);
      assert s == front + [last];
      DropAppend(front, [last]);
      assert DropSemicolons([last]) == [last] by {
        assert [last][1..] == [];
      }
    }
  }

  lemma NewlineLast(s: seq<byte>)
    ensures StripSpaces(s + [NEWLINE]) == StripSpaces(s)
    ensures |DropSemicolons(s + [NEWLINE])| == |DropSemicolons(s)| + 1
  {
    var line, one: seq<byte> := s + [NEWLINE], [NEWLINE];
    assert line[..|s|] == s && one[1..] == [];
    DropAppend(s, one);
  }

  /** The table holds no more than the list, and as much exactly when neither fixing nor stripping finds
      anything in it. */
  lemma TableCount(codes: seq<Code>)
    ensures |Table(codes)| <= |DropSemicolons(Join(codes))|
    ensures |Table(codes)| == |DropSemicolons(Join(codes))|
       <==> FixText(Line(codes)) == Line(codes) && StripSpaces(Join(codes)) == Join(codes)
    ensures |Table(codes)| == |DropSemicolons(Join(codes))| ==> Table(codes) == DropSemicolons(Join(codes))
  {
    hide FixText, StripSpaces, Join, DropSemicolons;
    var join, line := Join(codes), Line(codes);
    var fixed := FixText(line);
    FixCount(line);
    FixEnd(join);
    var body := fixed[..|fixed| - 1];
    assert fixed == body + [NEWLINE];
    NewlineLast(body);
    NewlineLast(join);
    StripCount(body);
    if fixed == line {
      assert body == join;
    }
  }

  lemma FixesNone(s: seq<byte>)
    requires s != []
    ensures FixText(s) == s <==> !Dropped(s) && FixText(s[1..]) == s[1..]
  {
    hide FixText, DropSemicolons, Dropped;
    var tail := s[1..];
    FixUnfolds(s);
    FixCount(tail);
    assert s == [s[0]] + tail;
    assert ([s[0]] + FixText(tail))[1..] == FixText(tail);
  }

  /** A two-byte code in front of what does not start with a line feed. */
  lemma FixPair(c: Code, rest: seq<byte>)
    requires |c| == 2 && NoSemicolon(c) && rest != [] && rest[0] != 0 && rest[0] != CARRIAGE_RETURN
    ensures FixText(c + rest) == c + rest
       <==> && c[0] != 0 && c[1] != 0 && !(c[0] == CARRIAGE_RETURN && c[1] == NEWLINE)
            && !(c[1] == CARRIAGE_RETURN && rest[0] == NEWLINE)
            && FixText(rest[1..]) == rest[1..]
  {
    var s := c + rest;
    FixesNone(s);
    FixesNone(s[1..]);
    FixesNone(rest);
    assert s[1..][1..] == rest && s[1..][0] == c[1];
  }

  /** Of the line of two-byte codes, the capture drops nothing exactly when the codes are clean and the last
      one does not end in a carriage return. */
  lemma {:induction false} LineUnfixed(codes: seq<Code>)
    requires TwoEach(codes)
    ensures FixText(Line(codes)) == Line(codes)
       <==> AllClean(codes) && (codes != [] ==> codes[|codes| - 1][1] != CARRIAGE_RETURN)
  {
    if codes == [] {
      assert Line(codes) == [NEWLINE];
      FixesNone([NEWLINE]);
    } else if |codes| == 1 {
      FixPair(codes[0], [NEWLINE]);
    } else {
      var tail := codes[1..];
      TwoEachTail(codes);
      LineUnfixed(tail);
      var rest := [SEMICOLON] + Line(tail);
      assert Line(codes) == codes[0] + rest && rest[1..] == Line(tail);
      FixPair(codes[0], rest);
      AllCleanTail(codes);
      hide FixText, Line, Join, NoSemicolon, AllClean;
    }
  }

  lemma {:induction false} JoinLast(codes: seq<Code>)
    requires TwoEach(codes) && codes != []
    ensures var join := Join(codes); join != [] && join[|join| - 1] == codes[|codes| - 1][1]
  {
    if |codes| > 1 {
      TwoEachTail(codes);
      JoinLast(codes[1..]);
    }
  }

  /** Entry i of the list stands at place 2i of the table, and there is nothing else in it. */
  predicate Aligned(codes: seq<Code>) {
    && |Table(codes)| == 2 * |codes|
    && forall i | 0 <= i < |codes| :: Table(codes)[2 * i..2 * i + 2] == codes[i]
  }

  lemma ShiftedSlice(a: seq<byte>, b: seq<byte>, k: nat)
    requires |a| == 2 && k + 2 <= |b|
    ensures (a + b)[k + 2..k + 4] == b[k..k + 2]
  {
  }

  lemma {:induction false} ConcatIndex(codes: seq<Code>)
    requires forall i | 0 <= i < |codes| :: |codes[i]| == 2
    ensures |Concat(codes)| == 2 * |codes|
    ensures forall i | 0 <= i < |codes| :: Concat(codes)[2 * i..2 * i + 2] == codes[i]
  {
    if codes != [] {
      var tail, table := codes[1..], Concat(codes);
      ConcatIndex(tail);
      forall i | 0 <= i < |codes| ensures table[2 * i..2 * i + 2] == codes[i] {
        if i == 0 {
          assert table[..2] == codes[0];
        } else {
          assert codes[i] == tail[i - 1];
          ShiftedSlice(codes[0], Concat(tail), 2 * (i - 1));
        }
      }
    }
  }

  /** For codes of at most two bytes, as the extraction cuts them: the table is aligned with the list
      exactly when every code is a clean pair and the last one does not end in white space. */
  lemma AlignedExactly(codes: seq<Code>)
    requires forall i | 0 <= i < |codes| :: |codes[i]| <= 2
    ensures Aligned(codes) <==> Intact(codes)
    ensures |Table(codes)| == 2 * |codes| <==> Intact(codes)
  {
    hide Table, FixText, StripSpaces, Join;
    JoinCount(codes);
    TableCount(codes);
    if TwoEach(codes) {
      LineUnfixed(codes);
      StripsNone(codes);
      FlattenedIsConcat(codes);
      ConcatIndex(codes);
    }
  }

  lemma StripsNone(codes: seq<Code>)
    requires TwoEach(codes)
    ensures StripSpaces(Join(codes)) == Join(codes) <==> codes == [] || !IsSpace(codes[|codes| - 1][1])
  {
    var join := Join(codes);
    if codes != [] {
      JoinLast(codes);
      StripCount(join[..|join| - 1]);
    }
  }

  // ---------- Visible codes ----------

  lemma {:induction false} FixNothing(s: seq<byte>)
    requires forall i | 0 <= i < |s| :: s[i] != 0 && s[i] != CARRIAGE_RETURN
    ensures FixText(s) == s
  {
    if s != [] {
      FixNothing(s[1..]);
      assert s == [s[0]] + s[1..];
    }
  }

  lemma {:induction false} JoinBytes(codes: seq<Code>)
    requires AllVisible(codes)
    ensures forall i | 0 <= i < |Join(codes)| :: Visible(Join(codes)[i]) || Join(codes)[i] == SEMICOLON
  {
    if |codes| > 1 {
      JoinBytes(codes[1..]);
    }
  }

  /** For visible codes, of any length, the table is the codes one after the other. */
  lemma TableIsConcat(codes: seq<Code>)
    requires AllVisible(codes)
    ensures Table(codes) == Concat(codes)
  {
    JoinBytes(codes);
    FixNothing(Line(codes));
    TableCount(codes);
    FlattenedIsConcat(codes);
  }

  /** Regions of two visible characters are intact. */
  lemma VisiblePairsAreIntact(codes: seq<Code>)
    requires AllVisible(codes) && forall i | 0 <= i < |codes| :: |codes[i]| == 2
    ensures Intact(codes) && Aligned(codes)
  {
    forall i | 0 <= i < |codes| ensures CleanPair(codes[i]) && !IsSpace(codes[i][1]) {
      assert Visible(codes[i][0]) && Visible(codes[i][1]);
    }
    AlignedExactly(codes);
  }

  /** A region that ends in white space loses it when it is the last one: its table has half an entry. */
  lemma SpaceIsStripped()
    ensures Table([[0x55, 0x20]]) == [0x55]
  {
    var line: seq<byte> := [0x55, 0x20, NEWLINE];
    assert Line([[0x55, 0x20]]) == line;
    FixNothing(line);
    assert line[..2] == [0x55, 0x20] && line[..2][..1] == [0x55];
    assert StripSpaces(line[..2]) == StripSpaces([0x55]) == [0x55];
    DropCount([0x55]);
  }

  function Singles(codes: seq<Code>): nat {
    if codes == [] then 0 else (if |codes[0]| == 1 then 1 else 0) + Singles(codes[1..])
  }

  lemma {:induction false} ConcatParity(codes: seq<Code>)
    requires forall i | 0 <= i < |codes| :: |codes[i]| <= 2
    ensures |Concat(codes)| % 2 == Singles(codes) % 2
  {
    if codes != [] {
      ConcatParity(codes[1..]);
    }
  }

  /** For visible codes, the table has a half entry at its end, behind which the lookup can read, exactly when
      the number of one-byte codes is odd. */
  lemma HalfEntryExactly(codes: seq<Code>)
    requires AllVisible(codes) && forall i | 0 <= i < |codes| :: |codes[i]| <= 2
    ensures |Table(codes)| % 2 == Singles(codes) % 2
  {
    TableIsConcat(codes);
    ConcatParity(codes);
  }

  lemma AlignedLookup(table: seq<byte>, codes: seq<Code>, code: Code)
    requires |table| == 2 * |codes| && |code| == 2
    requires forall i | 0 <= i < |codes| :: table[2 * i..2 * i + 2] == codes[i]
    ensures InTable(table, code) <==> code in codes
  {
    if code in codes {
      var i :| 0 <= i < |codes| && codes[i] == code;
      var k := 2 * i;
      assert table[k..k + 2] == code && k % 2 == 0;
      assert code[0] == table[k] && code[1] == table[k + 1];
    }
    if InTable(table, code) {
      var k :| 0 <= k < |table| - 1 && k % 2 == 0 && code[0] == table[k] && code[1] == table[k + 1];
      var i := k / 2;
      assert table[2 * i..2 * i + 2] == codes[i] == code;
    }
  }

  /** Stride-2 lookup in an aligned table finds exactly the listed codes, and stays inside. */
  lemma LookupFindsListed(codes: seq<Code>, code: Code)
    requires Aligned(codes) && |code| == 2
    ensures InTable(Table(codes), code) <==> code in codes
    ensures !ReadsPast(Table(codes), code)
  {
    hide Table, InTable;
    AlignedLookup(Table(codes), codes, code);
  }
}
