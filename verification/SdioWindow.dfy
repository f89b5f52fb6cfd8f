/** `sdio_spi.c`: bulk and register access to a device that shows its memory through a 64 KiB window.
    The window is placed with CMD52 register writes, data is moved inside it with CMD53 (sections 5.1
    and 5.3 of the SDIO Specification, Part E1). */
module SdioWindow {
  import opened Words

  type uint32 = word
  type Memory = int -> bv8

  const SPACE := M
  const WINDOW := 0x1_0000
  const CMD53_MAX_BLOCKS := 128
  const BLOCK_SIZE_FN1 := 8
  const BLOCK_SIZE_FN2 := 512
  const MAX_TRANSFER := BLOCK_SIZE_FN2 * CMD53_MAX_BLOCKS

  /** Four-byte access, in the window's configuration register. */
  const ACCESS_4BYTE: uint8 := 2

  /** Values of the HAL's error codes; only that they are not 0 matters. */
  const OTHER_ERROR := -1
  const INVALID_ARGUMENT := -2

  datatype Function = Function1 | Function2
  datatype Register = Window0 | Window1 | Config

  /** The arguments of one CMD53. */
  datatype Args = Args(fn: Function, address: nat, blockMode: bool, count: nat, blockSize: nat) {
    function Bytes(): nat {
      if blockMode then count * blockSize else count
    }

    /** What the command can express: 1 to 128 blocks of 512 bytes, or 1 to 511 bytes, which the HAL takes for
        blocks unless their block size is 0; all inside the window. */
    predicate Legal() {
      && (if blockMode then 1 <= count <= CMD53_MAX_BLOCKS && blockSize == BLOCK_SIZE_FN2
          else 1 <= count <= 511 && blockSize == 0)
      && address + Bytes() <= WINDOW
    }
  }

  /** The bytes d stand in memory from address a on. */
  ghost predicate Holds(m: Memory, a: int, d: seq<bv8>) {
    forall i {:trigger m(i)} | a <= i < a + |d| :: m(i) == d[i - a]
  }

  ghost predicate SameOutside(m: Memory, m': Memory, a: int, n: int) {
    forall i {:trigger m'(i)} | i < a || a + n <= i :: m'(i) == m(i)
  }

  /** `m` is `m0` with d written at the address. */
  ghost predicate Copied(m0: Memory, m: Memory, address: int, d: seq<bv8>) {
    Holds(m, address, d) && SameOutside(m0, m, address, |d|)
  }

  /** Memory that nothing has touched yet. */
  lemma CopiedNothing(m: Memory, a: int, n: nat)
    ensures Copied(m, m, a, []) && SameOutside(m, m, a, n)
  {
  }

  lemma SameOutsideMore(m: Memory, m': Memory, a: int, n: nat, more: nat)
    requires SameOutside(m, m', a, n) && n <= more
    ensures SameOutside(m, m', a, more)
  {
  }

  /** Adding one more transfer to what a range already holds. */
  lemma CopiedStep(m0: Memory, m1: Memory, m2: Memory, address: int, d: seq<bv8>, chunk: seq<bv8>)
    requires Copied(m0, m1, address, d) && Copied(m1, m2, address + |d|, chunk)
    ensures Copied(m0, m2, address, d + chunk)
  {
  }

  function Overlay(m: Memory, a: int, d: seq<bv8>): Memory {
    i => if a <= i < a + |d| then d[i - a] else m(i)
  }

  function Contents(m: Memory, a: int, n: nat): (d: seq<bv8>)
    ensures |d| == n
  {
    seq(n, k => m(a + k))
  }

  /** The first word in place of the second. */
  function Repeated(d: seq<bv8>): (r: seq<bv8>)
    ensures |r| == |d|
  {
    if |d| < 8 then d else d[..4] + d[..4] + d[8..]
  }

  /** What the hardware does that the driver cannot choose, per command: its result, what is left in
      a register or a byte range when it fails, and whether the first CMD53 read after the window is
      placed repeats its first word. */
  datatype Hardware = Hardware(status: nat -> int, noise: nat -> uint8, junk: nat -> Memory, repeats: nat -> bool) {
    /** All error codes are negative. */
    ghost predicate NegativeErrors() {
      forall k: nat :: status(k) <= 0
    }

    /** The three register writes from command k on succeed. */
    predicate Places(k: nat) {
      status(k) == 0 && status(k + 1) == 0 && status(k + 2) == 0
    }
  }

  class Device {
    const hw: Hardware
    var mem: Memory
    var window0: uint8
    var window1: uint8
    var config: uint8
    /** No CMD53 yet since the window was placed. */
    var placed: bool
    /** The function the last command addressed. */
    var addressed: Function
    var commands: nat
    var failed52: nat
    var failed53: nat

    ghost function Base(): int
      reads this
    {
      window1 * 0x100_0000 + window0 * 0x1_0000
    }

    constructor (hw: Hardware, mem: Memory)
      ensures this.hw == hw && this.mem == mem && commands == failed52 == failed53 == 0
    {
      this.hw, this.mem := hw, mem;
      window0, window1, config, placed, addressed := 0, 0, 0, false, Function1;
      commands, failed52, failed53 := 0, 0, 0;
    }

    method Cmd52Write(fn: Function, reg: Register, value: uint8) returns (result: int)
      modifies `window0, `window1, `config, `placed, `addressed, `commands, `failed52
      ensures addressed == fn
      ensures placed && failed52 == old(failed52) + if result == 0 then 0 else 1
      ensures result == hw.status(old(commands)) && commands == old(commands) + 1
      ensures window0 == old(window0) || reg.Window0?
      ensures window1 == old(window1) || reg.Window1?
      ensures config == old(config) || reg.Config?
      ensures result == 0 ==> value == match reg case Window0 => window0 case Window1 => window1 case Config => config
    {
      result := hw.status(commands);
      var stored := if result == 0 then value else hw.noise(commands);
      match reg {
        case Window0 => window0 := stored;
        case Window1 => window1 := stored;
        case Config => config := stored;
      }
      placed, addressed, commands := true, fn, commands + 1;
      failed52 := failed52 + if result == 0 then 0 else 1;
    }

    method Cmd53Write(args: Args, data: array<bv8>, from: nat) returns (result: int)
      requires args.Legal() && from + args.Bytes() <= data.Length
      modifies `mem, `placed, `addressed, `commands, `failed53
      ensures addressed == args.fn
      ensures !placed && failed53 == old(failed53) + if result == 0 then 0 else 1
      ensures result == hw.status(old(commands)) && commands == old(commands) + 1
      ensures SameOutside(old(mem), mem, Base() + args.address, args.Bytes())
      ensures result == 0 ==> Copied(old(mem), mem, Base() + args.address, data[from..from + args.Bytes()])
    {
      result := hw.status(commands);
      var at, n := window1 * 0x100_0000 + window0 * 0x1_0000 + args.address, args.Bytes();
      mem := Overlay(mem, at, if result == 0 then data[from..from + n] else Contents(hw.junk(commands), at, n));
      placed, addressed, commands := false, args.fn, commands + 1;
      failed53 := failed53 + if result == 0 then 0 else 1;
    }

    method Cmd53Read(args: Args, data: array<bv8>, to: nat) returns (result: int)
      requires args.Legal() && to + args.Bytes() <= data.Length
      modifies `placed, `addressed, `commands, `failed53, data
      ensures addressed == args.fn
      ensures !placed && failed53 == old(failed53) + if result == 0 then 0 else 1
      ensures result == hw.status(old(commands)) && commands == old(commands) + 1
      ensures result != 0 ==>
                data[to..to + args.Bytes()] == Contents(hw.junk(old(commands)), Base() + args.address, args.Bytes())
      ensures forall k | 0 <= k < data.Length && !(to <= k < to + args.Bytes()) :: data[k] == old(data[k])
      ensures result == 0 ==>
                Delivered(Contents(mem, Base() + args.address, args.Bytes()), data[to..to + args.Bytes()], old(placed))
    {
      hide Repeated;
      result := hw.status(commands);
      var at, n := window1 * 0x100_0000 + window0 * 0x1_0000 + args.address, args.Bytes();
      var clean := Contents(mem, at, n);
      var got := if result != 0 then Contents(hw.junk(commands), at, n)
                 else if placed && hw.repeats(commands) then Repeated(clean)
                 else clean;
      forall k | 0 <= k < n {
        data[to + k] := got[k];
      }
      assert data[to..to + n] == got;
      placed, addressed, commands := false, args.fn, commands + 1;
      failed53 := failed53 + if result == 0 then 0 else 1;
    }
  }

  /** `address & 0xFFFF0000`. */
  function WindowOf(address: uint32): uint32 {
    address - address % WINDOW
  }

  // ---------- Placing the window, one transfer ----------

  method AddressBaseSet(dev: Device, address: uint32, access: uint8, f: Function) returns (result: int)
    modifies dev`window0, dev`window1, dev`config, dev`placed, dev`addressed, dev`commands, dev`failed52
    ensures result == 0 <==> dev.failed52 == old(dev.failed52)
    ensures dev.failed52 >= old(dev.failed52)
    ensures dev.hw.NegativeErrors() ==> result <= 0
    ensures dev.hw.Places(old(dev.commands)) ==> result == 0 && dev.commands == old(dev.commands) + 3
    ensures result == 0 ==> dev.Base() == WindowOf(address) && dev.config == access && dev.placed && dev.addressed == f
  {
    result := dev.Cmd52Write(f, Window0, address / 0x1_0000 % 0x100);
    if result != 0 {
      return;
    }
    result := dev.Cmd52Write(f, Window1, address / 0x100_0000);
    if result != 0 {
      return;
    }
    result := dev.Cmd52Write(f, Config, access);
  }

  /** `uint16_t num_blocks = len >> block_size_log2`. */
  function NumBlocks(f: Function, len: uint32): nat {
    (if f.Function1? then len / BLOCK_SIZE_FN1 else len / BLOCK_SIZE_FN2) % 0x1_0000
  }

  /** `num_blocks * block_size`, by which the driver advances after the block part. */
  function BlockPart(f: Function, len: uint32): nat {
    if f.Function1? then NumBlocks(f, len) * BLOCK_SIZE_FN1 else NumBlocks(f, len) * BLOCK_SIZE_FN2
  }

  function BlockArgs(f: Function, address: uint32, len: uint32): Args {
    Args(f, address % WINDOW, true, NumBlocks(f, len), BLOCK_SIZE_FN2)
  }

  /** The block command always names 512-byte blocks, so for transfers inside the window it moves the
      bytes the driver then counts exactly for function 2 and for lengths without a block part. */
  lemma BlockPartMatches(f: Function, address: uint32, len: uint32)
    requires address % WINDOW + len <= WINDOW
    ensures BlockArgs(f, address, len).Bytes() == BlockPart(f, len) <==> f.Function2? || len < BLOCK_SIZE_FN1
  {
    if f.Function1? {
      assert NumBlocks(f, len) == len / 8;
    }
  }

  /** The block part and the byte part of a transfer that starts at offset `at` of the window. */
  predicate Parts(at: nat, blocks: nat, moved: nat, len: nat) {
    && blocks <= CMD53_MAX_BLOCKS && moved == blocks * BLOCK_SIZE_FN2
    && moved <= len <= moved + 511 && at + len <= WINDOW
  }

  lemma PartsLegal(f: Function, at: nat, blocks: nat, moved: nat, len: nat)
    requires Parts(at, blocks, moved, len)
    ensures blocks > 0 ==> var a := Args(f, at, true, blocks, BLOCK_SIZE_FN2); a.Legal() && a.Bytes() == moved >= 8
    ensures blocks == 0 ==> moved == 0
    ensures len > moved ==> var a := Args(f, at + moved, false, len - moved, 0); a.Legal() && a.Bytes() == len - moved
  {
  }

  lemma PartsFit(f: Function, address: uint32, len: uint32)
    requires address % WINDOW + len <= WINDOW && (f.Function1? ==> len < BLOCK_SIZE_FN1)
    ensures Parts(address % WINDOW, NumBlocks(f, len), BlockPart(f, len), len)
  {
  }

  method MorseCmd53Write(dev: Device, f: Function, address: uint32, data: array<bv8>, from: nat, len: uint32)
    returns (result: int)
    requires from + len <= data.Length && address % WINDOW + len <= WINDOW
    requires f.Function1? ==> len < BLOCK_SIZE_FN1
    modifies dev`mem, dev`placed, dev`addressed, dev`commands, dev`failed53
    ensures len > 0 ==> dev.addressed == f
    ensures result == 0 <==> len > 0 && dev.failed53 == old(dev.failed53)
    ensures dev.failed53 >= old(dev.failed53)
    ensures dev.hw.NegativeErrors() ==> result <= 0
    ensures SameOutside(old(dev.mem), dev.mem, dev.Base() + address % WINDOW, len)
    ensures result == 0 ==> Copied(old(dev.mem), dev.mem, dev.Base() + address % WINDOW, data[from..from + len])
  {
    PartsFit(f, address, len);
    result := WriteParts(dev, f, dev.Base(), address % WINDOW, NumBlocks(f, len), BlockPart(f, len), data, from, len);
  }

  /** One CMD53 write that continues a copy: data[from..mid] is already written from `start` on. */
  method WritePart(dev: Device, args: Args, data: array<bv8>, from: nat, mid: nat, ghost m0: Memory, ghost start: int)
    returns (result: int)
    requires args.Legal() && from <= mid && mid + args.Bytes() <= data.Length
    requires start + (mid - from) == dev.Base() + args.address && Copied(m0, dev.mem, start, data[from..mid])
    modifies dev`mem, dev`placed, dev`addressed, dev`commands, dev`failed53
    ensures dev.addressed == args.fn
    ensures dev.failed53 == old(dev.failed53) + if result == 0 then 0 else 1
    ensures result == dev.hw.status(old(dev.commands))
    ensures SameOutside(m0, dev.mem, start, mid - from + args.Bytes())
    ensures result == 0 ==> Copied(m0, dev.mem, start, data[from..mid + args.Bytes()])
  {
    ghost var before, first := dev.mem, data[from..mid];
    result := dev.Cmd53Write(args, data, mid);
    ghost var second := data[mid..mid + args.Bytes()];
    CopiedFailed(m0, before, dev.mem, start, first, args.Bytes());
    if result == 0 {
      CopiedStep(m0, before, dev.mem, start, first, second);
      assert data[from..mid + args.Bytes()] == first + second;
    }
  }

  method WriteParts(dev: Device, f: Function, ghost base: int, at: nat, blocks: nat, moved: nat,
                    data: array<bv8>, from: nat, len: nat)
    returns (result: int)
    requires from + len <= data.Length && Parts(at, blocks, moved, len) && base == dev.Base()
    modifies dev`mem, dev`placed, dev`addressed, dev`commands, dev`failed53
    ensures len > 0 ==> dev.addressed == f
    ensures result == 0 <==> len > 0 && dev.failed53 == old(dev.failed53)
    ensures dev.failed53 >= old(dev.failed53)
    ensures dev.hw.NegativeErrors() ==> result <= 0
    ensures SameOutside(old(dev.mem), dev.mem, base + at, len)
    ensures result == 0 ==> Copied(old(dev.mem), dev.mem, base + at, data[from..from + len])
  {
    hide Holds, SameOutside, Copied;
    result := OTHER_ERROR;
    PartsLegal(f, at, blocks, moved, len);
    CopiedNothing(dev.mem, base + at, len);
    if blocks > 0 {
      assert data[from..from] == [];
      result := WritePart(dev, Args(f, at, true, blocks, BLOCK_SIZE_FN2), data, from, from, dev.mem, base + at);
      SameOutsideMore(old(dev.mem), dev.mem, base + at, moved, len);
      if result != 0 {
        return;
      }
    }
    assert moved == 0 ==> data[from..from + moved] == [];
    if len - moved > 0 {
      result := WritePart(dev, Args(f, at + moved, false, len - moved, 0), data, from, from + moved,
                          old(dev.mem), base + at);
    }
  }

  method MorseCmd53Read(dev: Device, f: Function, address: uint32, data: array<bv8>, to: nat, len: uint32)
    returns (result: int)
    requires to + len <= data.Length && address % WINDOW + len <= WINDOW
    requires f.Function1? ==> len < BLOCK_SIZE_FN1
    modifies dev`placed, dev`addressed, dev`commands, dev`failed53, data
    ensures len > 0 ==> dev.addressed == f
    ensures result == 0 <==> len > 0 && dev.failed53 == old(dev.failed53)
    ensures dev.failed53 >= old(dev.failed53)
    ensures len > 0 ==> !dev.placed
    ensures dev.hw.NegativeErrors() ==> result <= 0
    ensures 0 < len < 8 ==> result == dev.hw.status(old(dev.commands))
    ensures 0 < len < 8 && result != 0 ==>
              data[to..to + len] == Contents(dev.hw.junk(old(dev.commands)), dev.Base() + address % WINDOW, len)
    ensures forall k | 0 <= k < data.Length && !(to <= k < to + len) :: data[k] == old(data[k])
    ensures result == 0 ==>
              Delivered(Contents(dev.mem, dev.Base() + address % WINDOW, len), data[to..to + len], old(dev.placed))
  {
    PartsFit(f, address, len);
    result := ReadParts(dev, f, dev.Base(), address % WINDOW, NumBlocks(f, len), BlockPart(f, len), data, to, len);
  }

  /** `got` is what a read of the bytes `clean` may deliver: the bytes, or, right after the window was
      placed, the bytes with the first word repeated. */
  ghost predicate Delivered(clean: seq<bv8>, got: seq<bv8>, placed: bool) {
    got == clean || (placed && got == Repeated(clean))
  }

  method ReadParts(dev: Device, f: Function, ghost base: int, at: nat, blocks: nat, moved: nat,
                   data: array<bv8>, to: nat, len: nat)
    returns (result: int)
    requires to + len <= data.Length && Parts(at, blocks, moved, len) && base == dev.Base()
    modifies dev`placed, dev`addressed, dev`commands, dev`failed53, data
    ensures len > 0 ==> dev.addressed == f
    ensures result == 0 <==> len > 0 && dev.failed53 == old(dev.failed53)
    ensures dev.failed53 >= old(dev.failed53)
    ensures len > 0 ==> !dev.placed
    ensures dev.hw.NegativeErrors() ==> result <= 0
    ensures 0 < len < 8 ==> result == dev.hw.status(old(dev.commands))
    ensures 0 < len < 8 && result != 0 ==>
              data[to..to + len] == Contents(dev.hw.junk(old(dev.commands)), base + at, len)
    ensures forall k | 0 <= k < data.Length && !(to <= k < to + len) :: data[k] == old(data[k])
    ensures result == 0 ==> Delivered(Contents(dev.mem, base + at, len), data[to..to + len], old(dev.placed))
  {
    hide Contents, Delivered, Repeated;
    result := OTHER_ERROR;
    PartsLegal(f, at, blocks, moved, len);
    ghost var placed := dev.placed;
    if blocks > 0 {
      result := dev.Cmd53Read(Args(f, at, true, blocks, BLOCK_SIZE_FN2), data, to);
      if result != 0 {
        return;
      }
    }
    ghost var first := data[to..to + moved];
    if len - moved > 0 {
      result := dev.Cmd53Read(Args(f, at + moved, false, len - moved, 0), data, to + moved);
      if result != 0 {
        return;
      }
      assert data[to..to + moved] == first;
    }
    ghost var second := data[to + moved..to + len];
    assert data[to..to + len] == first + second;
    ContentsParts(dev.mem, base + at, moved, len);
    DeliveredParts(Contents(dev.mem, base + at, moved), Contents(dev.mem, base + at + moved, len - moved),
                   first, second, placed);
  }

  lemma ContentsParts(m: Memory, a: int, n: nat, len: nat)
    requires n <= len
    ensures Contents(m, a, len) == Contents(m, a, n) + Contents(m, a + n, len - n)
  {
  }

  /** A clean second part keeps a first part clean or repeated. */
  lemma DeliveredParts(a: seq<bv8>, b: seq<bv8>, first: seq<bv8>, second: seq<bv8>, placed: bool)
    requires a == [] || |a| >= 8
    requires Delivered(a, first, placed) && Delivered(b, second, placed && a == [])
    ensures Delivered(a + b, first + second, placed)
  {
    if a == [] {
      assert first + second == second && a + b == b;
    } else {
      assert Repeated(a) + b == Repeated(a + b);
    }
  }

  // ---------- Splitting a range ----------

  /** The size of the next transfer, in the driver's 32-bit arithmetic. */
  function ChunkSize(address: uint32, len: uint32): uint32 {
    var size := Min(len, MAX_TRANSFER);
    var nextBoundary := Word(WindowOf(address) + WINDOW);
    if Word(address + size) > nextBoundary then Word(nextBoundary - address) else size
  }

  /** Ranges whose 32-bit boundary arithmetic is right: those ending at or below the last window, and
      those ending exactly with the address space. */
  predicate SafeRange(address: uint32, len: uint32) {
    address + len <= SPACE - WINDOW || address + len == SPACE
  }

  /** The size of a chunk, without wrap-around: up to the end of the window, except in the last window,
      where it is the whole rest of the address space. */
  lemma ChunkSizeBelow(address: uint32, len: uint32)
    requires len > 0 && address + len <= SPACE
    ensures var rest := WINDOW - address % WINDOW;
            ChunkSize(address, len) == if address >= SPACE - WINDOW || rest < len then rest else len
    ensures address >= SPACE - WINDOW ==> WINDOW - address % WINDOW == SPACE - address
  {
  }

  lemma NextWindow(address: uint32)
    ensures (address + (WINDOW - address % WINDOW)) % WINDOW == 0
  {
    assert address + (WINDOW - address % WINDOW) == (address / WINDOW + 1) * WINDOW;
  }

  lemma ChunkFits(address: uint32, len: uint32)
    requires SafeRange(address, len) && len > 0
    ensures 0 < ChunkSize(address, len) <= len
    ensures address % WINDOW + ChunkSize(address, len) <= WINDOW
    ensures ChunkSize(address, len) < len ==>
              address + ChunkSize(address, len) < SPACE && (address + ChunkSize(address, len)) % WINDOW == 0
    ensures SafeRange(Word(address + ChunkSize(address, len)), len - ChunkSize(address, len))
  {
    ChunkSizeBelow(address, len);
    NextWindow(address);
    hide ChunkSize;
  }

  /** Where the loop stands in a range once all but `left` bytes are moved. */
  predicate Position(address: uint32, len: uint32, at: uint32, left: uint32) {
    && left <= len && SafeRange(at, left)
    && (left > 0 ==> at == address + (len - left))
  }

  lemma PositionStep(address: uint32, len: uint32, at: uint32, left: uint32)
    requires Position(address, len, at, left) && left > 0
    ensures var size := ChunkSize(at, left);
            0 < size <= left && at % WINDOW + size <= WINDOW && Position(address, len, Word(at + size), left - size)
  {
    ChunkFits(at, left);
  }

  /** Every chunk the loop takes lies within what is left of the buffer. */
  predicate StaysInBuffer(address: uint32, len: uint32)
    decreases len
  {
    len == 0
    || (var size := ChunkSize(address, len);
        0 < size <= len && StaysInBuffer(Word(address + size), len - size))
  }

  /** For every range of the address space the loop stays within the caller's buffer exactly when the
      range is safe. */
  lemma {:induction false} StaysInBufferIffSafe(address: uint32, len: uint32)
    requires len > 0 && address + len <= SPACE
    ensures StaysInBuffer(address, len) <==> SafeRange(address, len)
    decreases len
  {
    hide ChunkSize, WindowOf;
    var size := ChunkSize(address, len);
    ChunkSizeBelow(address, len);
    if size < len {
      StaysInBufferIffSafe(address + size, len - size);
    }
  }

  /** A four-byte access at the start of the last window moves the whole window. */
  lemma LastWindowOverrun()
    ensures ChunkSize(0xFFFF_0000, 4) == 0x1_0000
  {
  }

  /** Length must be a non-zero multiple of 4. */
  predicate GoodLength(len: uint32) {
    len != 0 && len % 4 == 0
  }

  lemma GoodLengthMeaning(len: uint32)
    ensures GoodLength(len) <==> exists words: nat :: words > 0 && len == 4 * words
  {
    if GoodLength(len) {
      assert len == 4 * (len / 4);
    }
  }

  // ---------- Bulk write and read ----------

  /** A bulk write of d: the first `done` bytes are copied; if that is not all, only the chunk after
      them may have changed besides. */
  ghost predicate Outcome(m0: Memory, m: Memory, address: uint32, d: seq<bv8>, done: nat)
    requires |d| < SPACE
  {
    && done <= |d| && Holds(m, address, d[..done])
    && if done == |d| then SameOutside(m0, m, address, done)
       else
         && address + |d| <= SPACE
         && var failing := ChunkSize(address + done, |d| - done);
            done + failing <= |d| && SameOutside(m0, m, address, done + failing)
  }

  /** A bulk write is a memory copy, all of it iff the result is 0. */
  method WriteMultiByte(dev: Device, address: uint32, data: array<bv8>, len: uint32)
    returns (result: int, ghost done: nat)
    requires len <= data.Length && (GoodLength(len) ==> SafeRange(address, len))
    modifies dev
    ensures result == 0 ==> dev.config == 2 && dev.addressed == Function2
    ensures !GoodLength(len) ==> result == INVALID_ARGUMENT && dev.mem == old(dev.mem) && done == 0
    ensures GoodLength(len) ==>
              Outcome(old(dev.mem), dev.mem, address, data[..len], done) && (result == 0 <==> done == len)
    ensures result == 0 <==> GoodLength(len) && dev.failed52 == old(dev.failed52) && dev.failed53 == old(dev.failed53)
  {
    if len == 0 || len % 4 != 0 {
      return INVALID_ARGUMENT, 0;
    }
    result, done := WriteChunks(dev, address, data, len);
  }

  method WriteChunks(dev: Device, address: uint32, data: array<bv8>, len: uint32)
    returns (result: int, ghost done: nat)
    requires 0 < len <= data.Length && SafeRange(address, len)
    modifies dev
    ensures result == 0 ==> dev.config == 2 && dev.addressed == Function2
    ensures Outcome(old(dev.mem), dev.mem, address, data[..len], done)
    ensures result == 0 <==> done == len
    ensures result == 0 <==> dev.failed52 == old(dev.failed52) && dev.failed53 == old(dev.failed53)
  {
    hide ChunkSize, WindowOf;
    result := -1;
    done := 0;
    var at: uint32, left: uint32, pos: nat := address, len, 0;
    while left > 0
      invariant pos == done == len - left && Position(address, len, at, left)
      invariant Copied(old(dev.mem), dev.mem, address, data[..pos])
      invariant dev.failed52 == old(dev.failed52) && dev.failed53 == old(dev.failed53)
      invariant left == 0 ==> result == 0
      invariant left < len ==> dev.config == 2 && dev.addressed == Function2
    {
      PositionStep(address, len, at, left);
      var size := ChunkSize(at, left);
      result := WriteChunk(dev, at, data, pos, size, old(dev.mem), address);
      if result != 0 {
        assert data[..len][..pos] == data[..pos];
        OutcomeFailed(old(dev.mem), dev.mem, address, data[..len], pos);
        return;
      }
      at, left, pos := Word(at + size), left - size, pos + size;
      done := pos;
    }
    assert data[..len][..len] == data[..len];
  }

  /** The body of the write loop: place the window, then transfer. It continues a copy whose first pos
      bytes are written. */
  method WriteChunk(dev: Device, at: uint32, data: array<bv8>, pos: nat, size: uint32,
                    ghost m0: Memory, ghost address: int)
    returns (result: int)
    requires 0 < size && pos + size <= data.Length && at % WINDOW + size <= WINDOW
    requires at == address + pos && Copied(m0, dev.mem, address, data[..pos])
    modifies dev
    ensures result == 0 ==> dev.config == 2 && dev.addressed == Function2
    ensures result == 0 <==> dev.failed52 == old(dev.failed52) && dev.failed53 == old(dev.failed53)
    ensures if result == 0 then Copied(m0, dev.mem, address, data[..pos + size])
            else Holds(dev.mem, address, data[..pos]) && SameOutside(m0, dev.mem, address, pos + size)
  {
    hide Holds, SameOutside;
    ghost var before := dev.mem;
    CopiedNothing(before, address + pos, size);
    CopiedFailed(m0, before, before, address, data[..pos], size);
    result := AddressBaseSet(dev, at, ACCESS_4BYTE, Function2);
    if result != 0 {
      return;
    }
    result := MorseCmd53Write(dev, Function2, at, data, pos, size);
    CopiedFailed(m0, before, dev.mem, address, data[..pos], size);
    if result == 0 {
      CopiedStep(m0, before, dev.mem, address, data[..pos], data[pos..pos + size]);
      assert data[..pos + size] == data[..pos] + data[pos..pos + size];
    }
  }

  /** A transfer that failed leaves the completed chunks alone. */
  lemma CopiedFailed(m0: Memory, m1: Memory, m2: Memory, address: int, d: seq<bv8>, size: nat)
    requires Copied(m0, m1, address, d) && SameOutside(m1, m2, address + |d|, size)
    ensures Holds(m2, address, d) && SameOutside(m0, m2, address, |d| + size)
  {
  }

  lemma OutcomeFailed(m0: Memory, m: Memory, address: uint32, d: seq<bv8>, pos: nat)
    requires pos < |d| < SPACE && address + |d| <= SPACE && SafeRange(address + pos, |d| - pos)
    requires Holds(m, address, d[..pos]) && SameOutside(m0, m, address, pos + ChunkSize(address + pos, |d| - pos))
    ensures Outcome(m0, m, address, d, pos)
  {
    ChunkFits(address + pos, |d| - pos);
  }

  lemma RepeatedShows(d: seq<bv8>, got: seq<bv8>)
    requires |d| == |got| >= 8 && (got == d || got == Repeated(d))
    ensures got[8..] == d[8..]
    ensures got[..4] != got[4..8] ==> got == d
  {
  }

  /** A bulk read. Its result only says whether the window could be placed every time; when moreover
      no CMD53 failed, the buffer is the device memory, although the first transfer of each chunk may
      have repeated its first word. */
  method ReadMultiByte(dev: Device, address: uint32, data: array<bv8>, len: uint32) returns (result: int)
    requires len <= data.Length && (GoodLength(len) ==> SafeRange(address, len))
    modifies dev, data
    ensures result == 0 ==> dev.config == 2 && dev.addressed == Function2
    ensures dev.mem == old(dev.mem) && dev.failed53 >= old(dev.failed53)
    ensures !GoodLength(len) ==> result == INVALID_ARGUMENT && data[..] == old(data[..])
    ensures result == 0 <==> GoodLength(len) && dev.failed52 == old(dev.failed52)
    ensures forall k | len <= k < data.Length :: data[k] == old(data[k])
    ensures result == 0 && dev.failed53 == old(dev.failed53) ==> data[..len] == Contents(dev.mem, address, len)
    ensures WordRead(address, len) && FailsToRead(dev.hw, old(dev.commands)) ==>
              result == 0 && data[..len] == Contents(dev.hw.junk(old(dev.commands) + 3), address, len)
  {
    if len == 0 || len % 4 != 0 {
      return INVALID_ARGUMENT;
    }
    result := ReadChunks(dev, address, data, len);
  }

  /** One word inside a window. */
  predicate WordRead(address: uint32, len: uint32) {
    len == 4 && address % WINDOW + len <= WINDOW
  }

  /** From command k on, the window is placed and then the data command fails. */
  predicate FailsToRead(hw: Hardware, k: nat) {
    hw.Places(k) && hw.status(k + 3) != 0
  }

  lemma WordChunk(address: uint32, len: uint32)
    requires len > 0 && SafeRange(address, len)
    ensures WordRead(address, len) ==> ChunkSize(address, len) == len
  {
    ChunkSizeBelow(address, len);
  }

  method ReadChunks(dev: Device, address: uint32, data: array<bv8>, len: uint32) returns (result: int)
    requires 0 < len <= data.Length && SafeRange(address, len)
    modifies dev, data
    ensures result == 0 ==> dev.config == 2 && dev.addressed == Function2
    ensures dev.mem == old(dev.mem) && dev.failed53 >= old(dev.failed53)
    ensures result == 0 <==> dev.failed52 == old(dev.failed52)
    ensures forall k | len <= k < data.Length :: data[k] == old(data[k])
    ensures result == 0 && dev.failed53 == old(dev.failed53) ==> data[..len] == Contents(dev.mem, address, len)
    ensures WordRead(address, len) && FailsToRead(dev.hw, old(dev.commands)) ==>
              result == 0 && data[..len] == Contents(dev.hw.junk(old(dev.commands) + 3), address, len)
  {
    WordChunk(address, len);
    hide ChunkSize, SafeRange, WindowOf, Contents, FailsToRead;
    result := -1;
    var at: uint32, left: uint32, pos: nat := address, len, 0;
    while left > 0
      invariant pos == len - left && Position(address, len, at, left)
      invariant dev.mem == old(dev.mem) && dev.failed52 == old(dev.failed52)
      invariant dev.failed53 >= old(dev.failed53)
      invariant forall k | len <= k < data.Length :: data[k] == old(data[k])
      invariant dev.failed53 == old(dev.failed53) ==> data[..pos] == Contents(dev.mem, address, pos)
      invariant left == 0 ==> result == 0
      invariant left < len ==> dev.config == 2 && dev.addressed == Function2
      invariant left == len ==> at == address && dev.commands == old(dev.commands)
      invariant left < len && WordRead(address, len) ==>
                  && left == 0
                  && (FailsToRead(dev.hw, old(dev.commands)) ==>
                        data[..len] == Contents(dev.hw.junk(old(dev.commands) + 3), address, len))
    {
      PositionStep(address, len, at, left);
      var size := ChunkSize(at, left);
      result := ReadNext(dev, at, data, pos, size, address);
      if result != 0 {
        return;
      }
      at, left, pos := Word(at + size), left - size, pos + size;
    }
  }

  /** The body of the read loop: place the window, then read a chunk. It continues a read whose first pos
      bytes may be the device memory from the address on. */
  method ReadNext(dev: Device, at: uint32, data: array<bv8>, pos: nat, size: uint32, ghost address: int)
    returns (result: int)
    requires 0 < size && pos + size <= data.Length && at % WINDOW + size <= WINDOW && at == address + pos
    modifies dev, data
    ensures result == 0 ==> dev.config == 2 && dev.addressed == Function2
    ensures dev.mem == old(dev.mem) && dev.failed53 >= old(dev.failed53)
    ensures result == 0 <==> dev.failed52 == old(dev.failed52)
    ensures forall k | 0 <= k < data.Length && !(pos <= k < pos + size) :: data[k] == old(data[k])
    ensures result == 0 && dev.failed53 == old(dev.failed53) && old(data[..pos]) == Contents(dev.mem, address, pos) ==>
              data[..pos + size] == Contents(dev.mem, address, pos + size)
    ensures size < 8 && FailsToRead(dev.hw, old(dev.commands)) ==>
              result == 0 && data[pos..pos + size] == Contents(dev.hw.junk(old(dev.commands) + 3), at, size)
  {
    hide Contents;
    ghost var before := data[..pos];
    result := AddressBaseSet(dev, at, ACCESS_4BYTE, Function2);
    if result != 0 {
      return;
    }
    ReadChunk(dev, at, data, pos, size);
    assert data[..pos] == before;
    ghost var more := data[pos..pos + size];
    assert data[..pos + size] == before + more;
    ContentsParts(dev.mem, address, pos, pos + size);
  }

  lemma SliceOfSlice(s: seq<bv8>, pos: nat, n: nat, i: nat, j: nat)
    requires pos + n <= |s| && i <= j <= n
    ensures s[pos..pos + n][i..j] == s[pos + i..pos + j]
  {
    var a, b := s[pos..pos + n][i..j], s[pos + i..pos + j];
    assert forall k | 0 <= k < j - i :: a[k] == s[pos + i + k] == b[k];
  }

  lemma TailOfSlice(s: seq<bv8>, pos: nat, n: nat, i: nat)
    requires pos + n <= |s| && i <= n
    ensures s[pos..pos + n][i..] == s[pos + i..pos + n]
  {
    var a, b := s[pos..pos + n][i..], s[pos + i..pos + n];
    assert forall k | 0 <= k < n - i :: a[k] == s[pos + i + k] == b[k];
  }

  /** The body of the read loop once the window is placed: read, and read the first two words again
      if they are equal. */
  method ReadChunk(dev: Device, at: uint32, data: array<bv8>, pos: nat, size: uint32)
    requires 0 < size && pos + size <= data.Length && at % WINDOW + size <= WINDOW && dev.Base() == WindowOf(at)
    modifies dev`placed, dev`addressed, dev`commands, dev`failed53, data
    ensures dev.addressed == Function2
    ensures dev.failed53 >= old(dev.failed53)
    ensures forall k | 0 <= k < data.Length && !(pos <= k < pos + size) :: data[k] == old(data[k])
    ensures dev.failed53 == old(dev.failed53) ==> data[pos..pos + size] == Contents(dev.mem, at, size)
    ensures size < 8 && dev.hw.status(old(dev.commands)) != 0 ==>
              data[pos..pos + size] == Contents(dev.hw.junk(old(dev.commands)), at, size)
  {
    ghost var clean := Contents(dev.mem, at, size);
    var ignored := MorseCmd53Read(dev, Function2, at, data, pos, size);
    ghost var got := data[pos..pos + size];
    if size >= 8 {
      SliceOfSlice(data[..], pos, size, 0, 4);
      SliceOfSlice(data[..], pos, size, 4, 8);
      TailOfSlice(data[..], pos, size, 8);
      assert got[0..4] == got[..4];
      ghost var rest := data[pos + 8..pos + size];
      assert rest == got[8..];
      if ignored == 0 {
        RepeatedShows(clean, got);
      }
      if data[pos..pos + 4] == data[pos + 4..pos + 8] {
        ignored := MorseCmd53Read(dev, Function2, at, data, pos, 8);
        assert data[pos + 8..pos + size] == rest;
        assert data[pos..pos + size] == data[pos..pos + 8] + rest;
        assert clean == Contents(dev.mem, at, 8) + clean[8..];
      }
    }
  }

  /** A read whose data command fails reports success and delivers what is not in the device. */
  method IgnoredReadError() returns (result: int, got: seq<bv8>, there: seq<bv8>)
    ensures result == 0 && got == [1, 1, 1, 1] && there == [0, 0, 0, 0]
  {
    var zeros: Memory, ones: Memory := _ => 0, _ => 1;
    var hw := Hardware(k => if k == 3 then OTHER_ERROR else 0, _ => 0, _ => ones, _ => false);
    var dev := new Device(hw, zeros);
    var data := new bv8[4];
    assert FailsToRead(hw, 0);
    result := ReadMultiByte(dev, 0, data, 4);
    got, there := data[..4], Contents(zeros, 0, 4);
    assert got == Contents(ones, 0, 4);
  }

  lemma HeldContents(m: Memory, a: int, d: seq<bv8>)
    requires Holds(m, a, d)
    ensures Contents(m, a, |d|) == d
  {
    forall k | 0 <= k < |d| ensures Contents(m, a, |d|)[k] == d[k] {
      assert m(a + k) == d[k];
    }
  }

  /** Writing a buffer and reading the range back gives the buffer. */
  method WriteThenRead(dev: Device, address: uint32, src: array<bv8>, dst: array<bv8>, len: uint32) returns (ok: bool)
    requires len <= src.Length && len <= dst.Length && src != dst
    requires GoodLength(len) ==> SafeRange(address, len)
    modifies dev, dst
    ensures ok <==> GoodLength(len) && dev.failed52 == old(dev.failed52) && dev.failed53 == old(dev.failed53)
    ensures ok ==> dst[..len] == src[..len] && Copied(old(dev.mem), dev.mem, address, src[..len])
  {
    var failures := dev.failed53;
    var result, done := WriteMultiByte(dev, address, src, len);
    if result != 0 {
      return false;
    }
    result := ReadMultiByte(dev, address, dst, len);
    ok := result == 0 && dev.failed53 == failures;
    if ok {
      assert src[..len][..len] == src[..len];
      HeldContents(dev.mem, address, src[..len]);
    }
  }

  // ---------- 32-bit registers ----------

  function Pack(b: seq<bv8>): bv32
    requires |b| == 4
  {
    (b[0] as bv32) | ((b[1] as bv32) << 8) | ((b[2] as bv32) << 16) | ((b[3] as bv32) << 24)
  }

  function Unpack(v: bv32): (b: seq<bv8>)
    ensures |b| == 4
  {
    [(v & 0xFF) as bv8, ((v >> 8) & 0xFF) as bv8, ((v >> 16) & 0xFF) as bv8, ((v >> 24) & 0xFF) as bv8]
  }

  lemma PackOfUnpack(v: bv32)
    ensures Pack(Unpack(v)) == v
  {
  }

  /** Little-endian: byte i of the buffer is bits 8i to 8i + 7 of the word. */
  lemma PackBytes(b: seq<bv8>)
    requires |b| == 4
    ensures var v := Pack(b);
            && v & 0xFF == b[0] as bv32 && (v >> 8) & 0xFF == b[1] as bv32
            && (v >> 16) & 0xFF == b[2] as bv32 && (v >> 24) & 0xFF == b[3] as bv32
  {
  }

  /** The register at an address. */
  function WordAt(m: Memory, address: int): bv32 {
    Pack(Contents(m, address, 4))
  }

  method ReadLe32(dev: Device, address: uint32) returns (result: int, value: bv32)
    requires address % WINDOW + 4 <= WINDOW
    modifies dev
    ensures result == 0 ==> dev.config == 2 && dev.addressed == Function1
    ensures dev.mem == old(dev.mem) && dev.failed53 >= old(dev.failed53) && dev.failed52 >= old(dev.failed52)
    ensures result == 0 <==> dev.failed52 == old(dev.failed52) && dev.failed53 == old(dev.failed53)
    ensures dev.hw.NegativeErrors() ==> result <= 0
    ensures result == 0 ==> value == WordAt(dev.mem, address)
  {
    var receive := new bv8[4];
    value := *;
    result := AddressBaseSet(dev, address, ACCESS_4BYTE, Function1);
    if result != 0 {
      return;
    }
    result := MorseCmd53Read(dev, Function1, address, receive, 0, 4);
    if result != 0 {
      return;
    }
    assert receive[0..4] == receive[..];
    assert Repeated(Contents(dev.mem, address, 4)) == Contents(dev.mem, address, 4);
    value := Pack(receive[..]);
  }

  method WriteLe32(dev: Device, address: uint32, value: bv32) returns (result: int)
    requires address % WINDOW + 4 <= WINDOW
    modifies dev
    ensures result == 0 ==> dev.config == 2 && dev.addressed == Function2
    ensures dev.failed53 >= old(dev.failed53) && dev.failed52 >= old(dev.failed52)
    ensures result == 0 <==> dev.failed52 == old(dev.failed52) && dev.failed53 == old(dev.failed53)
    ensures SameOutside(old(dev.mem), dev.mem, address, 4)
    ensures dev.hw.NegativeErrors() ==> result <= 0
    ensures result == 0 ==> WordAt(dev.mem, address) == value
  {
    hide Pack, Unpack;
    var bytes := new bv8[4];
    bytes[0], bytes[1], bytes[2], bytes[3] := Unpack(value)[0], Unpack(value)[1], Unpack(value)[2], Unpack(value)[3];
    result := AddressBaseSet(dev, address, ACCESS_4BYTE, Function2);
    if result != 0 {
      return;
    }
    result := MorseCmd53Write(dev, Function2, address, bytes, 0, 4);
    if result == 0 {
      assert bytes[0..4] == Unpack(value);
      assert Contents(dev.mem, address, 4) == Unpack(value);
      PackOfUnpack(value);
    }
  }

  /** Only the masked bits change (MaskedBits), and to the given value. Failures are recognised by a negative
      result. */
  method UpdateLe32(dev: Device, address: uint32, mask: bv32, value: bv32) returns (result: int)
    requires address % WINDOW + 4 <= WINDOW
    modifies dev
    ensures SameOutside(old(dev.mem), dev.mem, address, 4)
    ensures dev.failed52 == old(dev.failed52) && dev.failed53 == old(dev.failed53) ==>
              result == 0 && WordAt(dev.mem, address) == Masked(old(WordAt(dev.mem, address)), mask, value)
    ensures dev.hw.NegativeErrors() ==>
              && (result == 0 <==> dev.failed52 == old(dev.failed52) && dev.failed53 == old(dev.failed53))
              && result <= 0
  {
    var reg: bv32;
    result, reg := ReadLe32(dev, address);
    if result < 0 {
      return;
    }
    reg := Masked(reg, mask, value);
    result := WriteLe32(dev, address, reg);
  }

  /** `reg |= value & mask; reg &= value | ~mask;` */
  function Masked(reg: bv32, mask: bv32, value: bv32): bv32 {
    (reg | (value & mask)) & (value | !mask)
  }

  lemma MaskedBits(reg: bv32, mask: bv32, value: bv32)
    ensures Masked(reg, mask, value) & mask == value & mask
    ensures Masked(reg, mask, value) & !mask == reg & !mask
  {
  }
}
