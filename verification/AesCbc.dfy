/** `mbedtls_aes_crypt_cbc` built on a raw block cipher: Cipher Block Chaining as in section 6.2 of
    NIST SP 800-38A, with the IV carried in a caller's buffer and in-place operation allowed. */
module AesCbc {
  import opened Words

  const BLOCK := 16
  const INVALID_INPUT_LENGTH := -0x0022

  type Block = s: seq<bv8> | |s| == BLOCK witness [0, 0, 0, 0, 0, 0, 0, 0, 0, 0, 0, 0, 0, 0, 0, 0]

  datatype Mode = Encrypt | Decrypt

  /** `mbedtls_aes_crypt_ecb` under one key. `status` is its return value; when that is not 0 the
      output block is whatever `junk` says. */
  datatype Cipher = Cipher(enc: Block -> Block, dec: Block -> Block,
                           status: (Mode, Block) -> int, junk: (Mode, Block) -> Block)
  {
    function Apply(mode: Mode, b: Block): Block {
      if status(mode, b) != 0 then junk(mode, b) else if mode.Encrypt? then enc(b) else dec(b)
    }
  }

  ghost predicate Invertible(c: Cipher) {
    (forall b: Block :: c.dec(c.enc(b)) == b) && forall b: Block :: c.enc(c.dec(b)) == b
  }

  function Xor(a: Block, b: Block): Block {
    seq(BLOCK, i requires 0 <= i < BLOCK => a[i] ^ b[i])
  }

  predicate Whole(s: seq<bv8>) {
    |s| % BLOCK == 0
  }

  /** The blocks of a byte string. */
  function Blocks(s: seq<bv8>): seq<Block>
    requires Whole(s)
    decreases |s|
  {
    if s == [] then [] else Blocks(s[..|s| - BLOCK]) + [s[|s| - BLOCK..]]
  }

  /** The IV for what follows the ciphertext blocks x. */
  function Last(iv: Block, x: seq<Block>): Block {
    if x == [] then iv else x[|x| - 1]
  }

  function Encrypted(c: Cipher, iv: Block, p: seq<Block>): (x: seq<Block>)
    ensures |x| == |p|
  {
    if p == [] then []
    else
      var before := Encrypted(c, iv, p[..|p| - 1]);
      before + [c.enc(Xor(p[|p| - 1], Last(iv, before)))]
  }

  function Decrypted(c: Cipher, iv: Block, x: seq<Block>): (p: seq<Block>)
    ensures |p| == |x|
  {
    if x == [] then []
    else
      var before := x[..|x| - 1];
      Decrypted(c, iv, before) + [Xor(c.dec(x[|x| - 1]), Last(iv, before))]
  }

  function Crypted(c: Cipher, mode: Mode, iv: Block, s: seq<Block>): (r: seq<Block>)
    ensures |r| == |s|
  {
    if mode.Encrypt? then Encrypted(c, iv, s) else Decrypted(c, iv, s)
  }

  /** The IV left behind: the last ciphertext block. */
  function NextIv(c: Cipher, mode: Mode, iv: Block, s: seq<Block>): Block {
    Last(iv, if mode.Encrypt? then Encrypted(c, iv, s) else s)
  }

  lemma BlocksSnoc(s: seq<bv8>, b: Block)
    requires Whole(s)
    ensures Whole(s + b) && Blocks(s + b) == Blocks(s) + [b]
  {
    assert (s + b)[..|s|] == s && (s + b)[|s|..] == b;
  }

  lemma {:induction false} BlocksAppend(s: seq<bv8>, t: seq<bv8>)
    requires Whole(s) && Whole(t)
    ensures Whole(s + t) && Blocks(s + t) == Blocks(s) + Blocks(t)
    decreases |t|
  {
    if t == [] {
      assert s + t == s;
    } else {
      hide Blocks;
      var n := |t| - BLOCK;
      var front, last: Block := t[..n], t[n..];
      BlocksAppend(s, front);
      assert s + t == (s + front) + last && t == front + last;
      BlocksSnoc(s + front, last);
      BlocksSnoc(front, last);
      Associate(Blocks(s), Blocks(front), [last]);
    }
  }

  function Joined(bs: seq<Block>): seq<bv8> {
    if bs == [] then [] else Joined(bs[..|bs| - 1]) + bs[|bs| - 1]
  }

  /** bv8 strings of whole blocks are determined by their blocks. */
  lemma {:induction false} JoinedBlocks(s: seq<bv8>)
    requires Whole(s)
    ensures Joined(Blocks(s)) == s
    decreases |s|
  {
    if s != [] {
      var n := |s| - BLOCK;
      JoinedBlocks(s[..n]);
      assert Blocks(s)[..|Blocks(s)| - 1] == Blocks(s[..n]);
      assert s == s[..n] + s[n..];
    }
  }

  // ---------- The code ----------

  method Ecb(c: Cipher, mode: Mode, src: array<bv8>, from: nat, dst: array<bv8>, to: nat) returns (ret: int)
    requires from + BLOCK <= src.Length && to + BLOCK <= dst.Length
    modifies dst
    ensures ret == c.status(mode, old(src[from..from + BLOCK]))
    ensures dst[..] == old(dst[..to]) + c.Apply(mode, old(src[from..from + BLOCK])) + old(dst[to + BLOCK..])
  {
    var b: Block := src[from..from + BLOCK];
    var r := c.Apply(mode, b);
    ghost var before := dst[..];
    for i := 0 to BLOCK
      invariant forall k | 0 <= k < dst.Length :: dst[k] == if to <= k < to + i then r[k - to] else before[k]
    {
      dst[to + i] := r[i];
    }
    assert dst[..] == before[..to] + r + before[to + BLOCK..];
    return c.status(mode, b);
  }

  method Copy(dst: array<bv8>, src: array<bv8>, from: nat)
    requires dst.Length == BLOCK && from + BLOCK <= src.Length && dst != src
    modifies dst
    ensures dst[..] == src[from..from + BLOCK]
  {
    for i := 0 to BLOCK
      invariant dst[..i] == src[from..from + i]
    {
      dst[i] := src[from + i];
    }
  }

  /** `block[i] = input[i] ^ iv[i]`. */
  method XorInto(block: array<bv8>, input: array<bv8>, from: nat, iv: array<bv8>)
    requires block.Length == iv.Length == BLOCK && from + BLOCK <= input.Length
    requires block != input && block != iv
    modifies block
    ensures block[..] == Xor(input[from..from + BLOCK], iv[..])
  {
    for i := 0 to BLOCK
      invariant forall k :: 0 <= k < i ==> block[k] == input[from + k] ^ iv[k]
    {
      block[i] := input[from + i] ^ iv[i];
    }
  }

  /** `output[i] ^= iv[i]`. */
  method XorWith(output: array<bv8>, to: nat, iv: array<bv8>)
    requires iv.Length == BLOCK && to + BLOCK <= output.Length && output != iv
    modifies output
    ensures forall k | to <= k < to + BLOCK :: output[k] == old(output[k]) ^ iv[k - to]
    ensures forall k | 0 <= k < to || to + BLOCK <= k < output.Length :: output[k] == old(output[k])
  {
    ghost var before, mask := output[..], iv[..];
    for i := 0 to BLOCK
      invariant iv[..] == mask
      invariant forall k | 0 <= k < output.Length ::
                  output[k] == if to <= k < to + i then before[k] ^ mask[k - to] else before[k]
    {
      output[to + i] := output[to + i] ^ iv[i];
    }
  }

  /** What the block cipher returns for an input block under an IV. */
  function BlockStatus(c: Cipher, mode: Mode, b: Block, iv: Block): int {
    c.status(mode, if mode.Encrypt? then Xor(b, iv) else b)
  }

  /** The body of the loop for one block, at position `at` of both buffers. */
  method CryptBlock(c: Cipher, mode: Mode, at: nat, iv: array<bv8>, input: array<bv8>, output: array<bv8>)
    returns (ret: int)
    requires iv.Length == BLOCK && at + BLOCK <= input.Length && at + BLOCK <= output.Length
    requires iv != input && iv != output
    modifies iv, output
    ensures forall k | 0 <= k < output.Length && !(at <= k < at + BLOCK) :: output[k] == old(output[k])
    ensures var b: Block, v: Block := old(input[at..at + BLOCK]), old(iv[..]);
            && ret == BlockStatus(c, mode, b, v)
            && if ret != 0 then iv[..] == v
               else if mode.Encrypt? then
                 output[at..at + BLOCK] == c.enc(Xor(b, v)) == iv[..]
               else
                 output[at..at + BLOCK] == Xor(c.dec(b), v) && iv[..] == b
  {
    var block := new bv8[BLOCK];
    if mode.Encrypt? {
      XorInto(block, input, at, iv);
      assert block[0..BLOCK] == block[..];
      ret := Ecb(c, mode, block, 0, output, at);
      if ret != 0 {
        return ret;
      }
      Copy(iv, output, at);
    } else {
      Copy(block, input, at);
      ret := Ecb(c, mode, input, at, output, at);
      if ret != 0 {
        return ret;
      }
      ghost var plain: Block := output[at..at + BLOCK];
      XorWith(output, at, iv);
      assert output[at..at + BLOCK] == Xor(plain, iv[..]);
      Copy(iv, block, 0);
      assert block[0..BLOCK] == block[..];
    }
  }

  /** The first |x| bytes are processed: `out` and `iv` are what CBC makes of the input bytes x. */
  ghost predicate Processed(c: Cipher, mode: Mode, iv0: Block, x: seq<bv8>, out: seq<bv8>, iv: Block) {
    && Whole(x) && Whole(out)
    && Blocks(out) == Crypted(c, mode, iv0, Blocks(x))
    && iv == NextIv(c, mode, iv0, Blocks(x))
  }

  lemma ProcessedNothing(c: Cipher, mode: Mode, iv0: Block)
    ensures Processed(c, mode, iv0, [], [], iv0)
  {
  }

  lemma ProcessedStep(c: Cipher, mode: Mode, iv0: Block, x: seq<bv8>, out: seq<bv8>, iv: Block, b: Block)
    requires Processed(c, mode, iv0, x, out, iv)
    ensures if mode.Encrypt? then var r := c.enc(Xor(b, iv)); Processed(c, mode, iv0, x + b, out + r, r)
            else Processed(c, mode, iv0, x + b, out + Xor(c.dec(b), iv), b)
  {
    BlocksSnoc(x, b);
    BlocksSnoc(out, if mode.Encrypt? then c.enc(Xor(b, iv)) else Xor(c.dec(b), iv));
    assert (Blocks(x) + [b])[..|Blocks(x)|] == Blocks(x);
  }

  /** One turn of the loop, x being the input processed so far. */
  method CryptNext(c: Cipher, mode: Mode, at: nat, iv: array<bv8>, input: array<bv8>, output: array<bv8>,
                   ghost iv0: Block, ghost x: seq<bv8>)
    returns (ret: int)
    requires iv.Length == BLOCK && at + BLOCK <= input.Length && at + BLOCK <= output.Length
    requires iv != input && iv != output
    requires Processed(c, mode, iv0, x, output[..at], iv[..])
    modifies iv, output
    ensures forall k | 0 <= k < output.Length && !(at <= k < at + BLOCK) :: output[k] == old(output[k])
    ensures ret == BlockStatus(c, mode, old(input[at..at + BLOCK]), old(iv[..])) && (ret != 0 ==> iv[..] == old(iv[..]))
    ensures if ret != 0 then Processed(c, mode, iv0, x, output[..at], iv[..])
            else Processed(c, mode, iv0, x + old(input[at..at + BLOCK]), output[..at + BLOCK], iv[..])
  {
    ghost var before := output[..at];
    ProcessedStep(c, mode, iv0, x, before, iv[..], input[at..at + BLOCK]);
    ret := CryptBlock(c, mode, at, iv, input, output);
    assert output[..at] == before;
    assert output[..at + BLOCK] == before + output[at..at + BLOCK];
  }

  lemma PrefixStep(whole: seq<bv8>, at: nat)
    requires at + BLOCK <= |whole|
    ensures whole[..at + BLOCK] == whole[..at] + whole[at..at + BLOCK]
  {
  }

  /** One call. `input` and `output` are either the same buffer or different ones. `done` counts the
      bytes processed: all of them iff the call succeeds. */
  method CryptCbc(c: Cipher, mode: Mode, length: nat, iv: array<bv8>, input: array<bv8>, output: array<bv8>)
    returns (ret: int, ghost done: nat)
    requires iv.Length == BLOCK && length <= input.Length && length <= output.Length
    requires iv != input && iv != output
    modifies iv, output
    ensures length % BLOCK != 0 ==>
              ret == INVALID_INPUT_LENGTH && done == 0 && iv[..] == old(iv[..]) && output[..] == old(output[..])
    ensures length % BLOCK == 0 ==> (ret == 0 <==> done == length)
    ensures length % BLOCK == 0 && ret != 0 ==>
              done + BLOCK <= length && ret == BlockStatus(c, mode, old(input[done..done + BLOCK]), iv[..])
    ensures done <= length
    ensures Processed(c, mode, old(iv[..]), old(input[..done]), output[..done], iv[..])
    ensures forall k :: done + BLOCK <= k < output.Length || length <= k < output.Length ==> output[k] == old(output[k])
  {
    hide Processed;
    done := 0;
    ghost var iv0: Block, whole := iv[..], input[..length];
    ProcessedNothing(c, mode, iv0);
    assert output[..0] == old(input[..0]) == whole[..0] == [];
    if length % BLOCK != 0 {
      return INVALID_INPUT_LENGTH, 0;
    }
    var at := 0;
    ghost var k, n := 0, length / BLOCK;
    while at != length
      invariant 0 <= k <= n && at == BLOCK * k && length == BLOCK * n && done == at
      invariant Processed(c, mode, iv0, whole[..at], output[..at], iv[..])
      invariant forall i :: at <= i < length ==> input[i] == whole[i]
      invariant forall i :: at <= i < output.Length ==> output[i] == old(output[i])
      decreases length - at
    {
      PrefixStep(whole, at);
      assert input[at..at + BLOCK] == whole[at..at + BLOCK];
      ret := CryptNext(c, mode, at, iv, input, output, iv0, whole[..at]);
      if ret != 0 {
        assert whole[..at] == old(input[..at]) && whole[at..at + BLOCK] == old(input[at..at + BLOCK]);
        return;
      }
      at, k := at + BLOCK, k + 1;
      done := at;
    }
    assert whole[..at] == old(input[..at]);
    return 0, at;
  }

  // ---------- What it means ----------

  lemma XorTwice(a: Block, b: Block)
    ensures Xor(Xor(a, b), b) == a
  {
    forall i | 0 <= i < BLOCK ensures Xor(Xor(a, b), b)[i] == a[i] {
      assert (a[i] ^ b[i]) ^ b[i] == a[i];
    }
  }

  /** Decryption undoes encryption for every message and IV... */
  lemma {:induction false} DecryptUndoesEncrypt(c: Cipher, iv: Block, p: seq<Block>)
    requires Invertible(c)
    ensures Decrypted(c, iv, Encrypted(c, iv, p)) == p
  {
    if p != [] {
      var n := |p| - 1;
      DecryptUndoesEncrypt(c, iv, p[..n]);
      var before := Encrypted(c, iv, p[..n]);
      assert Encrypted(c, iv, p)[..n] == before;
      XorTwice(p[n], Last(iv, before));
      assert p == p[..n] + [p[n]];
    }
  }

  /** ... and encryption undoes decryption. */
  lemma {:induction false} EncryptUndoesDecrypt(c: Cipher, iv: Block, x: seq<Block>)
    requires Invertible(c)
    ensures Encrypted(c, iv, Decrypted(c, iv, x)) == x
  {
    if x != [] {
      var n := |x| - 1;
      EncryptUndoesDecrypt(c, iv, x[..n]);
      assert Decrypted(c, iv, x)[..n] == Decrypted(c, iv, x[..n]);
      XorTwice(c.dec(x[n]), Last(iv, x[..n]));
      assert x == x[..n] + [x[n]];
    }
  }

  /** One call over a message equals two calls over its parts with the IV carried over, in both
      modes; by repetition, any split at block boundaries. */
  lemma {:induction false} SplitAnywhere(c: Cipher, mode: Mode, iv: Block, p: seq<Block>, q: seq<Block>)
    ensures Crypted(c, mode, iv, p + q) == Crypted(c, mode, iv, p) + Crypted(c, mode, NextIv(c, mode, iv, p), q)
    ensures NextIv(c, mode, iv, p + q) == NextIv(c, mode, NextIv(c, mode, iv, p), q)
    decreases |q|
  {
    if q == [] {
      assert p + q == p;
    } else {
      var n := |q| - 1;
      SplitAnywhere(c, mode, iv, p, q[..n]);
      assert (p + q)[..|p| + n] == p + q[..n];
      var x, y := Crypted(c, mode, iv, p), Crypted(c, mode, NextIv(c, mode, iv, p), q[..n]);
      assert forall b: Block :: x + (y + [b]) == (x + y) + [b];
    }
  }

  /** The same for byte strings s and t of whole blocks. */
  lemma SplitBytes(c: Cipher, mode: Mode, iv: Block, s: seq<bv8>, t: seq<bv8>)
    requires Whole(s) && Whole(t)
    ensures Whole(s + t)
    ensures Crypted(c, mode, iv, Blocks(s + t))
         == Crypted(c, mode, iv, Blocks(s)) + Crypted(c, mode, NextIv(c, mode, iv, Blocks(s)), Blocks(t))
    ensures NextIv(c, mode, iv, Blocks(s + t)) == NextIv(c, mode, NextIv(c, mode, iv, Blocks(s)), Blocks(t))
  {
    BlocksAppend(s, t);
    SplitAnywhere(c, mode, iv, Blocks(s), Blocks(t));
  }

  /** The equations of section 6.2 of NIST SP 800-38A, block by block. */
  lemma {:induction false} EncryptEquations(c: Cipher, iv: Block, p: seq<Block>, j: nat)
    requires j < |p|
    ensures var x := Encrypted(c, iv, p);
            var previous := if j == 0 then iv else x[j - 1];
            x[j] == c.enc(seq(16, i requires 0 <= i < 16 => p[j][i] ^ previous[i]))
  {
    var n := |p| - 1;
    if j < n {
      EncryptEquations(c, iv, p[..n], j);
    } else {
      var x := Encrypted(c, iv, p);
      var previous := if j == 0 then iv else x[j - 1];
      assert Xor(p[j], previous) == seq(16, i requires 0 <= i < 16 => p[j][i] ^ previous[i]);
    }
  }

  lemma {:induction false} DecryptEquations(c: Cipher, iv: Block, x: seq<Block>, j: nat)
    requires j < |x|
    ensures var previous := if j == 0 then iv else x[j - 1];
            forall i | 0 <= i < 16 :: Decrypted(c, iv, x)[j][i] == c.dec(x[j])[i] ^ previous[i]
  {
    var n := |x| - 1;
    if j < n {
      DecryptEquations(c, iv, x[..n], j);
    }
  }

  lemma ProcessedBack(c: Cipher, iv: Block, p: seq<bv8>, x: seq<bv8>, q: seq<bv8>, ivA: Block, ivB: Block)
    requires Invertible(c)
    requires Processed(c, Encrypt, iv, p, x, ivA) && Processed(c, Decrypt, iv, x, q, ivB)
    ensures q == p && ivA == ivB
  {
    DecryptUndoesEncrypt(c, iv, Blocks(p));
    JoinedBlocks(p);
    JoinedBlocks(q);
  }

  /** Encrypting and then decrypting part of a buffer in place restores the buffer. */
  method RoundTripInPlace(c: Cipher, length: nat, ivA: array<bv8>, ivB: array<bv8>, buffer: array<bv8>)
    returns (ret: int)
    requires Invertible(c) && ivA.Length == ivB.Length == BLOCK && ivA[..] == ivB[..]
    requires ivA != ivB && ivA != buffer && ivB != buffer && length <= buffer.Length
    modifies ivA, ivB, buffer
    ensures ret == 0 ==> length % BLOCK == 0 && buffer[..] == old(buffer[..]) && ivA[..] == ivB[..]
    ensures length % BLOCK == 0 && (forall m, b :: c.status(m, b) == 0) ==> ret == 0
  {
    hide Processed;
    ghost var p, iv: Block, tail, done: nat := buffer[..length], ivA[..], buffer[length..], 0;
    ret, done := CryptCbc(c, Encrypt, length, ivA, buffer, buffer);
    if ret != 0 {
      return;
    }
    ghost var x, ivAfter: Block := buffer[..length], ivA[..];
    assert buffer[length..] == tail;
    ret, done := CryptCbc(c, Decrypt, length, ivB, buffer, buffer);
    if ret == 0 {
      ProcessedBack(c, iv, p, x, buffer[..length], ivAfter, ivB[..]);
      assert buffer[length..] == tail;
      assert buffer[..] == buffer[..length] + buffer[length..];
      assert old(buffer[..]) == p + tail;
    }
  }
}
