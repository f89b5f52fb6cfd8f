/** Machine integers; 32-bit words against the unbounded integers they stand for. */
module Words {
  const M := 0x1_0000_0000
  const W := 0x8000_0000

  type uint8 = n: int | 0 <= n < 0x100
  type uint16 = n: int | 0 <= n < 0x1_0000
  type word = n: int | 0 <= n < M

  function Min(a: nat, b: nat): nat {
    if a < b then a else b
  }

  lemma Associate<T>(a: seq<T>, b: seq<T>, c: seq<T>)
    ensures (a + b) + c == a + (b + c)
  {
  }

  /** Conversion to `uint32_t`. */
  function Word(x: int): word {
    x % M
  }

  /** Conversion to `int32_t`. */
  function Int32(x: int): (r: int)
    ensures -W <= r < W
  {
    var d := Word(x);
    if d < W then d else d - M
  }

  /** `(int32_t)(a - b)`. */
  function Signed(a: word, b: word): int {
    Int32(a - b)
  }

  lemma WordDifference(a: int, b: int)
    ensures Word(Word(a) - Word(b)) == Word(a - b)
  {
    var q, r := a / M, b / M;
    assert a == q * M + Word(a) && b == r * M + Word(b);
    assert a - b == (q - r) * M + (Word(a) - Word(b));
  }

  /** A modular difference is the difference taken into 32 bits... */
  lemma SignedOfDifference(a: int, b: int)
    ensures Signed(Word(a), Word(b)) == Int32(a - b)
  {
    WordDifference(a, b);
  }

  /** ... and the difference itself inside the 2^31 window. */
  lemma SignedIsDifference(a: int, b: int)
    requires -W <= a - b < W
    ensures Signed(Word(a), Word(b)) == a - b
  {
    WordDifference(a, b);
  }

  lemma WordInjective(a: int, b: int)
    requires -M < a - b < M && Word(a) == Word(b)
    ensures a == b
  {
    WordDifference(a, b);
  }

  /** Adding to a truncated value. */
  lemma WordSum(a: int, b: int)
    ensures Word(Word(a) + b) == Word(a + b)
  {
    var q := a / M;
    assert a == q * M + Word(a);
    assert a + b == q * M + (Word(a) + b);
  }
}
