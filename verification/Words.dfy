/** Optional values, fixed-width machine words and the wrapping sequence arithmetic of the log. */
module Words {

  datatype Option<+T> = None | Some(value: T)

  type Byte = x: int | 0 <= x < 0x100

  type Word = x: int | 0 <= x < 0x1_0000_0000

  /** The value `(int32_t)(a - b)` of two 32-bit sequence numbers. */
  function SeqDiff(a: Word, b: Word): int {
    if a - b >= 0x8000_0000 then a - b - 0x1_0000_0000
    else if a - b < -0x8000_0000 then a - b + 0x1_0000_0000
    else a - b
  }

  /** `a + k` in 32-bit unsigned arithmetic. */
  function Plus(a: Word, k: nat): Word {
    if a + k < 0x1_0000_0000 then a + k
    else if a + k < 0x2_0000_0000 then a + k - 0x1_0000_0000
    else (a + k) % 0x1_0000_0000
  }

  function Minus1(a: Word): Word {
    if a == 0 then 0xFFFF_FFFF else a - 1
  }

  lemma PlusPlus(a: Word, j: nat, k: nat)
    requires j + k < 0x8000_0000
    ensures Plus(Plus(a, j), k) == Plus(a, j + k)
  {
  }

  /** Within a window shorter than half the number space, the wrapping difference
      of two sequence numbers is their true distance. */
  lemma SeqDiffIsDistance(a: Word, j: nat, k: nat)
    requires j < 0x8000_0000 && k < 0x8000_0000
    ensures SeqDiff(Plus(a, j), Plus(a, k)) == j - k
  {
  }
}
