/** Vocabulary shared by the models: bytes, 64-bit machine words, options and results. */
module Common {

  newtype byte = x: int | 0 <= x < 256

  /** Byte strings stand for Rust's `[u8]`, and for `str` where only its UTF-8 bytes matter. */
  type Bytes = seq<byte>

  /** `usize` and `u64` on the 64-bit targets the program supports. */
  const WORD_MAX: nat := 0xffff_ffff_ffff_ffff
  type Word = x: nat | x <= WORD_MAX

  /** The longest slice or vector that can exist (`isize::MAX` bytes). */
  const SLICE_MAX: nat := 0x7fff_ffff_ffff_ffff

  function SaturatingAdd(a: Word, b: Word): (r: Word)
    ensures a + b <= WORD_MAX ==> r == a + b
    ensures a <= r && b <= r
  {
    if a + b <= WORD_MAX then a + b else WORD_MAX
  }

  function SaturatingMul(a: Word, b: Word): (r: Word)
    ensures a * b <= WORD_MAX ==> r == a * b
  {
    if a * b <= WORD_MAX then a * b else WORD_MAX
  }

  /** The bytes of an ASCII literal. */
  function Ascii(s: string): (r: Bytes)
    ensures |r| == |s|
  {
    seq(|s|, i requires 0 <= i < |s| => (s[i] as int % 256) as byte)
  }

  datatype Option<+T> = None | Some(value: T)

  datatype Result<+T, +E> = Ok(value: T) | Err(error: E)
}
