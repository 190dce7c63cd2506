/** Types that several modules use. */
module Common {

  datatype Option<T> = None | Some(value: T)

  const WORD: nat := 0x1_0000_0000

  /** A 32-bit machine word, as the number it stands for. */
  type Word = w: nat | w < WORD
}
