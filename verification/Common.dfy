/** What several parts of the system share: bytes, characters and the error codes of src/status.h. */
module Common {
  type byte = x: int | 0 <= x < 256

  /** The terminator of a string. */
  const NUL: char := '\0'

  predicate IsDigit(c: char) {
    '0' <= c <= '9'
  }

  const EIO: int := 1
  const EINVARG: int := 2
  const ENOMEM: int := 3
  const EBADPATH: int := 4

  /** The codes are numbers that callers outside the kernel see. */
  lemma StatusCodes()
    ensures EIO == 1 && EINVARG == 2 && ENOMEM == 3 && EBADPATH == 4
  {
  }

  /** What a page directory does to addresses: the physical address of each virtual one that does not stand for itself. */
  type Translation = map<int, int>

  function Phys(t: Translation, a: int): int {
    if a in t then t[a] else a
  }

  /** The addresses from low up to high stand for themselves. */
  ghost predicate Plain(t: Translation, low: int, high: int) {
    forall a :: low <= a < high ==> Phys(t, a) == a
  }

  lemma PlainPart(t: Translation, low: int, high: int, from: int, to: int)
    requires Plain(t, low, high) && low <= from && to <= high
    ensures Plain(t, from, to)
  {
  }

  /** Dropping the last element of a concatenation. */
  lemma ButLast<T>(a: seq<T>, b: seq<T>)
    requires b != []
    ensures (a + b)[..|a + b| - 1] == a + b[..|b| - 1] && (a + b)[|a + b| - 1] == b[|b| - 1]
  {
  }
}
