/** What several parts of the model share: param.h, 32-bit arithmetic, C strings and sizes of sets. */
module Common {

  const MAXOPBLOCKS: nat := 10              // blocks an operation may log, as begin_op counts
  const LOGSIZE: nat := 3 * MAXOPBLOCKS     // blocks of the log area, with its header
  const UINT: int := 0x1_0000_0000
  const NUL: char := '\0'

  datatype Option<+T> = None | Some(value: T)

  function Min(a: int, b: int): (m: int) {
    if a < b then a else b
  }

  /** The sequence is what a C string may hold. */
  predicate NulFree(s: string) {
    NUL !in s
  }

  lemma SubsetSize<T>(s: set<T>, t: set<T>)
    requires s <= t
    ensures |s| <= |t|
  {
    assert t == s + (t - s);
  }

  lemma SumSize<T>(s: set<T>, t: set<T>)
    ensures |s + t| <= |s| + |t|
  {
    assert s + t == s + (t - s);
  }
}
