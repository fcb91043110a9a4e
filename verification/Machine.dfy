/** Word and page sizes of the 32-bit machine, and the option type shared by the models. */
module Machine {

  const PAGE_SIZE: int := 4096
  const WORD_LIMIT: int := 0x1_0000_0000

  /** Where the kernel heap starts, and the recursive page-table window that ends its room. */
  const HEAP_START: int := 0xD0000000
  const RECURSIVE_TABLES: int := 0xFFC00000

  datatype Option<+T> = None | Some(value: T)

  function Min(a: int, b: int): int {
    if a < b then a else b
  }

  /** C's unsigned 32-bit arithmetic. */
  function Wrap32(x: int): int {
    x % WORD_LIMIT
  }

  lemma MultipleOf8(m: int)
    ensures 8 * m % 8 == 0
  {
  }

  lemma PagesAreAligned(x: int)
    requires x % PAGE_SIZE == 0
    ensures x % 8 == 0
  {
    var k := x / PAGE_SIZE;
    MultipleOf8(512 * k);
    assert x == 8 * (512 * k);
  }

  lemma Aligned8Sum(x: int, y: int)
    requires x % 8 == 0 && y % 8 == 0
    ensures (x + y) % 8 == 0 && (x - y) % 8 == 0
  {
    MultipleOf8(x / 8 + y / 8);
    MultipleOf8(x / 8 - y / 8);
    assert x + y == 8 * (x / 8 + y / 8) && x - y == 8 * (x / 8 - y / 8);
  }

  lemma PagesAdded(x: int, n: int)
    requires x % PAGE_SIZE == 0
    ensures (x + n * PAGE_SIZE) % PAGE_SIZE == 0
  {
    assert x + n * PAGE_SIZE == PAGE_SIZE * (x / PAGE_SIZE + n);
  }
}
