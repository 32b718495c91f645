/** Small types shared by the models. */
module Common {
  datatype Option<+T> = None | Some(value: T)

  type Bytes = seq<bv8>

  /** A byte where the code does arithmetic on it. */
  type Octet = b: nat | b < 256

  const U32: nat := 0x1_0000_0000
  const U64: nat := 0x1_0000_0000_0000_0000
  const PAGE_SIZE: nat := 4096

  /** `ALIGN_DOWN` and `ALIGN_UP` to a page, in 64-bit arithmetic. */
  function PageDown(a: nat): nat { a - a % PAGE_SIZE }

  function PageUp(a: nat): nat { PageDown((a + PAGE_SIZE - 1) % U64) }

  /** The end of a page range, without the 64-bit wrap of `PageUp`. */
  function PageEnd(a: nat): nat { PageDown(a + PAGE_SIZE - 1) }

  lemma PageAligned(a: nat)
    requires a % PAGE_SIZE == 0
    ensures PageDown(a) == a && PageEnd(a) == a && (a < U64 ==> PageUp(a) == a)
  {}

  lemma PageUpWraps(a: nat)
    requires a < U64
    ensures a <= PageEnd(a) < a + 4096 && PageEnd(a) % 4096 == 0 && PageDown(a) % 4096 == 0 && PageDown(a) <= a < PageDown(a) + 4096
    ensures PageUp(a) == if PageEnd(a) < U64 then PageEnd(a) else 0
  {}
}
