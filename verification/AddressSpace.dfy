/** The 32-bit address space, in 4096-byte pages. Addresses are bytes, page numbers are addresses
    divided by the page size. */
module AddressSpace {

  newtype byte = x: int | 0 <= x < 256

  const PAGE: nat := 4096
  const SPACE: nat := 0x1_0000_0000
  const PAGES: nat := 0x10_0000         // pages in the address space
  const TOP_PAGE: nat := 0xFFFF_F000    // address of the last page
  const KERNEL: nat := 0xC_0000         // number of the first kernel page
  const WINDOW: nat := 0xF_C000         // number of the first page of the table windows
  const WINDOW_END: nat := 0xF_D000     // number of the first page behind them

  datatype Option<T> = None | Some(value: T)

  predicate IsWindow(p: nat) {
    WINDOW <= p < WINDOW_END
  }
}
