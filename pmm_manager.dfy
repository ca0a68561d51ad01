/**
 * The interface of the physical memory manager (src/arch/i386/mm/pmm.h).
 * The header declares the manager's operations but implements none of them,
 * so they appear here only as values handed in by the caller: the function
 * table of an allocation strategy, and the single-page shorthands
 * `alloc_page()` and `free_page(page)`, which are `alloc_pages` and
 * `free_pages` with a count of 1.  The allocator state the operations work
 * on is the type parameter S.
 */
module PmmManager {
  import opened Types

  /** A `page_t *`: NULL, or the descriptor at an index of the frame array. */
  datatype PagePtr = Null | FrameAt(index: nat)

  /**
   * struct pmm_manager: a strategy's name and its operations.  The console
   * diagnostics (show_memory_info, show_management_info, test_mm) are not
   * part of this model.
   */
  datatype PmmManager<!S> = PmmManager(
    name: string,
    pageInit: S -> S,
    allocPages: (S, u32) -> (S, PagePtr),
    freePages: (S, PagePtr, u32) -> S)

  /** alloc_page(): by definition the call alloc_pages(1); the header says nothing more about it. */
  function AllocPage<S>(allocPages: (S, u32) -> (S, PagePtr), s: S): (S, PagePtr)
  {
    allocPages(s, 1)
  }

  /** free_page(page): by definition the call free_pages(page, 1); the header says nothing more about it. */
  function FreePage<S>(freePages: (S, PagePtr, u32) -> S, s: S, page: PagePtr): S
  {
    freePages(s, page, 1)
  }
}
