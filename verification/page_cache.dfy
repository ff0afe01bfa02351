/**
 * The result type of `PageCache`, the eviction-based cache declared in
 * `src/page_cache.h`. `PageManager` does not use the cache, and its
 * operations are not modelled.
 */
module Cache {
  import opened Wrappers
  import opened Requests

  /** A physical slot of the atlas grid. */
  datatype PageSlot = PageSlot(x: int, y: int)

  /** `ResidencyDecision`: the slot granted, if any, and the request evicted for it, if any. */
  datatype ResidencyDecision = ResidencyDecision(slot: Option<PageSlot>, evicted: Option<PageRequest>)
}
