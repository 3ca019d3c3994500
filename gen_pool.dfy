/** The part of the generic allocator (struct gen_pool) that the SRAM driver feeds: the
    chunks of memory it has been handed. Its bitmap and allocate/free paths are not modelled. */
module GenAlloc {
  import opened Errno

  /** One chunk handed to the pool: its virtual and physical start and its size in bytes. */
  datatype Chunk = Chunk(virt: nat, phys: nat, size: nat)

  class GenPool {
    var chunks: seq<Chunk>

    /** Whether the pool can record one more chunk while it holds n of them: the outcome of
        allocating the chunk descriptor, which this model takes from its environment. */
    const canAdd: nat -> bool

    constructor (canAdd: nat -> bool)
      ensures chunks == [] && this.canAdd == canAdd
    {
      chunks := [];
      this.canAdd := canAdd;
    }

    /** gen_pool_add_virt: records the chunk and returns 0, or returns -ENOMEM and leaves the
        pool as it was. */
    method AddVirt(virt: nat, phys: nat, size: nat) returns (ret: int)
      modifies this
      ensures ret == (if canAdd(|old(chunks)|) then 0 else -ENOMEM)
      ensures chunks == if ret == 0 then old(chunks) + [Chunk(virt, phys, size)] else old(chunks)
    {
      if canAdd(|chunks|) {
        chunks := chunks + [Chunk(virt, phys, size)];
        ret := 0;
      } else {
        ret := -ENOMEM;
      }
    }
  }
}
