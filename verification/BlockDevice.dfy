/** The file system's view of the disk: block n is sector SUPER_BLOCK_SECTOR + n. */
module BlockDevice {
  import opened Bytes
  import opened Layout

  class Disk {
    const blocks: array<Block>

    constructor (blocks: array<Block>)
      ensures this.blocks == blocks
    {
      this.blocks := blocks;
    }

    predicate Valid()
    {
      blocks.Length == TOTAL_BLOCKS
    }

    function Now(): Blocks
      requires Valid()
      reads blocks
    {
      blocks[..]
    }

    /** k_readsector */
    method ReadBlock(n: nat) returns (b: Block)
      requires Valid() && n < TOTAL_BLOCKS
      ensures b == Now()[n]
    {
      b := blocks[n];
    }

    /** write_block */
    method WriteBlock(b: Block, n: nat)
      requires Valid() && n < TOTAL_BLOCKS
      modifies blocks
      ensures Now() == old(Now())[n := b]
    {
      blocks[n] := b;
    }
  }
}
