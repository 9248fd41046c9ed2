/** What may go wrong below the modelled code. A class with such steps has a field `failing`,
    those that may fail while a call runs: it is given before the call, the lowest-level steps
    ask it, and no method changes it. A step that may fail need not. */
module Faults {

  /** An allocation of memory; getting or mapping a page frame; a transfer from or to the disk;
      an append to the journal; getting a fresh block; changing the bit of a block in the bitmap;
      finding the extent of a block of a file. */
  datatype Failure =
    | Memory
    | Paging
    | Disk
    | Logging
    | Allocating
    | Marking(block: nat)
    | Finding(file: nat, block: nat)

  method Fails(failing: set<Failure>, step: Failure) returns (f: bool)
    ensures f ==> step in failing
  {
    f := *;
    if step !in failing { f := false; }
  }
}
