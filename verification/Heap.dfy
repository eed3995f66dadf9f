/** Memory as the request code sees it: an allocation may fail, and the heap counts how often it did. */
module Heap {
  import opened Bytes

  class Heap {
    /** How many allocations have failed; only the heap itself counts. */
    ghost var failures: nat

    constructor ()
    {
      failures := 0;
    }

    /** ehd_palloc: the memory it hands out holds anything. */
    method Palloc(size: nat) returns (ok: bool, mem: array<byte>)
      modifies this`failures
      ensures failures == old(failures) + (if ok then 0 else 1)
      ensures fresh(mem) && mem.Length == size
    {
      ok := Allocate();
      mem := new byte[size];
    }

    /** An allocation whose contents do not matter here. */
    method Allocate() returns (ok: bool)
      modifies this`failures
      ensures failures == old(failures) + (if ok then 0 else 1)
    {
      ok := *;
      failures := failures + (if ok then 0 else 1);
    }
  }
}
