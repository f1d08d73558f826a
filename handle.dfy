/** src/quic/threaded/handle.rs: the counter that hands out connection handles. */
module Handles {
  import opened ByteOrder

  type Handle = u64

  class HandleGenerator {
    var lastHandle: Handle
    /** The handles handed out so far. */
    ghost var issued: set<Handle>

    /** Every handle handed out is positive and at most the last one. */
    ghost predicate Valid()
      reads this
    {
      forall h :: h in issued ==> 1 <= h <= lastHandle
    }

    /** `HandleGenerator::new`: the default, a last handle of 0. */
    constructor ()
      ensures Valid() && lastHandle == 0 && issued == {}
    {
      lastHandle := 0;
      issued := {};
    }

    /** `HandleGenerator::generate`: the last handle plus one, which becomes the
        last handle.  The u64 increment must not overflow. */
    method Generate() returns (h: Handle)
      requires Valid() && lastHandle < 0xFFFF_FFFF_FFFF_FFFF
      modifies this
      ensures Valid()
      ensures h == old(lastHandle) + 1 && lastHandle == h
      ensures h != 0 && h !in old(issued) && issued == old(issued) + {h}
    {
      lastHandle := lastHandle + 1;
      h := lastHandle;
      issued := issued + {h};
    }
  }

  /** The first three handles of a new generator are 1, 2 and 3. */
  method FirstHandles() returns (a: Handle, b: Handle, c: Handle)
    ensures a == 1 && b == 2 && c == 3
  {
    var g := new HandleGenerator();
    a := g.Generate();
    b := g.Generate();
    c := g.Generate();
  }
}
