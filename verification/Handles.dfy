/** The allocator of handles. */
module Handles {

  /** The first handle that is free. */
  method FirstFree(handles: set<nat>) returns (h: nat)
    ensures h !in handles && h <= |handles| && forall i | 0 <= i < h :: i in handles
  {
    h := 0;
    ghost var below := {};
    while h in handles
      invariant |below| == h && below <= handles && forall i | i in below :: i < h
      invariant forall i | 0 <= i < h :: i in handles
      decreases |handles| - h
    {
      below := below + {h};
      SubsetSize(below, handles);
      h := h + 1;
    }
    SubsetSize(below, handles);
  }

  lemma {:induction false} SubsetSize(s: set<nat>, t: set<nat>)
    requires s <= t
    ensures |s| <= |t|
  {
    if s != {} {
      var x :| x in s;
      SubsetSize(s - {x}, t - {x});
    }
  }
}
