/** Soundness of the register allocator.  The walk of `assign_dest_registers`
    goes through both branches of every `?`, so its stack holds entries that no
    run has.  The run's data stack still embeds into it, in order, and an entry
    that points to temporary `r` sits where the walk's prefix sum is `r`. */
module Registers {
  import opened StackMachine
  import opened Wrappers

  ghost predicate Embeds(ds: seq<Ptr>, st: seq<nat>) {
    if ds == [] then true
    else if st == [] then false
    else
      || Embeds(ds, Front(st))
      || (Embeds(Front(ds), Front(st)) && Fits(Last(ds), st))
  }

  /** The top of `st` can stand for the pointer `p`. */
  predicate Fits(p: Ptr, st: seq<nat>)
    requires st != []
  {
    p.Temp? ==> Last(st) == 1 && Sum(Front(st)) == p.reg
  }

  lemma {:induction false} EmbedsExtend(ds: seq<Ptr>, st: seq<nat>, ext: seq<nat>)
    requires Embeds(ds, st)
    ensures Embeds(ds, st + ext)
  {
    if ext == [] {
      assert st + ext == st;
    } else {
      EmbedsExtend(ds, st, Front(ext));
      assert Front(st + ext) == st + Front(ext);
    }
  }

  lemma EmbedsPush(ds: seq<Ptr>, st: seq<nat>, p: Ptr, w: nat)
    requires Embeds(ds, st)
    requires p.Temp? ==> w == 1 && Sum(st) == p.reg
    ensures Embeds(ds + [p], st + [w])
  {
    assert Front(ds + [p]) == ds && Front(st + [w]) == st;
  }

  /** What one pop takes from both stacks leaves an embedding. */
  lemma {:induction false} EmbedsPop(ds: seq<Ptr>, st: seq<nat>)
    requires ds != [] && Embeds(ds, st)
    ensures st != [] && Embeds(Front(ds), Front(st))
  {
    if Embeds(ds, Front(st)) {
      EmbedsPop(ds, Front(st));
      EmbedsExtend(Front(ds), Front(Front(st)), [Last(Front(st))]);
      assert Front(Front(st)) + [Last(Front(st))] == Front(st);
    }
  }

  lemma {:induction false} EmbedsPops(ds: seq<Ptr>, st: seq<nat>, k: nat)
    requires k <= |ds| && Embeds(ds, st)
    ensures k <= |st| && Embeds(ds[..|ds| - k], st[..|st| - k])
  {
    if k == 0 {
      assert ds[..|ds|] == ds && st[..|st|] == st;
    } else {
      EmbedsPop(ds, st);
      EmbedsPops(Front(ds), Front(st), k - 1);
      assert Front(ds)[..|ds| - k] == ds[..|ds| - k];
      assert Front(st)[..|st| - k] == st[..|st| - k];
    }
  }

  /** A pointer on the stack is below the walk's sum, so the temporary that the
      walk hands out next is not one of them. */
  lemma {:induction false} EmbedsBelow(ds: seq<Ptr>, st: seq<nat>, i: nat)
    requires i < |ds| && Embeds(ds, st)
    ensures ds[i].Temp? ==> ds[i].reg < Sum(st)
    decreases |ds| + |st|
  {
    SumExtend(Front(st), [Last(st)]);
    assert Front(st) + [Last(st)] == st;
    if Embeds(ds, Front(st)) {
      EmbedsBelow(ds, Front(st), i);
    } else if i < |ds| - 1 {
      EmbedsBelow(Front(ds), Front(st), i);
    }
  }
}
