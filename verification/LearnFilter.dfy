/** The filter of a learn list: the samples that are not acknowledged, each in one of
    the buffers of samples that were recorded. */
module LearnFilter {

  type BufferId = nat

  /** The samples recorded under a buffer, and how many of them are not acknowledged. */
  datatype FilterPtrs<T> = FilterPtrs(unackedCount: int, buffer: seq<T>)

  predicate Distinct<T(==)>(s: seq<T>) {
    forall i, j | 0 <= i < j < |s| :: s[i] != s[j]
  }

  /** The samples of a buffer that are not acknowledged. */
  ghost function Unacked<T(!new)>(owner: map<T, BufferId>, b: BufferId): (r: set<T>)
    ensures forall s :: s in r <==> s in owner && owner[s] == b
  {
    set s | s in owner && owner[s] == b
  }

  /** The filter is the union of the unacknowledged samples of the buffers; they are
      disjoint, since a sample has one owner. */
  ghost predicate Accounts<T(!new)>(filter: set<T>, old_: map<BufferId, FilterPtrs<T>>, owner: map<T, BufferId>) {
    && owner.Keys == filter
    && (forall s | s in owner :: owner[s] in old_ && s in old_[owner[s]].buffer)
    && (forall b | b in old_ :: Counted(old_[b], Unacked(owner, b)))
  }

  ghost predicate Counted<T>(f: FilterPtrs<T>, unacked: set<T>) {
    Distinct(f.buffer) && f.unackedCount == |unacked| > 0
  }

  lemma AccountsAdd<T(!new)>(filter: set<T>, old_: map<BufferId, FilterPtrs<T>>, owner: map<T, BufferId>,
                             b: BufferId, s: T)
    requires Accounts(filter, old_, owner) && s !in filter
    requires b in old_ ==> s !in old_[b].buffer
    ensures Accounts(filter + {s}, old_[b := Recorded(old_, b, s)], owner[s := b])
  {
    hide Distinct, Unacked;
    var owner' := owner[s := b];
    OwnerAdded(old_, owner, b, s);
    if b !in old_ {
      NoneUnacked(filter, old_, owner, b);
    }
    CountAdded(old_, owner, b, s);
    forall c | c in old_ && c != b ensures Counted(old_[c], Unacked(owner', c)) {
      OthersStay(owner, s, b, c);
    }
  }

  lemma OwnerAdded<T(!new)>(old_: map<BufferId, FilterPtrs<T>>, owner: map<T, BufferId>, b: BufferId, s: T)
    requires forall t | t in owner :: owner[t] in old_ && t in old_[owner[t]].buffer
    ensures var old', owner' := old_[b := Recorded(old_, b, s)], owner[s := b];
            forall t | t in owner' :: owner'[t] in old' && t in old'[owner'[t]].buffer
  {
  }

  lemma CountAdded<T(!new)>(old_: map<BufferId, FilterPtrs<T>>, owner: map<T, BufferId>, b: BufferId, s: T)
    requires s !in owner
    requires if b in old_ then Counted(old_[b], Unacked(owner, b)) && s !in old_[b].buffer else Unacked(owner, b) == {}
    ensures Counted(Recorded(old_, b, s), Unacked(owner[s := b], b))
  {
    assert Unacked(owner[s := b], b) == Unacked(owner, b) + {s};
  }

  lemma NoneUnacked<T(!new)>(filter: set<T>, old_: map<BufferId, FilterPtrs<T>>, owner: map<T, BufferId>, b: BufferId)
    requires Accounts(filter, old_, owner) && b !in old_
    ensures Unacked(owner, b) == {}
  {
    hide Counted;
  }

  lemma OthersStay<T(!new)>(owner: map<T, BufferId>, s: T, b: BufferId, c: BufferId)
    requires c != b && (s in owner ==> owner[s] == b)
    ensures Unacked(owner[s := b], c) == Unacked(owner, c) == Unacked(owner - {s}, c)
  {
  }

  /** `old_buffers[b]` with one more sample; it starts out empty. */
  function Recorded<T>(old_: map<BufferId, FilterPtrs<T>>, b: BufferId, s: T): FilterPtrs<T> {
    if b in old_ then FilterPtrs(old_[b].unackedCount + 1, old_[b].buffer + [s]) else FilterPtrs(1, [s])
  }

  /** One sample is acknowledged; a buffer goes with its last sample. */
  lemma AccountsAck<T(!new)>(filter: set<T>, old_: map<BufferId, FilterPtrs<T>>, owner: map<T, BufferId>, s: T)
    requires Accounts(filter, old_, owner) && s in owner
    ensures owner[s] in old_
    ensures var b := owner[s];
            var f := FilterPtrs(old_[b].unackedCount - 1, old_[b].buffer);
            && f.unackedCount == |Unacked(owner - {s}, b)|
            && Accounts(filter - {s}, if f.unackedCount == 0 then old_ - {b} else old_[b := f], owner - {s})
  {
    hide Distinct, Unacked;
    var b, owner' := owner[s], owner - {s};
    assert Counted(old_[b], Unacked(owner, b));
    CountRemoved(owner, s);
    forall c | c in old_ && c != b ensures Counted(old_[c], Unacked(owner', c)) {
      OthersStay(owner, s, b, c);
    }
    if old_[b].unackedCount - 1 == 0 {
      forall t | t in owner' ensures owner'[t] in old_ - {b} {
        assert t !in Unacked(owner', b);
        NotUnacked(owner', t, b);
      }
    }
  }

  lemma CountRemoved<T(!new)>(owner: map<T, BufferId>, s: T)
    requires s in owner
    ensures |Unacked(owner - {s}, owner[s])| == |Unacked(owner, owner[s])| - 1
  {
    assert Unacked(owner - {s}, owner[s]) == Unacked(owner, owner[s]) - {s};
  }

  lemma NotUnacked<T(!new)>(owner: map<T, BufferId>, t: T, b: BufferId)
    requires t in owner
    ensures t in Unacked(owner, b) <==> owner[t] == b
  {
  }

  /** All that is left of a buffer is acknowledged. */
  lemma AccountsAckAll<T(!new)>(filter: set<T>, old_: map<BufferId, FilterPtrs<T>>, owner: map<T, BufferId>,
                         b: BufferId)
    requires Accounts(filter, old_, owner) && b in old_
    ensures Accounts(filter - Unacked(owner, b), old_ - {b}, owner - Unacked(owner, b))
  {
    var owner' := owner - Unacked(owner, b);
    forall c | c in old_ && c != b ensures Counted(old_[c], Unacked(owner', c)) {
      assert Unacked(owner', c) == Unacked(owner, c);
    }
  }

  /** The fast path of `ack_buffer`: when the counts are equal, and only then, the buffer
      has all of the filter. */
  lemma CountsDecide<T(!new)>(filter: set<T>, old_: map<BufferId, FilterPtrs<T>>, owner: map<T, BufferId>, b: BufferId)
    requires Accounts(filter, old_, owner) && b in old_
    ensures old_[b].unackedCount == |filter| <==> filter == Unacked(owner, b)
  {
    assert Counted(old_[b], Unacked(owner, b));
    assert filter == Unacked(owner, b) + (filter - Unacked(owner, b));
  }

  ghost function TotalUnacked<T>(old_: map<BufferId, FilterPtrs<T>>): int {
    if old_ == map[] then 0
    else
      var b :| b in old_;
      old_[b].unackedCount + TotalUnacked(old_ - {b})
  }

  /** The counts of the buffers add up to the size of the filter. */
  lemma {:induction false} CountsAddUp<T(!new)>(filter: set<T>, old_: map<BufferId, FilterPtrs<T>>,
                                                owner: map<T, BufferId>)
    requires Accounts(filter, old_, owner)
    ensures TotalUnacked(old_) == |filter|
    decreases |old_|
  {
    if old_ == map[] {
      assert filter == {};
    } else {
      hide Accounts;
      var b :| b in old_ && TotalUnacked(old_) == old_[b].unackedCount + TotalUnacked(old_ - {b});
      AccountsAckAll(filter, old_, owner, b);
      CountsAddUp(filter - Unacked(owner, b), old_ - {b}, owner - Unacked(owner, b));
      CountOf(filter, old_, owner, b);
    }
  }

  lemma CountOf<T(!new)>(filter: set<T>, old_: map<BufferId, FilterPtrs<T>>, owner: map<T, BufferId>, b: BufferId)
    requires Accounts(filter, old_, owner) && b in old_
    ensures old_[b].unackedCount == |filter| - |filter - Unacked(owner, b)|
  {
    assert Counted(old_[b], Unacked(owner, b));
    assert filter == Unacked(owner, b) + (filter - Unacked(owner, b));
  }
}
