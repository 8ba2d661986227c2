/** How often the members and groups of an indirect table are used, and the counts that
    the table keeps of it. */
module RefCounts {
  import opened Wrappers

  /** What an entry refers to. */
  datatype IndirectIndex = Mbr(mbr: nat) | Grp(grp: nat)

  /** Counts are unsigned 32-bit numbers. */
  function Inc(c: nat): nat { (c + 1) % TWO32 }

  function Dec(c: nat): nat { (c + TWO32 - 1) % TWO32 }

  datatype State = State(
    mbrs: set<nat>, grps: set<nat>,
    mbrCount: seq<nat>, grpCount: seq<nat>,
    /** the members of each group */
    groups: seq<set<nat>>,
    /** what each entry of the match unit refers to, by its handle */
    entries: map<nat, IndirectIndex>
  )

  // ----- uses -----

  ghost function EntriesOf(entries: map<nat, IndirectIndex>, i: IndirectIndex): (r: set<nat>)
    ensures forall h :: h in r <==> h in entries && entries[h] == i
  {
    set h | h in entries && entries[h] == i
  }

  ghost function GroupsWith(groups: seq<set<nat>>, grps: set<nat>, m: nat): (r: set<nat>)
    ensures forall g :: g in r <==> g in grps && g < |groups| && m in groups[g]
  {
    set g | g in grps && g < |groups| && m in groups[g]
  }

  /** The entries and groups that use what an index stands for. */
  ghost function Uses(s: State, i: IndirectIndex): nat {
    |EntriesOf(s.entries, i)| + if i.Mbr? then |GroupsWith(s.groups, s.grps, i.mbr)| else 0
  }

  predicate IsValid(s: State, i: IndirectIndex) {
    match i
    case Mbr(m) => m in s.mbrs
    case Grp(g) => g in s.grps
  }

  function Count(s: State, i: IndirectIndex): nat {
    match i
    case Mbr(m) => if m < |s.mbrCount| then s.mbrCount[m] else 0
    case Grp(g) => if g < |s.grpCount| then s.grpCount[g] else 0
  }

  /** Counts are kept for everything that was ever there. */
  predicate HasCount(s: State, i: IndirectIndex) {
    match i
    case Mbr(m) => m < |s.mbrCount|
    case Grp(g) => g < |s.grpCount|
  }

  // ----- what the counts are good for -----

  ghost predicate Shape(s: State) {
    && (forall m | m in s.mbrs :: m < |s.mbrCount|)
    && (forall g | g in s.grps :: g < |s.grpCount|)
    && |s.groups| == |s.grpCount|
    && (forall h | h in s.entries :: HasCount(s, s.entries[h]))
    && (forall m | 0 <= m < |s.mbrCount| :: s.mbrCount[m] < TWO32)
    && (forall g | 0 <= g < |s.grpCount| :: s.grpCount[g] < TWO32)
  }

  /** Entries and groups use what is there. */
  ghost predicate Refers(s: State) {
    && (forall h | h in s.entries :: IsValid(s, s.entries[h]))
    && (forall g, m | g in s.grps && g < |s.groups| && m in s.groups[g] :: m in s.mbrs)
  }

  /** No count is less than the number of uses. */
  ghost predicate Covers(s: State) {
    forall i | IsValid(s, i) :: Count(s, i) >= Uses(s, i)
  }

  ghost predicate Exact(s: State) {
    forall i | IsValid(s, i) :: Count(s, i) == Uses(s, i)
  }

  /** What is not used may go. */
  lemma Unused(s: State, i: IndirectIndex)
    requires Covers(s) && IsValid(s, i) && Count(s, i) == 0
    ensures forall h | h in s.entries :: s.entries[h] != i
    ensures i.Mbr? ==> forall g | g in s.grps && g < |s.groups| :: i.mbr !in s.groups[g]
  {
    assert Uses(s, i) == 0;
    forall h | h in s.entries ensures s.entries[h] != i {
      assert h !in EntriesOf(s.entries, i);
    }
    if i.Mbr? {
      forall g | g in s.grps && g < |s.groups| ensures i.mbr !in s.groups[g] {
        assert g !in GroupsWith(s.groups, s.grps, i.mbr);
      }
    }
  }

  // ----- how uses change -----

  lemma EntryGone(entries: map<nat, IndirectIndex>, h: nat, j: IndirectIndex)
    requires h in entries
    ensures |EntriesOf(entries - {h}, j)| == |EntriesOf(entries, j)| - if entries[h] == j then 1 else 0
  {
    if entries[h] == j {
      assert EntriesOf(entries - {h}, j) == EntriesOf(entries, j) - {h};
    } else {
      assert EntriesOf(entries - {h}, j) == EntriesOf(entries, j);
    }
  }

  lemma EntryNew(entries: map<nat, IndirectIndex>, h: nat, i: IndirectIndex, j: IndirectIndex)
    requires h !in entries
    ensures |EntriesOf(entries[h := i], j)| == |EntriesOf(entries, j)| + if i == j then 1 else 0
  {
    if i == j {
      assert EntriesOf(entries[h := i], j) == EntriesOf(entries, j) + {h};
    } else {
      assert EntriesOf(entries[h := i], j) == EntriesOf(entries, j);
    }
  }

  lemma GroupChanged(groups: seq<set<nat>>, grps: set<nat>, g: nat, ms: set<nat>, m: nat)
    requires g in grps && g < |groups|
    ensures |GroupsWith(groups[g := ms], grps, m)| ==
            |GroupsWith(groups, grps, m)| - (if m in groups[g] then 1 else 0) + if m in ms then 1 else 0
  {
    var was, now := GroupsWith(groups, grps, m), GroupsWith(groups[g := ms], grps, m);
    assert was - {g} == now - {g};
    SizeWithout(was, g);
    SizeWithout(now, g);
  }

  lemma SizeWithout(s: set<nat>, x: nat)
    ensures |s - {x}| == |s| - if x in s then 1 else 0
  {
    if x !in s {
      assert s - {x} == s;
    }
  }

  lemma GroupGone(groups: seq<set<nat>>, grps: set<nat>, g: nat, m: nat)
    requires g in grps && g < |groups|
    ensures |GroupsWith(groups, grps - {g}, m)| == |GroupsWith(groups, grps, m)| - if m in groups[g] then 1 else 0
  {
    assert GroupsWith(groups, grps - {g}, m) == GroupsWith(groups, grps, m) - {g};
    SizeWithout(GroupsWith(groups, grps, m), g);
  }

  // ----- slack: by how much a count exceeds the uses -----

  ghost function Slack(s: State, i: IndirectIndex): int {
    Count(s, i) - Uses(s, i)
  }

  /** Everything in `t` has the slack that it had in `s`. */
  ghost predicate KeepsSlack(s: State, t: State) {
    forall i | IsValid(t, i) :: (IsValid(s, i) ==> Slack(t, i) == Slack(s, i)) && (!IsValid(s, i) ==> Slack(t, i) == 0)
  }

  lemma SlackKept(s: State, t: State)
    requires KeepsSlack(s, t)
    ensures Covers(s) ==> Covers(t)
    ensures Exact(s) ==> Exact(t)
  {
    hide Uses, Count, IsValid;
    forall i | IsValid(t, i)
      ensures Covers(s) ==> Count(t, i) >= Uses(t, i)
      ensures Exact(s) ==> Count(t, i) == Uses(t, i)
    {
      assert Slack(t, i) == if IsValid(s, i) then Slack(s, i) else 0;
    }
  }

  function Counted(s: State, i: IndirectIndex, c: nat): State {
    match i
    case Mbr(m) => if m < |s.mbrCount| then s.(mbrCount := s.mbrCount[m := c]) else s
    case Grp(g) => if g < |s.grpCount| then s.(grpCount := s.grpCount[g := c]) else s
  }

  function Increase(s: State, i: IndirectIndex): State { Counted(s, i, Inc(Count(s, i))) }

  function Decrease(s: State, i: IndirectIndex): State { Counted(s, i, Dec(Count(s, i))) }

  lemma CountedIs(s: State, i: IndirectIndex, c: nat, j: IndirectIndex)
    requires Shape(s) && HasCount(s, i) && c < TWO32
    ensures var t := Counted(s, i, c);
            && Count(t, j) == (if i == j then c else Count(s, j))
            && Shape(t) && t == s.(mbrCount := t.mbrCount, grpCount := t.grpCount)
            && Uses(t, j) == Uses(s, j) && IsValid(t, j) == IsValid(s, j) && HasCount(t, j) == HasCount(s, j)
  {
  }

  lemma CountBound(s: State, i: IndirectIndex)
    requires Shape(s)
    ensures Count(s, i) < TWO32
  {
  }

  // ----- the steps -----

  function Set<T>(v: seq<T>, k: nat, x: T): seq<T>
    requires k <= |v|
  {
    if k == |v| then v + [x] else v[k := x]
  }

  function WithMember(s: State, m: nat): State
    requires m <= |s.mbrCount|
  {
    s.(mbrs := s.mbrs + {m}, mbrCount := Set(s.mbrCount, m, 0))
  }

  lemma WithMemberOk(s: State, m: nat)
    requires Shape(s) && m !in s.mbrs && m <= |s.mbrCount|
    ensures Shape(WithMember(s, m))
    ensures Refers(s) ==> Refers(WithMember(s, m)) && KeepsSlack(s, WithMember(s, m))
  {
    var t := WithMember(s, m);
    if Refers(s) {
      NoUses(s, Mbr(m));
      forall i | IsValid(t, i)
        ensures Uses(t, i) == Uses(s, i) && Count(t, i) == if i == Mbr(m) then 0 else Count(s, i)
      {
      }
    }
  }

  lemma NoUses(s: State, i: IndirectIndex)
    requires Refers(s) && !IsValid(s, i)
    ensures Uses(s, i) == 0
  {
    assert EntriesOf(s.entries, i) == {};
    if i.Mbr? {
      assert GroupsWith(s.groups, s.grps, i.mbr) == {};
    }
  }

  function WithoutMember(s: State, m: nat): State {
    s.(mbrs := s.mbrs - {m})
  }

  lemma WithoutMemberOk(s: State, m: nat)
    requires Shape(s) && m in s.mbrs && Count(s, Mbr(m)) == 0
    ensures Shape(WithoutMember(s, m))
    ensures Refers(s) && Covers(s) ==> Refers(WithoutMember(s, m)) && KeepsSlack(s, WithoutMember(s, m))
  {
    var t := WithoutMember(s, m);
    if Refers(s) && Covers(s) {
      Unused(s, Mbr(m));
      forall i | IsValid(t, i) ensures Uses(t, i) == Uses(s, i) && Count(t, i) == Count(s, i) {
      }
    }
  }

  /** An entry is added: the count goes up first, and stays up if the match unit does not
      take the entry. */
  function WithEntry(s: State, h: nat, i: IndirectIndex): State {
    Increase(s, i).(entries := s.entries[h := i])
  }

  lemma WithEntryOk(s: State, h: nat, i: IndirectIndex)
    requires Shape(s) && IsValid(s, i) && h !in s.entries && Count(s, i) < TWO32 - 1
    ensures Shape(WithEntry(s, h, i)) && KeepsSlack(s, WithEntry(s, h, i))
    ensures Refers(s) ==> Refers(WithEntry(s, h, i))
  {
    hide Shape, Counted;
    ValidHasCount(s, i);
    var t := WithEntry(s, h, i);
    IncreaseIs(s, i);
    forall j | IsValid(t, j) ensures IsValid(s, j) && Slack(t, j) == Slack(s, j) {
      CountedIs(s, i, Inc(Count(s, i)), j);
      EntryNew(s.entries, h, i, j);
      SameCounts(Increase(s, i), s.entries[h := i], j);
    }
    SameShape(Increase(s, i), t);
    if Refers(s) {
      forall k | k in t.entries ensures IsValid(t, t.entries[k]) {
        CountedIs(s, i, Inc(Count(s, i)), t.entries[k]);
      }
    }
  }

  lemma ValidHasCount(s: State, i: IndirectIndex)
    requires Shape(s)
    ensures IsValid(s, i) ==> HasCount(s, i)
    ensures forall h | h in s.entries :: HasCount(s, s.entries[h])
  {
  }

  lemma IncreaseIs(s: State, i: IndirectIndex)
    requires Shape(s) && HasCount(s, i)
    ensures Inc(Count(s, i)) < TWO32 && Dec(Count(s, i)) < TWO32
    ensures var t := Increase(s, i); Shape(t) && t == s.(mbrCount := t.mbrCount, grpCount := t.grpCount)
    ensures var t := Decrease(s, i); Shape(t) && t == s.(mbrCount := t.mbrCount, grpCount := t.grpCount)
  {
    CountedIs(s, i, Inc(Count(s, i)), i);
    CountedIs(s, i, Dec(Count(s, i)), i);
  }

  lemma SameCounts(s: State, entries: map<nat, IndirectIndex>, j: IndirectIndex)
    ensures Count(s.(entries := entries), j) == Count(s, j) && IsValid(s.(entries := entries), j) == IsValid(s, j)
    ensures Uses(s.(entries := entries), j) == Uses(s, j) - |EntriesOf(s.entries, j)| + |EntriesOf(entries, j)|
  {
  }

  lemma SameShape(s: State, t: State)
    requires Shape(s) && t == s.(entries := t.entries)
    requires forall h | h in t.entries :: HasCount(s, t.entries[h])
    ensures Shape(t)
  {
  }

  /** The match unit did not take the entry. */
  lemma LeakedOk(s: State, i: IndirectIndex)
    requires Shape(s) && IsValid(s, i) && Count(s, i) < TWO32 - 1
    ensures Shape(Increase(s, i)) && (Refers(s) ==> Refers(Increase(s, i))) && (Covers(s) ==> Covers(Increase(s, i)))
  {
    hide Shape, Counted;
    ValidHasCount(s, i);
    var t := Increase(s, i);
    IncreaseIs(s, i);
    forall j ensures IsValid(t, j) == IsValid(s, j) && Uses(t, j) == Uses(s, j) && Count(t, j) >= Count(s, j) {
      CountedIs(s, i, Inc(Count(s, i)), j);
    }
    if Covers(s) {
      forall j | IsValid(t, j) ensures Count(t, j) >= Uses(t, j) {
        assert IsValid(s, j);
      }
    }
  }

  function WithoutEntry(s: State, h: nat): State
    requires h in s.entries
  {
    Decrease(s, s.entries[h]).(entries := s.entries - {h})
  }

  lemma UsedAtLeastOnce(s: State, h: nat)
    requires Covers(s) && Refers(s) && h in s.entries
    ensures IsValid(s, s.entries[h]) && Count(s, s.entries[h]) >= Uses(s, s.entries[h]) >= 1
  {
    assert h in EntriesOf(s.entries, s.entries[h]);
  }

  lemma WithoutEntryOk(s: State, h: nat)
    requires Shape(s) && Covers(s) && Refers(s) && h in s.entries
    ensures Shape(WithoutEntry(s, h)) && KeepsSlack(s, WithoutEntry(s, h)) && Refers(WithoutEntry(s, h))
  {
    hide Shape, Counted;
    ValidHasCount(s, s.entries[h]);
    var i, t := s.entries[h], WithoutEntry(s, h);
    UsedAtLeastOnce(s, h);
    IncreaseIs(s, i);
    CountBound(s, i);
    forall j | IsValid(t, j) ensures IsValid(s, j) && Slack(t, j) == Slack(s, j) {
      CountedIs(s, i, Dec(Count(s, i)), j);
      EntryGone(s.entries, h, j);
      SameCounts(Decrease(s, i), s.entries - {h}, j);
    }
    SameShape(Decrease(s, i), t);
    forall k | k in t.entries ensures IsValid(t, t.entries[k]) {
      CountedIs(s, i, Dec(Count(s, i)), t.entries[k]);
    }
  }

  /** An entry is made to refer to something else. */
  function Redirected(s: State, h: nat, i: IndirectIndex): State
    requires h in s.entries
  {
    Increase(Decrease(s, s.entries[h]), i).(entries := s.entries[h := i])
  }

  lemma RedirectedOk(s: State, h: nat, i: IndirectIndex)
    requires Shape(s) && Covers(s) && Refers(s) && h in s.entries && IsValid(s, i) && Count(s, i) < TWO32 - 1
    ensures Shape(Redirected(s, h, i)) && KeepsSlack(s, Redirected(s, h, i)) && Refers(Redirected(s, h, i))
  {
    hide *;
    var u := WithoutEntry(s, h);
    WithoutEntryOk(s, h);
    SameCountAfter(s, h, i);
    WithoutEntryHas(s, h);
    WithEntryOk(u, h, i);
    RedirectedIs(s, h, i);
    SlackTwice(s, u, WithEntry(u, h, i), h, i);
  }

  lemma WithoutEntryHas(s: State, h: nat)
    requires h in s.entries
    ensures h !in WithoutEntry(s, h).entries
  {
  }

  lemma RedirectedIs(s: State, h: nat, i: IndirectIndex)
    requires h in s.entries
    ensures WithEntry(WithoutEntry(s, h), h, i) == Redirected(s, h, i)
  {
    hide Inc, Dec;
    assert (s.entries - {h})[h := i] == s.entries[h := i];
  }

  lemma SameCountAfter(s: State, h: nat, i: IndirectIndex)
    requires Shape(s) && Covers(s) && Refers(s) && h in s.entries && IsValid(s, i) && Count(s, i) < TWO32 - 1
    ensures IsValid(WithoutEntry(s, h), i) && Count(WithoutEntry(s, h), i) < TWO32 - 1
  {
    ValidHasCount(s, s.entries[h]);
    UsedAtLeastOnce(s, h);
    CountedIs(s, s.entries[h], Dec(Count(s, s.entries[h])), i);
  }

  lemma SlackTwice(s: State, t: State, u: State, h: nat, i: IndirectIndex)
    requires KeepsSlack(s, t) && KeepsSlack(t, u)
    requires h in s.entries && t == WithoutEntry(s, h) && u == WithEntry(t, h, i)
    ensures KeepsSlack(s, u)
  {
    hide Slack;
    forall j | IsValid(u, j) ensures IsValid(s, j) && Slack(u, j) == Slack(s, j) {
      assert IsValid(t, j);
    }
  }

  /** A modification with a bad target: the count of the old target goes down all the
      same. */
  function Misdirected(s: State, h: nat): State
    requires h in s.entries
  {
    Decrease(s, s.entries[h])
  }

  /** Then the counts still cover the uses exactly if an earlier failure had left the
      count of the old target too high. */
  lemma MisdirectedIff(s: State, h: nat)
    requires Shape(s) && Covers(s) && Refers(s) && h in s.entries
    ensures Shape(Misdirected(s, h)) && Refers(Misdirected(s, h))
    ensures Covers(Misdirected(s, h)) <==> Count(s, s.entries[h]) > Uses(s, s.entries[h])
  {
    hide Shape, Counted;
    ValidHasCount(s, s.entries[h]);
    var i, t := s.entries[h], Misdirected(s, h);
    UsedAtLeastOnce(s, h);
    IncreaseIs(s, i);
    CountBound(s, i);
    forall j ensures IsValid(t, j) == IsValid(s, j) && Uses(t, j) == Uses(s, j)
                     && Count(t, j) == if j == i then Count(s, i) - 1 else Count(s, j) {
      CountedIs(s, i, Dec(Count(s, i)), j);
    }
  }

  // ----- groups -----

  function WithGroup(s: State, g: nat): State
    requires g <= |s.grpCount| == |s.groups|
  {
    s.(grps := s.grps + {g}, grpCount := Set(s.grpCount, g, 0), groups := Set(s.groups, g, {}))
  }

  lemma WithGroupOk(s: State, g: nat)
    requires Shape(s) && g !in s.grps && g <= |s.grpCount|
    ensures Shape(WithGroup(s, g))
    ensures Refers(s) ==> Refers(WithGroup(s, g)) && KeepsSlack(s, WithGroup(s, g))
  {
    var t := WithGroup(s, g);
    if Refers(s) {
      NoUses(s, Grp(g));
      forall m ensures GroupsWith(t.groups, t.grps, m) == GroupsWith(s.groups, s.grps, m) {
      }
      forall i | IsValid(t, i)
        ensures Uses(t, i) == Uses(s, i) && Count(t, i) == if i == Grp(g) then 0 else Count(s, i)
      {
      }
    }
  }

  function WithMembers(s: State, g: nat, ms: set<nat>): State
    requires g < |s.groups|
  {
    s.(groups := s.groups[g := ms])
  }

  /** A member joins a group. */
  lemma JoinedOk(s: State, m: nat, g: nat)
    requires Shape(s) && m in s.mbrs && g in s.grps && m !in s.groups[g] && Count(s, Mbr(m)) < TWO32 - 1
    ensures var t := WithMembers(Increase(s, Mbr(m)), g, s.groups[g] + {m});
            Shape(t) && KeepsSlack(s, t) && (Refers(s) ==> Refers(t))
  {
    hide Counted;
    IncreaseIs(s, Mbr(m));
    var u := Increase(s, Mbr(m));
    var t := WithMembers(u, g, s.groups[g] + {m});
    forall j | IsValid(t, j) ensures IsValid(s, j) && Slack(t, j) == Slack(s, j) {
      CountedIs(s, Mbr(m), Inc(Count(s, Mbr(m))), j);
      RegroupedUses(u, g, s.groups[g] + {m}, j);
    }
  }

  lemma RegroupedUses(s: State, g: nat, ms: set<nat>, j: IndirectIndex)
    requires g in s.grps && g < |s.groups|
    ensures var t := WithMembers(s, g, ms);
            && Count(t, j) == Count(s, j) && IsValid(t, j) == IsValid(s, j)
            && Uses(t, j) == Uses(s, j) + if j.Grp? then 0
                                          else (if j.mbr in ms then 1 else 0) - (if j.mbr in s.groups[g] then 1 else 0)
  {
    if j.Mbr? {
      GroupChanged(s.groups, s.grps, g, ms, j.mbr);
    }
  }

  lemma InGroupIsUsed(s: State, m: nat, g: nat)
    requires Shape(s) && Covers(s) && Refers(s) && g in s.grps && m in s.groups[g]
    ensures m in s.mbrs && Count(s, Mbr(m)) >= 1
  {
    assert g in GroupsWith(s.groups, s.grps, m);
    assert IsValid(s, Mbr(m));
  }

  /** A member leaves a group. */
  lemma LeftOk(s: State, m: nat, g: nat)
    requires Shape(s) && Covers(s) && Refers(s) && g in s.grps && m in s.groups[g]
    ensures var t := WithMembers(Decrease(s, Mbr(m)), g, s.groups[g] - {m});
            Shape(t) && KeepsSlack(s, t) && Refers(t)
  {
    hide Counted;
    InGroupIsUsed(s, m, g);
    IncreaseIs(s, Mbr(m));
    CountBound(s, Mbr(m));
    var u := Decrease(s, Mbr(m));
    var t := WithMembers(u, g, s.groups[g] - {m});
    forall j | IsValid(t, j) ensures IsValid(s, j) && Slack(t, j) == Slack(s, j) {
      CountedIs(s, Mbr(m), Dec(Count(s, Mbr(m))), j);
      RegroupedUses(u, g, s.groups[g] - {m}, j);
    }
  }

  /** A group goes; every member of it is used once less. */
  function WithoutGroup(s: State, g: nat): State
    requires g < |s.groups|
  {
    s.(grps := s.grps - {g}, mbrCount := AllDec(s.mbrCount, s.groups[g]))
  }

  function AllDec(v: seq<nat>, ms: set<nat>): (r: seq<nat>)
    ensures |r| == |v| && forall m | 0 <= m < |v| :: r[m] == if m in ms then Dec(v[m]) else v[m]
  {
    seq(|v|, m requires 0 <= m < |v| => if m in ms then Dec(v[m]) else v[m])
  }

  lemma WithoutGroupOk(s: State, g: nat)
    requires Shape(s) && Covers(s) && Refers(s) && g in s.grps && Count(s, Grp(g)) == 0
    ensures Shape(WithoutGroup(s, g)) && KeepsSlack(s, WithoutGroup(s, g)) && Refers(WithoutGroup(s, g))
  {
    hide Uses, Count, Dec, Slack, Covers;
    var t := WithoutGroup(s, g);
    Unused(s, Grp(g));
    WithoutGroupShape(s, g);
    forall i | IsValid(t, i) ensures IsValid(s, i) && Slack(t, i) == Slack(s, i) {
      SlackWithoutGroup(s, g, i);
    }
  }

  lemma WithoutGroupShape(s: State, g: nat)
    requires Shape(s) && g in s.grps
    ensures Shape(WithoutGroup(s, g))
  {
  }

  lemma SlackWithoutGroup(s: State, g: nat, i: IndirectIndex)
    requires Shape(s) && Covers(s) && Refers(s) && g in s.grps && IsValid(s, i) && i != Grp(g)
    ensures Slack(WithoutGroup(s, g), i) == Slack(s, i)
  {
    hide *;
    CountWithoutGroup(s, g, i);
    UsesWithoutGroup(s, g, i);
    if InGroup(s, g, i) {
      InGroupIsUsedBy(s, g, i);
    }
    SlackIs(s, i);
    SlackIs(WithoutGroup(s, g), i);
    DecIs(Count(s, i));
    CountBound(s, i);
  }

  lemma SlackIs(s: State, i: IndirectIndex)
    ensures Slack(s, i) == Count(s, i) - Uses(s, i)
  {
  }

  lemma DecIs(c: nat)
    ensures 1 <= c < 0x1_0000_0000 ==> Dec(c) == c - 1
    ensures TWO32 == 0x1_0000_0000
  {
  }

  predicate InGroup(s: State, g: nat, i: IndirectIndex) {
    i.Mbr? && g < |s.groups| && i.mbr in s.groups[g]
  }

  lemma InGroupIsUsedBy(s: State, g: nat, i: IndirectIndex)
    requires Shape(s) && Covers(s) && Refers(s) && g in s.grps && InGroup(s, g, i)
    ensures Count(s, i) >= 1
  {
    hide Shape, Covers, Refers;
    assert g < |s.groups|;
    InGroupIsUsed(s, i.mbr, g);
  }

  lemma CountWithoutGroup(s: State, g: nat, i: IndirectIndex)
    requires Shape(s) && g in s.grps && IsValid(s, i)
    ensures g < |s.groups| && Count(WithoutGroup(s, g), i) == if InGroup(s, g, i) then Dec(Count(s, i)) else Count(s, i)
  {
    hide Dec;
  }

  lemma UsesWithoutGroup(s: State, g: nat, i: IndirectIndex)
    requires Shape(s) && g in s.grps
    ensures g < |s.groups| && Uses(WithoutGroup(s, g), i) == Uses(s, i) - if InGroup(s, g, i) then 1 else 0
  {
    hide Dec, AllDec;
    if i.Mbr? {
      GroupGone(s.groups, s.grps, g, i.mbr);
    }
  }

  // ----- what the steps do, apart from the counts -----

  /** Members and groups come and go one at a time, and nothing else does.  A member or
      group that is new has no members and a count of 0. */
  lemma HandlesAfter(s: State, m: nat, g: nat)
    requires |s.groups| == |s.grpCount|
    ensures m <= |s.mbrCount| ==> var t := WithMember(s, m);
              m in t.mbrs && t.mbrs == s.mbrs + {m} && Count(t, Mbr(m)) == 0
              && t == s.(mbrs := t.mbrs, mbrCount := t.mbrCount)
    ensures var t := WithoutMember(s, m); m !in t.mbrs && t == s.(mbrs := s.mbrs - {m})
    ensures g <= |s.grpCount| ==> var t := WithGroup(s, g);
              g in t.grps && t.grps == s.grps + {g} && t.groups[g] == {} && Count(t, Grp(g)) == 0
              && t == s.(grps := t.grps, groups := t.groups, grpCount := t.grpCount)
    ensures g < |s.groups| ==> var t := WithoutGroup(s, g);
              g !in t.grps && t == s.(grps := s.grps - {g}, mbrCount := t.mbrCount)
  {
  }

  /** One entry comes, goes or changes its target, and members and groups stay. */
  lemma EntriesAfter(s: State, h: nat, i: IndirectIndex)
    ensures var t := WithEntry(s, h, i);
            t == s.(entries := s.entries[h := i], mbrCount := t.mbrCount, grpCount := t.grpCount)
    ensures var t := Increase(s, i); t == s.(mbrCount := t.mbrCount, grpCount := t.grpCount)
    ensures h in s.entries ==> var t := WithoutEntry(s, h);
              t == s.(entries := s.entries - {h}, mbrCount := t.mbrCount, grpCount := t.grpCount)
    ensures h in s.entries ==> var t := Redirected(s, h, i);
              t == s.(entries := s.entries[h := i], mbrCount := t.mbrCount, grpCount := t.grpCount)
    ensures h in s.entries ==> var t := Misdirected(s, h);
              t == s.(mbrCount := t.mbrCount, grpCount := t.grpCount)
  {
    hide Inc, Dec, Count;
  }

  // ----- steps whatever the counts are -----

  lemma WithoutEntryShape(s: State, h: nat)
    requires Shape(s) && h in s.entries
    ensures HasCount(s, s.entries[h]) && Shape(Decrease(s, s.entries[h])) && Shape(WithoutEntry(s, h))
  {
    hide Counted;
    ValidHasCount(s, s.entries[h]);
    IncreaseIs(s, s.entries[h]);
    forall k | k in WithoutEntry(s, h).entries ensures HasCount(WithoutEntry(s, h), s.entries[k]) {
      CountedIs(s, s.entries[h], Dec(Count(s, s.entries[h])), s.entries[k]);
    }
  }

  lemma RedirectedShape(s: State, h: nat, i: IndirectIndex)
    requires Shape(s) && h in s.entries && IsValid(s, i)
    ensures HasCount(s, s.entries[h]) && Shape(Decrease(s, s.entries[h]))
    ensures IsValid(Decrease(s, s.entries[h]), i) && Shape(Redirected(s, h, i))
  {
    hide Counted;
    WithoutEntryShape(s, h);
    CountedIs(s, s.entries[h], Dec(Count(s, s.entries[h])), i);
    WithEntryShape(Decrease(s, s.entries[h]), h, i);
  }

  lemma WithEntryShape(s: State, h: nat, i: IndirectIndex)
    requires Shape(s) && IsValid(s, i)
    ensures HasCount(s, i) && Shape(Increase(s, i)) && Shape(WithEntry(s, h, i))
  {
    hide Counted;
    ValidHasCount(s, i);
    IncreaseIs(s, i);
    forall k | k in WithEntry(s, h, i).entries ensures HasCount(WithEntry(s, h, i), WithEntry(s, h, i).entries[k]) {
      CountedIs(s, i, Inc(Count(s, i)), WithEntry(s, h, i).entries[k]);
    }
  }

  lemma RegroupedShape(s: State, m: nat, c: nat, g: nat, ms: set<nat>)
    requires Shape(s) && m in s.mbrs && g in s.grps && c < TWO32
    ensures Shape(Counted(s, Mbr(m), c)) && Shape(WithMembers(Counted(s, Mbr(m), c), g, ms))
  {
  }

  /** What comes of it: the only entry for a member is modified in vain, the member may
      go, and the entry refers to nothing. */
  lemma MisdirectedDangles(s: State, h: nat)
    requires Shape(s) && Exact(s) && Refers(s) && h in s.entries && s.entries[h].Mbr? && Uses(s, s.entries[h]) == 1
    ensures var m, t := s.entries[h].mbr, Misdirected(s, h);
            && m in t.mbrs && Count(t, Mbr(m)) == 0
            && h in WithoutMember(t, m).entries && !IsValid(WithoutMember(t, m), WithoutMember(t, m).entries[h])
  {
    var i := s.entries[h];
    hide Uses;
    ValidHasCount(s, i);
    CountedIs(s, i, Dec(Count(s, i)), i);
  }
}
