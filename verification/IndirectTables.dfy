/** Tables whose entries refer to shared members, or to groups of members, and do not
    let go of what is referred to. */
module IndirectTables {
  import opened Handles
  import opened RefCounts
  import opened Wrappers

  datatype ErrorCode =
    | SUCCESS | INVALID_HANDLE | INVALID_MBR_HANDLE | INVALID_GRP_HANDLE | MBR_STILL_USED | GRP_STILL_USED
    | MBR_ALREADY_IN_GRP | MBR_NOT_IN_GRP | EMPTY_GRP | NOT_ADDED

  /** An index has 24 bits for the number of a member or group. */
  const INDEX_MASK: nat := 0xff_ffff

  class IndirectTable<A> {
    var mbrHandles: set<nat>
    var grpHandles: set<nat>
    var numMembers: nat
    var numGroups: nat
    var mbrCount: seq<nat>
    var grpCount: seq<nat>
    var actionEntries: seq<A>
    var groupEntries: seq<set<nat>>
    /** The match unit: what each of its live handles leads to. */
    var entries: map<nat, IndirectIndex>
    var defaultIndex: IndirectIndex
    var defaultSet: bool

    /** A modification has failed for its target. */
    ghost var misled: bool
    /** An entry was not taken after its count had gone up. */
    ghost var leaked: bool
    /** A count went from 2^32 - 1 to 0. */
    ghost var wrapped: bool

    ghost function View(): State
      reads this
    {
      State(mbrHandles, grpHandles, mbrCount, grpCount, groupEntries, entries)
    }

    ghost predicate Valid()
      reads this
    {
      && Shape(View()) && numMembers == |mbrHandles| && numGroups == |grpHandles|
      && |actionEntries| == |mbrCount|
      && (!misled && !wrapped ==> Covers(View()) && Refers(View()))
      && (!misled && !wrapped && !leaked ==> Exact(View()))
    }

    constructor ()
      ensures Valid() && View() == State({}, {}, [], [], [], map[]) && !misled && !leaked && !wrapped && !defaultSet
    {
      mbrHandles, grpHandles, numMembers, numGroups := {}, {}, 0, 0;
      mbrCount, grpCount, actionEntries, groupEntries, entries := [], [], [], [], map[];
      defaultIndex, defaultSet := Mbr(0), false;
      misled, leaked, wrapped := false, false, false;
    }

    method AddMember(action: A) returns (mbr: nat)
      requires Valid() && |mbrHandles| <= INDEX_MASK
      modifies this`mbrHandles, this`numMembers, this`mbrCount, this`actionEntries
      ensures Valid() && mbr <= INDEX_MASK && mbr <= old(|actionEntries|) && View() == WithMember(old(View()), mbr)
      ensures mbr !in old(mbrHandles) && actionEntries == Set(old(actionEntries), mbr, action)
    {
      hide Covers, Refers, Exact, KeepsSlack;
      mbr := FirstFree(mbrHandles);
      assert |mbrCount| !in mbrHandles;
      WithMemberOk(View(), mbr);
      AfterStep(View(), WithMember(View(), mbr));
      actionEntries := Set(actionEntries, mbr, action);
      mbrCount := Set(mbrCount, mbr, 0);
      mbrHandles := mbrHandles + {mbr};
      numMembers := numMembers + 1;
      assert View() == WithMember(old(View()), mbr);
    }

    /** A member goes only if no entry and no group has it. */
    method DeleteMember(mbr: nat) returns (rc: ErrorCode)
      requires Valid()
      modifies this`mbrHandles, this`numMembers
      ensures Valid()
      ensures rc == if mbr !in old(mbrHandles) then INVALID_MBR_HANDLE
                    else if mbrCount[mbr] > 0 then MBR_STILL_USED else SUCCESS
      ensures View() == if rc == SUCCESS then WithoutMember(old(View()), mbr) else old(View())
      ensures rc == SUCCESS && !misled && !wrapped ==>
                (forall h | h in entries :: entries[h] != Mbr(mbr))
                && forall g | g in grpHandles && g < |groupEntries| :: mbr !in groupEntries[g]
    {
      hide Covers, Refers, Exact, KeepsSlack;
      if mbr !in mbrHandles {
        return INVALID_MBR_HANDLE;
      }
      if mbrCount[mbr] > 0 {
        return MBR_STILL_USED;
      }
      WithoutMemberOk(View(), mbr);
      AfterStep(View(), WithoutMember(View(), mbr));
      if !misled && !wrapped {
        Unused(View(), Mbr(mbr));
      }
      mbrHandles := mbrHandles - {mbr};
      numMembers := numMembers - 1;
      assert View() == WithoutMember(old(View()), mbr);
      rc := SUCCESS;
    }

    method ModifyMember(mbr: nat, action: A) returns (rc: ErrorCode)
      requires Valid()
      modifies this`actionEntries
      ensures Valid() && rc == if mbr in mbrHandles then SUCCESS else INVALID_MBR_HANDLE
      ensures rc == SUCCESS ==> mbr < old(|actionEntries|)
      ensures actionEntries == if rc == SUCCESS then old(actionEntries)[mbr := action] else old(actionEntries)
    {
      if mbr !in mbrHandles {
        return INVALID_MBR_HANDLE;
      }
      actionEntries := actionEntries[mbr := action];
      rc := SUCCESS;
    }

    /** Changes the count of a member or group. */
    method SetCount(i: IndirectIndex, c: nat)
      requires Shape(View()) && HasCount(View(), i)
      modifies this`mbrCount, this`grpCount
      ensures View() == Counted(old(View()), i, c) && |mbrCount| == old(|mbrCount|)
    {
      match i
      case Mbr(m) => mbrCount := mbrCount[m := c];
      case Grp(g) => grpCount := grpCount[g := c];
    }

    function GetCount(i: IndirectIndex): (c: nat)
      requires Shape(View()) && HasCount(View(), i)
      reads this
      ensures c == Count(View(), i)
    {
      match i
      case Mbr(m) => mbrCount[m]
      case Grp(g) => grpCount[g]
    }

    /** An entry may be for a member that is there, or for a group with members. */
    predicate Accepts(i: IndirectIndex)
      reads this
    {
      match i
      case Mbr(m) => m in mbrHandles
      case Grp(g) => g in grpHandles && g < |groupEntries| && groupEntries[g] != {}
    }

    /** An entry for a member or a group.  `taken` is what the match unit says, and
        `handle` the handle that it gives. */
    method AddEntry(i: IndirectIndex, taken: bool, handle: nat) returns (rc: ErrorCode)
      requires Valid() && (taken ==> handle !in entries)
      modifies this`mbrCount, this`grpCount, this`entries, this`leaked, this`wrapped
      ensures Valid()
      ensures rc == if !IsValid(old(View()), i) then (if i.Mbr? then INVALID_MBR_HANDLE else INVALID_GRP_HANDLE)
                    else if i.Grp? && old(groupEntries[i.grp]) == {} then EMPTY_GRP
                    else if taken then SUCCESS else NOT_ADDED
      ensures View() == match rc
                        case SUCCESS => WithEntry(old(View()), handle, i)
                        case NOT_ADDED => Increase(old(View()), i)
                        case _ => old(View())
      ensures leaked == (old(leaked) || rc == NOT_ADDED)
      ensures wrapped ==> old(wrapped) || Count(old(View()), i) == TWO32 - 1
    {
      hide Covers, Refers, Exact, KeepsSlack;
      if i.Mbr? && i.mbr !in mbrHandles {
        return INVALID_MBR_HANDLE;
      }
      if i.Grp? && i.grp !in grpHandles {
        return INVALID_GRP_HANDLE;
      }
      if i.Grp? && groupEntries[i.grp] == {} {
        return EMPTY_GRP;
      }
      ghost var was := View();
      WithEntryShape(was, handle, i);
      if GetCount(i) < TWO32 - 1 {
        LeakedOk(was, i);
        if taken {
          WithEntryOk(was, handle, i);
          AfterStep(was, WithEntry(was, handle, i));
        }
      } else {
        wrapped := true;
      }
      SetCount(i, Inc(GetCount(i)));
      if !taken {
        leaked := true;
        assert View() == Increase(was, i);
        return NOT_ADDED;
      }
      entries := entries[handle := i];
      assert View() == WithEntry(was, handle, i);
      rc := SUCCESS;
    }

    method DeleteEntry(handle: nat) returns (rc: ErrorCode)
      requires Valid()
      modifies this`mbrCount, this`grpCount, this`entries
      ensures Valid()
      ensures rc == if handle in old(entries) then SUCCESS else INVALID_HANDLE
      ensures View() == if rc == SUCCESS then WithoutEntry(old(View()), handle) else old(View())
    {
      hide Covers, Refers, Exact, KeepsSlack;
      if handle !in entries {
        return INVALID_HANDLE;
      }
      ghost var was := View();
      WithoutEntryShape(was, handle);
      if !misled && !wrapped {
        WithoutEntryOk(was, handle);
        AfterStep(was, WithoutEntry(was, handle));
      }
      var i := entries[handle];
      SetCount(i, Dec(GetCount(i)));
      entries := entries - {handle};
      assert View() == WithoutEntry(was, handle);
      rc := SUCCESS;
    }

    /** Makes an entry refer to another member or group.  The count of what it referred to
        goes down before the new target is looked at. */
    method ModifyEntry(handle: nat, i: IndirectIndex) returns (rc: ErrorCode)
      requires Valid()
      modifies this`mbrCount, this`grpCount, this`entries, this`misled, this`wrapped
      ensures Valid()
      ensures rc == if handle !in old(entries) then INVALID_HANDLE
                    else if !IsValid(old(View()), i) then (if i.Mbr? then INVALID_MBR_HANDLE else INVALID_GRP_HANDLE)
                    else if i.Grp? && old(groupEntries[i.grp]) == {} then EMPTY_GRP
                    else SUCCESS
      ensures View() == if rc == INVALID_HANDLE then old(View())
                        else if rc == SUCCESS then Redirected(old(View()), handle, i)
                        else Misdirected(old(View()), handle)
      ensures misled == (old(misled) || rc !in {SUCCESS, INVALID_HANDLE})
      ensures rc != SUCCESS ==> wrapped == old(wrapped)
      ensures wrapped ==> old(wrapped) || Count(old(View()), i) >= TWO32 - 1
    {
      hide Covers, Refers, Exact, KeepsSlack;
      if handle !in entries {
        return INVALID_HANDLE;
      }
      ghost var was := View();
      WithoutEntryShape(was, handle);
      var old_ := entries[handle];
      DecreasedValid(was, old_, i);
      SetCount(old_, Dec(GetCount(old_)));
      assert View() == Misdirected(was, handle);
      if i.Mbr? && i.mbr !in mbrHandles {
        misled := true;
        return INVALID_MBR_HANDLE;
      }
      if i.Grp? && i.grp !in grpHandles {
        misled := true;
        return INVALID_GRP_HANDLE;
      }
      if i.Grp? && groupEntries[i.grp] == {} {
        misled := true;
        return EMPTY_GRP;
      }
      Redirect(was, handle, i);
      rc := SUCCESS;
    }

    method Redirect(ghost was: State, handle: nat, i: IndirectIndex)
      requires Shape(was) && handle in was.entries && IsValid(was, i) && View() == Misdirected(was, handle)
      requires !misled && !wrapped ==> Covers(was) && Refers(was) && (!leaked ==> Exact(was))
      requires numMembers == |mbrHandles| && numGroups == |grpHandles| && |actionEntries| == |mbrCount|
      modifies this`mbrCount, this`grpCount, this`entries, this`wrapped
      ensures Valid() && View() == Redirected(was, handle, i)
      ensures wrapped ==> old(wrapped) || Count(was, i) >= TWO32 - 1
    {
      hide Covers, Refers, Exact, KeepsSlack;
      RedirectedShape(was, handle, i);
      ValidHasCount(View(), i);
      if !misled && !wrapped {
        if Count(was, i) < TWO32 - 1 {
          RedirectedOk(was, handle, i);
          AfterStep(was, Redirected(was, handle, i));
        } else {
          wrapped := true;
        }
      }
      SetCount(i, Inc(GetCount(i)));
      entries := entries[handle := i];
      assert View() == Redirected(was, handle, i);
    }

    method CreateGroup() returns (grp: nat)
      requires Valid() && |grpHandles| <= INDEX_MASK
      modifies this`grpHandles, this`numGroups, this`grpCount, this`groupEntries
      ensures Valid() && grp <= INDEX_MASK && grp !in old(grpHandles) && grp <= old(|groupEntries|)
      ensures grp <= old(|grpCount|) == old(|groupEntries|) && View() == WithGroup(old(View()), grp)
    {
      hide Covers, Refers, Exact, KeepsSlack;
      grp := FirstFree(grpHandles);
      assert |grpCount| !in grpHandles;
      WithGroupOk(View(), grp);
      AfterStep(View(), WithGroup(View(), grp));
      groupEntries := Set(groupEntries, grp, {});
      grpCount := Set(grpCount, grp, 0);
      grpHandles := grpHandles + {grp};
      numGroups := numGroups + 1;
      assert View() == WithGroup(old(View()), grp);
    }

    /** A group goes only if no entry has it; its members are used once less. */
    method DeleteGroup(grp: nat) returns (rc: ErrorCode)
      requires Valid()
      modifies this`mbrCount, this`grpHandles, this`numGroups
      ensures Valid()
      ensures rc == if grp !in old(grpHandles) then INVALID_GRP_HANDLE
                    else if old(grpCount[grp]) > 0 then GRP_STILL_USED else SUCCESS
      ensures rc == SUCCESS ==> grp < |groupEntries|
      ensures View() == if rc == SUCCESS then WithoutGroup(old(View()), grp) else old(View())
      ensures rc == SUCCESS && !misled && !wrapped ==> forall h | h in entries :: entries[h] != Grp(grp)
    {
      hide Covers, Refers, Exact, KeepsSlack, AllDec, Dec;
      if grp !in grpHandles {
        return INVALID_GRP_HANDLE;
      }
      if grpCount[grp] > 0 {
        return GRP_STILL_USED;
      }
      ghost var was := View();
      GroupMayGo(was, grp);
      DecreaseAll(groupEntries[grp]);
      grpHandles := grpHandles - {grp};
      numGroups := numGroups - 1;
      assert View() == WithoutGroup(was, grp);
      rc := SUCCESS;
    }

    /** The loop over the members of a group. */
    method DecreaseAll(mbrs: set<nat>)
      modifies this`mbrCount
      ensures mbrCount == AllDec(old(mbrCount), mbrs)
    {
      var rest := mbrs;
      while rest != {}
        invariant rest <= mbrs && mbrCount == AllDec(old(mbrCount), mbrs - rest)
      {
        var m :| m in rest;
        rest := rest - {m};
        if m < |mbrCount| {
          mbrCount := mbrCount[m := Dec(mbrCount[m])];
        }
      }
      assert mbrs - rest == mbrs;
    }

    method AddMemberToGroup(mbr: nat, grp: nat) returns (rc: ErrorCode)
      requires Valid()
      modifies this`mbrCount, this`grpCount, this`groupEntries, this`wrapped
      ensures Valid()
      ensures rc == if mbr !in mbrHandles then INVALID_MBR_HANDLE
                    else if grp !in grpHandles then INVALID_GRP_HANDLE
                    else if mbr in old(groupEntries[grp]) then MBR_ALREADY_IN_GRP else SUCCESS
      ensures rc == SUCCESS ==> grp < old(|groupEntries|)
      ensures View() == if rc == SUCCESS
                        then WithMembers(Increase(old(View()), Mbr(mbr)), grp, old(groupEntries[grp]) + {mbr})
                        else old(View())
      ensures wrapped ==> old(wrapped) || Count(old(View()), Mbr(mbr)) == TWO32 - 1
    {
      hide Covers, Refers, Exact, KeepsSlack;
      if mbr !in mbrHandles {
        return INVALID_MBR_HANDLE;
      }
      if grp !in grpHandles {
        return INVALID_GRP_HANDLE;
      }
      if mbr in groupEntries[grp] {
        return MBR_ALREADY_IN_GRP;
      }
      ghost var was := View();
      ghost var now := WithMembers(Increase(was, Mbr(mbr)), grp, was.groups[grp] + {mbr});
      RegroupedShape(was, mbr, Inc(mbrCount[mbr]), grp, was.groups[grp] + {mbr});
      if mbrCount[mbr] < TWO32 - 1 {
        JoinedOk(was, mbr, grp);
        AfterStep(was, now);
      } else {
        wrapped := true;
      }
      groupEntries := groupEntries[grp := groupEntries[grp] + {mbr}];
      SetCount(Mbr(mbr), Inc(mbrCount[mbr]));
      assert View() == now;
      rc := SUCCESS;
    }

    method RemoveMemberFromGroup(mbr: nat, grp: nat) returns (rc: ErrorCode)
      requires Valid()
      modifies this`mbrCount, this`grpCount, this`groupEntries
      ensures Valid()
      ensures rc == if mbr !in mbrHandles then INVALID_MBR_HANDLE
                    else if grp !in grpHandles then INVALID_GRP_HANDLE
                    else if mbr !in old(groupEntries[grp]) then MBR_NOT_IN_GRP else SUCCESS
      ensures rc == SUCCESS ==> grp < old(|groupEntries|)
      ensures View() == if rc == SUCCESS
                        then WithMembers(Decrease(old(View()), Mbr(mbr)), grp, old(groupEntries[grp]) - {mbr})
                        else old(View())
    {
      hide Covers, Refers, Exact, KeepsSlack;
      if mbr !in mbrHandles {
        return INVALID_MBR_HANDLE;
      }
      if grp !in grpHandles {
        return INVALID_GRP_HANDLE;
      }
      if mbr !in groupEntries[grp] {
        return MBR_NOT_IN_GRP;
      }
      ghost var was := View();
      ghost var now := WithMembers(Decrease(was, Mbr(mbr)), grp, was.groups[grp] - {mbr});
      RegroupedShape(was, mbr, Dec(mbrCount[mbr]), grp, was.groups[grp] - {mbr});
      if !misled && !wrapped {
        LeftOk(was, mbr, grp);
        AfterStep(was, now);
      }
      groupEntries := groupEntries[grp := groupEntries[grp] - {mbr}];
      SetCount(Mbr(mbr), Dec(mbrCount[mbr]));
      assert View() == now;
      rc := SUCCESS;
    }

    /** The default is not counted as a use. */
    method SetDefault(i: IndirectIndex) returns (rc: ErrorCode)
      requires Valid()
      modifies this`defaultIndex, this`defaultSet
      ensures Valid() && View() == old(View())
      ensures rc == if IsValid(View(), i) then SUCCESS else if i.Mbr? then INVALID_MBR_HANDLE else INVALID_GRP_HANDLE
      ensures rc == SUCCESS ==> defaultSet && defaultIndex == i
      ensures rc != SUCCESS ==> defaultSet == old(defaultSet) && defaultIndex == old(defaultIndex)
    {
      hide Covers, Refers, Exact;
      if i.Mbr? && i.mbr !in mbrHandles {
        return INVALID_MBR_HANDLE;
      }
      if i.Grp? && i.grp !in grpHandles {
        return INVALID_GRP_HANDLE;
      }
      defaultIndex, defaultSet := i, true;
      rc := SUCCESS;
    }

    /** What an index leads to; of a group, any member may be chosen. */
    method Resolve(i: IndirectIndex) returns (r: Reached)
      requires Valid()
      ensures r == AssertFails || (r.Member? && r.m in mbrHandles && Leads(i, r.m))
      ensures IsValid(View(), i) && (i.Grp? ==> groupEntries[i.grp] != {} && groupEntries[i.grp] <= mbrHandles)
              ==> r.Member?
      ensures !IsValid(View(), i) || (i.Grp? && groupEntries[i.grp] == {}) ==> r == AssertFails
    {
      hide Covers, Refers, Exact;
      match i
      case Mbr(m) => r := if m in mbrHandles then Member(m) else AssertFails;
      case Grp(g) =>
        if g !in grpHandles || groupEntries[g] == {} {
          return AssertFails;
        }
        var m :| m in groupEntries[g];
        r := if m in mbrHandles then Member(m) else AssertFails;
    }

    /** The group of an entry has a list of members. */
    lemma GroupThere(handle: nat)
      requires Valid() && handle in entries
      ensures entries[handle].Grp? ==> entries[handle].grp < |groupEntries|
    {
      hide Covers, Exact;
    }

    ghost predicate Leads(i: IndirectIndex, m: nat)
      reads this
    {
      match i
      case Mbr(n) => m == n
      case Grp(g) => g < |groupEntries| && m in groupEntries[g]
    }

    /** A hit reaches a member that is there, unless it is for a group that was emptied
        since.  A miss reaches the default, which may be gone. */
    method Lookup(hit: bool, handle: nat) returns (r: Reached)
      requires Valid() && (hit ==> handle in entries)
      ensures !hit ==> (r == Nothing <==> !defaultSet)
      ensures hit ==> r != Nothing && (r.Member? ==> r.m in mbrHandles && Leads(entries[handle], r.m))
      ensures hit && !misled && !wrapped ==>
                (r == AssertFails <==> entries[handle].Grp? && groupEntries[entries[handle].grp] == {})
      ensures !hit && r.Member? ==> r.m in mbrHandles && Leads(defaultIndex, r.m)
      ensures !hit && defaultSet && !misled && !wrapped ==>
                (r == AssertFails <==> !IsValid(View(), defaultIndex)
                                       || (defaultIndex.Grp? && groupEntries[defaultIndex.grp] == {}))
      ensures !hit && defaultSet && !IsValid(View(), defaultIndex) ==> r == AssertFails
    {
      hide Covers, Exact;
      if !hit && !defaultSet {
        return Nothing;
      }
      r := Resolve(if hit then entries[handle] else defaultIndex);
    }
  }

  /** What a lookup comes to.  The source asserts that there is a member to reach. */
  datatype Reached = Nothing | Member(m: nat) | AssertFails

  lemma DecreasedValid(s: State, i: IndirectIndex, j: IndirectIndex)
    requires Shape(s) && HasCount(s, i)
    ensures IsValid(Decrease(s, i), j) == IsValid(s, j) && Decrease(s, i).groups == s.groups
  {
    CountedIs(s, i, Dec(Count(s, i)), j);
  }

  lemma GroupMayGo(s: State, g: nat)
    requires Shape(s) && g in s.grps && Count(s, Grp(g)) == 0
    ensures Shape(WithoutGroup(s, g))
    ensures Covers(s) && Refers(s) ==>
              && Covers(WithoutGroup(s, g)) && Refers(WithoutGroup(s, g)) && (Exact(s) ==> Exact(WithoutGroup(s, g)))
              && forall h | h in s.entries :: s.entries[h] != Grp(g)
  {
    hide Covers, Refers, Exact, KeepsSlack, Count, AllDec, Dec;
    WithoutGroupShape(s, g);
    if Covers(s) && Refers(s) {
      WithoutGroupOk(s, g);
      AfterStep(s, WithoutGroup(s, g));
      Unused(s, Grp(g));
    }
  }

  /** A step that keeps the slack keeps the counts right. */
  lemma AfterStep(s: State, t: State)
    requires Covers(s) && Refers(s) ==> KeepsSlack(s, t)
    ensures Covers(s) && Refers(s) ==> Covers(t) && (Exact(s) ==> Exact(t))
  {
    hide *;
    if Covers(s) && Refers(s) {
      SlackKept(s, t);
    }
  }
}
