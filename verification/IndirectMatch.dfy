/** An indirect table together with its match unit: what a packet reaches. */
module IndirectMatch {
  import opened KeyBuilder
  import opened KeyTheorems
  import opened LookupStructures
  import opened MatchKeys
  import opened MatchUnit
  import opened RefCounts
  import opened Wrappers
  import IndirectTables

  type Entries = seq<Entry<IndirectIndex>>

  predicate IsLive(entries: Entries, handles: set<Handle>, e: nat) {
    var h := HandleInternal(e);
    h in handles && h < |entries| && entries[h].version == HandleVersion(e)
  }

  /** The table knows the live handles of its match unit, and what they lead to. */
  ghost predicate Known(entries: Entries, handles: set<Handle>, known: map<nat, IndirectIndex>) {
    && (forall e: nat :: e in known <==> IsLive(entries, handles, e))
    && (forall e | e in known :: entries[HandleInternal(e)].value == known[e])
  }

  lemma SameHandle(e: nat, f: nat)
    requires HandleInternal(e) == HandleInternal(f) && HandleVersion(e) == HandleVersion(f)
    ensures e == f
  {
  }

  lemma KnownAdd(entries: Entries, handles: set<Handle>, known: map<nat, IndirectIndex>,
                 entry: Entry<IndirectIndex>, e: nat)
    requires Known(entries, handles, known)
    requires var h := HandleInternal(e); h < |entries| && h !in handles && entry.version == HandleVersion(e)
    ensures var h := HandleInternal(e);
            e !in known && Known(entries[h := entry], handles + {h}, known[e := entry.value])
  {
    hide HandleInternal, HandleVersion;
    var h := HandleInternal(e);
    assert !IsLive(entries, handles, e);
    forall f: nat | f != e
      ensures IsLive(entries, handles, f) <==> IsLive(entries[h := entry], handles + {h}, f)
    {
      if HandleInternal(f) == h && HandleVersion(f) == HandleVersion(e) {
        SameHandle(e, f);
      }
    }
  }

  lemma KnownDelete(entries: Entries, handles: set<Handle>, known: map<nat, IndirectIndex>, version: nat, e: nat)
    requires Known(entries, handles, known) && IsLive(entries, handles, e)
    ensures var h := HandleInternal(e);
            Known(entries[h := entries[h].(version := version)], handles - {h}, known - {e})
  {
    hide HandleInternal, HandleVersion;
    var h := HandleInternal(e);
    var entries' := entries[h := entries[h].(version := version)];
    forall f: nat ensures IsLive(entries', handles - {h}, f) <==> IsLive(entries, handles, f) && f != e {
      if HandleInternal(f) == h && HandleVersion(f) == HandleVersion(e) {
        SameHandle(e, f);
      }
    }
  }

  lemma KnownModify(entries: Entries, handles: set<Handle>, known: map<nat, IndirectIndex>, value: IndirectIndex,
                    e: nat)
    requires Known(entries, handles, known) && IsLive(entries, handles, e)
    ensures var h := HandleInternal(e);
            Known(entries[h := entries[h].(value := value)], handles, known[e := value])
  {
    hide HandleInternal, HandleVersion;
    var h := HandleInternal(e);
    var entries' := entries[h := entries[h].(value := value)];
    forall f: nat ensures IsLive(entries', handles, f) <==> IsLive(entries, handles, f) {
    }
    forall f | f in known && f != e
      ensures IsLive(entries, handles, f) && entries'[HandleInternal(f)].value == known[f]
    {
      if HandleInternal(f) == h {
        SameHandle(e, f);
      }
    }
  }

  lemma NothingKnown(entries: Entries)
    ensures Known(entries, {}, map[])
  {
  }

  /** Entries are matched by packets in `unit`; members and groups are kept in `table`,
      which is told of every entry. */
  class IndirectMatchTable<A> {
    const unit: MatchUnitGeneric<IndirectIndex>
    const table: IndirectTables.IndirectTable<A>

    ghost predicate Valid()
      reads unit, unit.keyBuilder, unit.entries, unit.structure.Repr(), table
    {
      && unit.Valid() && table.Valid()
      && Known(unit.entries[..], unit.handles, table.entries)
    }

    constructor (unit: MatchUnitGeneric<IndirectIndex>, table: IndirectTables.IndirectTable<A>)
      requires unit.Valid() && unit.handles == {} && table.Valid() && table.entries == map[]
      ensures Valid() && this.unit == unit && this.table == table
    {
      hide MatchUnitGeneric.Valid, IndirectTables.IndirectTable.Valid, Known;
      assert forall o | o in unit.structure.Repr() :: allocated(o);
      this.unit, this.table := unit, table;
      new;
      NothingKnown(unit.entries[..]);
      assert unit.handles == {} && table.entries == map[];
    }

    /** The table is not part of the unit. */
    ghost predicate Apart()
      reads unit, if unit.structure.Lpm? then {unit.structure.trie.trie} else {}
    {
      table as object !in unit.Repr() && table as object != unit.keyBuilder
    }

    /** `add_entry` and `add_entry_ws`: the match unit is only asked if there is such a
        target. */
    method AddEntry(params: seq<Param>, i: IndirectIndex, priority: int)
      returns (rc: IndirectTables.ErrorCode, unitRc: ErrorCode, handle: nat)
      requires Valid() && Apart() && (unit.kind == TernaryUnit ==> priority < MAX_PRIORITY)
      modifies unit.Repr(), table
      ensures Valid() && fresh(unit.Repr() - old(unit.Repr()))
      ensures rc == IndirectTables.SUCCESS ==>
                && handle !in old(table.entries) && table.entries == old(table.entries)[handle := i]
                && unit.requested == old(unit.requested)[HandleInternal(handle) := Request(params, priority)]
      ensures rc == IndirectTables.SUCCESS <==> old(table.Accepts(i)) && unitRc == SUCCESS
      ensures rc != IndirectTables.SUCCESS ==>
                table.entries == old(table.entries) && unit.requested == old(unit.requested)
      ensures unchanged(table`mbrHandles, table`grpHandles, table`actionEntries, table`groupEntries,
                        table`defaultIndex, table`defaultSet)
    {
      hide MatchUnitGeneric.Valid, IndirectTables.IndirectTable.Valid, Known, HandleInternal, HandleVersion,
           WithoutEntry, Redirected, Misdirected, WithEntry, Increase, IndexAfter, LosesOthers, Shape, IsValid, Count,
           KeyOf, AllSane, Id, MatchUnitGeneric.Present;
      Parts();
      AcceptsIff(i);
      unitRc, handle := SUCCESS, 0;
      var taken := false;
      if table.Accepts(i) {
        unitRc, handle := AddToUnit(params, i, priority);
        taken := unitRc == SUCCESS;
      }
      EntriesAfter(table.View(), handle, i);
      rc := table.AddEntry(i, taken, handle);
    }

    /** The match unit takes the entry under a handle that the table does not know yet. */
    method AddToUnit(params: seq<Param>, i: IndirectIndex, priority: int) returns (rc: ErrorCode, handle: nat)
      requires Valid() && Apart() && (unit.kind == TernaryUnit ==> priority < MAX_PRIORITY)
      modifies unit.Repr()
      ensures unit.Valid() && table.Valid() && Apart() && fresh(unit.Repr() - old(unit.Repr()))
      ensures rc == SUCCESS ==>
                && handle !in table.entries
                && Known(unit.entries[..], unit.handles, table.entries[handle := i])
                && unit.requested == old(unit.requested)[HandleInternal(handle) := Request(params, priority)]
      ensures rc != SUCCESS ==>
                Known(unit.entries[..], unit.handles, table.entries) && unit.requested == old(unit.requested)
    {
      hide MatchUnitGeneric.Valid, IndirectTables.IndirectTable.Valid, Known, HandleInternal, HandleVersion,
           IndexAfter, LosesOthers, KeyOf, AllSane, Id, MatchUnitGeneric.Present;
      Parts();
      ghost var was, wasHandles := unit.entries[..], unit.handles;
      rc, handle := unit.AddEntry(params, i, priority);
      if rc == SUCCESS {
        KnownAdd(was, wasHandles, table.entries, unit.entries[HandleInternal(handle)], handle);
      }
    }

    lemma Parts()
      requires Valid()
      ensures unit.Valid() && table.Valid() && Known(unit.entries[..], unit.handles, table.entries)
      ensures unit.size == unit.entries.Length
    {
      hide MatchUnitGeneric.Valid, IndirectTables.IndirectTable.Valid, Known;
      unit.Parts();
    }

    lemma AcceptsIff(i: IndirectIndex)
      requires Valid()
      ensures table.Accepts(i) <==> IsValid(table.View(), i) && (i.Grp? ==> table.groupEntries[i.grp] != {})
    {
      hide MatchUnitGeneric.Valid, Known;
    }

    /** The handles that the table knows are the live ones. */
    lemma LiveIsKnown(e: nat)
      requires Valid()
      ensures unit.size == unit.entries.Length && (e in table.entries <==> unit.Live(e))
      ensures unit.HandleStatus(e) == SUCCESS <==> unit.Live(e)
      ensures e in table.entries ==> unit.entries[HandleInternal(e)].value == table.entries[e]
    {
      hide MatchUnitGeneric.Valid, IndirectTables.IndirectTable.Valid, HandleInternal, HandleVersion;
      Parts();
      unit.StatusOf(e);
      assert e in table.entries <==> IsLive(unit.entries[..], unit.handles, e);
    }

    /** `delete_entry`. */
    method DeleteEntry(handle: nat) returns (rc: IndirectTables.ErrorCode)
      requires Valid() && Apart()
      modifies unit.Repr(), table
      ensures Valid()
      ensures rc == if handle in old(table.entries) then IndirectTables.SUCCESS else IndirectTables.INVALID_HANDLE
      ensures table.entries == old(table.entries) - {handle}
      ensures unit.requested == if handle in old(table.entries) then old(unit.requested) - {HandleInternal(handle)}
                                else old(unit.requested)
      ensures unchanged(table`mbrHandles, table`grpHandles, table`actionEntries, table`groupEntries,
                        table`defaultIndex, table`defaultSet)
    {
      hide MatchUnitGeneric.Valid, IndirectTables.IndirectTable.Valid, Known, HandleInternal, HandleVersion,
           WithoutEntry, Redirected, Misdirected, WithEntry, Increase, IndexAfter, LosesOthers, Shape, IsValid, Count;
      Parts();
      LiveIsKnown(handle);
      EntriesAfter(table.View(), handle, Mbr(0));
      ghost var was, wasHandles := unit.entries[..], unit.handles;
      var unitRc := unit.DeleteEntry(handle);
      if unitRc == SUCCESS {
        KnownDelete(was, wasHandles, table.entries, (was[HandleInternal(handle)].version + 1) % TWO32, handle);
      }
      rc := table.DeleteEntry(handle);
    }

    /** `modify_entry` and `modify_entry_ws`. */
    method ModifyEntry(handle: nat, i: IndirectIndex) returns (rc: IndirectTables.ErrorCode)
      requires Valid() && Apart()
      modifies unit.entries, table
      ensures Valid()
      ensures table.entries ==
              if rc == IndirectTables.SUCCESS then old(table.entries)[handle := i] else old(table.entries)
      ensures rc == IndirectTables.SUCCESS <==> handle in old(table.entries) && old(table.Accepts(i))
      ensures unchanged(table`mbrHandles, table`grpHandles, table`actionEntries, table`groupEntries,
                        table`defaultIndex, table`defaultSet)
    {
      hide MatchUnitGeneric.Valid, IndirectTables.IndirectTable.Valid, Known, HandleInternal, HandleVersion,
           WithoutEntry, Redirected, Misdirected, WithEntry, Increase, IndexAfter, LosesOthers, Shape, IsValid, Count;
      Parts();
      LiveIsKnown(handle);
      AcceptsIff(i);
      EntriesAfter(table.View(), handle, i);
      ghost var was, wasHandles := unit.entries[..], unit.handles;
      if handle in table.entries {
        KnownModify(was, wasHandles, table.entries, i, handle);
      }
      rc := table.ModifyEntry(handle, i);
      if rc == IndirectTables.SUCCESS {
        var unitRc := unit.ModifyEntry(handle, i);
      }
    }

    /** What a packet reaches is a member that is there, of the target of the best entry
        that it matches, or of the default if it matches none; unless the target is a
        group that was emptied, or a default that is gone. */
    method Lookup(phv: Phv) returns (found: Option<nat>, r: IndirectTables.Reached)
      requires Valid() && unit.layout.Valid() && unit.layout.Covers(phv)
      ensures unit.size == unit.entries.Length
      ensures found.None? ==>
                && (forall h: Handle :: !Eligible(unit.layout, Reached(unit.requested, unit.index), phv, h))
                && (r == IndirectTables.Nothing <==> !table.defaultSet)
                && (r.Member? ==> r.m in table.mbrHandles && table.Leads(table.defaultIndex, r.m))
      ensures found.Some? ==> var h := HandleInternal(found.value);
                && h < unit.size && unit.Live(found.value)
                && Wins(unit.layout, unit.entries[..], Reached(unit.requested, unit.index), phv, h)
                && Arrives(unit.entries[h].value, r)
      ensures unit.InStep() ==> Reached(unit.requested, unit.index) == unit.requested
    {
      hide MatchUnitGeneric.Valid, IndirectTables.IndirectTable.Valid, Known, HandleInternal, HandleVersion,
           WithoutEntry, Redirected, Misdirected, WithEntry, Increase, IndexAfter, LosesOthers, Shape, IsValid, Count;
      Parts();
      var hit := unit.Lookup(phv);
      if hit.None? {
        r := table.Lookup(false, 0);
        return None, r;
      }
      LiveIsKnown(hit.value.0);
      table.GroupThere(hit.value.0);
      r := table.Lookup(true, hit.value.0);
      return Some(hit.value.0), r;
    }

    /** What is done to members and groups alone leaves the entries matched. */
    twostate lemma StillValid()
      requires old(Valid()) && unit.Valid() && table.Valid() && table.entries == old(table.entries)
      requires unit.entries[..] == old(unit.entries[..]) && unit.handles == old(unit.handles)
      ensures Valid()
    {
      hide MatchUnitGeneric.Valid, IndirectTables.IndirectTable.Valid, Known;
    }

    /** A member of the target, unless the target is a group that was emptied. */
    ghost predicate Arrives(i: IndirectIndex, r: IndirectTables.Reached)
      reads table
    {
      && r != IndirectTables.Nothing
      && (r.Member? ==> r.m in table.mbrHandles && table.Leads(i, r.m))
      && (!table.misled && !table.wrapped ==>
            (r == IndirectTables.AssertFails <==>
             i.Grp? && i.grp < |table.groupEntries| && table.groupEntries[i.grp] == {}))
    }
  }
}
