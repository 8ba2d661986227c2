/** A table of entries with versioned handles, kept in step with an index. */
module MatchUnit {
  import opened Bits
  import opened Handles
  import opened KeyBuilder
  import opened KeyTheorems
  import opened LookupStructures
  import opened MatchKeys
  import opened MatchParams
  import opened PrefixKeys
  import opened Wrappers

  datatype ErrorCode =
    SUCCESS | TABLE_FULL | INVALID_HANDLE | EXPIRED_HANDLE | DUPLICATE_ENTRY | BAD_MATCH_KEY

  /** A handle for clients: the version of an entry above its index. */
  function HandleSet(version: nat, h: Handle): (r: nat)
    requires h < TWO32
    ensures HandleInternal(r) == h && HandleVersion(r) == version
  {
    version * TWO32 + h
  }

  function HandleInternal(handle: nat): Handle { handle % TWO32 }

  function HandleVersion(handle: nat): nat { handle / TWO32 }

  datatype Entry<V> = Entry(key: MatchKey, version: nat, value: V)

  /** What a client asked for when it added an entry. */
  datatype Request = Request(params: seq<Param>, priority: int)

  /** One of the three lookup structures. */
  datatype Structure = Exact(exactMap: ExactMap) | Lpm(trie: LpmTrieStructure) | Ternary(keys: TernaryMap) {

    ghost function Repr(): set<object>
      reads if Lpm? then {trie.trie} else {}
    {
      match this
      case Exact(m) => {m}
      case Lpm(t) => {t.trie} + t.trie.nodes.Values
      case Ternary(k) => {k.keys}
    }

    predicate KeyFits(k: MatchKey) {
      match this
      case Exact(_) => k.ExactKey?
      case Lpm(_) => k.LpmKey?
      case Ternary(_) => k.TernaryKey?
    }

    /** The structure holds `index`, for keys of `width` bytes. */
    ghost predicate Agrees(index: Index, width: nat)
      reads Repr()
    {
      match this
      case Exact(m) => m.Index() == index
      case Lpm(t) => t.Valid() && t.Index() == index && t.trie.keyWidth == width
      case Ternary(k) => k.Valid() && k.Holds(index) && k.nbytesKey == width
    }

    method Lookup(key: seq<Byte>, ghost index: Index) returns (result: Option<Handle>)
      requires Agrees(index, |key|)
      ensures IsLookup(index, key, result)
    {
      match this
      case Exact(m) => result := m.Lookup(key);
      case Lpm(t) => result := t.Lookup(key);
      case Ternary(k) => result := k.Lookup(key, index);
    }

    method EntryExists(key: MatchKey, ghost index: Index, ghost width: nat) returns (found: bool)
      requires Agrees(index, width) && KeyFits(key) && WellFormed(key, width)
      ensures found <==> Id(key) in index
    {
      match this
      case Exact(m) => found := m.EntryExists(key);
      case Lpm(t) => found := t.EntryExists(key);
      case Ternary(k) =>
        var h := k.FindHandle(key, index);
        found := h != k.keys.Length;
    }

    method AddEntry(key: MatchKey, handle: Handle, ghost index: Index, ghost width: nat)
      requires Agrees(index, width) && KeyFits(key) && WellFormed(key, width) && Id(key) !in index
      requires handle !in index.Values && (Ternary? ==> handle < keys.keys.Length)
      modifies Repr()
      ensures Agrees(index[Id(key) := handle], width) && fresh(Repr() - old(Repr()))
    {
      match this
      case Exact(m) => m.AddEntry(key, handle);
      case Lpm(t) => t.AddEntry(key, handle);
      case Ternary(k) => k.AddEntry(key, handle, index);
    }

    /** A trie takes a key that it has lost already. */
    method DeleteEntry(key: MatchKey, ghost index: Index, ghost width: nat)
      requires Agrees(index, width) && KeyFits(key) && WellFormed(key, width) && (Lpm? || Id(key) in index)
      modifies Repr()
      ensures Agrees(IndexAfter(index, key), width)
      ensures Repr() <= old(Repr())
    {
      match this
      case Exact(m) => m.DeleteEntry(key);
      case Lpm(t) => t.DeleteEntry(key);
      case Ternary(k) => k.DeleteEntry(key, index);
    }
  }

  // ----- entries and index -----

  ghost predicate Fulfils(kind: UnitKind, l: Layout, key: MatchKey, r: Request)
    requires l.Valid()
  {
    && AllSane(r.params, l.fields) && key == KeyOf(kind, l, r.params, r.priority)
    && WellFormed(key, |l.Join(l.masks)|)
  }

  /** Entry `h` is what was asked for. */
  ghost predicate Kept<V>(kind: UnitKind, l: Layout, entries: seq<Entry<V>>, requested: map<Handle, Request>, h: Handle)
    requires l.Valid()
  {
    h in requested && h < |entries| && Fulfils(kind, l, entries[h].key, requested[h])
  }

  /** Every handle stands for an entry that was asked for, and the index leads to such
      entries only. */
  ghost predicate Consistent<V>(kind: UnitKind, l: Layout, entries: seq<Entry<V>>, handles: set<Handle>,
                                requested: map<Handle, Request>, index: Index)
    requires l.Valid()
  {
    && requested.Keys == handles
    && (forall h | h in handles :: Kept(kind, l, entries, requested, h))
    && (forall id | id in index :: index[id] in handles && Id(entries[index[id]].key) == id)
  }

  /** The index leads to every entry, so entries and index agree. */
  ghost predicate Complete<V>(entries: seq<Entry<V>>, handles: set<Handle>, index: Index) {
    forall h | h in handles :: IsIndexed(entries, index, h)
  }

  ghost predicate IsIndexed<V>(entries: seq<Entry<V>>, index: Index, h: Handle) {
    h < |entries| && Id(entries[h].key) in index && index[Id(entries[h].key)] == h
  }

  /** The index after the deletion of a key. */
  ghost function IndexAfter(index: Index, key: MatchKey): Index {
    if key.LpmKey? && key.prefixLength <= 8 * |key.data| then AfterDelete(index, key) else index - {Id(key)}
  }

  lemma IndexAfterParts(index: Index, key: MatchKey)
    ensures forall id | id in IndexAfter(index, key) ::
              id in index && id != Id(key) && IndexAfter(index, key)[id] == index[id]
    ensures IndexAfter(index, key) == index - {Id(key)} <==> !Loses(index, key)
  {
    hide LosesMore, Id, AfterDelete;
    if key.LpmKey? && key.prefixLength <= 8 * |key.data| {
      OnlyThePrefixIff(index, key);
    }
  }

  /** Deleting the key loses other keys of the index. */
  ghost predicate Loses(index: Index, key: MatchKey) {
    key.LpmKey? && key.prefixLength <= 8 * |key.data| && LosesMore(index, key)
  }

  lemma AddConsistent<V>(kind: UnitKind, l: Layout, entries: seq<Entry<V>>, handles: set<Handle>,
                         requested: map<Handle, Request>, index: Index, h: Handle, e: Entry<V>, r: Request)
    requires l.Valid() && Consistent(kind, l, entries, handles, requested, index)
    requires h !in handles && h < |entries| && Fulfils(kind, l, e.key, r) && Id(e.key) !in index
    ensures Consistent(kind, l, entries[h := e], handles + {h}, requested[h := r], index[Id(e.key) := h])
    ensures Complete(entries[h := e], handles + {h}, index[Id(e.key) := h]) <==> Complete(entries, handles, index)
  {
    hide Fulfils, Id;
    var entries', requested', index' := entries[h := e], requested[h := r], index[Id(e.key) := h];
    forall i | i in handles + {h} ensures Kept(kind, l, entries', requested', i) {
      if i != h {
        assert Kept(kind, l, entries, requested, i);
      }
    }
    forall id | id in index' ensures index'[id] in handles + {h} && Id(entries'[index'[id]].key) == id {
    }
    forall i | i in handles ensures IsIndexed(entries', index', i) <==> IsIndexed(entries, index, i) {
      assert Kept(kind, l, entries, requested, i);
    }
    assert IsIndexed(entries', index', h);
    if Complete(entries', handles + {h}, index') {
      forall i | i in handles ensures IsIndexed(entries, index, i) {
        assert i in handles + {h};
      }
    }
  }

  lemma DeleteConsistent<V>(kind: UnitKind, l: Layout, entries: seq<Entry<V>>, handles: set<Handle>,
                            requested: map<Handle, Request>, index: Index, h: Handle, version: nat)
    requires l.Valid() && Consistent(kind, l, entries, handles, requested, index) && h in handles
    ensures h < |entries| && Fulfils(kind, l, entries[h].key, requested[h])
    ensures Consistent(kind, l, entries[h := entries[h].(version := version)], handles - {h}, requested - {h},
                       IndexAfter(index, entries[h].key))
  {
    hide Fulfils, Id, IndexAfter;
    assert Kept(kind, l, entries, requested, h);
    var entries', requested', index' :=
      entries[h := entries[h].(version := version)], requested - {h}, IndexAfter(index, entries[h].key);
    IndexAfterParts(index, entries[h].key);
    forall i | i in handles - {h} ensures Kept(kind, l, entries', requested', i) {
      assert Kept(kind, l, entries, requested, i);
    }
    forall id | id in index' ensures index'[id] in handles - {h} && Id(entries'[index'[id]].key) == id {
    }
  }

  /** Entries and index that agree still do so after a deletion if and only if it loses
      no other key. */
  lemma DeleteComplete<V>(kind: UnitKind, l: Layout, entries: seq<Entry<V>>, handles: set<Handle>,
                          requested: map<Handle, Request>, index: Index, h: Handle, version: nat)
    requires l.Valid() && Consistent(kind, l, entries, handles, requested, index) && h in handles
    requires Complete(entries, handles, index)
    ensures h < |entries|
    ensures Complete(entries[h := entries[h].(version := version)], handles - {h}, IndexAfter(index, entries[h].key))
            <==> !Loses(index, entries[h].key)
  {
    hide Fulfils, Id, IndexAfter, Loses;
    assert IsIndexed(entries, index, h);
    var entries', index' := entries[h := entries[h].(version := version)], IndexAfter(index, entries[h].key);
    IndexAfterParts(index, entries[h].key);
    forall i | i in handles - {h} ensures IsIndexed(entries', index', i) <==> Id(entries[i].key) in index' {
      assert IsIndexed(entries, index, i);
      assert entries'[i] == entries[i];
    }
    if index' == index - {Id(entries[h].key)} {
      forall i | i in handles - {h} ensures IsIndexed(entries', index', i) {
        assert IsIndexed(entries, index, i);
      }
    } else {
      var id :| id in index && id != Id(entries[h].key) && id !in index';
      assert IsIndexed(entries, index, index[id]);
      assert index[id] in handles - {h} && !IsIndexed(entries', index', index[id]);
    }
  }

  /** The prefix that a request is for. */
  ghost function PrefixOf(l: Layout, r: Request): seq<bool>
    requires l.Valid()
  {
    if AllSane(r.params, l.fields) then
      var id := Id(KeyOf(LpmUnit, l, r.params, r.priority));
      if id.PrefixId? then id.bits else []
    else []
  }

  ghost predicate Extends(l: Layout, requested: map<Handle, Request>, q: seq<bool>)
    requires l.Valid()
  {
    exists i :: i in requested && q <= PrefixOf(l, requested[i])
  }

  /** In terms of the requests: the prefix of entry `h` has a whole byte, some prefix goes
      on below that with each of the 256 bytes, and no other ends within the next byte. */
  ghost predicate LosesOthers(l: Layout, requested: map<Handle, Request>, h: Handle)
    requires l.Valid() && h in requested
  {
    var p := PrefixOf(l, requested[h]);
    var q := p[..8 * (|p| / 8)];
    && |p| >= 8
    && (forall b: Byte :: Extends(l, requested, q + ByteBits(b)))
    && forall i | i in requested && q <= PrefixOf(l, requested[i]) && |PrefixOf(l, requested[i])| < |q| + 8 :: i == h
  }

  /** An entry of an LPM table has the prefix of its request for an identity. */
  lemma KeptPrefix<V>(l: Layout, entries: seq<Entry<V>>, requested: map<Handle, Request>, h: Handle)
    requires l.Valid() && Kept(LpmUnit, l, entries, requested, h)
    ensures entries[h].key.LpmKey? && entries[h].key.prefixLength <= 8 * |entries[h].key.data|
    ensures Id(entries[h].key) == PrefixId(PrefixOf(l, requested[h]))
    ensures PrefixOf(l, requested[h]) == BitsOf(entries[h].key.data, entries[h].key.prefixLength)
  {
    hide AllSane, BytesBits;
  }

  lemma FollowsIff<V>(l: Layout, entries: seq<Entry<V>>, handles: set<Handle>,
                      requested: map<Handle, Request>, index: Index, q: seq<bool>)
    requires l.Valid() && Consistent(LpmUnit, l, entries, handles, requested, index)
             && Complete(entries, handles, index)
    ensures Follows(index, q) <==> Extends(l, requested, q)
  {
    hide Id, Fulfils, PrefixOf;
    if Follows(index, q) {
      var id :| id in index && StartsWith(id, q);
      KeptPrefix(l, entries, requested, index[id]);
    }
    if Extends(l, requested, q) {
      var i :| i in requested && q <= PrefixOf(l, requested[i]);
      KeptPrefix(l, entries, requested, i);
      assert IsIndexed(entries, index, i) && StartsWith(Id(entries[i].key), q);
    }
  }

  /** Whether a deletion loses other keys can be told from the requests. */
  lemma LosesIff<V>(l: Layout, entries: seq<Entry<V>>, handles: set<Handle>,
                    requested: map<Handle, Request>, index: Index, h: Handle)
    requires l.Valid() && Consistent(LpmUnit, l, entries, handles, requested, index) && h in handles
    requires Complete(entries, handles, index)
    ensures h < |entries| && (Loses(index, entries[h].key) <==> LosesOthers(l, requested, h))
  {
    hide Id, Fulfils, PrefixOf, ByteBits, BytesBits, Follows, Extends;
    forall i | i in handles
      ensures i < |entries| && Id(entries[i].key) == PrefixId(PrefixOf(l, requested[i]))
      ensures Id(entries[i].key) in index && index[Id(entries[i].key)] == i
    {
      assert IsIndexed(entries, index, i);
      KeptPrefix(l, entries, requested, i);
    }
    KeptPrefix(l, entries, requested, h);
    var key, p := entries[h].key, PrefixOf(l, requested[h]);
    var q := p[..8 * (|p| / 8)];
    BitsOfParts(key.data, key.prefixLength);
    assert q == BytesBits(key.data[..key.prefixLength / 8]);
    forall b: Byte ensures Follows(index, q + ByteBits(b)) <==> Extends(l, requested, q + ByteBits(b)) {
      FollowsIff(l, entries, handles, requested, index, q + ByteBits(b));
    }
  }

  lemma ModifyConsistent<V>(kind: UnitKind, l: Layout, entries: seq<Entry<V>>, handles: set<Handle>,
                            requested: map<Handle, Request>, index: Index, h: Handle, value: V)
    requires l.Valid() && Consistent(kind, l, entries, handles, requested, index) && h in handles
    ensures h < |entries|
    ensures Consistent(kind, l, entries[h := entries[h].(value := value)], handles, requested, index)
    ensures Complete(entries[h := entries[h].(value := value)], handles, index) <==> Complete(entries, handles, index)
  {
    hide Fulfils, Id;
    assert Kept(kind, l, entries, requested, h);
    var entries' := entries[h := entries[h].(value := value)];
    forall i | i in handles
      ensures Kept(kind, l, entries', requested, i)
      ensures IsIndexed(entries', index, i) <==> IsIndexed(entries, index, i)
    {
      assert Kept(kind, l, entries, requested, i);
    }
  }

  // ----- versions -----

  /** Handles that were given up are older than their entries. */
  ghost predicate Outdated<V>(entries: seq<Entry<V>>, expired: set<nat>) {
    forall e | e in expired :: HandleInternal(e) < |entries| && HandleVersion(e) < entries[HandleInternal(e)].version
  }

  // ----- lookups -----

  /** Entry `h` matches a packet and no other entry that does is better. */
  ghost predicate Wins<V>(l: Layout, entries: seq<Entry<V>>, requested: map<Handle, Request>, phv: Phv, h: Handle)
    requires l.Valid() && l.Covers(phv)
  {
    && Eligible(l, requested, phv, h)
    && forall i: Handle | Eligible(l, requested, phv, i) && i != h :: Better(entries, h, i)
  }

  ghost predicate Eligible(l: Layout, requested: map<Handle, Request>, phv: Phv, h: Handle)
    requires l.Valid() && l.Covers(phv)
  {
    h in requested && AllSane(requested[h].params, l.fields) && BitsMatch(l, requested[h].params, phv)
  }

  /** Longer prefixes come first in an LPM table; lower priorities, then lower handles,
      in a ternary one. */
  ghost predicate Better<V>(entries: seq<Entry<V>>, h: Handle, i: Handle) {
    h < |entries| && i < |entries| &&
    match (entries[h].key, entries[i].key)
    case (LpmKey(_, m), LpmKey(_, n)) => m > n
    case (TernaryKey(_, _, p), TernaryKey(_, _, q)) => p < q || (p == q && h < i)
    case _ => false
  }

  /** The requests whose entries the index leads to. */
  ghost function Reached(requested: map<Handle, Request>, index: Index): (r: map<Handle, Request>)
    ensures forall h :: h in r <==> h in requested && exists id :: id in index && index[id] == h
    ensures forall h | h in r :: r[h] == requested[h]
  {
    map h | h in requested && h in index.Values :: requested[h]
  }

  lemma AllReached<V>(entries: seq<Entry<V>>, requested: map<Handle, Request>, index: Index)
    requires Complete(entries, requested.Keys, index)
    ensures Reached(requested, index) == requested
  {
    hide Id;
    forall h | h in requested ensures h in Reached(requested, index) {
      assert IsIndexed(entries, index, h);
    }
  }

  lemma EligibleIff<V>(kind: UnitKind, l: Layout, entries: seq<Entry<V>>, handles: set<Handle>,
                       requested: map<Handle, Request>, index: Index, phv: Phv, h: Handle)
    requires Table(kind, l) && l.Covers(phv) && Consistent(kind, l, entries, handles, requested, index) && h in handles
    ensures Kept(kind, l, entries, requested, h)
    ensures Eligible(l, requested, phv, h) <==> IdMatches(Id(entries[h].key), l.Key(phv))
  {
    hide Fits, Sorted, IsOrder, BitsMatch, IdMatches, Id, Matches, WellFormed;
    assert Kept(kind, l, entries, requested, h);
    MatchesBits(kind, l, requested[h].params, requested[h].priority, phv);
    KeySize(l, phv);
    IdMatchesIff(entries[h].key, l.Key(phv));
  }

  lemma KeySize(l: Layout, phv: Phv)
    requires l.Valid() && l.Covers(phv)
    ensures |l.Key(phv)| == |l.Join(l.masks)|
  {
    l.JoinAlike(l.Values(phv), l.masks);
  }

  /** What the index finds is what the entries call for that it leads to. */
  lemma LookupIsBest<V>(kind: UnitKind, l: Layout, entries: seq<Entry<V>>, handles: set<Handle>,
                        requested: map<Handle, Request>, index: Index, phv: Phv, result: Option<Handle>)
    requires Table(kind, l) && l.Covers(phv) && Consistent(kind, l, entries, handles, requested, index)
    requires IsLookup(index, l.Key(phv), result)
    ensures result.None? ==> forall h: Handle :: !Eligible(l, Reached(requested, index), phv, h)
    ensures result.Some? ==> Wins(l, entries, Reached(requested, index), phv, result.value)
  {
    hide Fits, Sorted, IsOrder, BitsMatch, IdMatches, Id, Matches, Fulfils, Eligible, Better, Beats, AllSane;
    var reached := Reached(requested, index);
    forall h: Handle | Eligible(l, reached, phv, h)
      ensures h in handles && Kept(kind, l, entries, requested, h) && Id(entries[h].key) in index
      ensures index[Id(entries[h].key)] == h && IdMatches(Id(entries[h].key), l.Key(phv))
    {
      EligibleReached(l, requested, index, phv, h);
      var id :| id in index && index[id] == h;
      EligibleIff(kind, l, entries, handles, requested, index, phv, h);
    }
    if result.Some? {
      var h := result.value;
      var id :| IsBest(index, l.Key(phv), id) && index[id] == h;
      EligibleIff(kind, l, entries, handles, requested, index, phv, h);
      EligibleReached(l, requested, index, phv, h);
      forall i: Handle | Eligible(l, reached, phv, i) && i != h ensures Better(entries, h, i) {
        assert Kept(kind, l, entries, requested, i) && Kept(kind, l, entries, requested, h);
        BeatsIsBetter(kind, l, entries, requested, h, i);
      }
    }
  }

  lemma EligibleReached(l: Layout, requested: map<Handle, Request>, index: Index, phv: Phv, h: Handle)
    requires l.Valid() && l.Covers(phv)
    ensures Eligible(l, Reached(requested, index), phv, h) <==>
            Eligible(l, requested, phv, h) && exists id :: id in index && index[id] == h
    ensures Eligible(l, requested, phv, h) ==> h in requested
  {
    hide AllSane, BitsMatch;
  }

  lemma BeatsIsBetter<V>(kind: UnitKind, l: Layout, entries: seq<Entry<V>>, requested: map<Handle, Request>,
                         h: Handle, i: Handle)
    requires l.Valid() && h < |entries| && i < |entries| && h in requested && i in requested
    requires Fulfils(kind, l, entries[h].key, requested[h]) && Fulfils(kind, l, entries[i].key, requested[i])
    requires Beats(Id(entries[h].key), h, Id(entries[i].key), i)
    ensures Better(entries, h, i)
  {
  }

  /** The winner, in terms of what the client asked for.  In an exact table no other entry
      matches; an LPM table takes the longest prefix of its LPM field; a ternary table
      takes the lowest priority, and then the lowest handle. */
  lemma WinnerByRequests<V>(kind: UnitKind, l: Layout, entries: seq<Entry<V>>, handles: set<Handle>,
                            requested: map<Handle, Request>, index: Index, phv: Phv, h: Handle, i: Handle)
    requires Table(kind, l) && l.Covers(phv) && Consistent(kind, l, entries, handles, requested, index)
    requires Wins(l, entries, Reached(requested, index), phv, h)
    requires Eligible(l, Reached(requested, index), phv, i) && i != h
    ensures h in requested && i in requested && kind != ExactUnit
    ensures kind == TernaryUnit ==>
              requested[h].priority < requested[i].priority
              || (requested[h].priority == requested[i].priority && h < i)
    ensures kind == LpmUnit ==> forall lpm: nat | OnlyLpm(l.fields, lpm) ::
              |requested[h].params| == |requested[i].params| == |l.fields|
              && requested[i].params[lpm].prefixLength < requested[h].params[lpm].prefixLength
  {
    hide Fits, Sorted, IsOrder, BitsMatch, Id, Layout.Join, StoredParts, Sum, Sane, WellFormed;
    assert Better(entries, h, i);
    var r, q := requested[h], requested[i];
    assert Kept(kind, l, entries, requested, h) && Kept(kind, l, entries, requested, i);
    if kind == LpmUnit {
      forall lpm: nat | OnlyLpm(l.fields, lpm) ensures q.params[lpm].prefixLength < r.params[lpm].prefixLength {
        PartsOf(l, r.params);
        RecoveredPrefix(l, r.params, l.masks, lpm);
        RecoveredPrefix(l, q.params, l.masks, lpm);
      }
    }
  }

  /** Packets that differ only in headers that are not valid meet the same entries. */
  lemma OnlyValidAreMatched<V>(l: Layout, entries: seq<Entry<V>>, requested: map<Handle, Request>, phv: Phv, phv': Phv,
                               h: Handle)
    requires l.Valid() && l.Covers(phv) && l.Covers(phv')
    requires |phv| == |phv'| && forall k | 0 <= k < |phv| ::
               phv[k].valid == phv'[k].valid && (phv[k].valid ==> phv[k].fields == phv'[k].fields)
    ensures Eligible(l, requested, phv, h) <==> Eligible(l, requested, phv', h)
    ensures Wins(l, entries, requested, phv, h) <==> Wins(l, entries, requested, phv', h)
  {
    hide AllMatch, BitsMatch, Better, AllSane, Layout.Valid, Layout.Covers;
    forall i: Handle ensures Eligible(l, requested, phv, i) <==> Eligible(l, requested, phv', i) {
      if i in requested && AllSane(requested[i].params, l.fields) {
        AllMatchBits(l, requested[i].params, phv);
        AllMatchBits(l, requested[i].params, phv');
        SameMatch(l, requested[i].params, phv, phv');
      }
    }
  }

  lemma SameMatch(l: Layout, params: seq<Param>, phv: Phv, phv': Phv)
    requires l.Valid() && AllSane(params, l.fields) && l.Covers(phv) && l.Covers(phv')
    requires |phv| == |phv'| && forall k | 0 <= k < |phv| ::
               phv[k].valid == phv'[k].valid && (phv[k].valid ==> phv[k].fields == phv'[k].fields)
    ensures AllMatch(l, params, phv) <==> AllMatch(l, params, phv')
  {
    hide FieldMatches, Sane;
    OnlyValidMatter(l, phv, phv');
    forall i | 0 <= i < |l.fields| ensures FieldBytes(l.fields[i], phv) == FieldBytes(l.fields[i], phv') {
      assert l.Values(phv)[i] == l.Values(phv')[i];
    }
  }

  lemma TableParts(kind: UnitKind, l: Layout)
    requires Table(kind, l)
    ensures l.Valid() && |l.masks| == |l.fields|
  {
  }

  /** The key of the entry for some parameters: the fields put together, normalised and
      under the masks of the program. */
  method EntryKey(kb: MatchKeyBuilder, kind: UnitKind, params: seq<Param>, priority: int) returns (key: MatchKey)
    requires kb.Valid() && kb.built && Table(kind, kb.TheLayout()) && AllSane(params, kb.fields)
    ensures key == KeyOf(kind, kb.TheLayout(), params, priority)
  {
    hide Flat, And, Normal, Sane, Arranged, Sum, IsOrder, MaskOf, PrefixBits, Before;
    ghost var l := kb.TheLayout();
    PartsOf(l, params);
    l.JoinAlike(Normals(params, l.fields), l.masks);
    l.JoinAnd(Normals(params, l.fields), l.masks);
    match kind
    case ExactUnit =>
      var data := ExactEntry(kb, params);
      data := kb.ApplyBigMask(data);
      key := ExactKey(data);
    case LpmUnit =>
      var data, prefixLength := LpmEntry(kb, params);
      data := kb.ApplyBigMask(data);
      key := LpmKey(data, prefixLength);
    case TernaryUnit =>
      l.JoinAnd(Normals(params, l.fields), MasksOf(params, l.fields));
      l.JoinAnd(AndParts(Normals(params, l.fields), MasksOf(params, l.fields)), l.masks);
      var data, mask := TernaryEntry(kb, params);
      data := kb.ApplyBigMask(data);
      key := TernaryKey(data, mask, priority);
  }

  ghost predicate StructureFits(kind: UnitKind, s: Structure, size: nat) {
    match kind
    case ExactUnit => s.Exact?
    case LpmUnit => s.Lpm?
    case TernaryUnit => s.Ternary? && s.keys.keys.Length == size
  }

  /** `LookupStructureFactory::create`. */
  method CreateStructure(kind: UnitKind, size: nat, nbytesKey: nat) returns (s: Structure)
    requires kind == LpmUnit ==> nbytesKey <= 64
    ensures StructureFits(kind, s, size) && s.Agrees(map[], nbytesKey) && fresh(s.Repr())
  {
    match kind
    case ExactUnit =>
      var m := new ExactMap();
      s := Exact(m);
    case LpmUnit =>
      var t := new LpmTrieStructure(nbytesKey);
      s := Lpm(t);
    case TernaryUnit =>
      var k := new TernaryMap(size, nbytesKey);
      s := Ternary(k);
  }

  class MatchUnitGeneric<V> {
    const kind: UnitKind
    const size: nat
    const keyBuilder: MatchKeyBuilder
    const entries: array<Entry<V>>
    const structure: Structure
    var numEntries: nat
    var handles: set<Handle>

    ghost const layout: Layout
    ghost var index: Index
    ghost var requested: map<Handle, Request>
    /** The handles whose entries were deleted. */
    ghost var expired: set<nat>
    /** Some entry has been deleted 2^32 times. */
    ghost var wrapped: bool

    ghost function Repr(): set<object>
      reads this, if structure.Lpm? then {structure.trie.trie} else {}
    {
      {this, entries} + structure.Repr()
    }

    /** The parts of the unit that never change. */
    ghost predicate Fixed()
      reads keyBuilder
    {
      && keyBuilder.Valid() && keyBuilder.built && keyBuilder.TheLayout() == layout
      && Table(kind, layout) && size == entries.Length <= TWO32
      && StructureFits(kind, structure, size)
    }

    ghost predicate Apart()
      reads this, if structure.Lpm? then {structure.trie.trie} else {}
    {
      this !in structure.Repr() && entries as object !in structure.Repr() && keyBuilder !in Repr()
    }

    ghost predicate Valid()
      reads this, keyBuilder, entries, structure.Repr()
    {
      && Fixed() && Apart()
      && numEntries == |handles| <= size
      && Consistent(kind, layout, entries[..], handles, requested, index)
      && structure.Agrees(index, |layout.Join(layout.masks)|)
      && (!wrapped ==> Outdated(entries[..], expired))
      && (forall h | 0 <= h < size :: entries[h].version < TWO32)
      && (kind != LpmUnit ==> InStep())
    }

    /** The lookup structure finds every entry. */
    ghost predicate InStep()
      reads this, entries
    {
      Complete(entries[..], handles, index)
    }

    lemma InStepIs()
      ensures InStep() <==> Complete(entries[..], handles, index)
    {
    }

    /** A handle that stands for an entry. */
    ghost predicate Live(handle: nat)
      requires size == entries.Length
      reads this, entries
    {
      HandleInternal(handle) in handles && HandleInternal(handle) < size
      && entries[HandleInternal(handle)].version == HandleVersion(handle)
    }

    /** The entry of a request is in the table already, perhaps for other parameters. */
    ghost predicate Present(params: seq<Param>, priority: int)
      requires layout.Valid() && AllSane(params, layout.fields)
      reads this
    {
      Id(KeyOf(kind, layout, params, priority)) in index
    }

    constructor (kind: UnitKind, size: nat, keyBuilder: MatchKeyBuilder, none: V)
      requires keyBuilder.Valid() && keyBuilder.built && Table(kind, keyBuilder.TheLayout()) && size <= TWO32
      requires kind == LpmUnit ==> keyBuilder.nbytesKey <= 64
      ensures Valid() && InStep() && fresh(Repr()) && handles == {} && expired == {} && !wrapped
      ensures this.kind == kind && this.size == size && this.keyBuilder == keyBuilder
    {
      hide *;
      this.kind, this.size, this.keyBuilder := kind, size, keyBuilder;
      entries := new Entry<V>[size](_ => Entry(ExactKey([]), 0, none));
      numEntries, handles := 0, {};
      layout, index, requested, expired, wrapped := keyBuilder.TheLayout(), map[], map[], {}, false;
      var s := CreateStructure(kind, size, keyBuilder.nbytesKey);
      structure := s;
      new;
      EmptyIsValid();
    }

    lemma EmptyIsValid()
      requires keyBuilder.Valid() && keyBuilder.built && keyBuilder.TheLayout() == layout && Table(kind, layout)
      requires size == entries.Length <= TWO32 && StructureFits(kind, structure, size)
      requires structure.Agrees(map[], keyBuilder.nbytesKey)
      requires entries as object !in structure.Repr() && keyBuilder !in {entries} + structure.Repr()
      requires numEntries == 0 && handles == {} && index == map[] && requested == map[] && expired == {}
      requires forall h | 0 <= h < entries.Length :: entries[h].version == 0
      ensures Valid() && InStep() && Repr() == {this, entries} + structure.Repr()
    {
      KeyWidth(keyBuilder);
      NotInStructure(structure);
    }

    lemma NotInStructure(s: Structure)
      ensures this !in s.Repr() && keyBuilder as object != this
    {
    }

    /** Adds an entry.  A duplicate is one with the same identity. */
    method AddEntry(params: seq<Param>, value: V, priority: int) returns (rc: ErrorCode, handle: nat)
      requires Valid() && (kind == TernaryUnit ==> priority < MAX_PRIORITY)
      modifies Repr()
      ensures Valid() && fresh(Repr() - old(Repr())) && expired == old(expired) && wrapped == old(wrapped)
      ensures rc == if !AllSane(params, layout.fields) then BAD_MATCH_KEY
                    else if old(Present(params, priority)) then DUPLICATE_ENTRY
                    else if |old(handles)| == size then TABLE_FULL else SUCCESS
      ensures rc != SUCCESS ==> Unchanged(old(entries[..]), old(handles), old(requested), old(index))
      ensures rc == SUCCESS ==> var h := HandleInternal(handle);
                h !in old(handles) && Live(handle) && (!wrapped ==> handle !in expired)
                && Added(old(entries[..]), old(handles), old(requested), h, value, Request(params, priority))
                && index == old(index)[Id(KeyOf(kind, layout, params, priority)) := h]
      ensures InStep() <==> old(InStep())
    {
      hide Fixed, Consistent, Outdated, Structure.Agrees, MatchKeyBuilder.Valid, Table, KeyOf, AllSane, WellFormed, Id,
           HandleInternal, HandleVersion, HandleSet, Layout.Valid, Layout.Join, Live, Present, Added, Fulfils;
      handle := 0;
      Parts();
      var sane := keyBuilder.SanityCheck(params);
      if !sane {
        return BAD_MATCH_KEY, 0;
      }
      var key := EntryKey(keyBuilder, kind, params, priority);
      KeyParts(params, priority);
      var found := structure.EntryExists(key, index, |layout.Join(layout.masks)|);
      if found {
        return DUPLICATE_ENTRY, 0;
      }
      if numEntries >= size {
        return TABLE_FULL, 0;
      }
      var h := FirstFree(handles);
      Insert(h, key, value, Request(params, priority));
      handle := HandleSet(entries[h].version, h);
      IsLive(h);
      rc := SUCCESS;
    }

    lemma Parts()
      requires Valid()
      ensures keyBuilder.Valid() && keyBuilder.built && keyBuilder.TheLayout() == layout && Table(kind, layout)
      ensures keyBuilder.fields == layout.fields && layout.Valid() && |layout.masks| == |layout.fields|
      ensures size == entries.Length <= TWO32 && numEntries == |handles| <= size
      ensures structure.Agrees(index, |layout.Join(layout.masks)|)
      ensures this !in structure.Repr() && entries as object !in structure.Repr()
      ensures keyBuilder !in {this, entries} + structure.Repr() && Repr() == {this, entries} + structure.Repr()
      ensures Unchanged(entries[..], handles, requested, index)
    {
      hide Structure.Agrees, MatchKeyBuilder.Valid, Consistent, Outdated;
      TableParts(kind, layout);
    }

    lemma KeyParts(params: seq<Param>, priority: int)
      requires Valid() && AllSane(params, layout.fields) && layout.Valid()
               && (kind == TernaryUnit ==> priority < MAX_PRIORITY)
      ensures var key := KeyOf(kind, layout, params, priority);
              && structure.KeyFits(key) && WellFormed(key, |layout.Join(layout.masks)|)
              && Fulfils(kind, layout, key, Request(params, priority))
              && (Id(key) in index <==> Present(params, priority))
    {
      hide Structure.Agrees, MatchKeyBuilder.Valid, Consistent, Outdated, Table;
      KeyOfSize(kind, layout, params, priority);
    }

    /** The handle of an entry is live, and was never given up. */
    lemma IsLive(h: Handle)
      requires Valid() && h in handles
      ensures h < size && size == entries.Length <= TWO32
      ensures Live(HandleSet(entries[h].version, h)) && HandleInternal(HandleSet(entries[h].version, h)) == h
      ensures !wrapped ==> HandleSet(entries[h].version, h) !in expired
    {
      hide Structure.Agrees, MatchKeyBuilder.Valid, Table, Fulfils;
      TableParts(kind, layout);
      assert Kept(kind, layout, entries[..], requested, h);
    }

    ghost predicate Unchanged(wasEntries: seq<Entry<V>>, wasHandles: set<Handle>, wasRequested: map<Handle, Request>,
                              wasIndex: Index)
      reads this, entries
    {
      entries[..] == wasEntries && handles == wasHandles && requested == wasRequested && index == wasIndex
    }

    /** Entry `h` is new, and nothing else has changed. */
    ghost predicate Added(wasEntries: seq<Entry<V>>, wasHandles: set<Handle>, wasRequested: map<Handle, Request>,
                          h: Handle, value: V, r: Request)
      requires layout.Valid() && AllSane(r.params, layout.fields)
      reads this, entries
    {
      && h < |wasEntries|
      && entries[..] == wasEntries[h := Entry(KeyOf(kind, layout, r.params, r.priority), wasEntries[h].version, value)]
      && handles == wasHandles + {h} && requested == wasRequested[h := r]
    }

    method Insert(h: Handle, key: MatchKey, value: V, ghost r: Request)
      requires Valid() && h < size && h !in handles
      requires Fulfils(kind, layout, key, r) && structure.KeyFits(key) && Id(key) !in index
      modifies Repr()
      ensures Valid() && fresh(Repr() - old(Repr())) && expired == old(expired) && wrapped == old(wrapped)
      ensures Added(old(entries[..]), old(handles), old(requested), h, value, r) && h in handles
      ensures index == old(index)[Id(key) := h] && (InStep() <==> old(InStep()))
    {
      hide *;
      InsertParts(h, key, r);
      ghost var width, was, wasHandles, wasRequested := |layout.Join(layout.masks)|, entries[..], handles, requested;
      InStepIs();
      AddConsistent(kind, layout, was, handles, requested, index, h, Entry(key, was[h].version, value), r);
      StructureTrie(structure);
      structure.AddEntry(key, h, index, width);
      StructureTrie(structure);
      entries[h] := Entry(key, entries[h].version, value);
      numEntries := numEntries + 1;
      handles, requested, index := handles + {h}, requested[h := r], index[Id(key) := h];
      assert entries[..] == was[h := Entry(key, was[h].version, value)];
      InStepIs();
      InsertDone(was, wasHandles, wasRequested, h, key, value, r);
    }

    /** What is wrong with a handle, if anything. */
    ghost function HandleStatus(handle: nat): ErrorCode
      requires size == entries.Length
      reads this, entries
    {
      if HandleInternal(handle) !in handles then INVALID_HANDLE
      else if !Live(handle) then EXPIRED_HANDLE else SUCCESS
    }

    lemma StatusOf(handle: nat)
      requires Valid()
      ensures size == entries.Length && (HandleInternal(handle) in handles ==> HandleInternal(handle) < size)
      ensures HandleStatus(handle) == SUCCESS <==> Live(handle)
      ensures HandleInternal(handle) in handles ==>
                (HandleStatus(handle) == SUCCESS <==> HandleVersion(handle) == entries[HandleInternal(handle)].version)
      ensures !wrapped && handle in expired ==> HandleStatus(handle) != SUCCESS
    {
      hide Structure.Agrees, MatchKeyBuilder.Valid, Table, Fulfils, HandleInternal, HandleVersion;
      TableParts(kind, layout);
      var h := HandleInternal(handle);
      if h in handles {
        assert Kept(kind, layout, entries[..], requested, h);
      }
    }

    /** Deleting entry `h` makes the trie lose other entries too. */
    ghost predicate DropsOthers(h: Handle)
      reads this
    {
      kind == LpmUnit && layout.Valid() && h in requested && LosesOthers(layout, requested, h)
    }

    /** Deletes an entry and makes its handle expire.  The version is a 32-bit number.
        Entries and lookup structure are in step afterwards if they were, unless the trie
        loses others. */
    method DeleteEntry(handle: nat) returns (rc: ErrorCode)
      requires Valid()
      modifies Repr()
      ensures Valid() && Repr() <= old(Repr()) && rc == old(HandleStatus(handle))
      ensures rc != SUCCESS ==> Unchanged(old(entries[..]), old(handles), old(requested), old(index))
      ensures rc != SUCCESS ==> expired == old(expired) && wrapped == old(wrapped)
      ensures rc == SUCCESS ==> var h := HandleInternal(handle);
                && h in old(handles) && h < size
                && Deleted(old(entries[..]), old(handles), old(requested), old(index), old(wrapped), h)
                && expired == old(expired) + {handle}
      ensures rc == SUCCESS && old(InStep()) ==> (InStep() <==> !old(DropsOthers(HandleInternal(handle))))
      ensures old(handle in expired && !wrapped) ==> rc != SUCCESS
    {
      hide Fixed, Consistent, Outdated, Structure.Agrees, MatchKeyBuilder.Valid, Table, KeyOf, AllSane, WellFormed, Id,
           HandleInternal, HandleVersion, Layout.Valid, Layout.Join, Fulfils, Complete, IndexAfter, Loses, InStep,
           LosesOthers;
      Parts();
      StatusOf(handle);
      var h := HandleInternal(handle);
      if h !in handles {
        return INVALID_HANDLE;
      }
      if HandleVersion(handle) != entries[h].version {
        return EXPIRED_HANDLE;
      }
      ConsistentNow();
      ghost var was, wasHandles, wasRequested, wasIndex := entries[..], handles, requested, index;
      InStepIs();
      ghost var wasInStep, drops := InStep(), DropsOthers(h);
      Remove(h, handle);
      InStepIs();
      if wasInStep {
        DeleteComplete(kind, layout, was, wasHandles, wasRequested, wasIndex, h, (was[h].version + 1) % TWO32);
        if kind == LpmUnit {
          LosesIff(layout, was, wasHandles, wasRequested, wasIndex, h);
        }
      }
      rc := SUCCESS;
    }

    /** Entry `h` is gone and has the next version, and nothing else has changed. */
    ghost predicate Deleted(wasEntries: seq<Entry<V>>, wasHandles: set<Handle>, wasRequested: map<Handle, Request>,
                            wasIndex: Index, wasWrapped: bool, h: Handle)
      reads this, entries
    {
      && h < |wasEntries|
      && entries[..] == wasEntries[h := wasEntries[h].(version := (wasEntries[h].version + 1) % TWO32)]
      && handles == wasHandles - {h} && requested == wasRequested - {h}
      && index == IndexAfter(wasIndex, wasEntries[h].key)
      && (wrapped <==> wasWrapped || wasEntries[h].version == TWO32 - 1)
    }

    method Remove(h: Handle, ghost handle: nat)
      requires Valid() && size == entries.Length && Live(handle) && h == HandleInternal(handle)
      modifies Repr()
      ensures Repr() <= old(Repr())
      ensures Valid() && Deleted(old(entries[..]), old(handles), old(requested), old(index), old(wrapped), h)
      ensures expired == old(expired) + {handle}
    {
      hide *;
      Parts();
      RemoveParts(handle);
      ReadyToForget(handle);
      StructureTrie(structure);
      structure.DeleteEntry(entries[h].key, index, |layout.Join(layout.masks)|);
      StructureTrie(structure);
      Forget(h, handle);
    }

    /** All that is left to do is to forget entry `h`, whose key is not in the lookup
        structure any more. */
    ghost predicate Forgettable(handle: nat)
      requires size == entries.Length && layout.Valid()
      reads this, entries
    {
      var h := HandleInternal(handle);
      && h in handles && h < size && HandleVersion(handle) == entries[h].version && numEntries == |handles|
      && (forall i | 0 <= i < size :: entries[i].version < TWO32) && (!wrapped ==> Outdated(entries[..], expired))
      && var was := entries[..];
         var now := was[h := was[h].(version := (was[h].version + 1) % TWO32)];
         && Consistent(kind, layout, now, handles - {h}, requested - {h}, IndexAfter(index, was[h].key))
         && (kind != LpmUnit ==> Complete(now, handles - {h}, IndexAfter(index, was[h].key)))
    }

    lemma ReadyToForget(handle: nat)
      requires Valid() && size == entries.Length && Live(handle) && layout.Valid()
      ensures Forgettable(handle)
    {
      hide Structure.Agrees, MatchKeyBuilder.Valid, Table, Fulfils, IndexAfter, Loses, Consistent, Complete, Outdated,
           HandleInternal, HandleVersion;
      Parts();
      RemoveParts(handle);
      InStepIs();
      var h := HandleInternal(handle);
      var version := (entries[h].version + 1) % TWO32;
      DeleteConsistent(kind, layout, entries[..], handles, requested, index, h, version);
      if kind != LpmUnit {
        DeleteComplete(kind, layout, entries[..], handles, requested, index, h, version);
      }
    }

    method Forget(h: Handle, ghost handle: nat)
      requires size == entries.Length && layout.Valid() && Forgettable(handle) && h == HandleInternal(handle)
      requires Fixed() && this !in structure.Repr() && entries as object !in structure.Repr()
      requires keyBuilder !in {this, entries} + structure.Repr()
      requires structure.Agrees(IndexAfter(index, entries[h].key), |layout.Join(layout.masks)|)
      modifies this, entries
      ensures Valid() && Deleted(old(entries[..]), old(handles), old(requested), old(index), old(wrapped), h)
      ensures expired == old(expired) + {handle} && Repr() == {this, entries} + structure.Repr()
    {
      hide Structure.Agrees, Fixed, Consistent, Complete, Outdated, IndexAfter, Structure.Repr, Layout.Valid,
           Layout.Join, HandleInternal, HandleVersion;
      FixedParts();
      ghost var was, wasExpired := entries[..], expired;
      var entry := entries[h];
      entries[h] := entry.(version := (entry.version + 1) % TWO32);
      numEntries := numEntries - 1;
      handles, requested, index := handles - {h}, requested - {h}, IndexAfter(index, entry.key);
      wrapped, expired := wrapped || entry.version == TWO32 - 1, expired + {handle};
      assert entries[..] == was[h := was[h].(version := (was[h].version + 1) % TWO32)];
      assert forall i | 0 <= i < size :: was[i].version < TWO32;
      RemoveDone(was, h, handle, wasExpired);
    }

    lemma RemoveParts(handle: nat)
      requires Valid() && size == entries.Length && Live(handle)
      ensures var h := HandleInternal(handle);
              && h in handles && h < size && HandleVersion(handle) == entries[h].version < TWO32
              && structure.KeyFits(entries[h].key) && WellFormed(entries[h].key, |layout.Join(layout.masks)|)
              && (structure.Lpm? || Id(entries[h].key) in index)
      ensures Fixed() && layout.Valid() && Consistent(kind, layout, entries[..], handles, requested, index)
      ensures (forall i | 0 <= i < size :: entries[i].version < TWO32) && (!wrapped ==> Outdated(entries[..], expired))
      ensures kind != LpmUnit ==> InStep() && !Loses(index, entries[HandleInternal(handle)].key)
    {
      hide Structure.Agrees, MatchKeyBuilder.Valid, HandleInternal, HandleVersion;
      TableParts(kind, layout);
      var h := HandleInternal(handle);
      assert Kept(kind, layout, entries[..], requested, h);
    }

    lemma RemoveDone(was: seq<Entry<V>>, h: Handle, handle: nat, wasExpired: set<nat>)
      requires Fixed() && layout.Valid() && h < |was|
      requires this !in structure.Repr() && entries as object !in structure.Repr()
      requires keyBuilder !in {this, entries} + structure.Repr()
      requires Consistent(kind, layout, entries[..], handles, requested, index)
      requires structure.Agrees(index, |layout.Join(layout.masks)|)
      requires entries[..] == was[h := was[h].(version := (was[h].version + 1) % TWO32)] && numEntries == |handles|
      requires HandleInternal(handle) == h && HandleVersion(handle) == was[h].version
      requires forall i | 0 <= i < |was| :: was[i].version < TWO32
      requires forall e | e in expired :: e == handle || e in wasExpired
      requires !wrapped ==> Outdated(was, wasExpired) && was[h].version < TWO32 - 1
      requires kind != LpmUnit ==> InStep()
      ensures Valid()
    {
      hide Structure.Agrees, Fixed, Consistent, Fulfils, KeyOf, Structure.Repr, Layout.Valid, Layout.Join,
           HandleInternal, HandleVersion;
      FixedParts();
      HandlesFit(entries[..], handles, requested, index, kind, layout);
      assert forall i | 0 <= i < size :: entries[i] == entries[..][i];
      assert Apart();
      if !wrapped {
        forall e | e in expired
          ensures HandleInternal(e) < size && HandleVersion(e) < entries[..][HandleInternal(e)].version
        {
          assert e == handle || e in wasExpired;
        }
      }
    }

    /** Changes the value of an entry and nothing else. */
    method ModifyEntry(handle: nat, value: V) returns (rc: ErrorCode)
      requires Valid()
      modifies entries
      ensures Valid() && rc == old(HandleStatus(handle))
      ensures rc != SUCCESS ==> entries[..] == old(entries[..])
      ensures rc == SUCCESS ==> var h := HandleInternal(handle);
                h < size && entries[..] == old(entries[..])[h := old(entries[h]).(value := value)]
      ensures InStep() <==> old(InStep())
      ensures handle in expired && !wrapped ==> rc != SUCCESS
    {
      hide *;
      Parts();
      StatusOf(handle);
      var h := HandleInternal(handle);
      StatusCodes(handle);
      if h !in handles {
        return INVALID_HANDLE;
      }
      if HandleVersion(handle) != entries[h].version {
        return EXPIRED_HANDLE;
      }
      RemoveParts(handle);
      ghost var was := entries[..];
      InStepIs();
      ModifyConsistent(kind, layout, was, handles, requested, index, h, value);
      KeepsVersions(was, h, was[h].(value := value), expired);
      StructureTrie(structure);
      entries[h] := entries[h].(value := value);
      assert entries[..] == was[h := was[h].(value := value)];
      InStepIs();
      ModifyDone(was, h, value);
      rc := SUCCESS;
    }

    lemma StatusCodes(handle: nat)
      requires size == entries.Length
      ensures HandleStatus(handle) == if HandleInternal(handle) !in handles then INVALID_HANDLE
                                      else if !Live(handle) then EXPIRED_HANDLE else SUCCESS
    {
    }

    lemma ModifyDone(was: seq<Entry<V>>, h: Handle, value: V)
      requires Fixed() && layout.Valid() && h < |was|
      requires this !in structure.Repr() && entries as object !in structure.Repr()
      requires keyBuilder !in {this, entries} + structure.Repr()
      requires Consistent(kind, layout, entries[..], handles, requested, index) && numEntries == |handles| <= size
      requires structure.Agrees(index, |layout.Join(layout.masks)|)
      requires entries[..] == was[h := was[h].(value := value)]
      requires forall i | 0 <= i < |was| :: was[i].version < TWO32
      requires !wrapped ==> Outdated(entries[..], expired)
      requires kind != LpmUnit ==> InStep()
      ensures Valid()
    {
      hide Structure.Agrees, Fixed, Consistent, Outdated, Structure.Repr, Layout.Valid, Layout.Join;
      FixedParts();
      assert Apart();
      assert forall i | 0 <= i < size :: entries[i] == entries[..][i];
    }

    method GetValue(handle: nat) returns (rc: ErrorCode, value: Option<V>)
      requires Valid()
      ensures size == entries.Length && rc == HandleStatus(handle)
      ensures value == if rc == SUCCESS then Some(entries[HandleInternal(handle)].value) else None
      ensures handle in expired && !wrapped ==> rc != SUCCESS
    {
      hide *;
      Parts();
      StatusOf(handle);
      StatusCodes(handle);
      var h := HandleInternal(handle);
      if h !in handles {
        return INVALID_HANDLE, None;
      }
      if HandleVersion(handle) != entries[h].version {
        return EXPIRED_HANDLE, None;
      }
      return SUCCESS, Some(entries[h].value);
    }

    /** The parameters of an entry come back normalised, and with them its value. */
    method GetEntry(handle: nat) returns (rc: ErrorCode, params: seq<Param>, value: Option<V>, priority: int)
      requires Valid()
      ensures size == entries.Length && rc == HandleStatus(handle)
      ensures rc == SUCCESS ==> var h := HandleInternal(handle);
                && h in requested && layout.Valid() && AllSane(requested[h].params, layout.fields)
                && params == Returned(kind, layout, requested[h].params)
                && priority == (if kind == TernaryUnit then requested[h].priority else -1)
                && value == Some(entries[h].value)
      ensures handle in expired && !wrapped ==> rc != SUCCESS
    {
      hide *;
      Parts();
      StatusOf(handle);
      StatusCodes(handle);
      params, value, priority := [], None, 0;
      var h := HandleInternal(handle);
      if h !in handles {
        return INVALID_HANDLE, [], None, 0;
      }
      if HandleVersion(handle) != entries[h].version {
        return EXPIRED_HANDLE, [], None, 0;
      }
      EntryParts(h);
      params := EntryParams(keyBuilder, kind, entries[h].key, requested[h]);
      priority := KeyPriority(entries[h].key);
      KeyPriorityOf(kind, layout, requested[h]);
      return SUCCESS, params, Some(entries[h].value), priority;
    }

    lemma EntryParts(h: Handle)
      requires Valid() && h in handles
      ensures h < size == entries.Length && h in requested && layout.Valid()
              && AllSane(requested[h].params, layout.fields)
      ensures entries[h].key == KeyOf(kind, layout, requested[h].params, requested[h].priority)
    {
      hide Structure.Agrees, MatchKeyBuilder.Valid, Table;
      TableParts(kind, layout);
      assert Kept(kind, layout, entries[..], requested, h);
    }

    /** The entry for a packet: one that matches it, and the best of those that the
        lookup structure finds.  Nothing is returned only when none of them matches. */
    method Lookup(phv: Phv) returns (found: Option<(nat, V)>)
      requires Valid() && layout.Valid() && layout.Covers(phv)
      ensures Valid() && size == entries.Length
      ensures found.None? ==> forall h: Handle :: !Eligible(layout, Reached(requested, index), phv, h)
      ensures found.Some? ==> var h := HandleInternal(found.value.0);
                && Live(found.value.0) && Wins(layout, entries[..], Reached(requested, index), phv, h)
                && entries[h].value == found.value.1 && (!wrapped ==> found.value.0 !in expired)
      ensures InStep() ==> Reached(requested, index) == requested
    {
      hide Fixed, Consistent, Outdated, Structure.Agrees, MatchKeyBuilder.Valid, Table, KeyOf, AllSane, Id, Eligible,
           HandleInternal, HandleVersion, HandleSet, Layout.Valid, Layout.Join, Layout.Key, Live, Wins;
      Parts();
      ConsistentNow();
      var key := keyBuilder.BuildKey(phv);
      KeySize(layout, phv);
      var result := structure.Lookup(key, index);
      LookupIsBest(kind, layout, entries[..], handles, requested, index, phv, result);
      if InStep() {
        AllReached(entries[..], requested, index);
      }
      if result.None? {
        return None;
      }
      var h := result.value;
      WinnerIsStored(layout, entries[..], Reached(requested, index), phv, h);
      IsLive(h);
      return Some((HandleSet(entries[h].version, h), entries[h].value));
    }

    lemma ConsistentNow()
      requires Valid()
      ensures layout.Valid() && Consistent(kind, layout, entries[..], handles, requested, index)
              && requested.Keys == handles
    {
      hide Structure.Agrees, MatchKeyBuilder.Valid, Table;
      TableParts(kind, layout);
    }

    lemma InsertParts(h: Handle, key: MatchKey, r: Request)
      requires Valid() && h < size && h !in handles && Fulfils(kind, layout, key, r)
      ensures layout.Valid() && |layout.masks| == |layout.fields| && size == entries.Length && Fixed()
      ensures Consistent(kind, layout, entries[..], handles, requested, index)
      ensures structure.Agrees(index, |layout.Join(layout.masks)|) && WellFormed(key, |layout.Join(layout.masks)|)
      ensures kind != LpmUnit ==> InStep()
      ensures h !in index.Values && (structure.Ternary? ==> h < structure.keys.keys.Length)
      ensures this !in structure.Repr() && entries as object !in structure.Repr()
      ensures keyBuilder !in {this, entries} + structure.Repr() && Repr() == {this, entries} + structure.Repr()
      ensures forall i | 0 <= i < size :: entries[i].version < TWO32
      ensures numEntries == |handles| && (!wrapped ==> Outdated(entries[..], expired))
    {
      hide Structure.Agrees, MatchKeyBuilder.Valid, Table, Fulfils, Id, WellFormed;
      TableParts(kind, layout);
      FulfilsParts(kind, layout, key, r);
    }

    lemma InsertDone(was: seq<Entry<V>>, wasHandles: set<Handle>, wasRequested: map<Handle, Request>,
                     h: Handle, key: MatchKey, value: V, r: Request)
      requires Fixed() && layout.Valid() && Fulfils(kind, layout, key, r) && h < |was|
      requires this !in structure.Repr() && entries as object !in structure.Repr()
      requires keyBuilder !in {this, entries} + structure.Repr()
      requires Consistent(kind, layout, entries[..], handles, requested, index)
      requires structure.Agrees(index, |layout.Join(layout.masks)|)
      requires entries[..] == was[h := Entry(key, was[h].version, value)]
      requires handles == wasHandles + {h} && requested == wasRequested[h := r] && numEntries == |handles|
      requires forall i | 0 <= i < |was| :: was[i].version < TWO32
      requires !wrapped ==> Outdated(was, expired)
      requires kind != LpmUnit ==> InStep()
      ensures AllSane(r.params, layout.fields) && Added(was, wasHandles, wasRequested, h, value, r)
      ensures Repr() == {this, entries} + structure.Repr()
      ensures Valid()
    {
      hide Structure.Agrees, Fixed, Consistent, Fulfils, KeyOf, Structure.Repr, Outdated, Layout.Valid, Layout.Join,
           AllSane;
      FixedParts();
      HandlesFit(entries[..], handles, requested, index, kind, layout);
      FulfilsParts(kind, layout, key, r);
      KeepsVersions(was, h, Entry(key, was[h].version, value), expired);
    }

    lemma FixedParts()
      requires Fixed()
      ensures layout.Valid() && |layout.masks| == |layout.fields| && size == entries.Length
    {
      TableParts(kind, layout);
    }
  }

  /** Changing an entry but not its version, or making it newer, keeps the outdated
      handles outdated. */
  lemma KeepsVersions<V>(entries: seq<Entry<V>>, h: Handle, e: Entry<V>, expired: set<nat>)
    requires h < |entries| && entries[h].version <= e.version
    ensures Outdated(entries, expired) ==> Outdated(entries[h := e], expired)
  {
  }

  lemma WinnerIsStored<V>(l: Layout, entries: seq<Entry<V>>, requested: map<Handle, Request>, phv: Phv, h: Handle)
    requires l.Valid() && l.Covers(phv) && Wins(l, entries, requested, phv, h)
    ensures h in requested
  {
  }

  /** `get_priority`. */
  function KeyPriority(key: MatchKey): int {
    if key.TernaryKey? then key.priority else -1
  }

  lemma KeyPriorityOf(kind: UnitKind, l: Layout, r: Request)
    requires l.Valid() && AllSane(r.params, l.fields)
    ensures KeyPriority(KeyOf(kind, l, r.params, r.priority)) == if kind == TernaryUnit then r.priority else -1
  {
  }

  /** The parameters of an entry, read off its key. */
  method EntryParams(kb: MatchKeyBuilder, kind: UnitKind, key: MatchKey, ghost r: Request) returns (params: seq<Param>)
    requires kb.Valid() && kb.built && Table(kind, kb.TheLayout()) && AllSane(r.params, kb.fields)
    requires key == KeyOf(kind, kb.TheLayout(), r.params, r.priority)
    ensures params == Returned(kind, kb.TheLayout(), r.params)
  {
    hide Flat, And, Normal, Sane, Arranged, Sum, IsOrder, MaskOf, PrefixBits, Before, PrefLen;
    ghost var l := kb.TheLayout();
    PartsOf(l, r.params);
    ghost var parts := StoredParts(kind, l, r.params);
    match key
    case ExactKey(data) =>
      params := ExactParams(kb, data, parts);
      forall i | 0 <= i < |l.fields| ensures params[i] == ReturnedParam(r.params[i], parts[i]) {
        SaneAt(l, r.params, i);
      }
    case LpmKey(data, n) =>
      ghost var lpm :| OnlyLpm(l.fields, lpm);
      params := LpmParams(kb, data, n, parts, lpm);
      RecoveredPrefix(l, r.params, parts, lpm);
      forall i | 0 <= i < |l.fields| ensures params[i] == ReturnedParam(r.params[i], parts[i]) {
        SaneAt(l, r.params, i);
      }
    case TernaryKey(data, mask, _) =>
      params := TernaryParams(kb, data, mask, parts, MasksOf(r.params, l.fields));
      forall i | 0 <= i < |l.fields| ensures params[i] == ReturnedParam(r.params[i], parts[i]) {
        SaneAt(l, r.params, i);
        RecoveredMask(r.params[i], l.fields[i], parts[i]);
      }
  }

  lemma RecoveredMask(p: Param, f: KeyField, part: seq<Byte>)
    requires f.nbits > 0 && Sane(p, f)
    ensures TernaryParam(f.mtype, part, MaskOf(p, f)) == ReturnedParam(p, part)
  {
    hide PrefLen, PrefixMask;
    if p.mtype == LPM {
      PrefLenOfMask(p.prefixLength, |p.key|);
    }
  }

  /** The prefix of the key, less the other fields, is that of the LPM field. */
  lemma RecoveredPrefix(l: Layout, params: seq<Param>, parts: seq<seq<Byte>>, lpm: nat)
    requires l.Valid() && AllSane(params, l.fields) && l.Parts(parts) && OnlyLpm(l.fields, lpm)
    ensures Sum(Ordered(PrefixBitsAll(params, l.fields), l.order)) - 8 * OthersSize(parts, lpm, |parts|) ==
            params[lpm].prefixLength
  {
    hide Sum;
    var bits := PrefixBitsAll(params, l.fields);
    OrderedSum(bits, l.order);
    assert bits[..|bits|] == bits;
    SumOfBits(l, params, parts, lpm, |parts|);
  }

  lemma {:induction false} SumOfBits(l: Layout, params: seq<Param>, parts: seq<seq<Byte>>, lpm: nat, n: nat)
    requires l.Valid() && AllSane(params, l.fields) && l.Parts(parts) && OnlyLpm(l.fields, lpm) && n <= |parts|
    ensures Sum(PrefixBitsAll(params, l.fields)[..n]) ==
            8 * OthersSize(parts, lpm, n) + if n > lpm then params[lpm].prefixLength else 0
  {
    hide Sum, Sane;
    var bits := PrefixBitsAll(params, l.fields);
    if n == 0 {
      SumNone();
      assert bits[..0] == [];
    } else {
      SumOfBits(l, params, parts, lpm, n - 1);
      assert bits[..n] == bits[..n - 1] + [bits[n - 1]];
      SumSnoc(bits[..n - 1], bits[n - 1]);
      SaneAt(l, params, n - 1);
      SaneBits(params[n - 1], l.fields[n - 1]);
    }
  }

  lemma FulfilsParts(kind: UnitKind, l: Layout, key: MatchKey, r: Request)
    requires l.Valid() && Fulfils(kind, l, key, r)
    ensures AllSane(r.params, l.fields) && key == KeyOf(kind, l, r.params, r.priority)
            && WellFormed(key, |l.Join(l.masks)|)
  {
  }

  /** There are no more handles than entries. */
  lemma HandlesFit<V>(entries: seq<Entry<V>>, handles: set<Handle>, requested: map<Handle, Request>, index: Index,
                      kind: UnitKind, l: Layout)
    requires l.Valid() && Consistent(kind, l, entries, handles, requested, index)
    ensures |handles| <= |entries|
  {
    hide Fulfils, Id;
    forall h | h in handles ensures h < |entries| {
      assert Kept(kind, l, entries, requested, h);
    }
    AtMost(handles, 0, |entries|);
  }

  lemma StructureTrie(s: Structure)
    ensures s.Lpm? ==> s.trie.trie in s.Repr()
  {
  }

  /** The key of a table has the width that its builder counted. */
  lemma KeyWidth(kb: MatchKeyBuilder)
    requires kb.Valid() && kb.built
    ensures kb.nbytesKey == |kb.TheLayout().Join(kb.masks)|
  {
    OrderedSize(kb.masks, kb.invMapping);
  }

}
