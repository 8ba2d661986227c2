/** The three indexes that find the entry of a table for a key, and what they have in
    common: each is a map from the identities of keys to handles. */
module LookupStructures {
  import opened Bits
  import opened PrefixKeys
  import opened PrefixMaps
  import opened TrieShape
  import opened KeyTheorems
  import opened LpmTrie
  import opened TrieTheorems
  import opened MatchKeys
  import opened Wrappers

  type Handle = nat

  const MAX_PRIORITY: int := 0x7fff_ffff

  /** Two keys are the same entry if they have the same identity.  For LPM keys only the
      bits of the prefix matter. */
  datatype KeyId =
    | ExactId(data: seq<Byte>)
    | PrefixId(bits: seq<bool>)
    | TernaryId(data: seq<Byte>, mask: seq<Byte>, priority: int)

  predicate WellFormed(k: MatchKey, size: nat) {
    && |k.data| == size
    && (k.LpmKey? ==> k.prefixLength <= 8 * size)
    && (k.TernaryKey? ==> |k.mask| == size && k.priority < MAX_PRIORITY)
  }

  function Id(k: MatchKey): KeyId {
    match k
    case ExactKey(data) => ExactId(data)
    case LpmKey(data, n) => PrefixId(BitsOf(data, if n <= 8 * |data| then n else 8 * |data|))
    case TernaryKey(data, mask, priority) => TernaryId(data, mask, priority)
  }

  predicate IdMatches(id: KeyId, key: seq<Byte>) {
    match id
    case ExactId(data) => data == key
    case PrefixId(bits) => bits <= BytesBits(key)
    case TernaryId(data, mask, _) => |data| == |mask| == |key| && data == And(key, mask)
  }

  lemma IdMatchesIff(k: MatchKey, key: seq<Byte>)
    requires WellFormed(k, |key|)
    ensures IdMatches(Id(k), key) <==> Matches(k, key)
  {
    if k.LpmKey? {
      var bits := BitsOf(k.data, k.prefixLength);
      assert bits <= BytesBits(key) <==> bits == BytesBits(key)[..|bits|];
    }
  }

  /** Which of two matching keys wins: the longer prefix, or the lower priority and then
      the lower handle. */
  predicate Beats(x: KeyId, h: Handle, y: KeyId, i: Handle) {
    match (x, y)
    case (PrefixId(b), PrefixId(c)) => |b| > |c|
    case (TernaryId(_, _, p), TernaryId(_, _, q)) => p < q || (p == q && h < i)
    case _ => false
  }

  type Index = map<KeyId, Handle>

  ghost predicate IsBest(index: Index, key: seq<Byte>, id: KeyId) {
    && id in index && IdMatches(id, key)
    && forall other | other in index && IdMatches(other, key) && other != id ::
         Beats(id, index[id], other, index[other])
  }

  /** What a lookup must return. */
  ghost predicate IsLookup(index: Index, key: seq<Byte>, result: Option<Handle>) {
    match result
    case None => forall id | id in index :: !IdMatches(id, key)
    case Some(h) => exists id :: IsBest(index, key, id) && index[id] == h
  }

  // ----- exact -----

  class ExactMap {
    var entriesMap: map<seq<Byte>, Handle>

    ghost function Index(): (m: Index)
      reads this
    {
      map id | id in IdsOf(entriesMap.Keys) :: entriesMap[id.data]
    }

    constructor ()
      ensures Index() == map[]
    {
      entriesMap := map[];
    }

    method Lookup(key: seq<Byte>) returns (result: Option<Handle>)
      ensures IsLookup(Index(), key, result)
    {
      if key in entriesMap {
        result := Some(entriesMap[key]);
        assert IsBest(Index(), key, ExactId(key));
      } else {
        result := None;
      }
    }

    method EntryExists(key: MatchKey) returns (exists_: bool)
      requires key.ExactKey?
      ensures exists_ <==> Id(key) in Index()
    {
      exists_ := key.data in entriesMap;
      assert Id(key).data == key.data;
    }

    method AddEntry(key: MatchKey, handle: Handle)
      requires key.ExactKey?
      modifies this
      ensures Index() == old(Index())[Id(key) := handle]
    {
      entriesMap := entriesMap[key.data := handle];
    }

    method DeleteEntry(key: MatchKey)
      requires key.ExactKey?
      modifies this
      ensures Index() == old(Index()) - {Id(key)}
    {
      entriesMap := entriesMap - {key.data};
    }
  }

  ghost function IdsOf(s: set<seq<Byte>>): (r: set<KeyId>)
    ensures forall id :: id in r <==> id.ExactId? && id.data in s
  {
    set d | d in s :: ExactId(d)
  }

  // ----- ternary -----

  class TernaryMap {
    const nbytesKey: nat
    const keys: array<MatchKey>

    ghost predicate Valid()
      reads keys
    {
      && (forall h | 0 <= h < keys.Length :: keys[h].TernaryKey? && keys[h].priority <= MAX_PRIORITY)
      && (forall h | 0 <= h < keys.Length && InUse(h) :: |keys[h].data| == |keys[h].mask| == nbytesKey)
      && (forall h, i | 0 <= h < i < keys.Length && InUse(h) && InUse(i) :: keys[h] != keys[i])
    }

    ghost predicate InUse(h: Handle)
      requires h < keys.Length
      reads keys
    {
      keys[h].TernaryKey? && keys[h].priority < MAX_PRIORITY
    }

    /** The keys in use, with their places. */
    ghost predicate Holds(index: Index)
      reads keys
    {
      && (forall h | 0 <= h < keys.Length && InUse(h) :: Id(keys[h]) in index && index[Id(keys[h])] == h)
      && (forall id | id in index :: index[id] < keys.Length && InUse(index[id]) && id == Id(keys[index[id]]))
    }

    constructor (size: nat, nbytesKey: nat)
      ensures Valid() && Holds(map[]) && fresh(keys) && keys.Length == size && this.nbytesKey == nbytesKey
    {
      this.nbytesKey := nbytesKey;
      keys := new MatchKey[size](_ => TernaryKey([], [], MAX_PRIORITY));
    }

    /** One key against the key of a packet, byte by byte. */
    method MatchesAt(h: Handle, key: seq<Byte>) returns (match_: bool)
      requires Valid() && h < keys.Length && InUse(h) && |key| == nbytesKey
      ensures match_ <==> IdMatches(Id(keys[h]), key)
    {
      var entry := keys[h];
      ghost var masked := And(key, entry.mask);
      for i := 0 to nbytesKey
        invariant forall k | 0 <= k < i :: entry.data[k] == masked[k]
      {
        if entry.data[i] != key[i] & entry.mask[i] {
          return false;
        }
      }
      match_ := true;
    }

    /** The handle found so far is the best among the first `n`. */
    ghost predicate BestBelow(n: nat, key: seq<Byte>, best: Option<Handle>, minPriority: int)
      requires n <= keys.Length
      reads keys
    {
      match best
      case None => minPriority == MAX_PRIORITY && forall h | 0 <= h < n && InUse(h) :: !IdMatches(Id(keys[h]), key)
      case Some(b) =>
        && b < n && InUse(b) && IdMatches(Id(keys[b]), key) && minPriority == keys[b].priority
        && forall h | 0 <= h < n && InUse(h) && IdMatches(Id(keys[h]), key) && h != b ::
             Beats(Id(keys[b]), b, Id(keys[h]), h)
    }

    method Lookup(key: seq<Byte>, ghost index: Index) returns (result: Option<Handle>)
      requires Valid() && Holds(index) && |key| == nbytesKey
      ensures IsLookup(index, key, result)
    {
      hide IdMatches, Holds;
      var minPriority := MAX_PRIORITY;
      result := None;
      for h := 0 to keys.Length
        invariant BestBelow(h, key, result, minPriority) && minPriority <= MAX_PRIORITY
      {
        if keys[h].priority < minPriority {
          var match_ := MatchesAt(h, key);
          if match_ {
            minPriority := keys[h].priority;
            result := Some(h);
          }
        }
      }
      BestOverall(key, index, result, minPriority);
    }

    lemma BestOverall(key: seq<Byte>, index: Index, result: Option<Handle>, minPriority: int)
      requires Valid() && Holds(index) && BestBelow(keys.Length, key, result, minPriority)
      ensures IsLookup(index, key, result)
    {
      hide IdMatches, Beats;
      if result.Some? {
        assert IsBest(index, key, Id(keys[result.value]));
      }
    }

    method FindHandle(key: MatchKey, ghost index: Index) returns (h: Handle)
      requires Valid() && Holds(index) && key.TernaryKey? && key.priority < MAX_PRIORITY
      ensures h <= keys.Length && (h < keys.Length <==> Id(key) in index)
      ensures h < keys.Length ==> keys[h] == key && index[Id(key)] == h
    {
      h := 0;
      while h < keys.Length
        invariant h <= keys.Length
        invariant forall i | 0 <= i < h :: keys[i] != key
      {
        if keys[h].priority == key.priority && keys[h].data == key.data && keys[h].mask == key.mask {
          assert InUse(h);
          return;
        }
        h := h + 1;
      }
    }

    method AddEntry(key: MatchKey, handle: Handle, ghost index: Index)
      requires Valid() && Holds(index) && handle < keys.Length && !InUse(handle)
      requires key.TernaryKey? && WellFormed(key, nbytesKey) && Id(key) !in index
      modifies keys
      ensures Valid() && Holds(index[Id(key) := handle])
    {
      keys[handle] := key;
    }

    method DeleteEntry(key: MatchKey, ghost index: Index)
      requires Valid() && Holds(index) && key.TernaryKey? && key.priority < MAX_PRIORITY && Id(key) in index
      modifies keys
      ensures Valid() && Holds(index - {Id(key)})
    {
      var h := FindHandle(key, index);
      keys[h] := keys[h].(priority := MAX_PRIORITY);
    }
  }

  // ----- longest prefix -----

  class LpmTrieStructure {
    const trie: Trie

    ghost predicate Valid()
      reads trie, trie.nodes.Values
    {
      trie.Valid() && trie.releaseMemory
    }

    ghost function Index(): Index
      reads trie
    {
      IndexOf(trie.prefixes)
    }

    constructor (nbytesKey: nat)
      requires nbytesKey <= 64
      ensures Valid() && fresh(trie) && fresh(trie.nodes.Values) && Index() == map[] && trie.keyWidth == nbytesKey
    {
      var t := new Trie(nbytesKey, true);
      trie := t;
    }

    method Lookup(key: seq<Byte>) returns (result: Option<Handle>)
      requires Valid() && |key| == trie.keyWidth
      ensures IsLookup(Index(), key, result)
    {
      result := trie.Lookup(key);
      LpmIsLookup(trie.prefixes, key);
    }

    method EntryExists(key: MatchKey) returns (exists_: bool)
      requires Valid() && key.LpmKey? && key.prefixLength <= 8 * |key.data|
      ensures exists_ <==> Id(key) in Index()
    {
      exists_ := trie.HasPrefix(key.data, key.prefixLength);
    }

    method AddEntry(key: MatchKey, handle: Handle)
      requires Valid() && key.LpmKey? && key.prefixLength <= 8 * |key.data| && Id(key) !in Index()
      modifies trie, trie.nodes.Values
      ensures Valid() && Index() == old(Index())[Id(key) := handle]
      ensures fresh(trie.nodes.Values - old(trie.nodes.Values))
    {
      hide Linked, Holds, Counted, Pruned, Abstracts, BitsOf;
      trie.Insert(key.data, key.prefixLength, handle);
    }

    /** A prefix that is not there is not an error. */
    method DeleteEntry(key: MatchKey)
      requires Valid() && key.LpmKey? && key.prefixLength <= 8 * |key.data|
      modifies trie, trie.nodes.Values
      ensures Valid() && trie.nodes.Values <= old(trie.nodes.Values)
      ensures Index() == AfterDelete(old(Index()), key)
    {
      hide *;
      ghost var was, n := trie.prefixes, key.prefixLength;
      ghost var lost := trie.LosesSubtree(key.data, n);
      IsValid();
      LosesIff(key);
      var found := trie.Delete(key.data, key.prefixLength);
      AfterDeleteIs(was, key, lost);
      if BitsOf(key.data, key.prefixLength) !in was {
        NothingToDelete(was, key);
      }
      IsValid();
    }

    lemma IsValid()
      ensures Valid() <==> trie.Valid() && trie.releaseMemory
      ensures Index() == IndexOf(trie.prefixes)
    {
    }

    /** Whether the trie loses a subtree can be told from what it holds. */
    lemma LosesIff(key: MatchKey)
      requires Valid() && key.LpmKey? && key.prefixLength <= 8 * |key.data|
      ensures trie.LosesSubtree(key.data, key.prefixLength) <==> LosesMore(IndexOf(trie.prefixes), key)
    {
      hide Linked, Holds, Counted, Pruned, Abstracts, BitsOf, BytesBits, ByteBits, SlotOf;
      var n, q := key.prefixLength, BytesBits(key.data[..key.prefixLength / 8]);
      trie.StoredAt(key.data, n);
      if BitsOf(key.data, n) in trie.prefixes {
        LosesSubtreeIff(trie, key.data, n);
        AllFollowIff(trie.prefixes, q);
        NoOtherIff(trie.prefixes, q, BitsOf(key.data, n));
      }
    }
  }

  /** The ids in an index of prefixes that start with `q`. */
  predicate StartsWith(id: KeyId, q: seq<bool>) {
    id.PrefixId? && q <= id.bits
  }

  /** Below `q`, every next byte leads to some prefix of the index. */
  ghost predicate AllFollow(index: Index, q: seq<bool>) {
    forall b: Byte :: Follows(index, q + ByteBits(b))
  }

  ghost predicate Follows(index: Index, q: seq<bool>) {
    exists id :: id in index && StartsWith(id, q)
  }

  /** Deleting a prefix loses others too: it has a whole byte, every next byte leads to
      some other prefix, and no other ends within that byte. */
  ghost predicate LosesMore(index: Index, key: MatchKey)
    requires key.LpmKey? && key.prefixLength <= 8 * |key.data|
  {
    var q := BytesBits(key.data[..key.prefixLength / 8]);
    && key.prefixLength >= 8 && Id(key) in index && AllFollow(index, q)
    && forall id | id in index && StartsWith(id, q) && |id.bits| < |q| + 8 :: id == Id(key)
  }

  /** What a deletion leaves of an index of prefixes. */
  ghost function AfterDelete(index: Index, key: MatchKey): Index
    requires key.LpmKey? && key.prefixLength <= 8 * |key.data|
  {
    if LosesMore(index, key) then
      var q := BytesBits(key.data[..key.prefixLength / 8]);
      map id | id in index && !StartsWith(id, q) :: index[id]
    else index - {Id(key)}
  }

  /** A deletion removes exactly its prefix if and only if it does not lose more. */
  lemma OnlyThePrefixIff(index: Index, key: MatchKey)
    requires key.LpmKey? && key.prefixLength <= 8 * |key.data|
    ensures AfterDelete(index, key) == index - {Id(key)} <==> !LosesMore(index, key)
    ensures forall id | id in AfterDelete(index, key) :: id in index && id != Id(key)
    ensures forall id | id in AfterDelete(index, key) :: AfterDelete(index, key)[id] == index[id]
  {
    hide ByteBits, BytesBits;
    var n, q := key.prefixLength, BytesBits(key.data[..key.prefixLength / 8]);
    BytesBitsTake(key.data, n / 8);
    assert StartsWith(Id(key), q);
    if LosesMore(index, key) {
      assert Follows(index, q + ByteBits(0));
      var id :| id in index && StartsWith(id, q + ByteBits(0));
      assert q <= q + ByteBits(0) && |id.bits| >= |q| + 8 > |Id(key).bits|;
      assert id in index - {Id(key)} && id !in AfterDelete(index, key);
    }
  }

  lemma AllFollowIff(prefixes: map<seq<bool>, Value>, q: seq<bool>)
    ensures AllFollow(IndexOf(prefixes), q) <==> AllBytesFollow(prefixes, q)
  {
    hide ByteBits;
    forall b: Byte ensures Follows(IndexOf(prefixes), q + ByteBits(b)) <==> Extended(prefixes, q + ByteBits(b)) {
      if Extended(prefixes, q + ByteBits(b)) {
        var s :| s in prefixes && q + ByteBits(b) <= s;
        assert PrefixId(s) in IndexOf(prefixes) && StartsWith(PrefixId(s), q + ByteBits(b));
      }
    }
  }

  lemma NoOtherIff(prefixes: map<seq<bool>, Value>, q: seq<bool>, bits: seq<bool>)
    ensures NoOther(prefixes, q, bits) <==>
            forall id | id in IndexOf(prefixes) && StartsWith(id, q) && |id.bits| < |q| + 8 :: id == PrefixId(bits)
  {
    if !NoOther(prefixes, q, bits) {
      var s :| s in prefixes && q <= s && |s| < |q| + 8 && s != bits;
      assert PrefixId(s) in IndexOf(prefixes) && StartsWith(PrefixId(s), q);
    }
  }

  lemma AfterDeleteIs(prefixes: map<seq<bool>, Value>, key: MatchKey, lost: bool)
    requires key.LpmKey? && key.prefixLength <= 8 * |key.data| && lost == LosesMore(IndexOf(prefixes), key)
    ensures IndexOf(Deleted(prefixes, key.data, key.prefixLength, lost)) == AfterDelete(IndexOf(prefixes), key)
  {
    hide ByteBits, AllFollow, BytesBits;
    BytesBitsTake(key.data, key.prefixLength / 8);
  }

  lemma NothingToDelete(prefixes: map<seq<bool>, Value>, key: MatchKey)
    requires key.LpmKey? && key.prefixLength <= 8 * |key.data| && BitsOf(key.data, key.prefixLength) !in prefixes
    ensures AfterDelete(IndexOf(prefixes), key) == IndexOf(prefixes)
  {
  }

  ghost function IndexOf(prefixes: map<seq<bool>, Value>): (r: Index)
    ensures forall id :: id in r <==> id.PrefixId? && id.bits in prefixes
    ensures forall id :: id in r ==> r[id] == prefixes[id.bits]
  {
    map id | id in PrefixIdsOf(prefixes.Keys) :: prefixes[id.bits]
  }

  ghost function PrefixIdsOf(s: set<seq<bool>>): (r: set<KeyId>)
    ensures forall id :: id in r <==> id.PrefixId? && id.bits in s
  {
    set b | b in s :: PrefixId(b)
  }

  lemma LpmIsLookup(prefixes: map<seq<bool>, Value>, key: seq<Byte>)
    ensures IsLookup(IndexOf(prefixes), key, Lpm(prefixes, BytesBits(key)))
  {
    hide BytesBits, Lpm;
    var k := BytesBits(key);
    LpmIsLongest(prefixes, k);
    if Lpm(prefixes, k).Some? {
      var s :| s in prefixes && s <= k && Lpm(prefixes, k).value == prefixes[s] &&
               forall t | t in prefixes && t <= k :: |t| <= |s|;
      forall other | other in IndexOf(prefixes) && IdMatches(other, key) && other != PrefixId(s)
        ensures |s| > |other.bits|
      {
        assert other.bits == k[..|other.bits|] && s == k[..|s|];
      }
      assert IsBest(IndexOf(prefixes), key, PrefixId(s));
    }
  }
}
