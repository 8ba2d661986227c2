/** The trie is canonical: its prefixes determine every node and every counter. */
module TrieTheorems {
  import opened Bits
  import opened PrefixKeys
  import opened PrefixMaps
  import opened TrieShape
  import opened LpmTrie
  import opened Wrappers

  /** Equal up to the identity of the nodes. */
  ghost predicate SameShape(g: Shape, h: Shape) {
    && g.Keys == h.Keys
    && forall p | p in g :: SameNode(g[p], h[p])
  }

  ghost predicate SameNode(m: NodeView, n: NodeView) {
    && m.branches.Keys == n.branches.Keys && m.prefixes == n.prefixes
    && m.branchNum == n.branchNum && m.prefNum == n.prefNum
  }

  lemma SameStored(s: map<Slot, Value>, t: map<Slot, Value>, prefixes: map<seq<bool>, Value>)
    requires Abstracts(s, prefixes) && Abstracts(t, prefixes)
    requires forall x | x in s :: ValidSlot(x)
    ensures forall x | x in s :: x in t && t[x] == s[x]
  {
    hide SlotOf, BitsOf;
    forall x | x in s ensures x in t && t[x] == s[x] {
      var bytes, n: nat :| n <= 8 * |bytes| && SlotOf(bytes, n) == x;
      SameAt(s, prefixes, bytes, n);
      SameAt(t, prefixes, bytes, n);
    }
  }

  lemma HoldsValid(h: Shape, stored: map<Slot, Value>)
    requires Holds(h, stored)
    ensures forall x | x in stored :: ValidSlot(x)
  {
  }

  lemma BranchIff(h: Shape, root: Node, p: Path, b: Word)
    requires Linked(h, root) && p in h
    ensures b in h[p].branches <==> p + [b] in h
  {
    assert HasChildren(h, p);
    if p + [b] in h {
      ParentOf(h, root, p + [b]);
      assert Front(p + [b]) == p;
    }
  }

  /** Two pruned, counted tries that hold the same slots have the same shape. */
  lemma Canonical(g: Shape, groot: Node, h: Shape, hroot: Node, stored: map<Slot, Value>)
    requires Linked(g, groot) && Holds(g, stored) && Counted(g) && Pruned(g, [])
    requires Linked(h, hroot) && Holds(h, stored) && Counted(h) && Pruned(h, [])
    ensures SameShape(g, h)
  {
    forall p ensures p in g <==> p in h {
      NodesAreForPrefixes(g, groot, stored, p);
      NodesAreForPrefixes(h, hroot, stored, p);
    }
    forall p | p in g ensures SameNode(g[p], h[p]) {
      CanonicalNode(g, groot, h, hroot, stored, p);
    }
  }

  lemma CanonicalNode(g: Shape, groot: Node, h: Shape, hroot: Node, stored: map<Slot, Value>, p: Path)
    requires Linked(g, groot) && Holds(g, stored) && Counted(g)
    requires Linked(h, hroot) && Holds(h, stored) && Counted(h)
    requires (forall q :: q in g <==> q in h) && p in g
    ensures SameNode(g[p], h[p])
  {
    hide Linked, Holds;
    forall b ensures b in g[p].branches <==> b in h[p].branches {
      BranchIff(g, groot, p, b);
      BranchIff(h, hroot, p, b);
    }
    forall k ensures k in g[p].prefixes <==> k in h[p].prefixes {
      HoldsAt(g, stored, p, k);
      HoldsAt(h, stored, p, k);
    }
    forall k | k in g[p].prefixes ensures g[p].prefixes[k] == h[p].prefixes[k] {
      HoldsAt(g, stored, p, k);
      HoldsAt(h, stored, p, k);
    }
    assert g[p].branches.Keys == h[p].branches.Keys;
    assert |g[p].branches| == |g[p].branches.Keys| && |h[p].branches| == |h[p].branches.Keys|;
    assert g[p].prefixes == h[p].prefixes;
  }

  lemma SameTrie(h: Shape, root: Node, stored: map<Slot, Value>, t: Trie)
    requires Linked(h, root) && Holds(h, stored) && Counted(h) && Pruned(h, [])
    requires Abstracts(stored, t.prefixes) && t.Valid()
    ensures SameShape(h, t.View())
  {
    hide Linked, Holds, Counted, Pruned, Abstracts, SameShape;
    ValidParts(t);
    HoldsValid(h, stored);
    HoldsValid(t.View(), t.stored);
    SameStored(stored, t.stored, t.prefixes);
    SameStored(t.stored, stored, t.prefixes);
    assert stored == t.stored;
    Canonical(h, root, t.View(), t.root, stored);
  }

  /** Two valid tries with the same prefixes are the same trie. */
  lemma PrefixesDetermineTrie(s: Trie, t: Trie)
    requires s.Valid() && t.Valid() && s.prefixes == t.prefixes
    ensures SameShape(s.View(), t.View())
  {
    hide Linked, Holds, Counted, Pruned, Abstracts, SameShape;
    ValidParts(s);
    SameTrie(s.View(), s.root, s.stored, t);
  }

  lemma ValidParts(t: Trie)
    requires t.Valid()
    ensures Linked(t.View(), t.root) && Holds(t.View(), t.stored) && Abstracts(t.stored, t.prefixes)
    ensures Counted(t.View()) && Pruned(t.View(), [])
  {
  }

  /** In a valid trie the counter of prefixes is exact, and that of branches reads 0
      for 256. */
  lemma CountersAreExact(t: Trie, p: Path)
    requires t.Valid() && p in t.nodes
    ensures t.nodes[p].prefNum == |t.nodes[p].prefixes| <= 255
    ensures |t.nodes[p].branches| <= 256
    ensures t.nodes[p].branchNum == if |t.nodes[p].branches| == 256 then 0 else |t.nodes[p].branches|
  {
    hide *;
    ValidParts(t);
    var h := t.View();
    ViewAt(t, p);
    CountedAt(h, p);
    BranchesAtMost(h, t.root, p);
    PrefixesAtMost(h, t.stored, p);
  }

  lemma ViewAt(t: Trie, p: Path)
    requires p in t.nodes
    ensures p in t.View()
    ensures var (v, n) := (t.View()[p], t.nodes[p]);
            && v.branches == n.branches && v.prefixes == n.prefixes
            && v.branchNum == n.branchNum && v.prefNum == n.prefNum
  {
  }

  lemma CountedAt(h: Shape, p: Path)
    requires Counted(h) && p in h
    ensures |h[p].branches| <= 256 ==> h[p].branchNum == if |h[p].branches| == 256 then 0 else |h[p].branches|
    ensures |h[p].prefixes| <= 255 ==> h[p].prefNum == |h[p].prefixes|
  {
  }

  // ----- when a deletion loses more than its prefix, in terms of the prefixes -----

  /** Below `q`, every next byte leads to some prefix. */
  ghost predicate AllBytesFollow(m: map<seq<bool>, Value>, q: seq<bool>) {
    forall b: Byte :: Extended(m, q + ByteBits(b))
  }

  ghost predicate Extended(m: map<seq<bool>, Value>, q: seq<bool>) {
    exists s :: s in m && q <= s
  }

  /** No prefix other than `bits` ends less than a byte below `q`. */
  ghost predicate NoOther(m: map<seq<bool>, Value>, q: seq<bool>, bits: seq<bool>) {
    forall s | s in m && q <= s && |s| < |q| + 8 :: s == bits
  }

  function UpTo(n: nat): (r: set<int>)
    ensures |r| == n && forall i :: i in r <==> 0 <= i < n
  {
    if n == 0 then {} else UpTo(n - 1) + {n - 1}
  }

  lemma AllBranches(s: set<Word>)
    requires forall b | b in s :: b < 256
    ensures |s| == 256 <==> forall b: Word | b < 256 :: b in s
  {
    var t := set b: int | b in s;
    assert s == t;
    if forall b: Word | b < 256 :: b in s {
      assert t == UpTo(256);
    } else {
      var b: Word :| b < 256 && b !in s;
      AtMost(t + {b}, 0, 256);
    }
  }

  /** A path leads to a node exactly when its bits are extended by some prefix. */
  lemma NodeIffExtended(t: Trie, path: seq<Byte>)
    requires t.Valid() && path != []
    ensures Words(path) in t.nodes <==> Extended(t.prefixes, BytesBits(path))
  {
    hide Linked, Holds, Abstracts, Counted, Pruned, BytesBits, AsWord, SlotOf;
    ValidParts(t);
    var p := Words(path);
    NodesAreForPrefixes(t.View(), t.root, t.stored, p);
    if p in t.nodes {
      var s :| s in t.stored && p <= s.path;
      var bytes, n := PrefixOfSlot(t.View(), t.stored, s);
      SameAt(t.stored, t.prefixes, bytes, n);
      PathBits(bytes, n, path);
    }
    if Extended(t.prefixes, BytesBits(path)) {
      var s :| s in t.prefixes && BytesBits(path) <= s;
      var bytes := AnyBits(s);
      SameAt(t.stored, t.prefixes, bytes, |s|);
      PathBits(bytes, |s|, path);
    }
  }

  lemma BranchIffExtended(t: Trie, path: seq<Byte>, b: Byte)
    requires t.Valid() && Words(path) in t.nodes
    ensures AsWord(b) in t.nodes[Words(path)].branches <==> Extended(t.prefixes, BytesBits(path) + ByteBits(b))
  {
    hide *;
    ValidParts(t);
    ViewAt(t, Words(path));
    BranchIff(t.View(), t.root, Words(path), AsWord(b));
    assert Words(path + [b]) == Words(path) + [AsWord(b)];
    NodeIffExtended(t, path + [b]);
    BytesBitsSnoc(path, b);
    ViewKeys(t);
  }

  lemma ViewKeys(t: Trie)
    ensures t.View().Keys == t.nodes.Keys
  {
  }

  lemma FullIffAllFollow(t: Trie, path: seq<Byte>)
    requires t.Valid() && Words(path) in t.nodes
    ensures |t.nodes[Words(path)].branches| == 256 <==> AllBytesFollow(t.prefixes, BytesBits(path))
  {
    hide Linked, Holds, Abstracts, Counted, Pruned, BytesBits, Extended, Words, AsWord, ByteBits;
    ValidParts(t);
    var p := Words(path);
    ViewAt(t, p);
    BranchesAreBytes(t.View(), t.root, p);
    var bs := t.nodes[p].branches.Keys;
    AllBranches(bs);
    if |bs| == 256 {
      forall b: Byte ensures Extended(t.prefixes, BytesBits(path) + ByteBits(b)) {
        BranchIffExtended(t, path, b);
      }
    }
    if AllBytesFollow(t.prefixes, BytesBits(path)) {
      forall w: Word | w < 256 ensures w in bs {
        var b := ByteOfWord(w);
        BranchIffExtended(t, path, b);
        assert Extended(t.prefixes, BytesBits(path) + ByteBits(b));
      }
    }
  }

  lemma BytesBitsSnoc(s: seq<Byte>, b: Byte)
    ensures BytesBits(s + [b]) == BytesBits(s) + ByteBits(b)
  {
    BytesBitsConcat(s, [b]);
    assert [b][1..] == [];
  }

  lemma BranchesAreBytes(h: Shape, root: Node, p: Path)
    requires Linked(h, root) && p in h
    ensures forall b | b in h[p].branches.Keys :: b < 256
  {
    assert HasChildren(h, p);
  }

  /** The node of a stored prefix holds no other exactly when no other stored prefix
      ends within the byte. */
  lemma AloneIffNoOther(t: Trie, prefix: seq<Byte>, n: nat)
    requires t.Valid() && n <= 8 * |prefix| && BitsOf(prefix, n) in t.prefixes
    ensures var s := SlotOf(prefix, n);
            && s.path in t.nodes
            && (t.nodes[s.path].prefixes.Keys == {s.key} <==>
                NoOther(t.prefixes, BytesBits(prefix[..n / 8]), BitsOf(prefix, n)))
  {
    hide Linked, Holds, Abstracts, Counted, Pruned, BytesBits, SlotOf, AsWord;
    t.StoredAt(prefix, n);
    var slot, q := SlotOf(prefix, n), BytesBits(prefix[..n / 8]);
    SlotPath(prefix, n);
    ValidParts(t);
    ViewAt(t, slot.path);
    var ks := t.nodes[slot.path].prefixes.Keys;
    if ks == {slot.key} {
      forall s | s in t.prefixes && q <= s && |s| < |q| + 8 ensures s == BitsOf(prefix, n) {
        var bytes := AnyBits(s);
        t.StoredAt(bytes, |s|);
        PathBits(bytes, |s|, prefix[..n / 8]);
        SlotPath(bytes, |s|);
        assert |bytes[..|s| / 8]| == n / 8;
        assert SlotOf(bytes, |s|).path == slot.path;
        assert SlotOf(bytes, |s|).key in ks;
        assert SlotOf(bytes, |s|) == slot;
        SlotSame(bytes, |s|, prefix, n);
      }
    }
    if NoOther(t.prefixes, q, BitsOf(prefix, n)) {
      forall k | k in ks ensures k == slot.key {
        OnlyKey(t, prefix, n, k);
      }
    }
  }

  lemma OnlyKey(t: Trie, prefix: seq<Byte>, n: nat, k: Word)
    requires t.Valid() && n <= 8 * |prefix| && SlotOf(prefix, n).path in t.nodes
    requires NoOther(t.prefixes, BytesBits(prefix[..n / 8]), BitsOf(prefix, n))
    requires k in t.nodes[SlotOf(prefix, n).path].prefixes
    ensures k == SlotOf(prefix, n).key
  {
    hide Linked, Holds, Abstracts, Counted, Pruned, BytesBits, SlotOf, AsWord;
    var path := SlotOf(prefix, n).path;
    ValidParts(t);
    ViewAt(t, path);
    HoldsAt(t.View(), t.stored, path, k);
    var bytes, m := PrefixOfSlot(t.View(), t.stored, Slot(path, k));
    SameAt(t.stored, t.prefixes, bytes, m);
    SlotPath(prefix, n);
    SlotPath(bytes, m);
    PathBits(bytes, m, prefix[..n / 8]);
    assert |Words(bytes[..m / 8])| == |Words(prefix[..n / 8])|;
    SlotSame(bytes, m, prefix, n);
  }

  /** The exact condition, which a caller can check before deleting: the prefix has a
      whole byte, every next byte leads to some stored prefix, and no other stored
      prefix ends within that byte. */
  lemma LosesSubtreeIff(t: Trie, prefix: seq<Byte>, n: nat)
    requires t.Valid() && n <= 8 * |prefix| && BitsOf(prefix, n) in t.prefixes
    ensures t.LosesSubtree(prefix, n) <==>
              && n >= 8
              && AllBytesFollow(t.prefixes, BytesBits(prefix[..n / 8]))
              && NoOther(t.prefixes, BytesBits(prefix[..n / 8]), BitsOf(prefix, n))
  {
    hide Linked, Holds, Abstracts, Counted, Pruned, BytesBits, SlotOf, AsWord, AllBytesFollow, NoOther;
    AloneIffNoOther(t, prefix, n);
    SlotPath(prefix, n);
    FullIffAllFollow(t, prefix[..n / 8]);
  }

  lemma AllBytesFollowMore(m: map<seq<bool>, Value>, q: seq<bool>, bits: seq<bool>, v: Value)
    requires q <= bits && |bits| < |q| + 8
    ensures AllBytesFollow(m[bits := v], q) <==> AllBytesFollow(m, q)
    ensures NoOther(m[bits := v], q, bits) <==> NoOther(m, q, bits)
  {
    forall b: Byte ensures Extended(m[bits := v], q + ByteBits(b)) <==> Extended(m, q + ByteBits(b)) {
      if s :| s in m && q + ByteBits(b) <= s {
        assert s in m[bits := v];
      }
    }
  }

  lemma PathIsPrefix(prefix: seq<Byte>, n: nat)
    requires n <= 8 * |prefix|
    ensures BytesBits(prefix[..n / 8]) <= BitsOf(prefix, n) && |BitsOf(prefix, n)| < |BytesBits(prefix[..n / 8])| + 8
  {
    BitsOfParts(prefix, n);
  }

  /** Storing a fresh prefix and deleting it again gives back the same trie, with the
      same prefixes, if and only if the deletion is not the one that loses a subtree:
      every next byte leads to some stored prefix and none ends within that byte. */
  method InsertThenDelete(t: Trie, prefix: seq<Byte>, n: nat, value: Value)
    requires t.Valid() && t.releaseMemory && n <= 8 * |prefix| && BitsOf(prefix, n) !in t.prefixes
    modifies t`nodes, t`stored, t`prefixes, t.nodes.Values
    ensures t.Valid()
    ensures t.prefixes == old(t.prefixes) && SameShape(old(t.View()), t.View())
            <==> !(n >= 8 && AllBytesFollow(old(t.prefixes), BytesBits(prefix[..n / 8]))
                   && NoOther(old(t.prefixes), BytesBits(prefix[..n / 8]), BitsOf(prefix, n)))
  {
    hide Linked, Holds, Abstracts, Counted, Pruned, BytesBits, SlotOf, BitsOf, AsWord, AllBytesFollow, NoOther,
         Deleted, SameShape;
    ghost var h, stored, root := t.View(), t.stored, t.root;
    ghost var bits, q := BitsOf(prefix, n), BytesBits(prefix[..n / 8]);
    ValidParts(t);
    t.Insert(prefix, n, value);
    t.SubtreeIsLost(prefix, n);
    LosesSubtreeIff(t, prefix, n);
    PathIsPrefix(prefix, n);
    AllBytesFollowMore(old(t.prefixes), q, bits, value);
    assert old(t.prefixes)[bits := value] - {bits} == old(t.prefixes);
    var found := t.Delete(prefix, n);
    if t.prefixes == old(t.prefixes) {
      SameTrie(h, root, stored, t);
    }
  }

  // ----- an example -----

  /** The two-byte prefixes that start with `x` and go on with a byte below `n`. */
  ghost function Pairs(x: Byte, n: nat): (m: map<seq<bool>, Value>)
    requires n <= 256
  {
    if n == 0 then map[] else Pairs(x, n - 1)[BytesBits([x, ByteOfWord(n - 1)]) := 0]
  }

  lemma {:induction false} PairIsThere(x: Byte, n: nat, w: nat)
    requires w < n <= 256
    ensures BytesBits([x, ByteOfWord(w)]) in Pairs(x, n)
  {
    hide BytesBits, ByteOfWord;
    if w < n - 1 {
      PairIsThere(x, n - 1, w);
    }
  }

  lemma {:induction false} OnlyPairs(x: Byte, n: nat, s: seq<bool>)
    requires n <= 256 && s in Pairs(x, n)
    ensures |s| == 16 && BytesBits([x]) <= s && s != BytesBits([x])
    ensures exists w: nat :: w < n && s == BytesBits([x, ByteOfWord(w)])
  {
    hide BytesBits, ByteOfWord;
    if s == BytesBits([x, ByteOfWord(n - 1)]) {
      BytesBitsConcat([x], [ByteOfWord(n - 1)]);
      assert [x] + [ByteOfWord(n - 1)] == [x, ByteOfWord(n - 1)];
    } else {
      OnlyPairs(x, n - 1, s);
    }
  }

  lemma FreshPair(x: Byte, n: nat)
    requires n < 256
    ensures BytesBits([x, ByteOfWord(n)]) !in Pairs(x, n)
  {
    hide BytesBits, ByteOfWord;
    if BytesBits([x, ByteOfWord(n)]) in Pairs(x, n) {
      OnlyPairs(x, n, BytesBits([x, ByteOfWord(n)]));
      var w: nat :| w < n && BytesBits([x, ByteOfWord(n)]) == BytesBits([x, ByteOfWord(w)]);
      BytesBitsInjective([x, ByteOfWord(n)], [x, ByteOfWord(w)]);
      assert false;
    }
  }

  lemma AllPairs(x: Byte, m: map<seq<bool>, Value>)
    requires m == Pairs(x, 256)[BytesBits([x]) := 0]
    ensures AllBytesFollow(m, BytesBits([x])) && NoOther(m, BytesBits([x]), BytesBits([x]))
    ensures Beyond(m - {BytesBits([x])}, BytesBits([x])) == map[]
  {
    hide BytesBits, ByteBits, ByteOfWord, AsWord, Pairs;
    forall b: Byte ensures Extended(m, BytesBits([x]) + ByteBits(b)) {
      PairIsThere(x, 256, AsWord(b));
      AsWordInjective(ByteOfWord(AsWord(b)), b);
      BytesBitsSnoc([x], b);
      assert [x] + [b] == [x, ByteOfWord(AsWord(b))];
      assert BytesBits([x] + [b]) in m;
    }
    forall s | s in m && s != BytesBits([x]) ensures |s| == 16 && BytesBits([x]) <= s {
      OnlyPairs(x, 256, s);
    }
  }

  lemma NoPairs(x: Byte)
    ensures Pairs(x, 0) == map[]
  {
  }

  method InsertFresh(t: Trie, prefix: seq<Byte>, n: nat)
    requires t.Valid() && n <= 8 * |prefix| && BitsOf(prefix, n) !in t.prefixes
    modifies t`nodes, t`stored, t`prefixes, t.nodes.Values
    ensures t.Valid() && t.prefixes == old(t.prefixes)[BitsOf(prefix, n) := 0]
    ensures fresh(t.nodes.Values - old(t.nodes.Values))
  {
    hide Linked, Holds, Abstracts, Counted, Pruned, BitsOf;
    t.Insert(prefix, n, 0);
  }

  method AddPair(t: Trie, x: Byte, n: nat)
    requires n < 256 && t.Valid() && t.prefixes == Pairs(x, n)
    modifies t`nodes, t`stored, t`prefixes, t.nodes.Values
    ensures t.Valid() && t.prefixes == Pairs(x, n + 1)
    ensures fresh(t.nodes.Values - old(t.nodes.Values))
  {
    hide Trie.Valid, BytesBits, ByteOfWord, BitsOf;
    FreshPair(x, n);
    t.BitsOfAll([x, ByteOfWord(n)]);
    InsertFresh(t, [x, ByteOfWord(n)], 16);
  }

  /** A trie of 257 prefixes: `x`, and `x` followed by each byte. */
  method Fill(x: Byte) returns (t: Trie)
    ensures fresh(t) && fresh(t.nodes.Values) && t.Valid() && t.releaseMemory
    ensures t.prefixes == Pairs(x, 256)[BytesBits([x]) := 0]
    ensures t.LosesSubtree([x], 8)
  {
    hide *;
    t := new Trie(2, true);
    NoPairs(x);
    for n := 0 to 256
      invariant fresh(t) && fresh(t.nodes.Values) && t.Valid() && t.releaseMemory
      invariant t.prefixes == Pairs(x, n)
    {
      AddPair(t, x, n);
    }
    t.BitsOfAll([x]);
    if BytesBits([x]) in t.prefixes {
      OnlyPairs(x, 256, BytesBits([x]));
    }
    InsertFresh(t, [x], 8);
    AllPairs(x, t.prefixes);
    assert [x][..8 / 8] == [x];
    LosesSubtreeIff(t, [x], 8);
  }

  /** Deleting `x` from it takes all the other prefixes with it. */
  method LoseAll(x: Byte) returns (t: Trie)
    ensures fresh(t) && t.Valid() && t.prefixes == map[]
  {
    hide Linked, Holds, Abstracts, Counted, Pruned, BytesBits, Pairs, AllBytesFollow, NoOther, SlotOf, Beyond;
    t := Fill(x);
    t.BitsOfAll([x]);
    assert [x][..8 / 8] == [x];
    AllPairs(x, t.prefixes);
    ghost var m := t.prefixes;
    var found := t.Delete([x], 8);
    assert found && t.prefixes == Deleted(m, [x], 8, true);
  }
}
