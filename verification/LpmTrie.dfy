/** The byte-stride trie behind LPM tables: nodes linked to their parents, per-node
    prefixes for the last 0 to 7 bits, 8-bit counters, and pruning on delete. */
module LpmTrie {
  import opened Bits
  import opened PrefixKeys
  import opened PrefixMaps
  import opened TrieShape
  import opened Wrappers

  class Trie {
    const keyWidth: nat
    const releaseMemory: bool
    const root: Node
    /** Every node, by the bytes that lead to it. */
    ghost var nodes: map<Path, Node>
    /** What the nodes hold, by slot. */
    ghost var stored: map<Slot, Value>
    /** The specification: the value of each bit-prefix. */
    ghost var prefixes: map<seq<bool>, Value>

    ghost function View(): Shape
      reads this`nodes, nodes.Values
    {
      map p | p in nodes :: nodes[p].View()
    }

    /** The links agree and the nodes hold exactly `prefixes`. */
    ghost predicate Structured()
      reads this, nodes.Values
    {
      Linked(View(), root) && Holds(View(), stored) && Abstracts(stored, prefixes)
    }

    /** Besides, the counters are right and no node but the root is empty. */
    ghost predicate Valid()
      reads this, nodes.Values
    {
      Structured() && Counted(View()) && Pruned(View(), [])
    }

    constructor (keyWidthBytes: nat, autoShrink: bool)
      requires keyWidthBytes <= 64
      ensures Valid() && prefixes == map[] && fresh(nodes.Values)
      ensures keyWidth == keyWidthBytes && releaseMemory == autoShrink
    {
      keyWidth, releaseMemory := keyWidthBytes, autoShrink;
      var r := new Node();
      root := r;
      nodes, stored, prefixes := map[[] := r], map[], map[];
      new;
      EmptyTrie(View(), root);
    }

    lemma Seen(path: Path)
      ensures path in nodes <==> path in View()
      ensures path in nodes ==> View()[path] == nodes[path].View()
    {
    }

    lemma DistinctNodes(path: Path)
      requires Structured() && path in nodes
      ensures forall p | p in nodes && p != path :: nodes[p] != nodes[path]
    {
      DistinctIds(View(), root, path);
      forall p | p in nodes && p != path ensures nodes[p] != nodes[path] {
        assert View()[p].id == nodes[p];
      }
    }

    method AllocateChild(current: Node, byte: Word) returns (node: Node)
      modifies current`branches, current`branchNum
      ensures fresh(node) && node.View() == NodeView(node, map[], map[], 0, 0, current, byte)
      ensures current.branches == old(current.branches)[byte := node]
      ensures current.branchNum == U8(old(current.branchNum) + 1)
    {
      node := new Node();
      node.parent := current;
      node.childId := byte;
      current.branches := current.branches[byte := node];
      current.branchNum := U8(current.branchNum + 1);
    }

    method AddNode(current: Node, ghost path: Path, byte: Word) returns (node: Node)
      requires path in nodes && nodes[path] == current && path + [byte] !in nodes
      requires forall p | p in nodes && p != path :: nodes[p] != current
      modifies this`nodes, current`branches, current`branchNum
      ensures fresh(node) && nodes == old(nodes)[path + [byte] := node]
      ensures View() == WithChild(old(View()), path, byte, node)
    {
      hide U8, WithChild;
      ghost var h := View();
      node := AllocateChild(current, byte);
      nodes := nodes[path + [byte] := node];
      ghost var h' := WithChildParts(h, path, byte, node);
      assert View()[path] == h'[path];
      assert forall p | p in old(nodes) && p != path :: View()[p] == h[p];
    }

    /** The child of `current`, allocated when there is none. */
    method GetOrAddChild(current: Node, ghost path: Path, byte: Word) returns (node: Node)
      requires Structured() && Pruned(View(), path) && byte < 256
      requires path in nodes && nodes[path] == current
      modifies this`nodes, current`branches, current`branchNum
      ensures Structured() && Pruned(View(), path + [byte])
      ensures old(Counted(View())) ==> Counted(View())
      ensures path + [byte] in nodes && nodes[path + [byte]] == node
      ensures fresh(nodes.Values - old(nodes.Values))
      ensures forall p | p in old(nodes) :: p in nodes && nodes[p] == old(nodes[p])
    {
      hide Linked, Holds, Counted, Pruned, Abstracts, WithChild, U8;
      ghost var h := View();
      if byte in current.branches {
        node := current.branches[byte];
        ChildThere(h, root, path, byte);
      } else {
        DistinctNodes(path);
        NoChildThere(h, root, path, byte);
        node := AddNode(current, path, byte);
        AddChild(h, root, path, byte, node);
        AddChildHolds(h, path, byte, node, stored);
        if Counted(h) {
          AddChildCounted(h, path, byte, node);
        }
        AddChildPruned(h, path, byte, node);
      }
    }
  
    method SetPrefixesOf(current: Node, ghost path: Path, prefixesThere: map<Word, Value>, prefNum: nat)
      requires path in nodes && nodes[path] == current
      requires forall p | p in nodes && p != path :: nodes[p] != current
      modifies current`prefixes, current`prefNum
      ensures View() == WithPrefixes(old(View()), path, prefixesThere, prefNum)
    {
      hide WithPrefixes;
      ghost var h := View();
      current.prefixes := prefixesThere;
      current.prefNum := prefNum;
      ghost var h' := WithPrefixesParts(h, path, prefixesThere, prefNum);
      assert View()[path] == h'[path];
      assert forall p | p in nodes && p != path :: View()[p] == h[p];
    }

    /** Stores `value` at a node.  The key counts as new unless a value other than 0
        was there. */
    method InsertPrefix(current: Node, ghost path: Path, key: Word, value: Value)
      requires path in nodes && nodes[path] == current
      requires forall p | p in nodes && p != path :: nodes[p] != current
      modifies current`prefixes, current`prefNum
      ensures View() == WithPrefix(old(View()), path, key, value,
                                   !(key in old(current.prefixes) && old(current.prefixes)[key] != 0))
    {
      hide WithPrefixes, U8;
      var rc := key in current.prefixes && current.prefixes[key] != 0;
      SetPrefixesOf(current, path, current.prefixes[key := value],
                    if rc then current.prefNum else U8(current.prefNum + 1));
    }

    /** The last step of an insertion, at the node where the whole bytes lead. */
    method StoreAt(current: Node, key: Word, value: Value, ghost prefix: seq<Byte>, ghost n: nat)
      requires n <= 8 * |prefix| && SlotOf(prefix, n) == Slot(Words(prefix[..n / 8]), key)
      requires var path := Words(prefix[..n / 8]); path in nodes && nodes[path] == current
      requires Structured() && Pruned(View(), Words(prefix[..n / 8]))
      modifies this`stored, this`prefixes, current`prefixes, current`prefNum
      ensures Structured() && Pruned(View(), [])
      ensures prefixes == old(prefixes)[BitsOf(prefix, n) := value]
      ensures old(Counted(View())) ==>
                (Counted(View()) <==> !(BitsOf(prefix, n) in old(prefixes) && old(prefixes)[BitsOf(prefix, n)] == 0))
    {
      hide Linked, Holds, Counted, Pruned, Abstracts, BitsOf, SlotOf, U8, WithPrefix, Words, PrefixKey, Trie.View;
      ghost var path, slot, h := Words(prefix[..n / 8]), SlotOf(prefix, n), View();
      Seen(path);
      SlotIsValid(prefix, n);
      SameAt(stored, prefixes, prefix, n);
      HoldsAt(h, stored, path, key);
      DistinctNodes(path);
      ghost var counted := !(slot in stored && stored[slot] != 0);
      assert h[path].prefixes == current.prefixes;
      InsertPrefix(current, path, key, value);
      ghost var h' := View();
      InsertLinked(h, root, path, key, value, counted);
      InsertHolds(h, path, key, value, counted, stored);
      InsertPruned(h, path, key, value, counted);
      if Counted(h) {
        InsertCounted(h, path, key, value, counted);
      }
      AbstractsInsert(stored, prefixes, prefix, n, value);
      stored := stored[slot := value];
      prefixes := prefixes[BitsOf(prefix, n) := value];
      assert View() == h';
    }

    /** `bf_lpm_trie_insert`.  The specification map is updated for any arguments; the
        counters stay right unless the prefix was there with the value 0. */
    method Insert(prefix: seq<Byte>, prefixLength: nat, value: Value)
      requires Structured() && Pruned(View(), []) && prefixLength <= 8 * |prefix|
      modifies this`nodes, this`stored, this`prefixes, nodes.Values
      ensures Structured() && Pruned(View(), [])
      ensures prefixes == old(prefixes)[BitsOf(prefix, prefixLength) := value]
      ensures fresh(nodes.Values - old(nodes.Values))
      ensures old(Counted(View())) ==>
                (Counted(View()) <==> !(BitsOf(prefix, prefixLength) in old(prefixes)
                                        && old(prefixes)[BitsOf(prefix, prefixLength)] == 0))
    {
      hide Linked, Holds, Counted, Pruned, Abstracts, BitsOf, PrefixKey, AsWord;
      var current, i, len := root, 0, prefixLength;
      assert prefix[..0] == [];
      RootThere(View(), root);
      while len >= 8
        invariant 8 * i + len == prefixLength
        invariant Structured() && Pruned(View(), Words(prefix[..i]))
        invariant old(Counted(View())) ==> Counted(View())
        invariant Words(prefix[..i]) in nodes && nodes[Words(prefix[..i])] == current
        invariant fresh(nodes.Values - old(nodes.Values))
        invariant prefixes == old(prefixes)
      {
        ghost var path := Words(prefix[..i]);
        assert Words(prefix[..i + 1]) == path + [AsWord(prefix[i])];
        current := GetOrAddChild(current, path, AsWord(prefix[i]));
        i, len := i + 1, len - 8;
      }
      assert i == prefixLength / 8 && len == prefixLength % 8;
      var key := if len == 0 then 0 else PrefixKey(len, prefix[i]);
      StoreAt(current, key, value, prefix, prefixLength);
    }
  
    lemma ChildOf(path: Path, byte: Word)
      requires Structured() && path in nodes
      ensures byte in nodes[path].branches <==> path + [byte] in nodes
      ensures byte in nodes[path].branches ==> nodes[path + [byte]] == nodes[path].branches[byte]
    {
      var h := View();
      assert HasChildren(h, path) by {
        hide HasChildren;
      }
      if path + [byte] in nodes {
        ParentOf(h, root, path + [byte]);
        assert Front(path + [byte]) == path;
      }
    }

    /** The node where the whole bytes of a prefix lead, or null. */
    method Walk(prefix: seq<Byte>, prefixLength: nat) returns (current: Node?)
      requires Structured() && prefixLength <= 8 * |prefix|
      ensures var path := Words(prefix[..prefixLength / 8]);
              if current == null then path !in nodes else path in nodes && nodes[path] == current
    {
      hide Linked, Holds, Abstracts, AsWord;
      current := root;
      var i, len := 0, prefixLength;
      assert prefix[..0] == [];
      RootThere(View(), root);
      while len >= 8
        invariant 8 * i + len == prefixLength
        invariant current != null && Words(prefix[..i]) in nodes && nodes[Words(prefix[..i])] == current
      {
        ghost var path := Words(prefix[..i]);
        assert Words(prefix[..i + 1]) == path + [AsWord(prefix[i])];
        ChildOf(path, AsWord(prefix[i]));
        if AsWord(prefix[i]) !in current.branches {
          ghost var full := Words(prefix[..prefixLength / 8]);
          assert full[..i + 1] == path + [AsWord(prefix[i])];
          NoneFurther(full, i + 1);
          current := null;
          return;
        }
        current := current.branches[AsWord(prefix[i])];
        i, len := i + 1, len - 8;
      }
      assert i == prefixLength / 8;
    }

    lemma NoneFurther(path: Path, k: nat)
      requires Structured() && k <= |path| && path[..k] !in nodes
      ensures path !in nodes
    {
      if path in nodes {
        PathsClosed(View(), root, path, k);
        assert false;
      }
    }

    /** Whether a prefix is stored, read off the node where its bytes lead. */
    lemma StoredAt(prefix: seq<Byte>, n: nat)
      requires Structured() && n <= 8 * |prefix|
      ensures var s := SlotOf(prefix, n);
              BitsOf(prefix, n) in prefixes <==> s.path in nodes && s.key in nodes[s.path].prefixes
      ensures var s := SlotOf(prefix, n);
              BitsOf(prefix, n) in prefixes ==> nodes[s.path].prefixes[s.key] == prefixes[BitsOf(prefix, n)]
    {
      hide SlotOf, BitsOf;
      var s := SlotOf(prefix, n);
      SameAt(stored, prefixes, prefix, n);
      if s.path in nodes {
        HoldsAt(View(), stored, s.path, s.key);
      }
    }

    /** `bf_lpm_trie_has_prefix`. */
    method HasPrefix(prefix: seq<Byte>, prefixLength: nat) returns (found: bool)
      requires Structured() && prefixLength <= 8 * |prefix|
      ensures found <==> BitsOf(prefix, prefixLength) in prefixes
    {
      hide Linked, Holds, Abstracts, AsWord, BitsOf, PrefixKey;
      StoredAt(prefix, prefixLength);
      var current := Walk(prefix, prefixLength);
      if current == null {
        return false;
      }
      var len := prefixLength % 8;
      var key := if len == 0 then 0 else PrefixKey(len, prefix[prefixLength / 8]);
      found := key in current.prefixes;
    }

    /** `bf_lpm_trie_lookup`: the value of the longest stored prefix of the key. */
    method Lookup(key: seq<Byte>) returns (result: Option<Value>)
      requires Structured() && |key| == keyWidth
      ensures result == Lpm(prefixes, BytesBits(key))
    {
      hide Linked, Holds, Abstracts, AsWord, PrefixKey, BytesBits;
      var current: Node? := root;
      var d := 0;
      result := None;
      assert key[..0] == [];
      RootThere(View(), root);
      while current != null
        invariant d <= |key|
        invariant Words(key[..d]) in nodes && nodes[Words(key[..d])] == current
        invariant result == if d == 0 then None else Lpm(prefixes, BitsOf(key, 8 * d - 1))
        decreases |key| - d
      {
        result := Best(current, key, d, result);
        if d == |key| {
          assert BytesBits(key)[..8 * d] == BytesBits(key);
          return;
        }
        result := BestResidue(current, key, d, result);
        ghost var path := Words(key[..d]);
        assert Words(key[..d + 1]) == path + [AsWord(key[d])];
        ChildOf(path, AsWord(key[d]));
        if AsWord(key[d]) !in current.branches {
          NothingLonger(key, d + 1);
          return;
        }
        current := current.branches[AsWord(key[d])];
        d := d + 1;
      }
    }

    /** The prefix that ends at this node. */
    method Best(current: Node, key: seq<Byte>, ghost d: nat, before: Option<Value>) returns (result: Option<Value>)
      requires Structured() && d <= |key|
      requires Words(key[..d]) in nodes && nodes[Words(key[..d])] == current
      requires before == if d == 0 then None else Lpm(prefixes, BitsOf(key, 8 * d - 1))
      ensures result == Lpm(prefixes, BitsOf(key, 8 * d))
    {
      StoredAt(key, 8 * d);
      result := if 0 in current.prefixes then Some(current.prefixes[0]) else before;
      if d > 0 {
        assert BitsOf(key, 8 * d)[..8 * d - 1] == BitsOf(key, 8 * d - 1);
      }
    }

    /** The longest of the prefixes that end 1 to 7 bits below this node. */
    method BestResidue(current: Node, key: seq<Byte>, d: nat, before: Option<Value>) returns (result: Option<Value>)
      requires Structured() && d < |key|
      requires Words(key[..d]) in nodes && nodes[Words(key[..d])] == current
      requires before == Lpm(prefixes, BitsOf(key, 8 * d))
      ensures result == Lpm(prefixes, BitsOf(key, 8 * d + 7))
    {
      hide Linked, Holds, Abstracts, AsWord, PrefixKey, BytesBits;
      result := before;
      var i := 7;
      while i > 0
        invariant 0 <= i <= 7
        invariant forall n | 8 * d + i < n <= 8 * d + 7 :: BytesBits(key)[..n] !in prefixes
      {
        StoredAt(key, 8 * d + i);
        var prefixKey := PrefixKey(i, key[d]);
        if prefixKey in current.prefixes {
          result := Some(current.prefixes[prefixKey]);
          LpmSkip(prefixes, BytesBits(key), 8 * d + i, 8 * d + 7);
          return;
        }
        i := i - 1;
      }
      LpmSkip(prefixes, BytesBits(key), 8 * d, 8 * d + 7);
    }

    lemma NotStoredFrom(key: seq<Byte>, d: nat, n: nat)
      requires Structured() && d <= |key| && Words(key[..d]) !in nodes && 8 * d <= n <= 8 * |key|
      ensures BytesBits(key)[..n] !in prefixes
    {
      hide Linked, Holds, Abstracts, AsWord, PrefixKey, BytesBits;
      StoredAt(key, n);
      assert Words(key[..n / 8])[..d] == Words(key[..d]);
      NoneFurther(Words(key[..n / 8]), d);
    }

    lemma NothingLonger(key: seq<Byte>, d: nat)
      requires Structured() && 0 < d <= |key| && Words(key[..d]) !in nodes
      ensures Lpm(prefixes, BytesBits(key)) == Lpm(prefixes, BitsOf(key, 8 * d - 1))
    {
      hide *;
      NothingLongerUpTo(key, d, 8 * |key|);
      BitsOfAll(key);
    }

    lemma {:induction false} NothingLongerUpTo(key: seq<Byte>, d: nat, n: nat)
      requires Structured() && 0 < d <= |key| && Words(key[..d]) !in nodes && 8 * d - 1 <= n <= 8 * |key|
      ensures Lpm(prefixes, BitsOf(key, n)) == Lpm(prefixes, BitsOf(key, 8 * d - 1))
      decreases n
    {
      hide *;
      if n > 8 * d - 1 {
        NotStoredFrom(key, d, n);
        BitsOfIs(key, n);
        BitsOfIs(key, n - 1);
        LpmSkip(prefixes, BytesBits(key), n - 1, n);
        NothingLongerUpTo(key, d, n - 1);
      }
    }

    lemma BitsOfAll(key: seq<Byte>)
      ensures BitsOf(key, 8 * |key|) == BytesBits(key)
    {
    }

    lemma BitsOfIs(key: seq<Byte>, n: nat)
      requires n <= 8 * |key|
      ensures BitsOf(key, n) == BytesBits(key)[..n]
    {
    }
  
    // ----- deletion -----

    /** One step of pruning: `current`, the parent of `tmp`, loses that branch. */
    method CutBranch(current: Node, tmp: Node, ghost q: Path)
      requires q != [] && q in nodes && nodes[q] == tmp && tmp.childId == Last(q)
      requires Front(q) in nodes && nodes[Front(q)] == current && Last(q) in current.branches
      requires forall p | p in nodes && p != Front(q) :: nodes[p] != current
      modifies this`nodes, current`branches, current`branchNum
      ensures View() == WithoutSubtree(old(View()), q)
      ensures nodes.Values <= old(nodes.Values) && Front(q) in nodes && nodes[Front(q)] == current
    {
      hide U8, WithoutSubtree, Front, Last;
      ghost var h := View();
      ghost var h' := WithoutSubtreeParts(h, q);
      current.branches := current.branches - {tmp.childId};
      nodes := map p | p in nodes && !(q <= p) :: nodes[p];
      current.branchNum := U8(current.branchNum - 1);
      ghost var v := View();
      forall p | p in h' ensures p in v && v[p] == h'[p] {
        if p != Front(q) {
          assert nodes[p] != current;
        }
      }
      assert v.Keys == h'.Keys;
    }
  
    /** The nodes agree with `stored`, whatever the specification map says. */
    ghost predicate Agrees()
      reads this`nodes, this`stored, nodes.Values
    {
      Linked(View(), root) && Holds(View(), stored) && Counted(View())
    }

    /** The pruning loop, upwards from a node that has just lost a prefix. */
    method Prune(start: Node, ghost p: Path)
      requires Agrees() && Pruned(View(), p) && p in nodes && nodes[p] == start
      modifies this`nodes, this`stored, nodes.Values
      ensures Agrees() && Pruned(View(), [])
      ensures stored == if old(Overfull(View(), p)) then Outside(old(stored), p) else old(stored)
      ensures nodes.Values <= old(nodes.Values)
    {
      hide Linked, Holds, Counted, Pruned, Outside, WithoutSubtree, HasParent, U8;
      var current := start;
      ghost var q := p;
      ZeroCounters(View(), root, stored, q);
      while current.prefNum == 0 && current.branchNum == 0
        invariant Agrees() && Pruned(View(), q) && q in nodes && nodes[q] == current
        invariant nodes.Values <= old(nodes.Values)
        invariant q == p ==> stored == old(stored) && View() == old(View())
        invariant q != p ==> stored == if old(Overfull(View(), p)) then Outside(old(stored), p) else old(stored)
        invariant q != p ==> |current.branches| <= 255
        decreases |q|
      {
        ZeroCounters(View(), root, stored, q);
        OnlyRootHasNoParent(View(), root, q);
        var tmp := current;
        if current.parent == null {
          break;
        }
        current := PruneStep(tmp, q);
        q := Front(q);
      }
      ZeroCounters(View(), root, stored, q);
      PrunedAt(View(), q);
    }

    method PruneStep(tmp: Node, ghost q: Path) returns (current: Node)
      requires Agrees() && Pruned(View(), q) && q in nodes && nodes[q] == tmp
      requires tmp.parent != null && tmp.prefixes == map[]
      modifies this`nodes, this`stored, nodes.Values
      ensures q != [] && Front(q) in nodes && nodes[Front(q)] == current
      ensures Agrees() && Pruned(View(), Front(q)) && |current.branches| <= 255
      ensures nodes.Values <= old(nodes.Values)
      ensures stored == if old(tmp.branches) == map[] then old(stored) else Outside(old(stored), q)
    {
      hide Linked, Holds, Counted, Pruned, Outside, WithoutSubtree, U8, Trie.View;
      ghost var h := View();
      Seen(q);
      OnlyRootHasNoParent(h, root, q);
      ParentOf(h, root, q);
      CutAll(h, root, q, stored);
      if tmp.branches == map[] {
        NothingBelow(h, root, stored, q);
      }
      current := tmp.parent;
      DistinctIds(h, root, Front(q));
      Seen(Front(q));
      forall r | r in nodes && r != Front(q) ensures nodes[r] != current {
        Seen(r);
      }
      CutBranch(current, tmp, q);
      ghost var h' := View();
      Seen(Front(q));
      assert h'[Front(q)].branches == current.branches;
      stored := Outside(stored, q);
      assert View() == h';
    }
  
    /** The one case in which a deletion loses more than its prefix: the prefix is the
        only one at a node, below the root, that has a child for each of the 256
        bytes.  The 8-bit count of the children then reads 0. */
    ghost predicate LosesSubtree(prefix: seq<Byte>, n: nat)
      requires n <= 8 * |prefix|
      reads this`nodes, nodes.Values
    {
      var s := SlotOf(prefix, n);
      && s.path in nodes && s.path != []
      && nodes[s.path].prefixes.Keys == {s.key} && |nodes[s.path].branches| == 256
    }

    /** `bf_lpm_trie_delete`. */
    method Delete(prefix: seq<Byte>, prefixLength: nat) returns (found: bool)
      requires Valid() && prefixLength <= 8 * |prefix|
      modifies this`nodes, this`stored, this`prefixes, nodes.Values
      ensures Valid() && nodes.Values <= old(nodes.Values)
      ensures found <==> BitsOf(prefix, prefixLength) in old(prefixes)
      ensures !found || !releaseMemory ==> prefixes == old(prefixes) && View() == old(View())
      ensures found && releaseMemory ==>
                prefixes == Deleted(old(prefixes), prefix, prefixLength, old(LosesSubtree(prefix, prefixLength)))
    {
      hide Linked, Holds, Abstracts, Counted, Pruned, AsWord, BitsOf, PrefixKey, Deleted, Words;
      StoredAt(prefix, prefixLength);
      var current := Walk(prefix, prefixLength);
      if current == null {
        return false;
      }
      var len := prefixLength % 8;
      var key := if len == 0 then 0 else PrefixKey(len, prefix[prefixLength / 8]);
      if key !in current.prefixes {
        return false;
      }
      if releaseMemory {
        RemoveAt(current, key, prefix, prefixLength);
      }
      found := true;
    }

    method RemoveAt(current: Node, key: Word, ghost prefix: seq<Byte>, ghost n: nat)
      requires Valid() && n <= 8 * |prefix| && SlotOf(prefix, n) == Slot(Words(prefix[..n / 8]), key)
      requires var path := Words(prefix[..n / 8]); path in nodes && nodes[path] == current && key in current.prefixes
      modifies this`nodes, this`stored, this`prefixes, nodes.Values
      ensures Valid() && nodes.Values <= old(nodes.Values)
      ensures prefixes == Deleted(old(prefixes), prefix, n, old(LosesSubtree(prefix, n)))
    {
      hide Trie.View, Overfull, Linked, Holds, Counted, Pruned, Abstracts, Deleted, SlotOf, Words, Outside;
      ghost var lost := LosesSubtree(prefix, n);
      AbstractsDeleted(stored, prefixes, prefix, n, lost);
      RemovePrefix(current, SlotOf(prefix, n).path, key);
      Prune(current, SlotOf(prefix, n).path);
      ghost var h' := View();
      prefixes := Deleted(prefixes, prefix, n, lost);
      assert View() == h';
    }

    method RemovePrefix(current: Node, ghost path: Path, key: Word)
      requires Agrees() && Pruned(View(), []) && path in nodes && nodes[path] == current && key in current.prefixes
      modifies this`stored, current`prefixes, current`prefNum
      ensures Agrees() && Pruned(View(), path) && stored == old(stored) - {Slot(path, key)}
      ensures Overfull(View(), path) <==>
                path != [] && old(current.prefixes).Keys == {key} && |current.branches| == 256
    {
      hide Linked, Holds, Counted, Pruned, WithPrefixes, U8, Overfull;
      ghost var h := View();
      DistinctIds(h, root, path);
      assert forall r | r in nodes && r != path :: nodes[r] == h[r].id;
      assert h[path].prefixes == current.prefixes && h[path].branches == current.branches
             && h[path].prefNum == current.prefNum;
      SetPrefixesOf(current, path, current.prefixes - {key}, U8(current.prefNum - 1));
      RemoveAll(h, root, stored, path, key);
      stored := stored - {Slot(path, key)};
    }

    /** In that case other prefixes are lost, so a deletion removes exactly its prefix
        if and only if that case does not apply. */
    lemma SubtreeIsLost(prefix: seq<Byte>, n: nat)
      requires Valid() && n <= 8 * |prefix| && BitsOf(prefix, n) in prefixes
      ensures Deleted(prefixes, prefix, n, LosesSubtree(prefix, n)) == prefixes - {BitsOf(prefix, n)}
              <==> !LosesSubtree(prefix, n)
    {
      hide Linked, Holds, Counted, Pruned, Abstracts, SlotOf, BitsOf, BytesBits, Words, AsWord, PrefixKey;
      if LosesSubtree(prefix, n) {
        var h, slot := View(), SlotOf(prefix, n);
        EmptyMap(h[slot.path].branches);
        var s := OverfullHolds(h, root, stored, slot.path);
        var bytes, m := PrefixOfSlot(h, stored, s);
        SameAt(stored, prefixes, bytes, m);
        PathBits(bytes, m, prefix[..n / 8]);
        SlotSame(bytes, m, prefix, n);
        SlotPath(prefix, n);
        assert BitsOf(bytes, m) in prefixes - {BitsOf(prefix, n)};
      }
    }
  }

  lemma SlotPath(prefix: seq<Byte>, n: nat)
    requires n <= 8 * |prefix|
    ensures SlotOf(prefix, n).path == Words(prefix[..n / 8])
  {
  }

  lemma PrefixOfSlot(h: Shape, stored: map<Slot, Value>, s: Slot) returns (bytes: seq<Byte>, n: nat)
    requires Holds(h, stored) && s in stored
    ensures n <= 8 * |bytes| && SlotOf(bytes, n) == s
  {
    bytes, n :| n <= 8 * |bytes| && SlotOf(bytes, n) == s;
  }
}
