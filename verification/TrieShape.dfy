/** The shape of the trie in the heap, as a value: for each path of bytes, the node
    there and its fields.  What each kind of update does to it is proved here once. */
module TrieShape {
  import opened Bits
  import opened PrefixKeys
  import opened PrefixMaps
  import opened Wrappers

  class Node {
    var branches: map<Word, Node>
    var prefixes: map<Word, Value>
    var branchNum: nat   // unsigned char
    var prefNum: nat     // unsigned char
    var parent: Node?
    var childId: Word

    constructor ()
      ensures branches == map[] && prefixes == map[] && branchNum == 0 && prefNum == 0
      ensures parent == null && childId == 0
    {
      branches, prefixes, branchNum, prefNum := map[], map[], 0, 0;
      parent, childId := null, 0;
    }

    ghost function View(): NodeView
      reads this
    {
      NodeView(this, branches, prefixes, branchNum, prefNum, parent, childId)
    }
  }

  datatype NodeView = NodeView(
    id: Node, branches: map<Word, Node>, prefixes: map<Word, Value>,
    branchNum: nat, prefNum: nat, parent: Node?, childId: Word)

  type Shape = map<Path, NodeView>

  /** Counting in an `unsigned char`. */
  function U8(n: int): (r: nat)
    ensures r < 256
  {
    n % 256
  }

  ghost predicate HasParent(h: Shape, p: Path)
    requires p in h && p != []
  {
    && Front(p) in h && h[p].parent == h[Front(p)].id && h[p].childId == Last(p)
    && Last(p) in h[Front(p)].branches
  }

  ghost predicate HasChildren(h: Shape, p: Path)
    requires p in h
  {
    forall b | b in h[p].branches :: b < 256 && p + [b] in h && h[p + [b]].id == h[p].branches[b]
  }

  /** A tree whose links agree in both directions. */
  ghost predicate Linked(h: Shape, root: Node) {
    && [] in h && h[[]].id == root && h[[]].parent == null
    && (forall p, q | p in h && q in h && h[p].id == h[q].id :: p == q)
    && (forall p {:trigger HasChildren(h, p)} | p in h :: HasChildren(h, p))
    && (forall p {:trigger HasParent(h, p)} | p in h && p != [] :: HasParent(h, p))
  }

  /** `stored` is what the nodes hold. */
  ghost predicate Holds(h: Shape, stored: map<Slot, Value>) {
    && (forall s | s in stored :: s.path in h && s.key in h[s.path].prefixes && h[s.path].prefixes[s.key] == stored[s])
    && (forall p, k | p in h && k in h[p].prefixes :: Slot(p, k) in stored)
    && (forall s | s in stored :: ValidSlot(s))
  }

  /** The counters agree with the nodes, as far as 8 bits go. */
  ghost predicate Counted(h: Shape) {
    forall p | p in h :: h[p].branchNum == U8(|h[p].branches|) && h[p].prefNum == U8(|h[p].prefixes|)
  }

  /** No node is empty, apart from the root and the one at `except`. */
  ghost predicate Pruned(h: Shape, except: Path) {
    forall p | p in h && p != [] && p != except :: h[p].branches != map[] || h[p].prefixes != map[]
  }

  lemma EmptyTrie(h: Shape, root: Node)
    requires h == map[[] := NodeView(root, map[], map[], 0, 0, null, 0)]
    ensures Linked(h, root) && Holds(h, map[]) && Counted(h) && Pruned(h, [])
    ensures Abstracts(map[], map[])
  {
  }

  lemma ChildThere(h: Shape, root: Node, p: Path, b: Word)
    requires Linked(h, root) && p in h && b in h[p].branches && Pruned(h, p)
    ensures p + [b] in h && h[p + [b]].id == h[p].branches[b] && Pruned(h, p + [b])
  {
    assert HasChildren(h, p);
  }

  lemma RootThere(h: Shape, root: Node)
    requires Linked(h, root)
    ensures [] in h && h[[]].id == root && h[[]].parent == null
  {
  }

  lemma HoldsAt(h: Shape, stored: map<Slot, Value>, p: Path, k: Word)
    requires Holds(h, stored) && p in h
    ensures k in h[p].prefixes <==> Slot(p, k) in stored
    ensures k in h[p].prefixes ==> h[p].prefixes[k] == stored[Slot(p, k)]
  {
  }

  lemma DistinctIds(h: Shape, root: Node, p: Path)
    requires Linked(h, root) && p in h
    ensures forall q | q in h && q != p :: h[q].id != h[p].id
  {
  }

  // ----- a new child -----

  function WithChild(h: Shape, p: Path, b: Word, n: Node): Shape
    requires p in h
  {
    h[p := h[p].(branches := h[p].branches[b := n], branchNum := U8(h[p].branchNum + 1))]
     [p + [b] := NodeView(n, map[], map[], 0, 0, h[p].id, b)]
  }

  lemma WithChildParts(h: Shape, p: Path, b: Word, n: Node) returns (h': Shape)
    requires p in h && p + [b] !in h
    ensures h' == WithChild(h, p, b, n)
    ensures h'.Keys == h.Keys + {p + [b]}
    ensures forall q | q in h && q != p :: h'[q] == h[q]
    ensures h'[p] == h[p].(branches := h[p].branches[b := n], branchNum := U8(h[p].branchNum + 1))
    ensures h'[p + [b]] == NodeView(n, map[], map[], 0, 0, h[p].id, b)
  {
    h' := WithChild(h, p, b, n);
  }

  lemma AddChild(h: Shape, root: Node, p: Path, b: Word, n: Node)
    requires Linked(h, root) && p in h && b !in h[p].branches && b < 256
    requires forall q | q in h :: h[q].id != n
    ensures Linked(WithChild(h, p, b, n), root)
    ensures p + [b] !in h
  {
    hide HasChildren;
    var h', c := WithChild(h, p, b, n), p + [b];
    assert Front(c) == p && Last(c) == b;
    NoChildThere(h, root, p, b);
    NewChild(h, p, b, n);
    AddChildIds(h, root, p, b, n);
    forall q | q in h' ensures HasChildren(h', q) {
      if q != c {
        AddChildChildren(h, root, p, b, n, q);
      }
    }
    forall q | q in h' && q != [] ensures HasParent(h', q) {
      if q != c {
        AddChildParent(h, root, p, b, n, q);
      }
    }
  }

  lemma ParentOf(h: Shape, root: Node, p: Path)
    requires Linked(h, root) && p in h && p != []
    ensures HasParent(h, p)
  {
  }

  lemma NoChildThere(h: Shape, root: Node, p: Path, b: Word)
    requires Linked(h, root) && p in h && b !in h[p].branches
    ensures p + [b] !in h
  {
    if p + [b] in h {
      ParentOf(h, root, p + [b]);
      assert false;
    }
  }

  lemma NewChild(h: Shape, p: Path, b: Word, n: Node)
    requires p in h
    ensures var h' := WithChild(h, p, b, n); HasChildren(h', p + [b])
  {
  }

  lemma AddChildIds(h: Shape, root: Node, p: Path, b: Word, n: Node)
    requires Linked(h, root) && p in h
    requires forall q | q in h :: h[q].id != n
    ensures var h' := WithChild(h, p, b, n);
            forall q, r | q in h' && r in h' && h'[q].id == h'[r].id :: q == r
  {
    hide HasChildren, HasParent;
  }

  lemma AddChildParent(h: Shape, root: Node, p: Path, b: Word, n: Node, q: Path)
    requires Linked(h, root) && p in h && p + [b] !in h && q in h && q != []
    ensures HasParent(WithChild(h, p, b, n), q)
  {
    assert HasParent(h, q);
  }

  lemma AddChildChildren(h: Shape, root: Node, p: Path, b: Word, n: Node, q: Path)
    requires Linked(h, root) && p in h && b !in h[p].branches && b < 256 && p + [b] !in h && q in h
    ensures HasChildren(WithChild(h, p, b, n), q)
  {
    var h', c := WithChild(h, p, b, n), p + [b];
    assert HasChildren(h, q);
    forall b' | b' in h'[q].branches ensures q + [b'] in h' && h'[q + [b']].id == h'[q].branches[b'] {
      var r := q + [b'];
      assert Front(r) == q && Last(r) == b' && Front(c) == p && Last(c) == b;
      if r != c {
        if q == p {
          assert b' != b;
          assert h'[q].branches == h[q].branches[b := n];
          assert h[q].branches[b'] == h'[q].branches[b'];
        } else {
          assert q in h' && h'[q] == h[q];
          assert h[q].branches[b'] == h'[q].branches[b'];
        }
        assert b' in h[q].branches;
        assert r in h && h[r].id == h[q].branches[b'];
        assert h'[r].id == h[r].id;
      }
    }
  }

  lemma AddChildHolds(h: Shape, p: Path, b: Word, n: Node, stored: map<Slot, Value>)
    requires p in h && p + [b] !in h && Holds(h, stored)
    ensures Holds(WithChild(h, p, b, n), stored)
  {
  }

  lemma AddChildCounted(h: Shape, p: Path, b: Word, n: Node)
    requires p in h && b !in h[p].branches && p + [b] !in h && Counted(h)
    ensures Counted(WithChild(h, p, b, n))
  {
    hide U8, WithChild;
    forall q | q in WithChild(h, p, b, n)
      ensures var v := WithChild(h, p, b, n)[q]; v.branchNum == U8(|v.branches|) && v.prefNum == U8(|v.prefixes|)
    {
      AddChildCountedAt(h, p, b, n, q);
    }
  }

  lemma AddChildCountedAt(h: Shape, p: Path, b: Word, n: Node, q: Path)
    requires p in h && b !in h[p].branches && p + [b] !in h && Counted(h) && q in WithChild(h, p, b, n)
    ensures var v := WithChild(h, p, b, n)[q]; v.branchNum == U8(|v.branches|) && v.prefNum == U8(|v.prefixes|)
  {
    hide U8, WithChild, Counted;
    var h' := WithChildParts(h, p, b, n);
    if q == p + [b] {
      U8Small(0);
    } else if q == p {
      CountedNode(h, p);
      OneMore(h[p].branches, b, n);
      CountUp(|h[p].branches|);
    } else {
      CountedNode(h, q);
    }
  }

  lemma CountedNode(h: Shape, p: Path)
    requires Counted(h) && p in h
    ensures h[p].branchNum == U8(|h[p].branches|) && h[p].prefNum == U8(|h[p].prefixes|)
  {
  }

  lemma OneMore<K, V>(m: map<K, V>, k: K, v: V)
    requires k !in m
    ensures |m[k := v]| == |m| + 1
  {
    assert m[k := v].Keys == m.Keys + {k};
  }

  lemma U8Small(n: nat)
    requires n < 256
    ensures U8(n) == n
  {
  }

  lemma AddChildPruned(h: Shape, p: Path, b: Word, n: Node)
    requires p in h && p + [b] !in h && Pruned(h, p)
    ensures Pruned(WithChild(h, p, b, n), p + [b])
  {
    var h', c := WithChild(h, p, b, n), p + [b];
    forall q | q in h' && q != [] && q != c ensures h'[q].branches != map[] || h'[q].prefixes != map[] {
      if q == p {
        assert b in h'[q].branches;
      }
    }
  }

  // ----- other prefixes at a node -----

  function WithPrefixes(h: Shape, p: Path, prefixes: map<Word, Value>, prefNum: nat): Shape
    requires p in h
  {
    h[p := h[p].(prefixes := prefixes, prefNum := prefNum)]
  }

  lemma SetPrefixes(h: Shape, root: Node, p: Path, prefixes: map<Word, Value>, prefNum: nat)
    requires Linked(h, root) && p in h
    ensures Linked(WithPrefixes(h, p, prefixes, prefNum), root)
  {
    var h' := WithPrefixes(h, p, prefixes, prefNum);
    forall q | q in h' ensures HasChildren(h', q) {
      assert HasChildren(h, q);
    }
    forall q | q in h' && q != [] ensures HasParent(h', q) {
      assert HasParent(h, q);
    }
  }

  /** Storing under one key; `counted` says whether the count goes up. */
  function WithPrefix(h: Shape, p: Path, k: Word, v: Value, counted: bool): Shape
    requires p in h
  {
    WithPrefixes(h, p, h[p].prefixes[k := v], if counted then U8(h[p].prefNum + 1) else h[p].prefNum)
  }

  lemma WithPrefixesParts(h: Shape, p: Path, prefixes: map<Word, Value>, prefNum: nat) returns (h': Shape)
    requires p in h
    ensures h' == WithPrefixes(h, p, prefixes, prefNum)
    ensures h'.Keys == h.Keys && h'[p] == h[p].(prefixes := prefixes, prefNum := prefNum)
    ensures forall q | q in h && q != p :: h'[q] == h[q]
  {
    h' := WithPrefixes(h, p, prefixes, prefNum);
  }

  lemma InsertLinked(h: Shape, root: Node, p: Path, k: Word, v: Value, counted: bool)
    requires Linked(h, root) && p in h
    ensures Linked(WithPrefix(h, p, k, v, counted), root)
  {
    SetPrefixes(h, root, p, h[p].prefixes[k := v], if counted then U8(h[p].prefNum + 1) else h[p].prefNum);
  }

  lemma InsertHolds(h: Shape, p: Path, k: Word, v: Value, counted: bool, stored: map<Slot, Value>)
    requires p in h && Holds(h, stored) && ValidSlot(Slot(p, k))
    ensures Holds(WithPrefix(h, p, k, v, counted), stored[Slot(p, k) := v])
  {
    hide ValidSlot;
  }

  lemma InsertPruned(h: Shape, p: Path, k: Word, v: Value, counted: bool)
    requires p in h && Pruned(h, p)
    ensures Pruned(WithPrefix(h, p, k, v, counted), [])
  {
    assert k in h[p].prefixes[k := v];
  }

  /** The count stays right exactly when it goes up for a new key and for no other. */
  lemma InsertCounted(h: Shape, p: Path, k: Word, v: Value, counted: bool)
    requires p in h && Counted(h)
    ensures Counted(WithPrefix(h, p, k, v, counted)) <==> counted == (k !in h[p].prefixes)
  {
    hide U8;
    var h' := WithPrefix(h, p, k, v, counted);
    assert h[p].prefixes[k := v].Keys == h[p].prefixes.Keys + {k};
    var n := |h[p].prefixes|;
    assert |h[p].prefixes[k := v]| == if k in h[p].prefixes then n else n + 1;
    CountUp(n);
    assert Counted(h') ==> h'[p].prefNum == U8(|h'[p].prefixes|);
  }

  lemma CountUp(n: nat)
    ensures U8(U8(n) + 1) == U8(n + 1) && U8(n + 1) != U8(n)
  {
  }

  function WithoutPrefix(h: Shape, p: Path, k: Word): Shape
    requires p in h
  {
    WithPrefixes(h, p, h[p].prefixes - {k}, U8(h[p].prefNum - 1))
  }

  lemma RemoveKeeps(h: Shape, p: Path, k: Word, stored: map<Slot, Value>)
    requires p in h && k in h[p].prefixes && Holds(h, stored)
    ensures Holds(WithoutPrefix(h, p, k), stored - {Slot(p, k)})
  {
    hide ValidSlot, U8;
    var h', stored' := WithoutPrefix(h, p, k), stored - {Slot(p, k)};
    forall s | s in stored'
      ensures s.path in h' && s.key in h'[s.path].prefixes && h'[s.path].prefixes[s.key] == stored'[s]
    {
      assert s.path == p ==> s.key != k;
    }
    forall q, j | q in h' && j in h'[q].prefixes ensures Slot(q, j) in stored' {
      assert j in h[q].prefixes;
    }
  }

  lemma RemoveCounted(h: Shape, p: Path, k: Word)
    requires p in h && k in h[p].prefixes && Counted(h)
    ensures Counted(WithoutPrefix(h, p, k))
  {
    hide U8;
    var ps := h[p].prefixes;
    assert (ps - {k}).Keys == ps.Keys - {k};
    assert |(ps - {k}).Keys| == |ps.Keys| - 1;
    CountDown(|ps|);
  }

  lemma RemovePruned(h: Shape, p: Path, k: Word)
    requires p in h && Pruned(h, [])
    ensures Pruned(WithoutPrefix(h, p, k), p)
  {
  }

  // ----- a subtree cut off -----

  function WithoutSubtree(h: Shape, p: Path): Shape
    requires p in h && p != [] && Front(p) in h
  {
    var m := Front(p);
    (map q | q in h && !(p <= q) :: h[q])
      [m := h[m].(branches := h[m].branches - {Last(p)}, branchNum := U8(h[m].branchNum - 1))]
  }

  lemma WithoutSubtreeParts(h: Shape, p: Path) returns (h': Shape)
    requires p in h && p != [] && Front(p) in h
    ensures h' == WithoutSubtree(h, p) && !(p <= Front(p))
    ensures forall q :: q in h' <==> q in h && !(p <= q)
    ensures forall q | q in h && !(p <= q) && q != Front(p) :: h'[q] == h[q]
    ensures var v := h[Front(p)];
            h'[Front(p)] == v.(branches := v.branches - {Last(p)}, branchNum := U8(v.branchNum - 1))
  {
    h' := WithoutSubtree(h, p);
  }

  lemma CutSubtree(h: Shape, root: Node, p: Path)
    requires Linked(h, root) && p in h && p != []
    ensures Front(p) in h && Linked(WithoutSubtree(h, p), root)
  {
    assert HasParent(h, p);
    var h' := WithoutSubtree(h, p);
    forall q | q in h' ensures HasChildren(h', q) {
      CutChildren(h, root, p, q);
    }
    forall q | q in h' && q != [] ensures HasParent(h', q) {
      CutParent(h, root, p, q);
    }
  }

  lemma CutChildren(h: Shape, root: Node, p: Path, q: Path)
    requires Linked(h, root) && p in h && p != [] && Front(p) in h && q in h && !(p <= q)
    ensures HasChildren(WithoutSubtree(h, p), q)
  {
    var h' := WithoutSubtree(h, p);
    assert HasChildren(h, q);
    assert q in h' && h'[q].branches.Keys <= h[q].branches.Keys;
    forall b | b in h'[q].branches ensures q + [b] in h' && h'[q + [b]].id == h'[q].branches[b] {
      var r := q + [b];
      assert Front(r) == q && Last(r) == b;
      assert p <= r ==> p == r || p <= q;
      assert b in h[q].branches && h[q].branches[b] == h'[q].branches[b];
      assert r in h && h[r].id == h[q].branches[b];
      assert h'[r].id == h[r].id;
    }
  }

  lemma CutParent(h: Shape, root: Node, p: Path, q: Path)
    requires Linked(h, root) && p in h && p != [] && Front(p) in h && q in h && !(p <= q) && q != []
    ensures q in WithoutSubtree(h, p) && HasParent(WithoutSubtree(h, p), q)
  {
    var h' := WithoutSubtree(h, p);
    assert HasParent(h, q);
    var m := Front(q);
    assert p <= m ==> p <= q;
    assert m in h' && h'[m].id == h[m].id;
    assert q == m + [Last(q)] && p == Front(p) + [Last(p)];
  }

  lemma CutCounted(h: Shape, p: Path)
    requires p in h && p != [] && Front(p) in h && Last(p) in h[Front(p)].branches && Counted(h)
    ensures Counted(WithoutSubtree(h, p))
  {
    var bs := h[Front(p)].branches;
    hide U8, Front, Last;
    assert (bs - {Last(p)}).Keys == bs.Keys - {Last(p)};
    assert |(bs - {Last(p)}).Keys| == |bs.Keys| - 1;
    CountDown(|bs|);
  }

  lemma CountDown(n: nat)
    ensures U8(U8(n) - 1) == U8(n - 1)
  {
  }

  lemma CutHolds(h: Shape, p: Path, stored: map<Slot, Value>)
    requires p in h && p != [] && Front(p) in h && Holds(h, stored)
    ensures Holds(WithoutSubtree(h, p), Outside(stored, p))
  {
    hide WithoutSubtree, Front, Last, U8, ValidSlot;
    var h' := WithoutSubtreeParts(h, p);
    forall q | q in h' ensures h'[q].prefixes == h[q].prefixes {
      if q != Front(p) {
        assert h'[q] == h[q];
      }
    }
  }

  lemma CutPruned(h: Shape, p: Path)
    requires p in h && p != [] && Front(p) in h && Pruned(h, p)
    ensures Pruned(WithoutSubtree(h, p), Front(p))
  {
  }

  lemma SomeKey<K, V>(m: map<K, V>) returns (k: K)
    requires m != map[]
    ensures k in m
  {
    assert m.Keys != {};
    k :| k in m.Keys;
  }

  // ----- prefixes of paths -----

  lemma {:induction false} PathsClosed(h: Shape, root: Node, p: Path, k: nat)
    requires Linked(h, root) && p in h && k <= |p|
    ensures p[..k] in h
    decreases |p|
  {
    if k < |p| {
      assert HasParent(h, p);
      PathsClosed(h, root, Front(p), k);
      assert Front(p)[..k] == p[..k];
    } else {
      assert p[..k] == p;
    }
  }

  /** In a pruned trie every node but the root has something stored at or below it. */
  lemma {:induction false} SubtreeStores(h: Shape, root: Node, stored: map<Slot, Value>, p: Path, fuel: nat)
    returns (s: Slot)
    requires Linked(h, root) && Holds(h, stored) && Pruned(h, [])
    requires p in h && p != [] && (forall q | q in h :: |q| <= |p| + fuel)
    ensures s in stored && p <= s.path
    decreases fuel
  {
    if h[p].prefixes != map[] {
      var k := SomeKey(h[p].prefixes);
      s := Slot(p, k);
    } else {
      var b := SomeKey(h[p].branches);
      assert HasChildren(h, p);
      s := SubtreeStores(h, root, stored, p + [b], fuel - 1);
    }
  }

  lemma {:induction false} LongestPath(ps: set<Path>) returns (n: nat)
    ensures forall q | q in ps :: |q| <= n
  {
    n := 0;
    if ps != {} {
      var p :| p in ps;
      var m := LongestPath(ps - {p});
      n := if m < |p| then |p| else m;
    }
  }

  /** The nodes of a pruned trie are exactly the paths towards what is stored. */
  lemma NodesAreForPrefixes(h: Shape, root: Node, stored: map<Slot, Value>, p: Path)
    requires Linked(h, root) && Holds(h, stored) && Pruned(h, [])
    ensures p in h <==> p == [] || exists s :: s in stored && p <= s.path
  {
    if p in h && p != [] {
      var n := LongestPath(h.Keys);
      var s := SubtreeStores(h, root, stored, p, n);
    }
    if s :| s in stored && p <= s.path {
      PathsClosed(h, root, s.path, |p|);
      assert s.path[..|p|] == p;
    }
  }

  // ----- what a node says about what is stored below it -----

  /** Cutting off an empty node loses nothing. */
  lemma NothingBelow(h: Shape, root: Node, stored: map<Slot, Value>, p: Path)
    requires Linked(h, root) && Holds(h, stored)
    requires p in h && h[p].branches == map[] && h[p].prefixes == map[]
    ensures Outside(stored, p) == stored
  {
    forall s | s in stored ensures !(p <= s.path) {
      NotAtOrBelow(h, root, stored, p, s);
    }
  }

  lemma NotAtOrBelow(h: Shape, root: Node, stored: map<Slot, Value>, p: Path, s: Slot)
    requires Linked(h, root) && Holds(h, stored)
    requires p in h && h[p].branches == map[] && h[p].prefixes == map[] && s in stored
    ensures !(p <= s.path)
  {
    hide Linked, Holds;
    StoredThere(h, stored, s);
    if p <= s.path {
      assert p != s.path;
      var q := p + [s.path[|p|]];
      assert s.path[..|q|] == q && Front(q) == p;
      PathsClosed(h, root, s.path, |q|);
      ParentOf(h, root, q);
    }
  }

  lemma StoredThere(h: Shape, stored: map<Slot, Value>, s: Slot)
    requires Holds(h, stored) && s in stored
    ensures s.path in h && s.key in h[s.path].prefixes
  {
  }

  /** Keys are bytes, so a node has at most 256 branches. */
  lemma BranchesAtMost(h: Shape, root: Node, p: Path)
    requires Linked(h, root) && p in h
    ensures |h[p].branches| <= 256
  {
    assert HasChildren(h, p);
    var t := set b: int | b in h[p].branches.Keys;
    assert h[p].branches.Keys == t;
    AtMost(t, 0, 256);
  }

  lemma PrefixesAtMost(h: Shape, stored: map<Slot, Value>, p: Path)
    requires Holds(h, stored) && p in h
    ensures |h[p].prefixes| <= 255
  {
    forall k | k in h[p].prefixes.Keys ensures ValidKey(k, 8) {
      assert Slot(p, k) in stored;
      SlotRange(Slot(p, k));
    }
    KeysAtMost(h[p].prefixes.Keys);
  }

  /** Cutting off the subtree of a node without prefixes of its own. */
  lemma CutAll(h: Shape, root: Node, q: Path, stored: map<Slot, Value>)
    requires Linked(h, root) && Holds(h, stored) && Counted(h) && Pruned(h, q) && q in h && q != []
    ensures Front(q) in h
    ensures var h' := WithoutSubtree(h, q);
            && Linked(h', root) && Holds(h', Outside(stored, q)) && Counted(h') && Pruned(h', Front(q))
            && Front(q) in h' && |h'[Front(q)].branches| <= 255
  {
    hide Linked, Holds, Counted, Pruned, Outside, U8;
    ParentOf(h, root, q);
    CutSubtree(h, root, q);
    CutHolds(h, q, stored);
    CutCounted(h, q);
    CutPruned(h, q);
    FewerBranches(h, root, q);
  }

  lemma FewerBranches(h: Shape, root: Node, q: Path)
    requires Linked(h, root) && q in h && q != [] && HasParent(h, q)
    ensures var h' := WithoutSubtree(h, q); Front(q) in h' && |h'[Front(q)].branches| <= 255
  {
    hide Linked;
    var m := Front(q);
    var bs := h[m].branches;
    BranchesAtMost(h, root, m);
    assert (bs - {Last(q)}).Keys == bs.Keys - {Last(q)};
    assert |(bs - {Last(q)}).Keys| == |bs.Keys| - 1;
  }

  /** What two zero counters mean: no prefixes, and no branches or all 256. */
  lemma ZeroCounters(h: Shape, root: Node, stored: map<Slot, Value>, q: Path)
    requires Linked(h, root) && Holds(h, stored) && Counted(h) && q in h
    ensures h[q].prefNum == 0 && h[q].branchNum == 0 <==>
            h[q].prefixes == map[] && (h[q].branches == map[] || |h[q].branches| == 256)
  {
    hide Linked, Holds;
    BranchesAtMost(h, root, q);
    PrefixesAtMost(h, stored, q);
    EmptyMap(h[q].branches);
    EmptyMap(h[q].prefixes);
  }

  lemma EmptyMap<K, V>(m: map<K, V>)
    ensures |m| == 0 <==> m == map[]
  {
  }

  lemma OnlyRootHasNoParent(h: Shape, root: Node, q: Path)
    requires Linked(h, root) && q in h
    ensures h[q].parent == null <==> q == []
  {
    if q != [] {
      ParentOf(h, root, q);
    }
  }

  /** A node that the pruning loop takes for empty although it has all 256 children. */
  ghost predicate Overfull(h: Shape, p: Path) {
    p in h && p != [] && h[p].prefixes == map[] && |h[p].branches| == 256
  }

  lemma PrunedAt(h: Shape, q: Path)
    requires Pruned(h, q) && q in h && (q == [] || h[q].branches != map[] || h[q].prefixes != map[])
    ensures Pruned(h, [])
  {
  }

  /** The children that such a node loses do hold something. */
  lemma OverfullHolds(h: Shape, root: Node, stored: map<Slot, Value>, p: Path) returns (s: Slot)
    requires Linked(h, root) && Holds(h, stored) && Pruned(h, [])
    requires p in h && h[p].branches != map[]
    ensures s in stored && p < s.path
  {
    var b := SomeKey(h[p].branches);
    assert HasChildren(h, p);
    var n := LongestPath(h.Keys);
    s := SubtreeStores(h, root, stored, p + [b], n);
  }

  lemma RemoveAll(h: Shape, root: Node, stored: map<Slot, Value>, p: Path, k: Word)
    requires Linked(h, root) && Holds(h, stored) && Counted(h) && Pruned(h, [])
    requires p in h && k in h[p].prefixes
    ensures var h' := WithoutPrefix(h, p, k);
            && Linked(h', root) && Holds(h', stored - {Slot(p, k)}) && Counted(h') && Pruned(h', p)
            && (Overfull(h', p) <==> p != [] && h[p].prefixes.Keys == {k} && |h[p].branches| == 256)
  {
    hide Linked, Holds, Counted, Pruned, U8;
    SetPrefixes(h, root, p, h[p].prefixes - {k}, U8(h[p].prefNum - 1));
    RemoveKeeps(h, p, k, stored);
    RemoveCounted(h, p, k);
    RemovePruned(h, p, k);
    OneKeyLeft(h[p].prefixes, k);
  }

  lemma OneKeyLeft<K, V>(m: map<K, V>, k: K)
    requires k in m
    ensures m - {k} == map[] <==> m.Keys == {k}
  {
    assert (m - {k}).Keys == m.Keys - {k};
    assert m.Keys == (m.Keys - {k}) + {k};
    EmptyMap(m - {k});
  }
}
