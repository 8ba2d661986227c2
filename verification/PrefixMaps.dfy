/** The specification of the trie: a map from bit-prefixes, looked up by the longest
    one that covers a key. */
module PrefixMaps {
  import opened Bits
  import opened PrefixKeys
  import opened Wrappers

  type Value = nat

  /** The value of the longest stored prefix of `key`. */
  function Lpm(m: map<seq<bool>, Value>, key: seq<bool>): Option<Value> {
    if key in m then Some(m[key])
    else if key == [] then None
    else Lpm(m, key[..|key| - 1])
  }

  /** `Lpm` is what its name says: it finds a value iff some stored prefix covers
      the key, and then that of the longest. */
  lemma {:induction false} LpmIsLongest(m: map<seq<bool>, Value>, key: seq<bool>)
    ensures Lpm(m, key).Some? <==> exists s :: s in m && s <= key
    ensures Lpm(m, key).Some? ==>
              exists s :: s in m && s <= key && Lpm(m, key).value == m[s] &&
                          forall t | t in m && t <= key :: |t| <= |s|
  {
    if key in m {
      assert key <= key;
    } else if key != [] {
      var k := key[..|key| - 1];
      LpmIsLongest(m, k);
      forall t | t in m && t <= key ensures t <= k {
        assert t != key;
        assert t == key[..|t|] == k[..|t|];
      }
      if t :| t in m && t <= k {
        assert t <= key;
      }
      if Lpm(m, k).Some? {
        var t :| t in m && t <= k && Lpm(m, k).value == m[t] && forall u | u in m && u <= k :: |u| <= |t|;
        assert t <= key;
      }
    }
  }

  /** Lengths at which nothing is stored do not matter. */
  lemma {:induction false} LpmSkip(m: map<seq<bool>, Value>, key: seq<bool>, a: nat, b: nat)
    requires a <= b <= |key|
    requires forall n | a < n <= b :: key[..n] !in m
    ensures Lpm(m, key[..a]) == Lpm(m, key[..b])
  {
    if a < b {
      LpmSkip(m, key, a, b - 1);
      assert key[..b][..b - 1] == key[..b - 1];
    }
  }

  ghost predicate Same(stored: map<Slot, Value>, prefixes: map<seq<bool>, Value>, bytes: seq<Byte>, n: nat)
    requires n <= 8 * |bytes|
  {
    && (SlotOf(bytes, n) in stored <==> BitsOf(bytes, n) in prefixes)
    && (SlotOf(bytes, n) in stored ==> stored[SlotOf(bytes, n)] == prefixes[BitsOf(bytes, n)])
  }

  /** The slots hold what the map holds. */
  ghost predicate Abstracts(stored: map<Slot, Value>, prefixes: map<seq<bool>, Value>) {
    forall bytes, n: nat | n <= 8 * |bytes| :: Same(stored, prefixes, bytes, n)
  }

  lemma SameAt(stored: map<Slot, Value>, prefixes: map<seq<bool>, Value>, bytes: seq<Byte>, n: nat)
    requires Abstracts(stored, prefixes) && n <= 8 * |bytes|
    ensures Same(stored, prefixes, bytes, n)
  {
  }

  lemma AbstractsInsert(stored: map<Slot, Value>, prefixes: map<seq<bool>, Value>, bytes: seq<Byte>, n: nat, v: Value)
    requires Abstracts(stored, prefixes) && n <= 8 * |bytes|
    ensures Abstracts(stored[SlotOf(bytes, n) := v], prefixes[BitsOf(bytes, n) := v])
  {
    hide SlotOf, BitsOf;
    var stored', prefixes' := stored[SlotOf(bytes, n) := v], prefixes[BitsOf(bytes, n) := v];
    forall bytes', n': nat | n' <= 8 * |bytes'|
      ensures Same(stored', prefixes', bytes', n')
    {
      assert Same(stored, prefixes, bytes', n');
      SlotSame(bytes, n, bytes', n');
    }
  }

  lemma AbstractsRemove(stored: map<Slot, Value>, prefixes: map<seq<bool>, Value>, bytes: seq<Byte>, n: nat)
    requires Abstracts(stored, prefixes) && n <= 8 * |bytes|
    ensures Abstracts(stored - {SlotOf(bytes, n)}, prefixes - {BitsOf(bytes, n)})
  {
    hide SlotOf, BitsOf;
    var stored', prefixes' := stored - {SlotOf(bytes, n)}, prefixes - {BitsOf(bytes, n)};
    forall bytes', n': nat | n' <= 8 * |bytes'|
      ensures Same(stored', prefixes', bytes', n')
    {
      assert Same(stored, prefixes, bytes', n');
      SlotSame(bytes, n, bytes', n');
    }
  }

  /** What is stored outside a subtree. */
  ghost function Outside(stored: map<Slot, Value>, p: Path): map<Slot, Value> {
    map s | s in stored && !(p <= s.path) :: stored[s]
  }

  /** The prefixes that do not extend `b`. */
  ghost function Beyond(m: map<seq<bool>, Value>, b: seq<bool>): map<seq<bool>, Value> {
    map s | s in m && !(b <= s) :: m[s]
  }

  lemma PathBits(bytes: seq<Byte>, n: nat, p: seq<Byte>)
    requires n <= 8 * |bytes|
    ensures Words(p) <= SlotOf(bytes, n).path <==> BytesBits(p) <= BitsOf(bytes, n)
  {
    hide BytesBits, AsWord, PrefixKey;
    var k := |p|;
    if k <= n / 8 {
      BytesBitsTake(bytes, k);
      assert SlotOf(bytes, n).path[..k] == Words(bytes[..k]);
      assert BitsOf(bytes, n)[..8 * k] == BytesBits(bytes)[..8 * k];
      if Words(p) <= SlotOf(bytes, n).path {
        WordsInjective(p, bytes[..k]);
      }
      if BytesBits(p) <= BitsOf(bytes, n) {
        BytesBitsInjective(p, bytes[..k]);
      }
    }
  }

  lemma AbstractsOutside(stored: map<Slot, Value>, prefixes: map<seq<bool>, Value>, p: seq<Byte>)
    requires Abstracts(stored, prefixes)
    ensures Abstracts(Outside(stored, Words(p)), Beyond(prefixes, BytesBits(p)))
  {
    hide SlotOf, BitsOf, Words, BytesBits;
    var stored', prefixes' := Outside(stored, Words(p)), Beyond(prefixes, BytesBits(p));
    forall bytes, n: nat | n <= 8 * |bytes| ensures Same(stored', prefixes', bytes, n) {
      assert Same(stored, prefixes, bytes, n);
      PathBits(bytes, n, p);
    }
  }

  /** What a deletion leaves; `lost` says whether the subtree below goes too. */
  ghost function Deleted(m: map<seq<bool>, Value>, bytes: seq<Byte>, n: nat, lost: bool): map<seq<bool>, Value>
    requires n <= 8 * |bytes|
  {
    if lost then Beyond(m - {BitsOf(bytes, n)}, BytesBits(bytes[..n / 8])) else m - {BitsOf(bytes, n)}
  }

  lemma AbstractsDeleted(stored: map<Slot, Value>, prefixes: map<seq<bool>, Value>, bytes: seq<Byte>, n: nat,
                         lost: bool)
    requires Abstracts(stored, prefixes) && n <= 8 * |bytes|
    ensures var stored' := stored - {SlotOf(bytes, n)};
            Abstracts(if lost then Outside(stored', SlotOf(bytes, n).path) else stored',
                      Deleted(prefixes, bytes, n, lost))
  {
    hide Abstracts, BitsOf, BytesBits, Words, PrefixKey, Outside, Beyond;
    AbstractsRemove(stored, prefixes, bytes, n);
    AbstractsOutside(stored - {SlotOf(bytes, n)}, prefixes - {BitsOf(bytes, n)}, bytes[..n / 8]);
  }
}
