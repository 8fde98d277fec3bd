/**
 * The chained hash table of hash.c. Every entry is in two linked structures at once: the chain of
 * its bucket, and the list of all entries in insertion order.
 */
module Hash {
  import opened Common
  import opened List

  type uint32 = x: int | 0 <= x < 0x1_0000_0000

  function Mult33(x: int): int {
    x * 32 + x
  }

  /** djb2 over the four bytes of the key, lowest first, in 32-bit arithmetic. */
  function Hash32(key: uint32): uint32 {
    var h0 := (Mult33(5381) + key % 256) % 0x1_0000_0000;
    var h1 := (Mult33(h0) + key / 256 % 256) % 0x1_0000_0000;
    var h2 := (Mult33(h1) + key / 65536 % 256) % 0x1_0000_0000;
    (Mult33(h2) + key / 16777216) % 0x1_0000_0000
  }

  type positive = x: int | 0 < x witness 1

  const PRIME_TAB: seq<positive> := [
    1, 2, 3, 7, 13, 31, 61, 127, 251, 509, 1021,
    2039, 4093, 8191, 16381, 32749, 65521, 131071,
    262139, 524287, 1048573, 2097143, 4194301, 8388593,
    16777213, 33554393, 67108859, 134217689, 268435399,
    536870909, 1073741789, 2147483647]

  /** The first prime of the table above the requested size, or the last one of the table. */
  /** The hash is the value of the polynomial 5381 b0 b1 b2 b3 at 33, in 32 bits. */
  lemma Hash32IsPolynomial(key: uint32)
    ensures var b0, b1, b2, b3 := key % 256, key / 256 % 256, key / 65536 % 256, key / 16777216;
            Hash32(key) == (5381 * 1185921 + b0 * 35937 + b1 * 1089 + b2 * 33 + b3) % 0x1_0000_0000
    ensures 33 * 33 == 1089 && 33 * 1089 == 35937 && 33 * 35937 == 1185921
  {
    PolynomialSteps(key % 256, key / 256 % 256, key / 65536 % 256);
  }

  /** Only the last step wraps. */
  lemma PolynomialSteps(b0: int, b1: int, b2: int)
    requires 0 <= b0 < 256 && 0 <= b1 < 256 && 0 <= b2 < 256
    ensures var h0 := (Mult33(5381) + b0) % 0x1_0000_0000;
            var h1 := (Mult33(h0) + b1) % 0x1_0000_0000;
            var h2 := (Mult33(h1) + b2) % 0x1_0000_0000;
            Mult33(h2) == 5381 * 1185921 + b0 * 35937 + b1 * 1089 + b2 * 33
  {
  }

  /** The table of sizes is strictly increasing, from 1 to the largest int. */
  lemma SizesIncrease()
    ensures |PRIME_TAB| == 32 && PRIME_TAB[0] == 1 && PRIME_TAB[31] == 2147483647
    ensures forall i, j :: 0 <= i < j < 32 ==> PRIME_TAB[i] < PRIME_TAB[j]
  {
    assert forall i :: 0 <= i < 31 ==> PRIME_TAB[i] < PRIME_TAB[i + 1];
    IncreasingFrom(PRIME_TAB);
  }

  lemma IncreasingFrom(tab: seq<positive>)
    requires forall i :: 0 <= i < |tab| - 1 ==> tab[i] < tab[i + 1]
    ensures forall i, j :: 0 <= i < j < |tab| ==> tab[i] < tab[j]
  {
    forall i, j | 0 <= i < j < |tab|
      ensures tab[i] < tab[j]
    {
      Between(tab, i, j);
    }
  }

  lemma {:induction false} Between(tab: seq<positive>, i: nat, j: nat)
    requires i < j < |tab| && forall k :: 0 <= k < |tab| - 1 ==> tab[k] < tab[k + 1]
    ensures tab[i] < tab[j]
    decreases j
  {
    assert tab[j - 1] < tab[j - 1 + 1];
    if i < j - 1 {
      Between(tab, i, j - 1);
    }
  }

  /** No size but 1 has a small factor of its own. */
  lemma SizesHaveNoSmallFactor(i: nat)
    requires i < 32
    ensures var p: int := PRIME_TAB[i];
            && (p % 2 != 0 || p == 2) && (p % 3 != 0 || p == 3) && (p % 5 != 0) && (p % 7 != 0 || p == 7)
            && p % 11 != 0 && (p % 13 != 0 || p == 13)
  {
  }

  method TableSize(tab: seq<positive>, size: nat) returns (chosen: positive)
    requires tab != []
    ensures exists i :: 0 <= i < |tab| && chosen == tab[i]
              && (forall j :: 0 <= j < i ==> tab[j] <= size)
              && (size < chosen || i == |tab| - 1)
  {
    var i := 0;
    while tab[i] <= size && i + 1 < |tab|
      invariant 0 <= i < |tab|
      invariant forall j :: 0 <= j < i ==> tab[j] <= size
      decreases |tab| - i
    {
      i := i + 1;
    }
    chosen := tab[i];
  }

  class HashEntry {
    const node: ListNode
    const key: uint32
    const isConst: bool
    const data: int
    var next: HashEntry?

    constructor (key: uint32, isConst: bool, data: int)
      ensures this.key == key && this.isConst == isConst && this.data == data
      ensures fresh(node)
    {
      node := new ListNode();
      this.key, this.isConst, this.data := key, isConst, data;
      next := null;
    }
  }

  function NodesOf(order: seq<HashEntry>): (n: seq<ListNode>)
    ensures |n| == |order|
    ensures forall i :: 0 <= i < |order| ==> n[i] == order[i].node
  {
    seq(|order|, i requires 0 <= i < |order| => order[i].node)
  }

  function DataOf(order: seq<HashEntry>): (d: seq<int>)
    ensures |d| == |order|
    ensures forall i :: 0 <= i < |order| ==> d[i] == order[i].data
  {
    seq(|order|, i requires 0 <= i < |order| => order[i].data)
  }

  ghost predicate KeysDistinct(order: seq<HashEntry>) {
    forall i, j :: 0 <= i < j < |order| ==> order[i].key != order[j].key
  }

  /** The entries of a chain are linked in order and the last one ends the chain. */
  ghost predicate Chained(first: HashEntry?, chain: seq<HashEntry>)
    reads chain
  {
    && Distinct(chain)
    && first == (if chain == [] then null else chain[0])
    && forall i {:trigger chain[i].next} :: 0 <= i < |chain| ==>
         chain[i].next == if i + 1 < |chain| then chain[i + 1] else null
  }

  /** Each entry is in the chain of its key's bucket, and the chains hold nothing else. */
  ghost predicate Partitioned(order: seq<HashEntry>, chains: seq<seq<HashEntry>>)
    requires chains != []
  {
    && (forall b, e :: 0 <= b < |chains| && e in chains[b] ==> e in order && Hash32(e.key) % |chains| == b)
    && (forall e <- order :: e in chains[Hash32(e.key) % |chains|])
  }

  /** The abstract value of the table. */
  ghost function AsMap(order: seq<HashEntry>): map<uint32, (bool, int)> {
    if order == [] then map[]
    else
      var e := order[|order| - 1];
      AsMap(order[..|order| - 1])[e.key := (e.isConst, e.data)]
  }

  lemma {:induction false} AsMapHas(order: seq<HashEntry>, e: HashEntry)
    requires KeysDistinct(order) && e in order
    ensures e.key in AsMap(order) && AsMap(order)[e.key] == (e.isConst, e.data)
  {
    var n := |order| - 1;
    if e != order[n] {
      AsMapHas(order[..n], e);
    }
  }

  lemma {:induction false} AsMapKeys(order: seq<HashEntry>, key: uint32)
    ensures key in AsMap(order) <==> exists e :: e in order && e.key == key
  {
    if order != [] {
      var n := |order| - 1;
      AsMapKeys(order[..n], key);
      assert forall e :: e in order <==> e in order[..n] || e == order[n];
    }
  }

  /** A map with the given keys and values is the abstract value, whatever the order. */
  lemma AsMapIs(order: seq<HashEntry>, m: map<uint32, (bool, int)>)
    requires KeysDistinct(order)
    requires forall e <- order :: e.key in m && m[e.key] == (e.isConst, e.data)
    requires forall key <- m :: exists e :: e in order && e.key == key
    ensures AsMap(order) == m
  {
    forall key | key in AsMap(order)
      ensures key in m && m[key] == AsMap(order)[key]
    {
      AsMapKeys(order, key);
      var e :| e in order && e.key == key;
      AsMapHas(order, e);
    }
    forall key | key in m
      ensures key in AsMap(order)
    {
      AsMapKeys(order, key);
    }
  }

  lemma AsMapAppend(order: seq<HashEntry>, e: HashEntry)
    ensures AsMap(order + [e]) == AsMap(order)[e.key := (e.isConst, e.data)]
  {
    assert (order + [e])[..|order|] == order;
  }

  lemma RemovedKeys(order: seq<HashEntry>, j: nat)
    requires KeysDistinct(order) && j < |order|
    ensures Distinct(order) && KeysDistinct(Removed(order, j))
    ensures forall e :: e in Removed(order, j) <==> e in order && e.key != order[j].key
  {
    RemovedAt(order, j);
    var rest := Removed(order, j);
    forall e | e in order && e.key != order[j].key
      ensures e in rest
    {
      var i :| 0 <= i < |order| && order[i] == e;
      assert e == rest[if i < j then i else i - 1];
    }
  }

  lemma AsMapRemove(order: seq<HashEntry>, j: nat)
    requires KeysDistinct(order) && j < |order|
    ensures AsMap(Removed(order, j)) == AsMap(order) - {order[j].key}
  {
    RemovedKeys(order, j);
    var m := AsMap(order) - {order[j].key};
    forall e <- Removed(order, j)
      ensures e.key in m && m[e.key] == (e.isConst, e.data)
    {
      AsMapHas(order, e);
    }
    forall key <- m
      ensures exists e :: e in Removed(order, j) && e.key == key
    {
      AsMapKeys(order, key);
    }
    AsMapIs(Removed(order, j), m);
  }

  lemma PartitionInsert(order: seq<HashEntry>, chains: seq<seq<HashEntry>>, e: HashEntry)
    requires chains != [] && Partitioned(order, chains) && KeysDistinct(order)
    requires forall o <- order :: o.key != e.key
    ensures var h := Hash32(e.key) % |chains|;
            Partitioned(order + [e], chains[h := [e] + chains[h]])
    ensures KeysDistinct(order + [e])
    ensures e !in chains[Hash32(e.key) % |chains|]
  {
    var h := Hash32(e.key) % |chains|;
    forall o <- order + [e]
      ensures o in chains[h := [e] + chains[h]][Hash32(o.key) % |chains|]
    {
      assert o in order || o == e;
    }
  }

  lemma PartitionRemove(order: seq<HashEntry>, chains: seq<seq<HashEntry>>, h: nat, i: nat, j: nat)
    requires chains != [] && Partitioned(order, chains) && KeysDistinct(order)
    requires h < |chains| && i < |chains[h]| && Distinct(chains[h])
    requires j < |order| && order[j] == chains[h][i]
    ensures Partitioned(Removed(order, j), chains[h := Removed(chains[h], i)])
    ensures KeysDistinct(Removed(order, j))
  {
    var e, rest := order[j], Removed(chains[h], i);
    RemovedKeys(order, j);
    RemovedAt(chains[h], i);
    forall o | o in chains[h] && o != e
      ensures o in rest
    {
      var k :| 0 <= k < |chains[h]| && chains[h][k] == o;
      assert o == rest[if k < i then k else k - 1];
    }
    assert forall o <- rest :: o in chains[h] && o != e;
    assert forall o <- order :: o.key == e.key ==> o == e;
  }

  lemma PartitionDisjoint(order: seq<HashEntry>, chains: seq<seq<HashEntry>>, h: nat)
    requires chains != [] && Partitioned(order, chains) && h < |chains|
    ensures forall b, e :: 0 <= b < |chains| && e in chains[b] && e in chains[h] ==> b == h
  {
    forall b, e | 0 <= b < |chains| && e in chains[b] && e in chains[h]
      ensures b == h
    {
      assert Hash32(e.key) % |chains| == b && Hash32(e.key) % |chains| == h;
    }
  }

  lemma EntryHasChain(order: seq<HashEntry>, chains: seq<seq<HashEntry>>)
    requires chains != [] && Partitioned(order, chains)
    ensures order != [] ==> exists b :: 0 <= b < |chains| && chains[b] != []
  {
    if order != [] {
      assert order[0] in chains[Hash32(order[0].key) % |chains|];
    }
  }

  class Hash {
    var buckets: array<HashEntry?>
    const entries: ListNode
    const hfree: bool
    /** The data handed to the free callback so far. */
    var freed: seq<int>
    /** The entries in insertion order, and the entries of each bucket. */
    ghost var order: seq<HashEntry>
    ghost var chains: seq<seq<HashEntry>>

    ghost function Ring(): seq<ListNode>
      reads this
    {
      [entries] + NodesOf(order)
    }

    ghost function Nodes(): set<ListNode>
      reads this
    {
      set n <- Ring()
    }

    ghost function ChainEntries(): set<HashEntry>
      reads this
    {
      set i, e | 0 <= i < |chains| && e in chains[i] :: e
    }

    ghost predicate ChainsLinked(b: int)
      reads this, buckets, ChainEntries()
    {
      && buckets.Length == |chains|
      && forall i {:trigger chains[i]} :: 0 <= i < |chains| ==>
           assert forall e <- chains[i] :: e in ChainEntries();
           Chained(if i == b then First(chains[i]) else buckets[i], chains[i])
    }

    /** Valid, except that the head pointer of one bucket is not constrained. */
    ghost predicate ValidBut(b: int)
      reads this, buckets, ChainEntries(), Ring()
    {
      && chains != []
      && KeysDistinct(order)
      && List.Ring(Ring())
      && Partitioned(order, chains)
      && ChainsLinked(b)
    }

    ghost predicate Valid()
      reads this, buckets, ChainEntries(), Ring()
    {
      ValidBut(-1)
    }

    ghost function M(): map<uint32, (bool, int)>
      reads this
    {
      AsMap(order)
    }

    static function First(chain: seq<HashEntry>): HashEntry? {
      if chain == [] then null else chain[0]
    }

    constructor (size: nat, hfree: bool)
      ensures Valid() && fresh(buckets) && fresh(entries)
      ensures order == [] && M() == map[] && this.hfree == hfree && freed == []
      ensures buckets.Length in PRIME_TAB && (size < buckets.Length || buckets.Length == 2147483647)
      ensures forall p <- PRIME_TAB :: size < p ==> buckets.Length <= p
    {
      SizesIncrease();
      hide PRIME_TAB;
      var chosen := TableSize(PRIME_TAB, size);
      buckets := new HashEntry?[chosen](_ => null);
      this.hfree := hfree;
      entries := new ListNode();
      freed, order := [], [];
      chains := seq(chosen, _ => []);
      new;
      ListInit(entries);
      assert Ring() == [entries];
    }

    method LookupEntry(key: uint32) returns (ret: int, found: HashEntry?)
      requires Valid()
      ensures ret == 0 || ret == -ENOENT
      ensures ret == 0 <==> key in M()
      ensures ret == 0 ==> found != null && found in order && found.key == key
                           && M()[key] == (found.isConst, found.data)
    {
      var h := Hash32(key) % buckets.Length;
      var entry := buckets[h];
      ghost var chain := chains[h];
      ghost var i := 0;
      while entry != null && entry.key != key
        invariant i <= |chain|
        invariant entry == if i < |chain| then chain[i] else null
        invariant forall j :: 0 <= j < i ==> chain[j].key != key
        decreases |chain| - i
      {
        entry := entry.next;
        i := i + 1;
      }
      AsMapKeys(order, key);
      if entry == null {
        return -ENOENT, null;
      }
      AsMapHas(order, entry);
      return 0, entry;
    }

    method Lookup(key: uint32) returns (ret: int, data: int)
      requires Valid()
      ensures key !in M() ==> ret == -ENOENT
      ensures key in M() && M()[key].0 ==> ret == -EPERM
      ensures key in M() && !M()[key].0 ==> ret == 0 && data == M()[key].1
    {
      var found;
      ret, found := LookupEntry(key);
      if ret < 0 {
        return ret, 0;
      }
      if found.isConst {
        return -EPERM, 0;
      }
      return 0, found.data;
    }

    method LookupConst(key: uint32) returns (ret: int, data: int)
      requires Valid()
      ensures key !in M() ==> ret == -ENOENT
      ensures key in M() ==> ret == 0 && data == M()[key].1
    {
      var found;
      ret, found := LookupEntry(key);
      if ret < 0 {
        return ret, 0;
      }
      return 0, found.data;
    }

    method LinkInBucket(newEntry: HashEntry, h: nat)
      requires h < |chains| && ChainsLinked(-1) && newEntry !in ChainEntries()
      modifies this`chains, buckets, newEntry
      ensures ChainsLinked(-1)
      ensures chains == old(chains)[h := [newEntry] + old(chains)[h]]
    {
      assert forall i :: 0 <= i < |chains| ==> forall e <- chains[i] :: e in ChainEntries();
      newEntry.next := buckets[h];
      buckets[h] := newEntry;
      chains := chains[h := [newEntry] + chains[h]];
    }

    method LinkInList(newEntry: HashEntry)
      requires List.Ring(Ring()) && newEntry.node !in Ring()
      modifies this`order, newEntry.node, Nodes()
      ensures List.Ring(Ring())
      ensures order == old(order) + [newEntry]
    {
      assert Ring()[0] == entries && Ring()[|Ring()| - 1] == entries.prev;
      ListAddBefore(entries, newEntry.node, Ring(), 0);
      assert Inserted(Ring(), |Ring()|, newEntry.node) == [entries] + NodesOf(order + [newEntry]);
      order := order + [newEntry];
    }

    method LinkNew(newEntry: HashEntry, h: nat)
      requires Valid() && h == Hash32(newEntry.key) % |chains|
      requires newEntry.node !in Ring() && forall o <- order :: o.key != newEntry.key
      modifies this`order, this`chains, buckets, newEntry, newEntry.node, Nodes()
      ensures Valid()
      ensures order == old(order) + [newEntry]
      ensures chains == old(chains)[h := [newEntry] + old(chains)[h]]
    {
      PartitionInsert(order, chains, newEntry);
      LinkInBucket(newEntry, h);
      LinkInList(newEntry);
    }

    method InsertEntry(key: uint32, newEntry: HashEntry) returns (ret: int)
      requires Valid()
      requires newEntry.key == key && newEntry !in order && newEntry.node !in Ring()
      modifies this`order, this`chains, buckets, newEntry, newEntry.node, Nodes()
      ensures Valid()
      ensures key in old(M()) ==> ret == -EEXIST && order == old(order)
      ensures key !in old(M()) ==> ret == 0 && order == old(order) + [newEntry]
    {
      var h := Hash32(key) % buckets.Length;
      var entry := buckets[h];
      ghost var chain := chains[h];
      ghost var i := 0;
      AsMapKeys(order, key);
      while entry != null
        invariant i <= |chain|
        invariant entry == if i < |chain| then chain[i] else null
        invariant forall j :: 0 <= j < i ==> chain[j].key != key
        decreases |chain| - i
      {
        if entry.key == key {
          return -EEXIST;
        }
        entry := entry.next;
        i := i + 1;
      }
      LinkNew(newEntry, h);
      return 0;
    }

    method Insert(key: uint32, data: int) returns (ret: int)
      requires Valid()
      modifies this`order, this`chains, buckets, Nodes()
      ensures Valid()
      ensures ret == if key in old(M()) then -EEXIST else 0
      ensures ret != 0 ==> order == old(order)
      ensures ret == 0 ==> |order| == |old(order)| + 1 && order[..|old(order)|] == old(order)
                           && M() == old(M())[key := (false, data)]
      ensures forall e <- order :: e in old(order) || (fresh(e) && fresh(e.node))
    {
      var entry := new HashEntry(key, false, data);
      AsMapAppend(order, entry);
      ret := InsertEntry(key, entry);
    }

    method InsertConst(key: uint32, data: int) returns (ret: int)
      requires Valid()
      modifies this`order, this`chains, buckets, Nodes()
      ensures Valid()
      ensures ret == if key in old(M()) then -EEXIST else 0
      ensures ret != 0 ==> order == old(order)
      ensures ret == 0 ==> |order| == |old(order)| + 1 && order[..|old(order)|] == old(order)
                           && M() == old(M())[key := (true, data)]
      ensures forall e <- order :: e in old(order) || (fresh(e) && fresh(e.node))
    {
      var entry := new HashEntry(key, true, data);
      AsMapAppend(order, entry);
      ret := InsertEntry(key, entry);
    }

    method UnlinkFromBucket(prev: HashEntry?, entry: HashEntry, h: nat, ghost i: nat)
      requires ChainsLinked(-1) && h < |chains| && i < |chains[h]| && chains[h][i] == entry
      requires prev == if i == 0 then null else chains[h][i - 1]
      requires forall b, e :: 0 <= b < |chains| && e in chains[b] && e in chains[h] ==> b == h
      modifies this`chains, buckets, prev
      ensures ChainsLinked(-1)
      ensures chains == old(chains)[h := Removed(old(chains)[h], i)]
    {
      RemovedAt(chains[h], i);
      if prev == null {
        buckets[h] := entry.next;
      } else {
        prev.next := entry.next;
      }
      ghost var rest := Removed(chains[h], i);
      forall k | 0 <= k < |rest|
        ensures rest[k].next == if k + 1 < |rest| then rest[k + 1] else null
      {
        assert rest[k] == chains[h][if k < i then k else k + 1];
      }
      assert prev != null ==> prev in chains[h];
      chains := chains[h := rest];
    }

    /** Data still held, plus data already handed to the free callback if there is one. */
    ghost function Accounted(): multiset<int>
      reads this
    {
      multiset(freed) + multiset(DataOf(order))
    }

    /** list_del of an entry, and its release to the free callback. */
    method UnlinkFromList(entry: HashEntry, ghost j: nat)
      requires List.Ring(Ring()) && j < |order| && order[j] == entry
      modifies this`order, this`freed, Nodes()
      ensures List.Ring(Ring())
      ensures order == Removed(old(order), j)
      ensures freed == if hfree then old(freed) + [entry.data] else old(freed)
      ensures Nodes() <= old(Nodes())
      ensures if hfree then Accounted() == old(Accounted()) else freed == old(freed)
    {
      ghost var ring := Ring();
      DataRemoved(order, j);
      RemovedAt(ring, j + 1);
      assert ring[j + 1] == entry.node;
      assert entry.node.prev == ring[Pred(j + 1, |ring|)] && entry.node.next == ring[Succ(j + 1, |ring|)];
      ListDel(entry.node, ring, j + 1);
      NodesRemoved(entries, order, j);
      order := Removed(order, j);
      if hfree {
        freed := freed + [entry.data];
      }
    }

    /** The end of a removal: the entry leaves its chain and the list. */
    method Unlink(prev: HashEntry?, entry: HashEntry, h: nat, ghost i: nat, ghost j: nat)
      requires Valid() && h < |chains| && i < |chains[h]| && chains[h][i] == entry
      requires prev == if i == 0 then null else chains[h][i - 1]
      requires j < |order| && order[j] == entry
      modifies this`order, this`chains, this`freed, buckets, prev, Nodes()
      ensures Valid()
      ensures order == Removed(old(order), j)
      ensures freed == if hfree then old(freed) + [entry.data] else old(freed)
    {
      PartitionRemove(order, chains, h, i, j);
      PartitionDisjoint(order, chains, h);
      UnlinkFromBucket(prev, entry, h, i);
      UnlinkFromList(entry, j);
    }

    /** `j` is the position, in insertion order, of the entry that was removed. */
    method Remove(key: uint32) returns (ret: int, ghost j: nat)
      requires Valid()
      modifies this`order, this`chains, this`freed, buckets, ChainEntries(), Nodes()
      ensures Valid()
      ensures ret == if key in old(M()) then 0 else -ENOENT
      ensures ret != 0 ==> order == old(order) && freed == old(freed)
      ensures ret == 0 ==>
                && j < |old(order)| && old(order)[j].key == key
                && order == Removed(old(order), j) && M() == old(M()) - {key}
                && freed == if hfree then old(freed) + [old(order)[j].data] else old(freed)
    {
      j := 0;
      var h := Hash32(key) % buckets.Length;
      var entry := buckets[h];
      var prev: HashEntry? := null;
      ghost var chain := chains[h];
      ghost var i := 0;
      AsMapKeys(order, key);
      while entry != null && entry.key != key
        invariant i <= |chain|
        invariant entry == if i < |chain| then chain[i] else null
        invariant prev == if i == 0 then null else chain[i - 1]
        invariant forall k :: 0 <= k < i ==> chain[k].key != key
        decreases |chain| - i
      {
        prev := entry;
        entry := entry.next;
        i := i + 1;
      }
      if entry == null {
        return -ENOENT, 0;
      }
      assert entry in chains[h];
      j :| 0 <= j < |order| && order[j] == entry;
      AsMapRemove(order, j);
      assert prev != null ==> prev in chains[h] && prev in ChainEntries();
      Unlink(prev, entry, h, i, j);
      return 0, j;
    }

    ghost method DropFirst(h: nat)
      requires h < |chains| && ChainsLinked(h) && chains[h] != []
      modifies this`chains
      ensures ChainsLinked(h)
      ensures chains == old(chains)[h := old(chains)[h][1..]]
    {
      chains := chains[h := chains[h][1..]];
    }

    /** One turn of the inner loop of futils_hash_remove_all, on the first entry left in a chain. */
    method FreeFirst(entry: HashEntry, ghost h: nat) returns (next: HashEntry?)
      requires ValidBut(h) && h < |chains| && chains[h] != [] && chains[h][0] == entry
      modifies this`order, this`chains, this`freed, Nodes()
      ensures ValidBut(h) && next == First(old(chains)[h][1..])
      ensures chains == old(chains)[h := old(chains)[h][1..]]
      ensures Nodes() <= old(Nodes())
      ensures if hfree then Accounted() == old(Accounted()) else freed == old(freed)
    {
      assert entry in chains[h] && entry in order;
      assert Chained(First(chains[h]), chains[h]);
      next := entry.next;
      ghost var j :| 0 <= j < |order| && order[j] == entry;
      PartitionRemove(order, chains, h, 0, j);
      assert Removed(chains[h], 0) == chains[h][1..];
      UnlinkFromList(entry, j);
      DropFirst(h);
    }

    method ClearBucket(h: nat)
      requires Valid() && h < |chains|
      modifies this`order, this`chains, this`freed, buckets, Nodes()
      ensures Valid()
      ensures chains == old(chains)[h := []]
      ensures Nodes() <= old(Nodes())
      ensures if hfree then Accounted() == old(Accounted()) else freed == old(freed)
    {
      var entry := buckets[h];
      assert Chained(buckets[h], chains[h]);
      while entry != null
        invariant ValidBut(h) && entry == First(chains[h])
        invariant |chains| == |old(chains)| && chains == old(chains)[h := chains[h]]
        invariant Nodes() <= old(Nodes())
        invariant if hfree then Accounted() == old(Accounted()) else freed == old(freed)
        decreases |chains[h]|
      {
        entry := FreeFirst(entry, h);
      }
      buckets[h] := null;
    }

    /** futils_hash_remove_all: every datum goes to the free callback, if there is one, exactly once. */
    method RemoveAll()
      requires Valid()
      modifies this`order, this`chains, this`freed, buckets, Nodes()
      ensures Valid() && order == [] && M() == map[]
      ensures freed == old(freed) || hfree
      ensures hfree ==> multiset(freed) == multiset(old(freed)) + multiset(DataOf(old(order)))
    {
      for h := 0 to buckets.Length
        invariant Valid()
        invariant forall b :: 0 <= b < h ==> chains[b] == []
        invariant Nodes() <= old(Nodes())
        invariant if hfree then Accounted() == old(Accounted()) else freed == old(freed)
      {
        ClearBucket(h);
      }
      EntryHasChain(order, chains);
    }
  }

  lemma NodesRemoved(entries: ListNode, order: seq<HashEntry>, j: nat)
    requires j < |order|
    ensures Removed([entries] + NodesOf(order), j + 1) == [entries] + NodesOf(Removed(order, j))
  {
  }

  lemma DataRemoved(order: seq<HashEntry>, j: nat)
    requires j < |order|
    ensures multiset(DataOf(order)) == multiset(DataOf(Removed(order, j))) + multiset{order[j].data}
  {
    var d := DataOf(order);
    assert d == d[..j] + [d[j]] + d[j + 1..];
    assert DataOf(Removed(order, j)) == d[..j] + d[j + 1..];
  }
}
