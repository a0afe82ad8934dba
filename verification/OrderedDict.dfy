/** The ordered dictionary of ipstools/ipstools/ordereddict.py: a plain dictionary, a
    circular doubly linked list of its keys with a sentinel, and a map from keys to
    list nodes. Its meaning is an association list in order of insertion. */
module OrderedDicts {

  import opened Options

  // ----- Association lists -----

  type Entries<K, V> = seq<(K, V)>

  ghost predicate Distinct<K, V>(e: Entries<K, V>) {
    forall i, j :: 0 <= i < j < |e| ==> e[i].0 != e[j].0
  }

  function Position<K(==), V>(e: Entries<K, V>, k: K): (i: nat)
    ensures i <= |e|
    ensures i < |e| ==> e[i].0 == k
    ensures forall j :: 0 <= j < i ==> e[j].0 != k
  {
    if e == [] || e[0].0 == k then 0 else 1 + Position(e[1..], k)
  }

  predicate Has<K(==), V>(e: Entries<K, V>, k: K) {
    Position(e, k) < |e|
  }

  /** A new key goes to the end, an old key keeps its place. */
  function Put<K(==), V>(e: Entries<K, V>, k: K, v: V): Entries<K, V> {
    var i := Position(e, k);
    if i < |e| then e[i := (k, v)] else e + [(k, v)]
  }

  function Without<K(==), V>(e: Entries<K, V>, k: K): Entries<K, V> {
    var i := Position(e, k);
    if i < |e| then e[..i] + e[i + 1..] else e
  }

  function KeysOf<K, V>(e: Entries<K, V>): (ks: seq<K>)
    ensures |ks| == |e|
  {
    seq(|e|, i requires 0 <= i < |e| => e[i].0)
  }

  function Reverse<T>(s: seq<T>): (r: seq<T>)
    ensures |r| == |s| && forall i :: 0 <= i < |s| ==> r[i] == s[|s| - 1 - i]
  {
    if s == [] then [] else Reverse(s[1..]) + [s[0]]
  }

  // ----- The list -----

  class Node<K> {
    const key: Option<K>
    var prev: Node<K>
    var next: Node<K>

    /** The sentinel of an empty list points to itself. */
    constructor Sentinel()
      ensures key == None && prev == this && next == this
    {
      key := None;
      prev := this;
      next := this;
    }

    constructor (key: K, prev: Node<K>, next: Node<K>)
      ensures this.key == Some(key) && this.prev == prev && this.next == next
    {
      this.key := Some(key);
      this.prev := prev;
      this.next := next;
    }
  }

  /** A ring is written out from the sentinel round to the sentinel: each node but
      the last is followed by its successor, and nodes occur once. */
  ghost predicate Linked<K>(ring: seq<Node<K>>)
    reads ring
  {
    && |ring| >= 2 && ring[0] == ring[|ring| - 1]
    && (forall i, j :: 0 <= i < j < |ring| - 1 ==> ring[i] != ring[j])
    && (forall i :: 0 <= i < |ring| - 1 ==> ring[i].next == ring[i + 1])
    && (forall i :: 0 < i < |ring| ==> ring[i].prev == ring[i - 1])
  }

  /** curr[2] = end[1] = [key, curr, end] for curr the node before the sentinel. */
  method LinkLast<K>(end: Node<K>, key: K, ghost ring: seq<Node<K>>) returns (node: Node<K>)
    requires Linked(ring) && end == ring[0]
    modifies ring
    ensures fresh(node) && node.key == Some(key)
    ensures Linked(ring[..|ring| - 1] + [node, end])
  {
    ghost var last := |ring| - 1;
    assert end == ring[last];
    var curr := end.prev;
    assert curr == ring[last - 1];
    node := new Node<K>(key, curr, end);
    end.prev := node;
    curr.next := node;
  }

  /** prev[2] = next, next[1] = prev */
  method Unlink<K>(node: Node<K>, ghost ring: seq<Node<K>>, ghost i: int)
    requires Linked(ring) && 0 < i < |ring| - 1 && node == ring[i]
    modifies ring
    ensures Linked(ring[..i] + ring[i + 1..])
  {
    var prev, next := node.prev, node.next;
    assert prev == ring[i - 1] && next == ring[i + 1];
    prev.next := next;
    next.prev := prev;
    assert ring[i - 1].next == ring[i + 1];
    ghost var rest := ring[..i] + ring[i + 1..];
    assert forall k :: 0 <= k < i ==> rest[k] == ring[k];
    assert forall k :: i <= k < |rest| ==> rest[k] == ring[k + 1];
    forall k | 0 <= k < |rest| - 1
      ensures rest[k].next == rest[k + 1] && rest[k + 1].prev == rest[k]
    {
      assert k < i - 1 ==> rest[k + 1] == ring[k + 1];
    }
  }

  // ----- The dictionary -----

  ghost predicate DistinctKeys<K>(keys: seq<K>) {
    forall i, j :: 0 <= i < j < |keys| ==> keys[i] != keys[j]
  }

  /** The ring's nodes carry the keys in order, and both tables have just these keys. */
  ghost predicate Indexed<K, V>(ring: seq<Node<K>>, keys: seq<K>, nodeOf: map<K, Node<K>>, dict: map<K, V>) {
    && |ring| == |keys| + 2 && ring[0].key == None
    && DistinctKeys(keys)
    && (forall i :: 0 <= i < |keys| ==> ring[i + 1].key == Some(keys[i]))
    && (forall i :: 0 <= i < |keys| ==> keys[i] in nodeOf && nodeOf[keys[i]] == ring[i + 1])
    && nodeOf.Keys == (set k | k in keys)
    && dict.Keys == nodeOf.Keys
  }

  function EntriesOf<K, V>(keys: seq<K>, dict: map<K, V>): (e: Entries<K, V>)
    requires forall i :: 0 <= i < |keys| ==> keys[i] in dict
    ensures |e| == |keys| && forall i :: 0 <= i < |keys| ==> e[i] == (keys[i], dict[keys[i]])
  {
    seq(|keys|, i requires 0 <= i < |keys| => (keys[i], dict[keys[i]]))
  }

  /** A key is found at the one place where it stands. */
  lemma PositionOf<K, V>(keys: seq<K>, dict: map<K, V>, k: K) returns (i: nat)
    requires DistinctKeys(keys) && dict.Keys == (set x | x in keys)
    ensures i == Position(EntriesOf(keys, dict), k) <= |keys|
    ensures k in dict <==> i < |keys|
    ensures i < |keys| ==> keys[i] == k
  {
    i := Position(EntriesOf(keys, dict), k);
  }

  lemma PutNew<K, V>(keys: seq<K>, dict: map<K, V>, k: K, v: V)
    requires DistinctKeys(keys) && dict.Keys == (set x | x in keys) && k !in dict
    ensures DistinctKeys(keys + [k]) && dict[k := v].Keys == (set x | x in keys + [k])
    ensures EntriesOf(keys + [k], dict[k := v]) == Put(EntriesOf(keys, dict), k, v)
  {
    var i := PositionOf(keys, dict, k);
    assert forall x :: x in keys + [k] <==> x in keys || x == k;
  }

  lemma PutOld<K, V>(keys: seq<K>, dict: map<K, V>, k: K, v: V)
    requires DistinctKeys(keys) && dict.Keys == (set x | x in keys) && k in dict
    ensures dict[k := v].Keys == dict.Keys
    ensures EntriesOf(keys, dict[k := v]) == Put(EntriesOf(keys, dict), k, v)
  {
    var i := PositionOf(keys, dict, k);
    assert dict[k := v].Keys == dict.Keys;
  }

  lemma Removed<K, V>(keys: seq<K>, dict: map<K, V>, k: K, i: nat)
    requires DistinctKeys(keys) && dict.Keys == (set x | x in keys) && k in dict
    requires i == Position(EntriesOf(keys, dict), k)
    ensures i < |keys| && keys[i] == k
    ensures var rest := keys[..i] + keys[i + 1..];
      && DistinctKeys(rest) && (dict - {k}).Keys == (set x | x in rest)
      && EntriesOf(rest, dict - {k}) == Without(EntriesOf(keys, dict), k)
  {
    hide Position, DistinctKeys;
    var p := PositionOf(keys, dict, k);
    var rest := keys[..i] + keys[i + 1..];
    RemovedKeys(keys, i);
    assert (dict - {k}).Keys == dict.Keys - {k};
  }

  lemma RemovedKeys<K>(keys: seq<K>, i: nat)
    requires DistinctKeys(keys) && i < |keys|
    ensures var rest := keys[..i] + keys[i + 1..];
      DistinctKeys(rest) && (set x | x in rest) == (set x | x in keys) - {keys[i]}
  {
    var rest := keys[..i] + keys[i + 1..];
    forall x
      ensures x in rest <==> x in keys && x != keys[i]
    {
      if x in keys && x != keys[i] {
        var j :| 0 <= j < |keys| && keys[j] == x;
        assert rest[if j < i then j else j - 1] == x;
      }
    }
  }

  lemma IndexedPut<K, V>(ring: seq<Node<K>>, keys: seq<K>, nodeOf: map<K, Node<K>>, dict: map<K, V>,
                         node: Node<K>, k: K, v: V)
    requires Indexed(ring, keys, nodeOf, dict) && k !in dict && node.key == Some(k)
    ensures Indexed(ring[..|ring| - 1] + [node, ring[0]], keys + [k], nodeOf[k := node], dict[k := v])
  {
    PutNew(keys, dict, k, v);
  }

  lemma IndexedSize<K, V>(ring: seq<Node<K>>, keys: seq<K>, nodeOf: map<K, Node<K>>, dict: map<K, V>)
    requires Indexed(ring, keys, nodeOf, dict)
    ensures |ring| == |keys| + 2 && DistinctKeys(keys) && dict.Keys == (set x | x in keys) == nodeOf.Keys
  {
  }

  lemma IndexedSet<K, V>(ring: seq<Node<K>>, keys: seq<K>, nodeOf: map<K, Node<K>>, dict: map<K, V>, k: K, v: V)
    requires Indexed(ring, keys, nodeOf, dict) && k in dict
    ensures Indexed(ring, keys, nodeOf, dict[k := v])
  {
    PutOld(keys, dict, k, v);
  }

  lemma IndexedRemove<K, V>(ring: seq<Node<K>>, keys: seq<K>, nodeOf: map<K, Node<K>>, dict: map<K, V>, k: K, i: nat)
    requires Indexed(ring, keys, nodeOf, dict) && k in dict && i == Position(EntriesOf(keys, dict), k)
    ensures i < |keys| && nodeOf[k] == ring[i + 1] && |ring| == |keys| + 2
    ensures Indexed(ring[..i + 1] + ring[i + 2..], keys[..i] + keys[i + 1..], nodeOf - {k}, dict - {k})
  {
    hide Position, Without, EntriesOf;
    Removed(keys, dict, k, i);
    var rest, ring' := keys[..i] + keys[i + 1..], ring[..i + 1] + ring[i + 2..];
    assert (nodeOf - {k}).Keys == nodeOf.Keys - {k} && (dict - {k}).Keys == dict.Keys - {k};
    forall j | 0 <= j < |rest|
      ensures ring'[j + 1].key == Some(rest[j])
      ensures rest[j] in nodeOf - {k} && (nodeOf - {k})[rest[j]] == ring'[j + 1]
    {
      var j0 := if j < i then j else j + 1;
      assert rest[j] == keys[j0] && ring'[j + 1] == ring[j0 + 1];
      assert keys[j0] != keys[i];
    }
  }

  /** The comparison over zip(self.items(), other.items()). */
  method SameItems<T(==)>(p: seq<T>, q: seq<T>) returns (same: bool)
    requires |p| == |q|
    ensures same == (p == q)
  {
    var i := 0;
    while i < |p|
      invariant 0 <= i <= |p| && p[..i] == q[..i]
    {
      if p[i] != q[i] {
        return false;
      }
      i := i + 1;
    }
    return true;
  }

  class OrderedDict<K(==), V(==)> {
    var end: Node<K>
    var nodeOf: map<K, Node<K>>
    var dict: map<K, V>

    ghost var ring: seq<Node<K>>
    ghost var keys: seq<K>

    ghost predicate Valid()
      reads this, ring
    {
      Linked(ring) && end == ring[0] && Indexed(ring, keys, nodeOf, dict)
    }

    ghost function Contents(): Entries<K, V>
      reads this, ring
      requires Valid()
    {
      EntriesOf(keys, dict)
    }

    constructor ()
      ensures Valid() && Contents() == [] && fresh(ring)
    {
      end := new Node<K>.Sentinel();
      nodeOf, dict, keys := map[], map[], [];
      new;
      ring := [end, end];
    }

    method Clear()
      modifies this
      ensures Valid() && Contents() == [] && fresh(ring)
    {
      end := new Node<K>.Sentinel();
      nodeOf, dict, keys := map[], map[], [];
      ring := [end, end];
    }

    method SetItem(key: K, value: V)
      requires Valid()
      modifies this, ring
      ensures Valid() && Contents() == Put(old(Contents()), key, value)
      ensures forall i :: 0 <= i < |ring| ==> ring[i] in old(ring) || fresh(ring[i])
    {
      hide Linked, Put, Indexed, EntriesOf;
      IndexedSize(ring, keys, nodeOf, dict);
      if key !in dict {
        PutNew(keys, dict, key, value);
        var node := LinkLast(end, key, ring);
        IndexedPut(ring, keys, nodeOf, dict, node, key, value);
        nodeOf := nodeOf[key := node];
        ring := ring[..|ring| - 1] + [node, end];
        keys := keys + [key];
      } else {
        PutOld(keys, dict, key, value);
        IndexedSet(ring, keys, nodeOf, dict, key, value);
      }
      dict := dict[key := value];
    }

    /** False stands for the KeyError of a missing key. */
    method DelItem(key: K) returns (found: bool)
      requires Valid()
      modifies this, ring
      ensures Valid() && Contents() == Without(old(Contents()), key)
      ensures found == Has(old(Contents()), key)
      ensures forall i :: 0 <= i < |ring| ==> ring[i] in old(ring)
    {
      hide Linked, Without, Indexed, EntriesOf;
      IndexedSize(ring, keys, nodeOf, dict);
      ghost var i := PositionOf(keys, dict, key);
      if key !in dict {
        WithoutMissing(Contents(), key);
        return false;
      }
      Removed(keys, dict, key, i);
      IndexedRemove(ring, keys, nodeOf, dict, key, i);
      dict := dict - {key};
      var node := nodeOf[key];
      nodeOf := nodeOf - {key};
      Unlink(node, ring, i + 1);
      ring := ring[..i + 1] + ring[i + 2..];
      keys := keys[..i] + keys[i + 1..];
      return true;
    }

    /** The keys in order, as the generator yields them: the walk along `next`. */
    method Iter() returns (ks: seq<K>)
      requires Valid()
      ensures ks == KeysOf(Contents())
    {
      hide DistinctKeys;
      ks := [];
      var curr := end.next;
      while curr != end
        invariant |ks| <= |keys| && curr == ring[|ks| + 1]
        invariant ks == keys[..|ks|]
        decreases |keys| - |ks|
      {
        assert ring[|ks| + 1].key == Some(keys[|ks|]);
        ks := ks + [curr.key.value];
        curr := curr.next;
      }
      assert |ks| == |keys|;
    }

    /** The walk along `prev`. */
    method Reversed() returns (ks: seq<K>)
      requires Valid()
      ensures ks == Reverse(KeysOf(Contents()))
    {
      hide DistinctKeys;
      ks := [];
      assert end == ring[|ring| - 1];
      var curr := end.prev;
      while curr != end
        invariant |ks| <= |keys| && curr == ring[|keys| - |ks|]
        invariant forall i :: 0 <= i < |ks| ==> ks[i] == keys[|keys| - 1 - i]
        decreases |keys| - |ks|
      {
        assert ring[|keys| - |ks|].key == Some(keys[|keys| - 1 - |ks|]);
        ks := ks + [curr.key.value];
        curr := curr.prev;
      }
      assert |ks| == |keys|;
    }

    /** None stands for the KeyError of an empty dictionary. */
    method PopItem(last: bool) returns (item: Option<(K, V)>)
      requires Valid()
      modifies this, ring
      ensures Valid()
      ensures forall i :: 0 <= i < |ring| ==> ring[i] in old(ring)
      ensures var e := old(Contents());
        if e == [] then item == None && Contents() == []
        else if last then item == Some(e[|e| - 1]) && Contents() == e[..|e| - 1]
        else item == Some(e[0]) && Contents() == e[1..]
    {
      hide Linked, Indexed, EntriesOf, Without, DistinctKeys;
      IndexedSize(ring, keys, nodeOf, dict);
      if |dict| == 0 {
        EmptyTables(keys, dict);
        return None;
      }
      SomeKeys(keys, dict);
      RingEnds(ring, keys, nodeOf, dict);
      var key := if last then end.prev.key.value else end.next.key.value;
      var value := dict[key];
      DistinctEntries(keys, dict);
      WithoutEnd(Contents(), if last then |keys| - 1 else 0);
      var found := DelItem(key);
      return Some((key, value));
    }

    /** Pairs in order: list(self) with each key looked up. */
    method Items() returns (items: Entries<K, V>)
      requires Valid()
      ensures items == Contents()
    {
      var ks := Iter();
      items := [];
      while |items| < |ks|
        invariant |items| <= |ks| && items == Contents()[..|items|]
      {
        assert ks[|items|] in nodeOf;
        items := items + [(ks[|items|], dict[ks[|items|]])];
      }
    }

    /** Equality of two ordered dictionaries looks at the order. */
    method Eq(other: OrderedDict<K, V>) returns (same: bool)
      requires Valid() && other.Valid()
      ensures same == (Contents() == other.Contents())
    {
      hide Linked, Indexed, EntriesOf;
      IndexedSize(ring, keys, nodeOf, dict);
      IndexedSize(other.ring, other.keys, other.nodeOf, other.dict);
      KeyCount(keys, dict);
      KeyCount(other.keys, other.dict);
      hide DistinctKeys;
      if |dict| != |other.dict| {
        return false;
      }
      var p := Items();
      var q := other.Items();
      same := SameItems(p, q);
    }

    static method FromKeys(iterable: seq<K>, value: V) returns (d: OrderedDict<K, V>)
      ensures fresh(d) && d.Valid() && d.Contents() == PutAll(iterable, value)
    {
      hide Linked, Indexed, EntriesOf, Put;
      d := new OrderedDict();
      var i := 0;
      while i < |iterable|
        invariant 0 <= i <= |iterable| && fresh(d) && fresh(d.ring) && d.Valid()
        invariant d.Contents() == PutAll(iterable[..i], value)
      {
        assert iterable[..i + 1][..i] == iterable[..i];
        d.SetItem(iterable[i], value);
        i := i + 1;
      }
      assert iterable[..i] == iterable;
    }

    method Change(op: Op<K, V>)
      requires Valid()
      modifies this, ring
      ensures Valid() && Contents() == ApplyOp(old(Contents()), op)
      ensures forall i :: 0 <= i < |ring| ==> ring[i] in old(ring) || fresh(ring[i])
    {
      hide Linked, Indexed, EntriesOf, Put, Without;
      match op {
        case Set(k, v) => SetItem(k, v);
        case Delete(k) => var found := DelItem(k);
        case Pop(last) => var item := PopItem(last);
        case Empty => Clear();
      }
    }

    /** Any sequence of changes: the dictionary means what the association list means,
        and the walks give its keys forwards and backwards. */
    method Execute(ops: seq<Op<K, V>>) returns (forward: seq<K>, backward: seq<K>)
      requires Valid()
      modifies this, ring
      ensures Valid() && Contents() == RunOps(old(Contents()), ops)
      ensures forward == KeysOf(Contents()) && backward == Reverse(forward)
    {
      hide Linked, Indexed, EntriesOf, ApplyOp;
      var i := 0;
      while i < |ops|
        invariant 0 <= i <= |ops| && Valid()
        invariant Contents() == RunOps(old(Contents()), ops[..i])
        invariant forall i :: 0 <= i < |ring| ==> ring[i] in old(ring) || fresh(ring[i])
      {
        assert ops[..i + 1][..i] == ops[..i];
        Change(ops[i]);
        i := i + 1;
      }
      assert ops[..i] == ops;
      forward := Iter();
      backward := Reversed();
    }
  }

  lemma RingEnds<K, V>(ring: seq<Node<K>>, keys: seq<K>, nodeOf: map<K, Node<K>>, dict: map<K, V>)
    requires Linked(ring) && Indexed(ring, keys, nodeOf, dict) && keys != []
    ensures ring[0].prev.key == Some(keys[|keys| - 1]) && ring[0].next.key == Some(keys[0])
    ensures keys[0] in dict && keys[|keys| - 1] in dict
  {
    var n := |keys|;
    assert ring[0] == ring[n + 1];
    assert ring[n + 1].prev == ring[n] && ring[0].next == ring[1];
    assert ring[n].key == Some(keys[n - 1]) && ring[1].key == Some(keys[0]);
    assert keys[0] in nodeOf.Keys && keys[n - 1] in nodeOf.Keys;
  }

  lemma DistinctEntries<K, V>(keys: seq<K>, dict: map<K, V>)
    requires DistinctKeys(keys) && dict.Keys == (set k | k in keys)
    ensures Distinct(EntriesOf(keys, dict))
    ensures |EntriesOf(keys, dict)| == |keys|
    ensures forall i :: 0 <= i < |keys| ==> EntriesOf(keys, dict)[i] == (keys[i], dict[keys[i]])
  {
  }

  lemma EmptyTables<K, V>(keys: seq<K>, dict: map<K, V>)
    requires |dict| == 0 && dict.Keys == (set k | k in keys)
    ensures keys == []
  {
    if keys != [] {
      TablesNotEmpty(keys, dict);
    }
  }

  lemma TablesNotEmpty<K, V>(keys: seq<K>, dict: map<K, V>)
    requires keys != [] && dict.Keys == (set k | k in keys)
    ensures |dict| != 0
  {
    assert keys[0] in dict.Keys;
  }

  lemma SomeKeys<K, V>(keys: seq<K>, dict: map<K, V>)
    requires |dict| != 0 && dict.Keys == (set k | k in keys)
    ensures keys != []
  {
    assert keys == [] ==> dict.Keys == {};
  }

  lemma WithoutEnd<K, V>(e: Entries<K, V>, i: nat)
    requires Distinct(e) && i < |e|
    ensures Without(e, e[i].0) == e[..i] + e[i + 1..]
  {
  }

  lemma WithoutMissing<K, V>(e: Entries<K, V>, k: K)
    requires !Has(e, k)
    ensures Without(e, k) == e
  {
  }

  // ----- Sequences of changes -----

  datatype Op<K, V> = Set(k: K, v: V) | Delete(k: K) | Pop(last: bool) | Empty

  function ApplyOp<K(==), V>(e: Entries<K, V>, op: Op<K, V>): Entries<K, V> {
    match op
    case Set(k, v) => Put(e, k, v)
    case Delete(k) => Without(e, k)
    case Pop(last) => if e == [] then [] else if last then e[..|e| - 1] else e[1..]
    case Empty => []
  }

  function RunOps<K(==), V>(e: Entries<K, V>, ops: seq<Op<K, V>>): Entries<K, V> {
    if ops == [] then e else ApplyOp(RunOps(e, ops[..|ops| - 1]), ops[|ops| - 1])
  }

  function PutAll<K(==), V>(ks: seq<K>, v: V): Entries<K, V> {
    if ks == [] then [] else Put(PutAll(ks[..|ks| - 1], v), ks[|ks| - 1], v)
  }

  lemma {:induction false} KeyCount<K, V>(keys: seq<K>, dict: map<K, V>)
    requires DistinctKeys(keys) && dict.Keys == (set k | k in keys)
    ensures |dict| == |keys|
    decreases |keys|
  {
    if keys != [] {
      var n := |keys| - 1;
      var rest, d := keys[..n], dict - {keys[n]};
      RemovedKeys(keys, n);
      assert rest == keys[..n] + keys[n + 1..];
      assert d.Keys == dict.Keys - {keys[n]};
      KeyCount(rest, d);
      assert |dict.Keys| == |d.Keys| + 1;
    } else {
      assert dict.Keys == {};
    }
  }

  // ----- Order of insertion -----

  lemma ApplyKeepsDistinct<K, V>(e: Entries<K, V>, op: Op<K, V>)
    requires Distinct(e)
    ensures Distinct(ApplyOp(e, op))
  {
  }

  lemma {:induction false} RunKeepsDistinct<K, V>(ops: seq<Op<K, V>>)
    ensures Distinct(RunOps<K, V>([], ops))
    decreases |ops|
  {
    hide ApplyOp;
    if ops != [] {
      RunKeepsDistinct(ops[..|ops| - 1]);
      ApplyKeepsDistinct(RunOps([], ops[..|ops| - 1]), ops[|ops| - 1]);
    }
  }

  /** The operation that inserted the key when it was last absent. */
  function Birth<K(==), V>(ops: seq<Op<K, V>>, k: K): nat
    decreases |ops|
  {
    if ops == [] then 0
    else
      var before, op := ops[..|ops| - 1], ops[|ops| - 1];
      if op.Set? && op.k == k && !Has(RunOps([], before), k) then |before| else Birth(before, k)
  }

  /** Where the entries at i and j were before the last operation: |e| for a new one. */
  lemma Whence<K, V>(e: Entries<K, V>, op: Op<K, V>, i: nat, j: nat) returns (i0: nat, j0: nat)
    requires Distinct(e) && i < j < |ApplyOp(e, op)|
    ensures i0 < j0 <= |e| && e[i0].0 == ApplyOp(e, op)[i].0
    ensures if j0 < |e| then e[j0].0 == ApplyOp(e, op)[j].0
            else op.Set? && op.k == ApplyOp(e, op)[j].0 && !Has(e, op.k)
  {
    match op
    case Set(k, v) =>
      i0, j0 := i, j;
      AfterPut(e, k, v, i);
      AfterPut(e, k, v, j);
    case Delete(k) =>
      i0, j0 := AfterWithout(e, k, i), AfterWithout(e, k, j);
    case Pop(last) => i0, j0 := if last then i else i + 1, if last then j else j + 1;
    case Empty =>
  }

  lemma AfterPut<K, V>(e: Entries<K, V>, k: K, v: V, i: nat)
    requires i < |Put(e, k, v)|
    ensures i <= |e|
    ensures if i < |e| then Put(e, k, v)[i].0 == e[i].0 else Put(e, k, v)[i].0 == k && !Has(e, k)
  {
  }

  function AfterWithout<K(==), V>(e: Entries<K, V>, k: K, i: nat): (i0: nat)
    requires i < |Without(e, k)|
    ensures i <= i0 < |e| && Without(e, k)[i] == e[i0]
  {
    if i < Position(e, k) then i else if Has(e, k) then i + 1 else i
  }

  lemma PresentKey<K, V>(e: Entries<K, V>, i: nat)
    requires i < |e|
    ensures Has(e, e[i].0)
  {
  }

  lemma {:induction false} BornBefore<K, V>(ops: seq<Op<K, V>>, k: K)
    requires Has(RunOps<K, V>([], ops), k)
    ensures Birth(ops, k) < |ops|
    decreases |ops|
  {
    if ops != [] {
      var before, op := ops[..|ops| - 1], ops[|ops| - 1];
      var e := RunOps<K, V>([], before);
      RunKeepsDistinct<K, V>(before);
      if Has(e, k) {
        BornBefore(before, k);
      } else {
        OnlySetAdds(e, op, k);
      }
    }
  }

  lemma OnlySetAdds<K, V>(e: Entries<K, V>, op: Op<K, V>, k: K)
    requires !Has(e, k) && Has(ApplyOp(e, op), k)
    ensures op.Set? && op.k == k
  {
    var e' := ApplyOp(e, op);
    var i := Position(e', k);
    assert e'[i].0 == k;
  }

  /** Starting empty, after any operations the keys stand in the order in which they
      were inserted; overwriting a key does not move it. */
  lemma {:induction false} InsertionOrder<K, V>(ops: seq<Op<K, V>>, i: nat, j: nat)
    requires i < j < |RunOps<K, V>([], ops)|
    ensures Birth(ops, RunOps<K, V>([], ops)[i].0) < Birth(ops, RunOps<K, V>([], ops)[j].0)
    decreases |ops|
  {
    hide ApplyOp, Position;
    var before, op := ops[..|ops| - 1], ops[|ops| - 1];
    var e := RunOps<K, V>([], before);
    RunKeepsDistinct<K, V>(before);
    var i0, j0 := Whence(e, op, i, j);
    PresentKey(e, i0);
    if j0 < |e| {
      PresentKey(e, j0);
      InsertionOrder(before, i0, j0);
    } else {
      BornBefore(before, e[i0].0);
    }
  }

  // ----- What each operation does, and which values remain -----

  /** With i the place of the operation's key, or no place of it. */
  lemma OperationMeans<K, V>(e: Entries<K, V>, op: Op<K, V>, i: nat)
    requires Distinct(e) && (op.Set? || op.Delete?)
    requires i <= |e| && (forall j :: 0 <= j < |e| ==> (e[j].0 == op.k <==> j == i))
    ensures op.Set? ==> ApplyOp(e, op) == e[..i] + [(op.k, op.v)] + (if i < |e| then e[i + 1..] else [])
    ensures op.Delete? ==> ApplyOp(e, op) == e[..i] + if i < |e| then e[i + 1..] else []
  {
    var p := Position(e, op.k);
    assert i < |e| ==> e[i].0 == op.k;
    assert p < |e| ==> e[p].0 == op.k;
    assert p == i;
    if i < |e| && op.Set? {
      assert e[i := (op.k, op.v)] == e[..i] + [(op.k, op.v)] + e[i + 1..];
    }
    if i == |e| {
      assert e[..i] == e;
    }
  }

  /** The operation set the value that the key has now: nothing later sets or deletes the key, or
      empties the dictionary. */
  ghost predicate SetLast<K, V>(ops: seq<Op<K, V>>, n: int, k: K, v: V) {
    && 0 <= n < |ops| && ops[n] == Set(k, v)
    && forall m :: n < m < |ops| ==> !ops[m].Empty? && (ops[m].Set? || ops[m].Delete? ==> ops[m].k != k)
  }

  /** Every entry was set by some operation, and by none after it. */
  lemma {:induction false} ValueIsLastSet<K, V>(ops: seq<Op<K, V>>, i: nat)
    requires i < |RunOps<K, V>([], ops)|
    ensures var entry := RunOps<K, V>([], ops)[i]; exists n :: SetLast(ops, n, entry.0, entry.1)
    decreases |ops|
  {
    var before, op := ops[..|ops| - 1], ops[|ops| - 1];
    var e := RunOps<K, V>([], before);
    var entry := RunOps<K, V>([], ops)[i];
    RunKeepsDistinct<K, V>(before);
    var i0 := EntryFrom(e, op, i);
    hide ApplyOp, Position;
    if op == Set(entry.0, entry.1) {
      assert SetLast(ops, |ops| - 1, entry.0, entry.1);
    } else {
      ValueIsLastSet(before, i0);
      var n :| SetLast(before, n, entry.0, entry.1);
      assert SetLast(ops, n, entry.0, entry.1);
    }
  }

  /** An entry that the last operation did not set was there before it. */
  lemma EntryFrom<K, V>(e: Entries<K, V>, op: Op<K, V>, i: nat) returns (i0: nat)
    requires Distinct(e) && i < |ApplyOp(e, op)|
    ensures var entry := ApplyOp(e, op)[i];
      op == Set(entry.0, entry.1)
      || (i0 < |e| && e[i0] == entry && !op.Empty? && (op.Set? || op.Delete? ==> op.k != entry.0))
  {
    i0 := i;
    match op
    case Set(k, v) =>
    case Delete(k) =>
      i0 := AfterWithout(e, k, i);
    case Pop(last) =>
      i0 := if last then i else i + 1;
    case Empty =>
  }
}
