/** The IP hierarchy of ipstools/ipstools/IPTreeNode.py and its table of conflicts.
    Nodes are objects, compared by identity. */
module IpTree {

  /** A node object. The number stands for its identity; nodes are not changed. */
  datatype Ip = Ip(object: nat, name: string, commit: string)

  datatype Tree = Tree(ip: Ip, children: seq<Tree>)

  // ----- Descendants -----

  /** The nodes below a list of siblings, children before their parent. */
  function PostOrder(ts: seq<Tree>): seq<Ip> {
    if ts == [] then []
    else
      var last := ts[|ts| - 1];
      PostOrder(ts[..|ts| - 1]) + PostOrder(last.children) + [last.ip]
  }

  method FlattenizeChildren(t: Tree) returns (flat: seq<Ip>)
    ensures flat == PostOrder(t.children)
    decreases t
  {
    flat := [];
    var i := 0;
    while i < |t.children|
      invariant 0 <= i <= |t.children| && flat == PostOrder(t.children[..i])
    {
      var c := t.children[i];
      var below := FlattenizeChildren(c);
      flat := flat + below;
      flat := flat + [c.ip];
      assert t.children[..i + 1][..i] == t.children[..i];
      i := i + 1;
    }
    assert t.children[..i] == t.children;
  }

  ghost predicate Below(x: Ip, t: Tree)
    decreases t
  {
    exists i :: 0 <= i < |t.children| && (t.children[i].ip == x || Below(x, t.children[i]))
  }

  /** The flat list holds exactly the descendants. */
  lemma {:induction false} PostOrderComplete(t: Tree, x: Ip)
    ensures x in PostOrder(t.children) <==> Below(x, t)
    decreases t
  {
    var n := 0;
    while n < |t.children|
      invariant 0 <= n <= |t.children|
      invariant x in PostOrder(t.children[..n])
           <==> exists i :: 0 <= i < n && (t.children[i].ip == x || Below(x, t.children[i]))
    {
      assert t.children[..n + 1][..n] == t.children[..n];
      PostOrderComplete(t.children[n], x);
      n := n + 1;
    }
    assert t.children[..n] == t.children;
  }

  // A node by its position: the index of its ancestor among the siblings, then the position of the
  // node below that ancestor. Two positions can hold the same object.

  ghost predicate Stands(ts: seq<Tree>, p: seq<nat>) {
    p != [] && p[0] < |ts| && (|p| > 1 ==> Stands(ts[p[0]].children, p[1..]))
  }

  ghost function NodeAt(ts: seq<Tree>, p: seq<nat>): Ip
    requires Stands(ts, p)
  {
    if |p| == 1 then ts[p[0]].ip else NodeAt(ts[p[0]].children, p[1..])
  }

  /** A node below another comes before it; otherwise the first sibling that differs decides. */
  predicate Before(p: seq<nat>, q: seq<nat>) {
    if q == [] then p != []
    else p != [] && (p[0] < q[0] || (p[0] == q[0] && Before(p[1..], q[1..])))
  }

  ghost predicate Lists(ts: seq<Tree>, paths: seq<seq<nat>>, flat: seq<Ip>) {
    && |paths| == |flat|
    && (forall i :: 0 <= i < |paths| ==> Stands(ts, paths[i]) && NodeAt(ts, paths[i]) == flat[i])
    && forall i, j :: 0 <= i < j < |paths| ==> Before(paths[i], paths[j])
  }

  /** The positions of the flat list, in order: every node below comes before the nodes above it,
      the nodes of an earlier sibling before those of a later one, and each position once. */
  lemma {:induction false} PostOrderPaths(ts: seq<Tree>) returns (paths: seq<seq<nat>>)
    ensures Lists(ts, paths, PostOrder(ts))
    ensures forall p :: Stands(ts, p) ==> p in paths
  {
    paths := [];
    if ts != [] {
      var n: nat := |ts| - 1;
      var first := PostOrderPaths(ts[..n]);
      var below := PostOrderPaths(ts[n].children);
      var under := Under(n, below);
      paths := first + under + [[n]];
      UnderLists(ts, n, below, PostOrder(ts[n].children));
      FirstLists(ts, n, first, PostOrder(ts[..n]));
      ThreeParts(ts, n, first, under, PostOrder(ts[..n]), PostOrder(ts[n].children));
      forall p | Stands(ts, p)
        ensures p in paths
      {
        hide PostOrder, Lists, NodeAt;
        if p[0] < n {
          StandsBefore(ts, n, p);
          assert p in first;
        } else if |p| == 1 {
          assert p == [n];
        } else {
          assert p == [n] + p[1..] && Stands(ts[n].children, p[1..]);
          assert [n] + p[1..] in under;
        }
      }
    }
  }

  /** The nodes of the earlier siblings, those below the last one, and the last one itself. */
  lemma ThreeParts(ts: seq<Tree>, n: nat, first: seq<seq<nat>>, under: seq<seq<nat>>, a: seq<Ip>, b: seq<Ip>)
    requires n < |ts| && Lists(ts, first, a) && Lists(ts, under, b)
    requires forall i :: 0 <= i < |first| ==> first[i][0] < n
    requires forall i :: 0 <= i < |under| ==> |under[i]| > 1 && under[i][0] == n
    ensures Lists(ts, first + under + [[n]], a + b + [ts[n].ip])
  {
    var paths := first + under + [[n]];
    forall i, j | 0 <= i < j < |paths|
      ensures Before(paths[i], paths[j])
    {
      if j < |first| {
        assert Before(first[i], first[j]);
      } else if |first| <= i && j < |first| + |under| {
        assert Before(under[i - |first|], under[j - |first|]);
      } else if i < |first| {
        assert paths[i] == first[i] && paths[j][0] == n;
      }
    }
  }

  ghost function Under(n: nat, below: seq<seq<nat>>): (paths: seq<seq<nat>>)
    ensures |paths| == |below| && forall i :: 0 <= i < |below| ==> paths[i] == [n] + below[i]
    ensures forall p :: p in below ==> [n] + p in paths
  {
    var paths := seq(|below|, i requires 0 <= i < |below| => [n] + below[i]);
    assert forall i :: 0 <= i < |below| ==> paths[i] == [n] + below[i];
    paths
  }

  lemma StandsBefore(ts: seq<Tree>, n: nat, p: seq<nat>)
    requires n <= |ts| && p != [] && p[0] < n
    ensures Stands(ts, p) <==> Stands(ts[..n], p)
    ensures Stands(ts, p) ==> NodeAt(ts, p) == NodeAt(ts[..n], p)
  {
  }

  lemma UnderLists(ts: seq<Tree>, n: nat, below: seq<seq<nat>>, flat: seq<Ip>)
    requires n < |ts| && Lists(ts[n].children, below, flat)
    ensures Lists(ts, Under(n, below), flat)
  {
    var paths := Under(n, below);
    forall i | 0 <= i < |paths|
      ensures Stands(ts, paths[i]) && NodeAt(ts, paths[i]) == flat[i]
    {
      assert paths[i][1..] == below[i];
    }
    forall i, j | 0 <= i < j < |paths|
      ensures Before(paths[i], paths[j])
    {
      assert paths[i][1..] == below[i] && paths[j][1..] == below[j];
      assert Before(below[i], below[j]);
    }
  }

  lemma FirstLists(ts: seq<Tree>, n: nat, first: seq<seq<nat>>, flat: seq<Ip>)
    requires n <= |ts| && Lists(ts[..n], first, flat)
    ensures Lists(ts, first, flat) && forall i :: 0 <= i < |first| ==> first[i][0] < n
  {
    forall i | 0 <= i < |first|
      ensures Stands(ts, first[i]) && NodeAt(ts, first[i]) == flat[i] && first[i][0] < n
    {
      StandsBefore(ts, n, first[i]);
    }
  }

  // ----- Lists without repetition -----

  function Dedup<T(==)>(s: seq<T>): seq<T> {
    if s == [] then []
    else
      var n := |s| - 1;
      Dedup(s[..n]) + if s[n] in s[..n] then [] else [s[n]]
  }

  lemma {:induction false} DedupMember<T>(s: seq<T>, x: T)
    ensures x in Dedup(s) <==> x in s
  {
    if s != [] {
      var n := |s| - 1;
      DedupMember(s[..n], x);
      assert s == s[..n] + [s[n]];
    }
  }

  lemma DedupAppend<T>(s: seq<T>, x: T)
    ensures Dedup(s + [x]) == Dedup(s) + if x in s then [] else [x]
  {
    assert (s + [x])[..|s|] == s;
  }

  /** Members that were seen before add nothing. */
  lemma {:induction false} DedupSeen<T>(s: seq<T>, t: seq<T>)
    requires forall i :: 0 <= i < |t| ==> t[i] in s
    ensures Dedup(s + t) == Dedup(s)
    decreases |t|
  {
    hide Dedup;
    if t == [] {
      assert s + t == s;
    } else {
      var n := |t| - 1;
      DedupSeen(s, t[..n]);
      DedupAppend(s + t[..n], t[n]);
      assert s + t[..n] + [t[n]] == s + t;
    }
  }

  lemma {:induction false} DedupTwice<T>(s: seq<T>, t: seq<T>)
    ensures Dedup(Dedup(s) + t) == Dedup(s + t)
    decreases |t|
  {
    hide Dedup;
    if t == [] {
      assert s + t == s && Dedup(s) + t == Dedup(s);
      DedupFixed(s);
    } else {
      var n := |t| - 1;
      DedupTwice(s, t[..n]);
      DedupAppend(s + t[..n], t[n]);
      DedupAppend(Dedup(s) + t[..n], t[n]);
      DedupMember(s, t[n]);
      assert s + t[..n] + [t[n]] == s + t && Dedup(s) + t[..n] + [t[n]] == Dedup(s) + t;
    }
  }

  lemma {:induction false} DedupFixed<T>(s: seq<T>)
    ensures Dedup(Dedup(s)) == Dedup(s)
  {
    if s != [] {
      var n := |s| - 1;
      DedupFixed(s[..n]);
      DedupMember(s[..n], s[n]);
      DedupAppend(Dedup(s[..n]), s[n]);
      assert Dedup(s[..n]) + [] == Dedup(s[..n]);
    }
  }

  /** Starting from a prefix already listed, going through the whole list again
      completes it. */
  lemma DedupAgain<T>(s: seq<T>, k: nat)
    requires k <= |s|
    ensures Dedup(Dedup(s[..k]) + s) == Dedup(s)
  {
    hide Dedup;
    var p, q := s[..k], s[k..];
    assert s == p + q;
    DedupTwice(p, s);
    assert p + s == p + p + q;
    DedupTwice(p + p, q);
    DedupSeen(p, p);
    DedupTwice(p, q);
  }

  predicate Distinct<T(==)>(s: seq<T>) {
    forall i, j :: 0 <= i < j < |s| ==> s[i] != s[j]
  }

  lemma {:induction false} DedupDistinct<T>(s: seq<T>)
    ensures Distinct(Dedup(s))
  {
    if s != [] {
      var n := |s| - 1;
      DedupDistinct(s[..n]);
      DedupMember(s[..n], s[n]);
    }
  }

  // ----- Nodes of one name -----

  /** The nodes of a given name, in order. */
  function Named(s: seq<Ip>, name: string): seq<Ip> {
    if s == [] then []
    else
      var n := |s| - 1;
      Named(s[..n], name) + if s[n].name == name then [s[n]] else []
  }

  lemma {:induction false} NamedMember(s: seq<Ip>, name: string, x: Ip)
    ensures x in Named(s, name) <==> x in s && x.name == name
  {
    if s != [] {
      NamedMember(s[..|s| - 1], name, x);
      assert s == s[..|s| - 1] + [s[|s| - 1]];
    }
  }

  lemma NamedAppend(s: seq<Ip>, name: string, x: Ip)
    ensures Named(s + [x], name) == Named(s, name) + if x.name == name then [x] else []
  {
    assert (s + [x])[..|s|] == s;
  }

  /** The nodes of a prefix are a prefix of the nodes. */
  lemma {:induction false} NamedPrefix(s: seq<Ip>, name: string, k: nat)
    requires k <= |s|
    ensures Named(s[..k], name) <= Named(s, name)
    decreases |s|
  {
    if k == |s| {
      assert s[..k] == s;
    } else {
      var n := |s| - 1;
      NamedPrefix(s[..n], name, k);
      assert s[..n][..k] == s[..k];
    }
  }

  function Names(s: seq<Ip>): (r: seq<string>)
    ensures |r| == |s|
  {
    seq(|s|, i requires 0 <= i < |s| => s[i].name)
  }

  // ----- One node per commit -----

  predicate CommitIn(s: seq<Ip>, commit: string) {
    exists i :: 0 <= i < |s| && s[i].commit == commit
  }

  /** The nodes whose commit did not occur before. */
  function FirstPerCommit(s: seq<Ip>): seq<Ip> {
    if s == [] then []
    else
      var n := |s| - 1;
      FirstPerCommit(s[..n]) + if CommitIn(s[..n], s[n].commit) then [] else [s[n]]
  }

  // ----- The table of conflicts -----

  /** Each name once, at its first occurrence, with an empty list. */
  method EmptyLists(flat: seq<Ip>) returns (names: seq<string>, lists: map<string, seq<Ip>>)
    ensures names == Dedup(Names(flat))
    ensures forall name :: name in lists <==> name in Names(flat)
    ensures forall name :: name in lists ==> lists[name] == []
  {
    hide Dedup;
    names, lists := [], map[];
    var i := 0;
    assert Dedup(Names(flat[..0])) == [] by {
      DedupNothing(Names(flat[..0]));
    }
    while i < |flat|
      invariant 0 <= i <= |flat|
      invariant names == Dedup(Names(flat[..i]))
      invariant forall name :: name in lists <==> name in Names(flat[..i])
      invariant forall name :: name in lists ==> lists[name] == []
    {
      var name := flat[i].name;
      assert Names(flat[..i + 1]) == Names(flat[..i]) + [name];
      DedupAppend(Names(flat[..i]), name);
      if name !in lists {
        names := names + [name];
      }
      lists := lists[name := []];
      i := i + 1;
    }
    assert flat[..i] == flat;
  }

  lemma DedupNothing<T>(s: seq<T>)
    requires s == []
    ensures Dedup(s) == []
  {
  }

  /** What the list of a name holds once the first i nodes have been visited. */
  function Collected(flat: seq<Ip>, i: nat, name: string): seq<Ip>
    requires i <= |flat|
  {
    if Named(flat[..i], name) == [] then [] else Dedup(Named(flat, name))
  }

  /** The list before the inner loop is a listed prefix of the nodes of its name. */
  lemma ListBeforeScan(flat: seq<Ip>, i: nat, before: seq<Ip>) returns (k: nat)
    requires i < |flat| && before == Collected(flat, i, flat[i].name)
    ensures var all := Named(flat, flat[i].name);
      k <= |all| && before + (if flat[i] in before then [] else [flat[i]]) == Dedup(all[..k])
  {
    var f := flat[i];
    var all := Named(flat, f.name);
    NamedMember(flat, f.name, f);
    if Named(flat[..i], f.name) == [] {
      k := 1;
      assert flat[..i + 1][..i] == flat[..i];
      assert Named(flat[..i + 1], f.name) == [f];
      NamedPrefix(flat, f.name, i + 1);
      assert all[..1] == [f];
      assert [f][..0] == [];
    } else {
      k := |all|;
      DedupMember(all, f);
      assert all[..k] == all;
    }
  }

  /** The inner loop: the other nodes of f's name are added in order. */
  method Scan(flat: seq<Ip>, f: Ip, before: seq<Ip>) returns (list: seq<Ip>)
    requires f in before && before == Dedup(before)
    ensures list == Dedup(before + Named(flat, f.name))
  {
    hide Dedup, Named;
    list := before;
    var j := 0;
    NamedNothing(flat[..0], f.name);
    assert before + [] == before;
    while j < |flat|
      invariant 0 <= j <= |flat|
      invariant list == Dedup(before + Named(flat[..j], f.name))
    {
      var g := flat[j];
      assert flat[..j + 1] == flat[..j] + [g];
      NamedAppend(flat[..j], f.name, g);
      var seen := before + Named(flat[..j], f.name);
      DedupAppend(seen, g);
      DedupMember(seen, g);
      assert seen + [g] == before + (Named(flat[..j], f.name) + [g]);
      assert seen == before + (Named(flat[..j], f.name) + []);
      if f != g && f.name == g.name {
        if g !in list {
          list := list + [g];
        }
      }
      j := j + 1;
    }
    assert flat[..j] == flat;
  }

  lemma NamedNothing(s: seq<Ip>, name: string)
    requires s == []
    ensures Named(s, name) == []
  {
  }

  /** One visit of the outer loop completes the list of its node's name. */
  method Visit(flat: seq<Ip>, i: nat, before: seq<Ip>) returns (list: seq<Ip>)
    requires i < |flat| && before == Collected(flat, i, flat[i].name)
    ensures list == Dedup(Named(flat, flat[i].name))
  {
    hide Dedup, Named, Collected;
    var f := flat[i];
    ghost var k := ListBeforeScan(flat, i, before);
    list := before;
    assert before + [] == before;
    if f !in list {
      list := list + [f];
    }
    DedupFixed(Named(flat, f.name)[..k]);
    list := Scan(flat, f, list);
    DedupAgain(Named(flat, f.name), k);
  }

  method Populate(flat: seq<Ip>, empty: map<string, seq<Ip>>) returns (lists: map<string, seq<Ip>>)
    requires forall name :: name in empty <==> name in Names(flat)
    requires forall name :: name in empty ==> empty[name] == []
    ensures lists.Keys == empty.Keys
    ensures forall name :: name in lists ==> lists[name] == Dedup(Named(flat, name))
  {
    hide Dedup, Named, Collected;
    lists := empty;
    var i := 0;
    NothingCollected(flat);
    while i < |flat|
      invariant 0 <= i <= |flat| && lists.Keys == empty.Keys
      invariant forall name :: name in lists ==> lists[name] == Collected(flat, i, name)
    {
      var f := flat[i];
      assert Names(flat)[i] == f.name;
      var list := Visit(flat, i, lists[f.name]);
      CollectStep(flat, i);
      lists := lists[f.name := list];
      i := i + 1;
    }
    AllCollected(flat, lists);
  }

  lemma NothingCollected(flat: seq<Ip>)
    ensures forall name :: Collected(flat, 0, name) == []
  {
    forall name ensures Collected(flat, 0, name) == [] {
      NamedNothing(flat[..0], name);
    }
  }

  lemma CollectStep(flat: seq<Ip>, i: nat)
    requires i < |flat|
    ensures Collected(flat, i + 1, flat[i].name) == Dedup(Named(flat, flat[i].name))
    ensures forall name :: name != flat[i].name ==> Collected(flat, i + 1, name) == Collected(flat, i, name)
  {
    hide Named, Dedup;
    assert flat[..i + 1] == flat[..i] + [flat[i]];
    forall name
      ensures Named(flat[..i + 1], name) == Named(flat[..i], name) + if flat[i].name == name then [flat[i]] else []
    {
      NamedAppend(flat[..i], name, flat[i]);
    }
    NamedAppend(flat[..i], flat[i].name, flat[i]);
    assert Named(flat[..i + 1], flat[i].name)[|Named(flat[..i], flat[i].name)|] == flat[i];
  }

  lemma AllCollected(flat: seq<Ip>, lists: map<string, seq<Ip>>)
    requires forall name :: name in lists ==> lists[name] == Collected(flat, |flat|, name)
    ensures forall name :: name in lists ==> lists[name] == Dedup(Named(flat, name))
  {
    assert flat[..|flat|] == flat;
    forall name | name in lists
      ensures lists[name] == Dedup(Named(flat, name))
    {
      if Named(flat, name) == [] {
        DedupNothing(Named(flat, name));
      }
    }
  }

  // ----- Collapsing a list -----

  function Without(s: seq<Ip>, x: Ip): seq<Ip> {
    if s == [] then [] else if s[0] == x then s[1..] else [s[0]] + Without(s[1..], x)
  }

  /** list.remove: the first occurrence goes. */
  method Remove(s: seq<Ip>, x: Ip) returns (r: seq<Ip>)
    requires x in s
    ensures r == Without(s, x)
  {
    var i := 0;
    while s[i] != x
      invariant 0 <= i < |s| && x in s[i..] && x !in s[..i]
      decreases |s| - i
    {
      i := i + 1;
    }
    r := s[..i] + s[i + 1..];
    WithoutAt(s, x, i);
  }

  lemma {:induction false} WithoutAt(s: seq<Ip>, x: Ip, i: nat)
    requires i < |s| && s[i] == x && x !in s[..i]
    ensures Without(s, x) == s[..i] + s[i + 1..]
  {
    if i > 0 {
      assert s[0] in s[..i];
      assert x !in s[1..][..i - 1] by {
        assert forall y :: y in s[1..][..i - 1] ==> y in s[..i];
      }
      WithoutAt(s[1..], x, i - 1);
    }
  }

  /** The members of s that are not in r. */
  function Minus(s: seq<Ip>, r: seq<Ip>): seq<Ip> {
    if s == [] then []
    else
      var n := |s| - 1;
      Minus(s[..n], r) + if s[n] in r then [] else [s[n]]
  }

  lemma {:induction false} MinusNothing(s: seq<Ip>)
    ensures Minus(s, []) == s
  {
    if s != [] {
      MinusNothing(s[..|s| - 1]);
    }
  }

  lemma {:induction false} MinusMember(s: seq<Ip>, r: seq<Ip>, x: Ip)
    ensures x in Minus(s, r) <==> x in s && x !in r
  {
    if s != [] {
      MinusMember(s[..|s| - 1], r, x);
      assert s == s[..|s| - 1] + [s[|s| - 1]];
    }
  }

  lemma {:induction false} WithoutAppend(s: seq<Ip>, y: Ip, x: Ip)
    ensures Without(s + [y], x) == if x in s then Without(s, x) + [y] else if x == y then s else s + [y]
  {
    if s == [] {
      assert s + [y] == [y];
      assert [y][1..] == [];
    } else {
      assert (s + [y])[1..] == s[1..] + [y];
      WithoutAppend(s[1..], y, x);
    }
  }

  lemma {:induction false} WithoutAbsent(s: seq<Ip>, x: Ip)
    requires x !in s
    ensures Without(s, x) == s
  {
    if s != [] {
      WithoutAbsent(s[1..], x);
    }
  }

  /** On a list without repetition, removing one more node is subtracting one more. */
  lemma {:induction false} MinusOneMore(s: seq<Ip>, r: seq<Ip>, x: Ip)
    requires Distinct(s)
    ensures Minus(s, r + [x]) == Without(Minus(s, r), x)
    decreases |s|
  {
    hide Without;
    if s == [] {
      WithoutAbsent([], x);
    } else {
      var n := |s| - 1;
      MinusOneMore(s[..n], r, x);
      MinusMember(s[..n], r, x);
      assert s[n] in r + [x] <==> s[n] in r || s[n] == x;
      if s[n] in r {
        assert Minus(s, r) == Minus(s[..n], r) + [];
        assert Minus(s[..n], r) + [] == Minus(s[..n], r);
        assert Minus(s, r + [x]) == Minus(s[..n], r + [x]) + [];
        assert Minus(s[..n], r + [x]) + [] == Minus(s[..n], r + [x]);
      } else {
        WithoutAppend(Minus(s[..n], r), s[n], x);
        if x !in Minus(s[..n], r) {
          WithoutAbsent(Minus(s[..n], r), x);
        }
        assert Minus(s[..n], r + [x]) + [] == Minus(s[..n], r + [x]);
      }
    }
  }

  /** The nodes whose commit did occur before. */
  function Repeats(s: seq<Ip>): seq<Ip> {
    if s == [] then []
    else
      var n := |s| - 1;
      Repeats(s[..n]) + if CommitIn(s[..n], s[n].commit) then [s[n]] else []
  }

  lemma {:induction false} RepeatsMember(s: seq<Ip>, x: Ip)
    ensures x in Repeats(s) ==> x in s
  {
    if s != [] {
      RepeatsMember(s[..|s| - 1], x);
    }
  }

  /** Subtracting the repeats leaves one node per commit. */
  lemma {:induction false} MinusRepeats(s: seq<Ip>)
    requires Distinct(s)
    ensures Minus(s, Repeats(s)) == FirstPerCommit(s)
  {
    if s != [] {
      var n := |s| - 1;
      MinusRepeats(s[..n]);
      RepeatsMember(s[..n], s[n]);
      var extra := if CommitIn(s[..n], s[n].commit) then [s[n]] else [];
      MinusIgnores(s[..n], Repeats(s[..n]), extra);
    }
  }

  /** Subtracting a node that is not there changes nothing. */
  lemma {:induction false} MinusIgnores(s: seq<Ip>, r: seq<Ip>, extra: seq<Ip>)
    requires forall i :: 0 <= i < |extra| ==> extra[i] !in s
    ensures Minus(s, r + extra) == Minus(s, r)
  {
    if s != [] {
      var n := |s| - 1;
      assert forall y :: y in s[..n] ==> y in s;
      MinusIgnores(s[..n], r, extra);
      assert s[n] in s;
    }
  }

  /** The first pass over one list notes the repeats. */
  method NoteRepeats(c: seq<Ip>) returns (nodesToRemove: seq<Ip>)
    ensures nodesToRemove == Repeats(c)
  {
    hide CommitIn;
    nodesToRemove := [];
    var commits: seq<string> := [];
    var i := 0;
    NoCommit(c[..0]);
    while i < |c|
      invariant 0 <= i <= |c| && nodesToRemove == Repeats(c[..i])
      invariant forall commit :: commit in commits <==> CommitIn(c[..i], commit)
    {
      assert c[..i + 1][..i] == c[..i];
      CommitStep(c, i);
      if c[i].commit in commits {
        nodesToRemove := nodesToRemove + [c[i]];
      } else {
        commits := commits + [c[i].commit];
      }
      i := i + 1;
    }
    assert c[..i] == c;
  }

  lemma NoCommit(c: seq<Ip>)
    requires c == []
    ensures forall commit :: !CommitIn(c, commit)
  {
  }

  /** The second pass removes them one by one. */
  method Collapse(c: seq<Ip>) returns (r: seq<Ip>)
    requires Distinct(c)
    ensures r == FirstPerCommit(c)
  {
    hide Repeats, Minus, Distinct, Without;
    var nodesToRemove := NoteRepeats(c);
    r := c;
    MinusNothing(c);
    var j := 0;
    while j < |nodesToRemove|
      invariant 0 <= j <= |nodesToRemove|
      invariant r == Minus(c, nodesToRemove[..j])
    {
      assert nodesToRemove[..j + 1] == nodesToRemove[..j] + [nodesToRemove[j]];
      MinusOneMore(c, nodesToRemove[..j], nodesToRemove[j]);
      RepeatStands(c, j);
      MinusMember(c, nodesToRemove[..j], nodesToRemove[j]);
      r := Remove(r, nodesToRemove[j]);
      j := j + 1;
    }
    assert nodesToRemove[..j] == nodesToRemove;
    MinusRepeats(c);
  }

  lemma CommitStep(c: seq<Ip>, i: nat)
    requires i < |c|
    ensures forall commit :: CommitIn(c[..i + 1], commit) <==> CommitIn(c[..i], commit) || commit == c[i].commit
  {
    forall commit
      ensures CommitIn(c[..i + 1], commit) <==> CommitIn(c[..i], commit) || commit == c[i].commit
    {
      if CommitIn(c[..i], commit) {
        var k :| 0 <= k < i && c[..i][k].commit == commit;
        assert c[..i + 1][k].commit == commit;
      }
      if commit == c[i].commit {
        assert c[..i + 1][i].commit == commit;
      }
      if CommitIn(c[..i + 1], commit) {
        var k :| 0 <= k <= i && c[..i + 1][k].commit == commit;
        assert k < i ==> c[..i][k].commit == commit;
      }
    }
  }

  lemma {:induction false} RepeatsDistinct(c: seq<Ip>)
    requires Distinct(c)
    ensures Distinct(Repeats(c))
  {
    if c != [] {
      var n := |c| - 1;
      RepeatsDistinct(c[..n]);
      RepeatsMember(c[..n], c[n]);
    }
  }

  /** A node to remove is in the list and not removed yet. */
  lemma RepeatStands(c: seq<Ip>, j: nat)
    requires Distinct(c) && j < |Repeats(c)|
    ensures Repeats(c)[j] in c && Repeats(c)[j] !in Repeats(c)[..j]
  {
    RepeatsMember(c, Repeats(c)[j]);
    RepeatsDistinct(c);
  }

  // ----- The whole -----

  method CollapseAll(lists: map<string, seq<Ip>>) returns (r: map<string, seq<Ip>>)
    requires forall name :: name in lists ==> Distinct(lists[name])
    ensures r.Keys == lists.Keys
    ensures forall name :: name in lists ==> r[name] == FirstPerCommit(lists[name])
  {
    hide FirstPerCommit, Distinct;
    r := lists;
    var left := lists.Keys;
    while left != {}
      invariant left <= lists.Keys == r.Keys
      invariant forall name :: name in lists ==>
        r[name] == if name in left then lists[name] else FirstPerCommit(lists[name])
      decreases left
    {
      var name :| name in left;
      var c := Collapse(r[name]);
      r := r[name := c];
      left := left - {name};
    }
  }

  /** The names whose list is not empty. */
  function NonEmpty(names: seq<string>, lists: map<string, seq<Ip>>): seq<string> {
    if names == [] then []
    else
      var n := |names| - 1;
      NonEmpty(names[..n], lists) + if names[n] in lists && lists[names[n]] != [] then [names[n]] else []
  }

  lemma {:induction false} NonEmptyAll(names: seq<string>, lists: map<string, seq<Ip>>)
    requires forall i :: 0 <= i < |names| ==> names[i] in lists && lists[names[i]] != []
    ensures NonEmpty(names, lists) == names
  {
    if names != [] {
      NonEmptyAll(names[..|names| - 1], lists);
    }
  }

  /** Entries with empty lists are popped; the order of the others stays. */
  method EvictEmpty(names: seq<string>, lists: map<string, seq<Ip>>)
    returns (names': seq<string>, lists': map<string, seq<Ip>>)
    requires forall i :: 0 <= i < |names| ==> names[i] in lists
    ensures names' == NonEmpty(names, lists)
    ensures forall name :: name in lists' <==> name in lists && (name in names ==> lists[name] != [])
    ensures forall name :: name in lists' ==> lists'[name] == lists[name]
  {
    var nodesToRemove: set<string> := {};
    names' := [];
    var i := 0;
    while i < |names|
      invariant 0 <= i <= |names| && names' == NonEmpty(names[..i], lists)
      invariant forall name :: name in nodesToRemove <==> name in names[..i] && lists[name] == []
    {
      assert names[..i + 1][..i] == names[..i];
      assert names[..i + 1] == names[..i] + [names[i]];
      if |lists[names[i]]| < 1 {
        nodesToRemove := nodesToRemove + {names[i]};
      } else {
        names' := names' + [names[i]];
      }
      i := i + 1;
    }
    assert names[..i] == names;
    lists' := lists - nodesToRemove;
  }

  /** The table lists the descendants' names once each, in post-order of their first
      appearance, and for each name the post-order-first node of every commit. */
  method GetConflicts(t: Tree) returns (names: seq<string>, conflicts: map<string, seq<Ip>>)
    ensures names == Dedup(Names(PostOrder(t.children)))
    ensures forall name :: name in conflicts <==> name in names
    ensures forall name :: name in conflicts ==>
      conflicts[name] == FirstPerCommit(Named(PostOrder(t.children), name))
  {
    hide Dedup, FirstPerCommit, Named, PostOrder;
    var flat := FlattenizeChildren(t);
    var lists;
    names, lists := EmptyLists(flat);
    forall name
      ensures name in names <==> name in Names(flat)
    {
      DedupMember(Names(flat), name);
    }
    lists := Populate(flat, lists);
    forall name | name in lists
      ensures lists[name] != [] && Distinct(lists[name])
    {
      ListNotEmpty(flat, name);
    }
    NonEmptyAll(names, lists);
    names, lists := EvictEmpty(names, lists);
    conflicts := CollapseAll(lists);
    forall name | name in conflicts
      ensures conflicts[name] == FirstPerCommit(Named(flat, name))
    {
      FirstOfDedup(Named(flat, name));
    }
  }

  lemma ListNotEmpty(flat: seq<Ip>, name: string)
    requires name in Names(flat)
    ensures Dedup(Named(flat, name)) != [] && Distinct(Dedup(Named(flat, name)))
  {
    var i :| 0 <= i < |flat| && Names(flat)[i] == name;
    NamedMember(flat, name, flat[i]);
    DedupMember(Named(flat, name), flat[i]);
    DedupDistinct(Named(flat, name));
  }

  lemma CommitInDedup(s: seq<Ip>, commit: string)
    ensures CommitIn(Dedup(s), commit) <==> CommitIn(s, commit)
  {
    hide Dedup;
    if CommitIn(s, commit) {
      var i :| 0 <= i < |s| && s[i].commit == commit;
      DedupMember(s, s[i]);
      var j :| 0 <= j < |Dedup(s)| && Dedup(s)[j] == s[i];
    }
    if CommitIn(Dedup(s), commit) {
      var i :| 0 <= i < |Dedup(s)| && Dedup(s)[i].commit == commit;
      DedupMember(s, Dedup(s)[i]);
    }
  }

  lemma FirstAppend(s: seq<Ip>, x: Ip)
    ensures FirstPerCommit(s + [x]) == FirstPerCommit(s) + if CommitIn(s, x.commit) then [] else [x]
  {
    assert (s + [x])[..|s|] == s;
  }

  lemma SeenCommit(s: seq<Ip>, x: Ip)
    requires x in s
    ensures CommitIn(s, x.commit)
  {
  }

  /** Repetitions of a node do not matter once one node per commit is kept. */
  lemma {:induction false} FirstOfDedup(s: seq<Ip>)
    ensures FirstPerCommit(Dedup(s)) == FirstPerCommit(s)
  {
    if s != [] {
      var n := |s| - 1;
      hide Dedup, FirstPerCommit, CommitIn;
      FirstOfDedup(s[..n]);
      CommitInDedup(s[..n], s[n].commit);
      assert s == s[..n] + [s[n]];
      DedupAppend(s[..n], s[n]);
      FirstAppend(s[..n], s[n]);
      FirstAppend(Dedup(s[..n]), s[n]);
      if s[n] in s[..n] {
        SeenCommit(s[..n], s[n]);
        assert Dedup(s[..n]) + [] == Dedup(s[..n]);
      }
    } else {
      DedupNothing(s);
    }
  }

  /** No node before position i has the name and the commit. */
  predicate Unseen(flat: seq<Ip>, i: nat, name: string, commit: string)
    requires i <= |flat|
  {
    forall j :: 0 <= j < i ==> !(flat[j].name == name && flat[j].commit == commit)
  }

  lemma UnseenIffNotNamed(flat: seq<Ip>, i: nat, name: string, commit: string)
    requires i <= |flat|
    ensures Unseen(flat, i, name, commit) <==> !CommitIn(Named(flat[..i], name), commit)
  {
    hide Named;
    var named := Named(flat[..i], name);
    if CommitIn(named, commit) {
      var k :| 0 <= k < |named| && named[k].commit == commit;
      NamedMember(flat[..i], name, named[k]);
      var j :| 0 <= j < i && flat[..i][j] == named[k];
      assert flat[j] == named[k];
    }
    if !Unseen(flat, i, name, commit) {
      var j :| 0 <= j < i && flat[j].name == name && flat[j].commit == commit;
      assert flat[..i][j] == flat[j];
      NamedMember(flat[..i], name, flat[j]);
      var k :| 0 <= k < |named| && named[k] == flat[j];
    }
  }

  /** Among the first n nodes, x has the name and comes before all others with its commit. */
  ghost predicate Leads(flat: seq<Ip>, n: nat, name: string, x: Ip)
    requires n <= |flat|
  {
    exists i :: 0 <= i < n && flat[i] == x && x.name == name && Unseen(flat, i, name, x.commit)
  }

  /** A node is listed under a name exactly when it is a descendant of that name and,
      in post-order, no node of the name before it has its commit. */
  lemma {:induction false} ConflictMeaning(flat: seq<Ip>, n: nat, name: string, x: Ip)
    requires n <= |flat|
    ensures x in FirstPerCommit(Named(flat[..n], name)) <==> Leads(flat, n, name, x)
    decreases n
  {
    hide FirstPerCommit, Named, CommitIn, Unseen;
    if n == 0 {
      NamedNothing(flat[..0], name);
      assert FirstPerCommit([]) == [] by {
        NoneFirst([]);
      }
    } else {
      var before, last := flat[..n - 1], flat[n - 1];
      ConflictMeaning(flat, n - 1, name, x);
      UnseenIffNotNamed(flat, n - 1, name, last.commit);
      assert flat[..n] == before + [last];
      NamedAppend(before, name, last);
      FirstAppend(Named(before, name), last);
      assert Named(before, name) + [] == Named(before, name);
    }
  }

  lemma NoneFirst(s: seq<Ip>)
    requires s == []
    ensures FirstPerCommit(s) == []
  {
  }

  // ----- The order of the lists -----

  /** The members of the list stand at these places of s, from left to right. */
  predicate StandAt<T(==)>(list: seq<T>, s: seq<T>, at: seq<nat>) {
    && |at| == |list|
    && (forall i :: 0 <= i < |at| ==> at[i] < |s| && s[at[i]] == list[i])
    && forall i, j :: 0 <= i < j < |at| ==> at[i] < at[j]
  }

  /** Dropping repeated members leaves each where it occurs first. */
  lemma {:induction false} DedupInOrder<T>(s: seq<T>) returns (at: seq<nat>)
    ensures StandAt(Dedup(s), s, at) && forall i :: 0 <= i < |at| ==> s[at[i]] !in s[..at[i]]
  {
    at := [];
    if s != [] {
      var n: nat := |s| - 1;
      at := DedupInOrder(s[..n]);
      forall i | 0 <= i < |at|
        ensures s[..n][..at[i]] == s[..at[i]]
      {
      }
      at := at + if s[n] in s[..n] then [] else [n];
    }
  }

  /** The nodes listed under a name stand in the order of the descendants, each the first of its
      name and commit. */
  lemma {:induction false} ConflictsInOrder(flat: seq<Ip>, n: nat, name: string) returns (at: seq<nat>)
    requires n <= |flat|
    ensures StandAt(FirstPerCommit(Named(flat[..n], name)), flat[..n], at)
    ensures forall i :: 0 <= i < |at| ==> flat[at[i]].name == name && Unseen(flat, at[i], name, flat[at[i]].commit)
    decreases n
  {
    hide FirstPerCommit, Named, CommitIn, Unseen;
    at := [];
    if n == 0 {
      NamedNothing(flat[..0], name);
      NoneFirst([]);
    } else {
      var before, last := flat[..n - 1], flat[n - 1];
      at := ConflictsInOrder(flat, n - 1, name);
      UnseenIffNotNamed(flat, n - 1, name, last.commit);
      assert flat[..n] == before + [last];
      NamedAppend(before, name, last);
      FirstAppend(Named(before, name), last);
      assert Named(before, name) + [] == Named(before, name);
      if last.name == name && !CommitIn(Named(before, name), last.commit) {
        at := at + [n - 1];
      }
    }
  }
}
