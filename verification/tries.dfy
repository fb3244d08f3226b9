/**
  The prefix tree that `FSM.createCTable` builds, as a value.

  A `Trie` is one `Tree.Node`: the character it matches (`data`), the value
  stored when a key ends at it (`res`, null in Java is `None`) and its list of
  children.  `Insert` is the insertion loop of `createCTable` together with
  `findChild`, `addChild` and `setRes`, written as a recursive walk down the
  key; the heap version in module FSM is proved to compute it.
*/
module Tries {
  import opened Wrappers

  datatype Trie = Trie(data: char, res: Option<int>, children: seq<Trie>)

  /** The node `addChild` allocates: no value and no children yet. */
  function Leaf(c: char): Trie
  {
    Trie(c, None, [])
  }

  /** The characters of a list of sibling nodes, in list order. */
  function Labels(cs: seq<Trie>): seq<char>
  {
    seq(|cs|, k requires 0 <= k < |cs| => cs[k].data)
  }

  predicate StrictlyAscending(ds: seq<char>)
  {
    forall i, j :: 0 <= i < j < |ds| ==> ds[i] < ds[j]
  }

  /** `Node.compareTo`: `String.compareTo` on two one-character strings. */
  function CompareTo(a: char, b: char): (r: int)
    ensures r < 0 <==> a < b
    ensures r == 0 <==> a == b
    ensures r > 0 <==> b < a
  {
    a as int - b as int
  }

  /** Index of the node `findChild(c)` returns: the first child holding `c`,
      or `|ds|` when it returns null. */
  function FirstIndex(ds: seq<char>, c: char): (k: nat)
    ensures k <= |ds|
    ensures k < |ds| ==> ds[k] == c
    ensures forall j :: 0 <= j < k ==> ds[j] != c
  {
    if ds == [] then 0
    else if ds[0] == c then 0
    else 1 + FirstIndex(ds[1..], c)
  }

  /** Where `Collections.sort` moves a node just appended with character `c`:
      a stable sort walks it left past every sibling that compares greater. */
  function InsertPos(ds: seq<char>, c: char): (k: nat)
    ensures k <= |ds|
    ensures forall j :: k <= j < |ds| ==> CompareTo(ds[j], c) > 0
    ensures k > 0 ==> CompareTo(ds[k - 1], c) <= 0
  {
    if ds == [] then 0
    else if CompareTo(ds[|ds| - 1], c) > 0 then InsertPos(ds[..|ds| - 1], c)
    else |ds|
  }

  /** Scanning from the end, a stable insertion passes an element that
      compares greater without changing where it lands. */
  lemma InsertPosPass(ds: seq<char>, c: char, j: nat)
    requires 0 < j <= |ds| && CompareTo(ds[j - 1], c) > 0
    ensures InsertPos(ds[..j], c) == InsertPos(ds[..j - 1], c)
  {
    assert ds[..j][..j - 1] == ds[..j - 1];
  }

  /** The scan stops at the front or behind an element that does not
      compare greater. */
  lemma InsertPosStop(ds: seq<char>, c: char, j: nat)
    requires j <= |ds| && (j == 0 || CompareTo(ds[j - 1], c) <= 0)
    ensures InsertPos(ds[..j], c) == j
  {
    if j > 0 {
      assert ds[..j][j - 1] == ds[j - 1];
    }
  }

  /** `addChild(c)`: append a leaf for `c`, then sort the sibling list. */
  function AddChild(cs: seq<Trie>, c: char): seq<Trie>
  {
    var p := InsertPos(Labels(cs), c);
    cs[..p] + [Leaf(c)] + cs[p..]
  }

  /** One step of the insertion loop: the sibling list after `findChild`
      (and `addChild` when it returned null) and the index of `curNode`. */
  function Descend(cs: seq<Trie>, c: char): (r: (seq<Trie>, nat))
    ensures r.1 < |r.0| && r.0[r.1].data == c
  {
    var k := FirstIndex(Labels(cs), c);
    if k < |cs| then (cs, k)
    else (AddChild(cs, c), InsertPos(Labels(cs), c))
  }

  /** The body of the loop over `ents.keySet()` for one key: walk the key from
      the node, creating missing children, then `setRes(v)` on the last node. */
  function Insert(t: Trie, key: string, v: int): (r: Trie)
    ensures r.data == t.data
    decreases |key|
  {
    if key == [] then t.(res := Some(v))
    else
      var d := Descend(t.children, key[0]);
      t.(children := d.0[d.1 := Insert(d.0[d.1], key[1..], v)])
  }

  /** Every node's children are strictly ascending by character. */
  predicate Sorted(t: Trie)
  {
    && StrictlyAscending(Labels(t.children))
    && forall k :: 0 <= k < |t.children| ==> Sorted(t.children[k])
  }

  /** Following `p` from `t` with `findChild` never meets null. */
  predicate Has(t: Trie, p: string)
    decreases |p|
  {
    p == [] ||
    var k := FirstIndex(Labels(t.children), p[0]);
    k < |t.children| && Has(t.children[k], p[1..])
  }

  /** The `res` of the node reached by following `p` with `findChild`, or
      `None` when the walk meets null. */
  function Get(t: Trie, p: string): Option<int>
    decreases |p|
  {
    if p == [] then t.res
    else
      var k := FirstIndex(Labels(t.children), p[0]);
      if k < |t.children| then Get(t.children[k], p[1..]) else None
  }

  /** The node reached by following `p`. */
  function Sub(t: Trie, p: string): Trie
    requires Has(t, p)
    decreases |p|
  {
    if p == [] then t
    else Sub(t.children[FirstIndex(Labels(t.children), p[0])], p[1..])
  }

  /** `t` with the node reached by following `p` replaced by `s`. */
  function Plug(t: Trie, p: string, s: Trie): Trie
    requires Has(t, p)
    decreases |p|
  {
    if p == [] then s
    else
      var k := FirstIndex(Labels(t.children), p[0]);
      t.(children := t.children[k := Plug(t.children[k], p[1..], s)])
  }

  /** Number of nodes in the subtree. */
  function Size(t: Trie): (n: nat)
    ensures n >= 1
    decreases t, 1
  {
    1 + SumSizes(t.children)
  }

  function SumSizes(cs: seq<Trie>): nat
    decreases cs, 0
  {
    if cs == [] then 0 else SumSizes(cs[..|cs| - 1]) + Size(cs[|cs| - 1])
  }

  /** How many leading characters of `key` the walk finds without `addChild`. */
  function Matched(t: Trie, key: string): (n: nat)
    ensures n <= |key|
    decreases |key|
  {
    if key == [] then 0
    else
      var k := FirstIndex(Labels(t.children), key[0]);
      if k < |t.children| then 1 + Matched(t.children[k], key[1..]) else 0
  }

  // ---------------------------------------------------------------------
  // Sibling lists
  // ---------------------------------------------------------------------

  lemma FirstIndexIs(ds: seq<char>, c: char, k: nat)
    requires k <= |ds|
    requires k < |ds| ==> ds[k] == c
    requires forall j :: 0 <= j < k ==> ds[j] != c
    ensures FirstIndex(ds, c) == k
  {
  }

  lemma FirstIndexAscending(ds: seq<char>, k: nat)
    requires StrictlyAscending(ds) && k < |ds|
    ensures FirstIndex(ds, ds[k]) == k
  {
    FirstIndexIs(ds, ds[k], k);
  }

  lemma LabelsAddChild(cs: seq<Trie>, c: char)
    ensures var p := InsertPos(Labels(cs), c);
      Labels(AddChild(cs, c)) == Labels(cs)[..p] + [c] + Labels(cs)[p..]
  {
    var p := InsertPos(Labels(cs), c);
    var a := AddChild(cs, c);
    var l := Labels(cs)[..p] + [c] + Labels(cs)[p..];
    assert |Labels(a)| == |l|;
    forall j | 0 <= j < |l| ensures Labels(a)[j] == l[j] {
      if j < p {
      } else if j == p {
      } else {
        assert a[j] == cs[j - 1];
      }
    }
  }

  lemma LabelsUpdate(cs: seq<Trie>, k: nat, x: Trie)
    requires k < |cs| && x.data == cs[k].data
    ensures Labels(cs[k := x]) == Labels(cs)
  {
  }

  /** A character placed after every smaller one and before every greater
      one keeps a strictly ascending list strictly ascending. */
  lemma AscendingInsert(ds: seq<char>, p: nat, c: char)
    requires StrictlyAscending(ds) && p <= |ds|
    requires forall j :: 0 <= j < p ==> ds[j] < c
    requires forall j :: p <= j < |ds| ==> c < ds[j]
    ensures StrictlyAscending(ds[..p] + [c] + ds[p..])
  {
    var l := ds[..p] + [c] + ds[p..];
    assert forall j :: 0 <= j < p ==> l[j] == ds[j];
    assert forall j :: p < j < |l| ==> l[j] == ds[j - 1];
  }

  lemma InsertPosBounds(ds: seq<char>, c: char)
    requires StrictlyAscending(ds) && c !in ds
    ensures var p := InsertPos(ds, c);
      && (forall j :: 0 <= j < p ==> ds[j] < c)
      && (forall j :: p <= j < |ds| ==> c < ds[j])
  {
    var p := InsertPos(ds, c);
    forall j | 0 <= j < p ensures ds[j] < c {
      assert ds[p - 1] <= c;
      assert j == p - 1 || ds[j] < ds[p - 1];
      assert ds[j] in ds;
    }
  }

  lemma AddChildPermutes(cs: seq<Trie>, c: char)
    ensures multiset(AddChild(cs, c)) == multiset(cs + [Leaf(c)])
  {
    var p := InsertPos(Labels(cs), c);
    assert cs == cs[..p] + cs[p..];
    calc {
      multiset(AddChild(cs, c));
      multiset(cs[..p]) + multiset([Leaf(c)]) + multiset(cs[p..]);
      multiset(cs[..p] + cs[p..]) + multiset([Leaf(c)]);
      multiset(cs + [Leaf(c)]);
    }
  }

  /** Appending and sorting keeps the sibling list strictly ascending, and it
      is a permutation of the old list plus the new leaf. */
  lemma AddChildSorted(cs: seq<Trie>, c: char)
    requires StrictlyAscending(Labels(cs))
    requires c !in Labels(cs)
    ensures StrictlyAscending(Labels(AddChild(cs, c)))
    ensures multiset(AddChild(cs, c)) == multiset(cs + [Leaf(c)])
    ensures AddChild(cs, c)[InsertPos(Labels(cs), c)] == Leaf(c)
  {
    LabelsAddChild(cs, c);
    InsertPosBounds(Labels(cs), c);
    AscendingInsert(Labels(cs), InsertPos(Labels(cs), c), c);
    AddChildPermutes(cs, c);
  }

  /** `findChild` on a list with one character inserted at `p`. */
  lemma FirstIndexInserted(ds: seq<char>, p: nat, c: char, d: char)
    requires p <= |ds| && c !in ds
    ensures var l := ds[..p] + [c] + ds[p..];
      && FirstIndex(l, c) == p
      && (d != c ==>
            var m := FirstIndex(ds, d);
            FirstIndex(l, d) == if m < p then m else m + 1)
  {
    var l := ds[..p] + [c] + ds[p..];
    assert forall j :: 0 <= j < p ==> l[j] == ds[j];
    assert forall j :: p < j < |l| ==> l[j] == ds[j - 1];
    forall j | 0 <= j < p ensures l[j] != c {
      assert ds[j] in ds;
    }
    FirstIndexIs(l, c, p);
    if d != c {
      var m := FirstIndex(ds, d);
      if m < p {
        FirstIndexIs(l, d, m);
      } else {
        FirstIndexIs(l, d, m + 1);
      }
    }
  }

  /** What `findChild` sees after `Descend`: the node it moved to is the one
      `findChild(c)` now returns; every other character finds the same node
      as before. */
  lemma DescendFind(ch: seq<Trie>, c: char, d: char)
    ensures var r := Descend(ch, c);
      && FirstIndex(Labels(r.0), c) == r.1
      && (FirstIndex(Labels(ch), c) < |ch| ==> r.0 == ch && r.1 == FirstIndex(Labels(ch), c))
      && (FirstIndex(Labels(ch), c) == |ch| ==> r.0[r.1] == Leaf(c))
      && (d != c ==>
            var m := FirstIndex(Labels(ch), d);
            var m' := FirstIndex(Labels(r.0), d);
            && (m' < |r.0| <==> m < |ch|)
            && (m < |ch| ==> r.0[m'] == ch[m]))
  {
    var ds := Labels(ch);
    if FirstIndex(ds, c) == |ch| {
      var p := InsertPos(ds, c);
      LabelsAddChild(ch, c);
      FirstIndexIn(ds, c);
      FirstIndexInserted(ds, p, c, d);
      var a := AddChild(ch, c);
      if d != c {
        var m := FirstIndex(ds, d);
        if m < |ch| && p <= m {
          assert a[m + 1] == ch[m];
        }
      }
    }
  }

  // ---------------------------------------------------------------------
  // What insertion does
  // ---------------------------------------------------------------------

  lemma HasLeaf(c: char, p: string)
    ensures Has(Leaf(c), p) <==> p == []
  {
  }

  lemma GetLeaf(c: char, p: string)
    ensures Get(Leaf(c), p) == None
  {
  }

  lemma PrefixStep(p: string, key: string)
    requires p != [] && key != [] && p[0] == key[0]
    ensures p <= key <==> p[1..] <= key[1..]
  {
    if p <= key {
      assert p[1..] == key[1..][..|p| - 1];
    }
    if p[1..] <= key[1..] {
      assert p == [p[0]] + p[1..];
      assert key[..|p|] == [key[0]] + key[1..][..|p| - 1];
    }
  }

  /** After inserting `key`, exactly the old paths and the prefixes of `key`
      can be followed with `findChild`. */
  lemma {:induction false} InsertHas(t: Trie, key: string, v: int, p: string)
    requires Sorted(t)
    ensures Has(Insert(t, key, v), p) <==> Has(t, p) || p <= key
    decreases |key|
  {
    if key != [] && p != [] {
      var d := Descend(t.children, key[0]);
      var cs, k := d.0, d.1;
      var x := Insert(cs[k], key[1..], v);
      var nc := cs[k := x];
      LabelsUpdate(cs, k, x);
      DescendFind(t.children, key[0], p[0]);
      if p[0] == key[0] {
        PrefixStep(p, key);
        if FirstIndex(Labels(t.children), key[0]) < |t.children| {
          assert Sorted(cs[k]);
          InsertHas(cs[k], key[1..], v, p[1..]);
        } else {
          HasLeaf(key[0], p[1..]);
          InsertHas(cs[k], key[1..], v, p[1..]);
        }
      } else {
        var m' := FirstIndex(Labels(cs), p[0]);
        if m' < |cs| { assert m' != k; assert nc[m'] == cs[m']; }
      }
    }
  }

  /** After inserting `key` with `v`, looking `key` up gives `v` and every
      other lookup is unchanged: the tree behaves as a map with later values
      overwriting earlier ones. */
  lemma {:induction false} InsertGet(t: Trie, key: string, v: int, p: string)
    requires Sorted(t)
    ensures Get(Insert(t, key, v), p) == if p == key then Some(v) else Get(t, p)
    decreases |key|
  {
    if key == [] {
      if p != [] { assert Insert(t, key, v).children == t.children; }
    } else if p != [] {
      var d := Descend(t.children, key[0]);
      var cs, k := d.0, d.1;
      var x := Insert(cs[k], key[1..], v);
      var nc := cs[k := x];
      LabelsUpdate(cs, k, x);
      DescendFind(t.children, key[0], p[0]);
      if p[0] == key[0] {
        assert p == key <==> p[1..] == key[1..] by {
          if p[1..] == key[1..] { assert p == [p[0]] + p[1..]; assert key == [key[0]] + key[1..]; }
        }
        if FirstIndex(Labels(t.children), key[0]) < |t.children| {
          assert Sorted(cs[k]);
          InsertGet(cs[k], key[1..], v, p[1..]);
        } else {
          GetLeaf(key[0], p[1..]);
          InsertGet(cs[k], key[1..], v, p[1..]);
        }
      } else {
        var m' := FirstIndex(Labels(cs), p[0]);
        if m' < |cs| { assert m' != k; assert nc[m'] == cs[m']; }
      }
    }
  }

  /** Insertion keeps every sibling list strictly ascending, so no two
      siblings ever hold the same character. */
  lemma {:induction false} InsertSorted(t: Trie, key: string, v: int)
    requires Sorted(t)
    ensures Sorted(Insert(t, key, v))
    decreases |key|
  {
    if key != [] {
      var d := Descend(t.children, key[0]);
      var cs, k := d.0, d.1;
      var x := Insert(cs[k], key[1..], v);
      LabelsUpdate(cs, k, x);
      if FirstIndex(Labels(t.children), key[0]) == |t.children| {
        AddChildSorted(t.children, key[0]);
        assert forall j :: 0 <= j < |cs| ==> Sorted(cs[j]) by {
          forall j | 0 <= j < |cs| ensures Sorted(cs[j]) {
            assert cs[j] in multiset(t.children + [Leaf(key[0])]);
            assert cs[j] in t.children + [Leaf(key[0])];
          }
        }
      }
      InsertSorted(cs[k], key[1..], v);
      var r := Insert(t, key, v);
      assert r.children == cs[k := x];
      assert forall j :: 0 <= j < |r.children| ==> Sorted(r.children[j]);
    }
  }

  // ---------------------------------------------------------------------
  // Node count
  // ---------------------------------------------------------------------

  lemma {:induction false} SumSizesAppend(a: seq<Trie>, b: seq<Trie>)
    ensures SumSizes(a + b) == SumSizes(a) + SumSizes(b)
    decreases |b|
  {
    if b == [] {
      assert a + b == a;
    } else {
      var b' := b[..|b| - 1];
      assert (a + b)[..|a + b| - 1] == a + b';
      SumSizesAppend(a, b');
      assert SumSizes(b) == SumSizes(b') + Size(b[|b| - 1]);
    }
  }

  lemma SumSizesSingle(x: Trie)
    ensures SumSizes([x]) == Size(x)
  {
    assert [x][..0] == [];
  }

  lemma SumSizesUpdate(cs: seq<Trie>, k: nat, x: Trie)
    requires k < |cs|
    ensures SumSizes(cs[k := x]) == SumSizes(cs) - Size(cs[k]) + Size(x)
  {
    assert cs == cs[..k] + [cs[k]] + cs[k + 1..];
    assert cs[k := x] == cs[..k] + [x] + cs[k + 1..];
    SumSizesAppend(cs[..k] + [cs[k]], cs[k + 1..]);
    SumSizesAppend(cs[..k], [cs[k]]);
    SumSizesAppend(cs[..k] + [x], cs[k + 1..]);
    SumSizesAppend(cs[..k], [x]);
    SumSizesSingle(x);
    SumSizesSingle(cs[k]);
  }

  lemma SumSizesAddChild(cs: seq<Trie>, c: char)
    ensures SumSizes(AddChild(cs, c)) == SumSizes(cs) + 1
  {
    var p := InsertPos(Labels(cs), c);
    assert cs == cs[..p] + cs[p..];
    SumSizesAppend(cs[..p] + [Leaf(c)], cs[p..]);
    SumSizesAppend(cs[..p], [Leaf(c)]);
    SumSizesAppend(cs[..p], cs[p..]);
    SumSizesSingle(Leaf(c));
    assert SumSizes([]) == 0;
  }

  /** Inserting a key adds exactly one node per character the walk did not
      find, and no other node. */
  lemma {:induction false} InsertSize(t: Trie, key: string, v: int)
    ensures Size(Insert(t, key, v)) == Size(t) + |key| - Matched(t, key)
    decreases |key|
  {
    if key != [] {
      var d := Descend(t.children, key[0]);
      var cs, k := d.0, d.1;
      var x := Insert(cs[k], key[1..], v);
      InsertSize(cs[k], key[1..], v);
      SumSizesUpdate(cs, k, x);
      if FirstIndex(Labels(t.children), key[0]) == |t.children| {
        SumSizesAddChild(t.children, key[0]);
        assert cs[k] == Leaf(key[0]) by { DescendFind(t.children, key[0], key[0]); }
        assert Matched(cs[k], key[1..]) == 0;
      }
    }
  }

  lemma {:induction false} MatchedHas(t: Trie, key: string)
    ensures Matched(t, key) == |key| <==> Has(t, key)
    decreases |key|
  {
    if key != [] {
      var k := FirstIndex(Labels(t.children), key[0]);
      if k < |t.children| { MatchedHas(t.children[k], key[1..]); }
    }
  }

  lemma {:induction false} InsertExisting(t: Trie, key: string, v: int)
    requires Has(t, key)
    ensures Insert(t, key, v) == Plug(t, key, Sub(t, key).(res := Some(v)))
    decreases |key|
  {
    if key != [] {
      var k := FirstIndex(Labels(t.children), key[0]);
      InsertExisting(t.children[k], key[1..], v);
    }
  }

  /** Re-inserting a key whose path exists creates no node: the tree is the
      old one with only the last node's `res` replaced by the later value. */
  lemma ReinsertKeepsShape(t: Trie, key: string, v: int)
    requires Has(t, key)
    ensures Insert(t, key, v) == Plug(t, key, Sub(t, key).(res := Some(v)))
    ensures Size(Insert(t, key, v)) == Size(t)
  {
    InsertExisting(t, key, v);
    InsertSize(t, key, v);
    MatchedHas(t, key);
  }

  // ---------------------------------------------------------------------
  // Following a path, replacing the node at its end
  // ---------------------------------------------------------------------

  lemma {:induction false} HasSnoc(t: Trie, p: string, c: char)
    requires Has(t, p)
    ensures var s := Sub(t, p); var k := FirstIndex(Labels(s.children), c);
      k < |s.children| ==> Has(t, p + [c]) && Sub(t, p + [c]) == s.children[k]
    decreases |p|
  {
    if p != [] {
      var k := FirstIndex(Labels(t.children), p[0]);
      assert (p + [c])[0] == p[0] && (p + [c])[1..] == p[1..] + [c];
      HasSnoc(t.children[k], p[1..], c);
    } else {
      assert [] + [c] == [c];
    }
  }

  lemma {:induction false} PlugSnoc(t: Trie, p: string, c: char, x: Trie)
    requires Has(t, p)
    requires var s := Sub(t, p); FirstIndex(Labels(s.children), c) < |s.children|
    ensures Has(t, p + [c])
    ensures var s := Sub(t, p); var k := FirstIndex(Labels(s.children), c);
      Plug(t, p + [c], x) == Plug(t, p, s.(children := s.children[k := x]))
    decreases |p|
  {
    HasSnoc(t, p, c);
    if p != [] {
      var k := FirstIndex(Labels(t.children), p[0]);
      assert (p + [c])[0] == p[0] && (p + [c])[1..] == p[1..] + [c];
      PlugSnoc(t.children[k], p[1..], c, x);
    } else {
      assert [] + [c] == [c];
      assert [c][1..] == [];
    }
  }

  /** Replacing the node at the end of `p` by one with the same character
      keeps `p` followable and leaves that node in place. */
  lemma {:induction false} PlugSub(t: Trie, p: string, s: Trie)
    requires Has(t, p)
    requires p != [] ==> s.data == Sub(t, p).data
    ensures Has(Plug(t, p, s), p)
    ensures Sub(Plug(t, p, s), p) == s
    ensures forall s2 :: Plug(Plug(t, p, s), p, s2) == Plug(t, p, s2)
    decreases |p|
  {
    if p != [] {
      var k := FirstIndex(Labels(t.children), p[0]);
      var y := Plug(t.children[k], p[1..], s);
      PlugSub(t.children[k], p[1..], s);
      PlugData(t.children[k], p[1..], s);
      LabelsUpdate(t.children, k, y);
      var t' := Plug(t, p, s);
      assert t'.children == t.children[k := y];
      forall s2 ensures Plug(t', p, s2) == Plug(t, p, s2) {
        assert Plug(y, p[1..], s2) == Plug(t.children[k], p[1..], s2);
        assert t'.children[k := Plug(y, p[1..], s2)] == t.children[k := Plug(t.children[k], p[1..], s2)];
      }
    }
  }

  lemma {:induction false} PlugData(t: Trie, p: string, s: Trie)
    requires Has(t, p)
    requires p != [] ==> s.data == Sub(t, p).data
    ensures p != [] ==> Plug(t, p, s).data == t.data
  {
  }

  lemma {:induction false} HasPrefix(t: Trie, p: string, q: string)
    requires Has(t, p) && q <= p
    ensures Has(t, q)
    decreases |q|
  {
    if q != [] {
      var k := FirstIndex(Labels(t.children), q[0]);
      assert p[0] == q[0];
      assert q[1..] <= p[1..];
      HasPrefix(t.children[k], p[1..], q[1..]);
    }
  }

  /** `Get` reads the `res` of the node at the end of the path. */
  lemma {:induction false} GetSub(t: Trie, p: string)
    ensures Get(t, p) == if Has(t, p) then Sub(t, p).res else None
    decreases |p|
  {
    if p != [] {
      var k := FirstIndex(Labels(t.children), p[0]);
      if k < |t.children| { GetSub(t.children[k], p[1..]); }
    }
  }

  /** Putting back the node found at the end of `p` changes nothing. */
  lemma {:induction false} PlugSelf(t: Trie, p: string)
    requires Has(t, p)
    ensures Plug(t, p, Sub(t, p)) == t
    decreases |p|
  {
    if p != [] {
      var k := FirstIndex(Labels(t.children), p[0]);
      PlugSelf(t.children[k], p[1..]);
      assert t.children[k := t.children[k]] == t.children;
    }
  }

  /** One pass of the inner loop of `createCTable` at the node `q` leads
      to: after `findChild`/`addChild` on character `c`, the node for
      `q + [c]` is the child `Descend` picks, and inserting the rest of the
      key from there is the same as inserting `[c] + rest` from `q`. */
  lemma InsertStep(m: Trie, q: string, c: char, rest: string, v: int)
    requires Has(m, q)
    ensures var s := Sub(m, q); var d := Descend(s.children, c);
      var m' := Plug(m, q, s.(children := d.0));
      && Has(m', q + [c]) && Sub(m', q + [c]) == d.0[d.1]
      && Plug(m, q, Insert(s, [c] + rest, v)) == Plug(m', q + [c], Insert(d.0[d.1], rest, v))
  {
    var s := Sub(m, q);
    var d := Descend(s.children, c);
    var s' := s.(children := d.0);
    var m' := Plug(m, q, s');
    var x := Insert(d.0[d.1], rest, v);
    DescendFind(s.children, c, c);
    PlugSub(m, q, s');
    HasSnoc(m', q, c);
    PlugSnoc(m', q, c, x);
    assert ([c] + rest)[0] == c && ([c] + rest)[1..] == rest;
    assert Insert(s, [c] + rest, v) == s'.(children := d.0[d.1 := x]);
  }

  /** After `key` is inserted, walking its characters with `findChild` from
      the root reaches a node whose `res` is the inserted value. */
  lemma InsertThenFind(t: Trie, key: string, v: int)
    requires Sorted(t)
    ensures Has(Insert(t, key, v), key)
    ensures Sub(Insert(t, key, v), key).res == Some(v)
  {
    InsertHas(t, key, v, key);
    InsertGet(t, key, v, key);
    GetSub(Insert(t, key, v), key);
  }

  // ---------------------------------------------------------------------
  // A sorted tree is determined by its paths and values
  // ---------------------------------------------------------------------

  lemma HeadIn(s: seq<char>)
    ensures s != [] ==> s[0] in s
  {
  }

  lemma AscendingMin(s: seq<char>, x: char)
    requires StrictlyAscending(s) && x in s
    ensures s[0] <= x
  {
    var i :| 0 <= i < |s| && s[i] == x;
    assert i == 0 || s[0] < s[i];
  }

  lemma {:induction false} AscendingUnique(a: seq<char>, b: seq<char>)
    requires StrictlyAscending(a) && StrictlyAscending(b)
    requires forall x :: x in a <==> x in b
    ensures a == b
    decreases |a|
  {
    HeadIn(a);
    HeadIn(b);
    if a != [] && b != [] {
      AscendingMin(a, b[0]);
      AscendingMin(b, a[0]);
      forall x ensures x in a[1..] <==> x in b[1..] {
        if x in a[1..] {
          var j :| 1 <= j < |a| && a[j] == x;
          assert a[0] < x;
          assert x in b;
          var i :| 0 <= i < |b| && b[i] == x;
          assert i != 0;
          assert b[1..][i - 1] == x;
        }
        if x in b[1..] {
          var j :| 1 <= j < |b| && b[j] == x;
          assert b[0] < x;
          assert x in a;
          var i :| 0 <= i < |a| && a[i] == x;
          assert i != 0;
          assert a[1..][i - 1] == x;
        }
      }
      AscendingUnique(a[1..], b[1..]);
      assert a == [a[0]] + a[1..];
      assert b == [b[0]] + b[1..];
    }
  }

  lemma FirstIndexIn(ds: seq<char>, c: char)
    ensures FirstIndex(ds, c) < |ds| <==> c in ds
  {
    var k := FirstIndex(ds, c);
    if c in ds {
      var j :| 0 <= j < |ds| && ds[j] == c;
      assert k <= j;
    }
  }

  /** Two sorted trees with the same root character, the same followable
      paths and the same values on them are equal. */
  lemma {:induction false} SameContentSameTree(t1: Trie, t2: Trie)
    requires Sorted(t1) && Sorted(t2) && t1.data == t2.data
    requires forall p :: Has(t1, p) <==> Has(t2, p)
    requires forall p :: Get(t1, p) == Get(t2, p)
    ensures t1 == t2
    decreases t1
  {
    assert t1.res == Get(t1, []) == Get(t2, []) == t2.res;
    var c1, c2 := t1.children, t2.children;
    var l1, l2 := Labels(c1), Labels(c2);
    forall x ensures x in l1 <==> x in l2 {
      FirstIndexIn(l1, x);
      FirstIndexIn(l2, x);
      assert Has(t1, [x]) <==> Has(t2, [x]);
      assert [x][1..] == [];
    }
    AscendingUnique(l1, l2);
    assert |c1| == |c2|;
    forall k | 0 <= k < |c1| ensures c1[k] == c2[k] {
      var x := l1[k];
      FirstIndexAscending(l1, k);
      FirstIndexAscending(l2, k);
      forall q ensures Has(c1[k], q) <==> Has(c2[k], q) {
        assert ([x] + q)[0] == x && ([x] + q)[1..] == q;
        assert Has(t1, [x] + q) <==> Has(t2, [x] + q);
      }
      forall q ensures Get(c1[k], q) == Get(c2[k], q) {
        assert ([x] + q)[0] == x && ([x] + q)[1..] == q;
        assert Get(t1, [x] + q) == Get(t2, [x] + q);
      }
      SameContentSameTree(c1[k], c2[k]);
    }
    assert c1 == c2;
  }

  /** For two different keys, the tree does not depend on which one is
      inserted first. */
  lemma InsertCommutes(t: Trie, k1: string, v1: int, k2: string, v2: int)
    requires Sorted(t) && k1 != k2
    ensures Insert(Insert(t, k1, v1), k2, v2) == Insert(Insert(t, k2, v2), k1, v1)
  {
    var a := Insert(Insert(t, k1, v1), k2, v2);
    var b := Insert(Insert(t, k2, v2), k1, v1);
    InsertSorted(t, k1, v1);
    InsertSorted(t, k2, v2);
    InsertSorted(Insert(t, k1, v1), k2, v2);
    InsertSorted(Insert(t, k2, v2), k1, v1);
    forall p ensures Has(a, p) <==> Has(b, p) {
      InsertHas(t, k1, v1, p);
      InsertHas(t, k2, v2, p);
      InsertHas(Insert(t, k1, v1), k2, v2, p);
      InsertHas(Insert(t, k2, v2), k1, v1, p);
    }
    forall p ensures Get(a, p) == Get(b, p) {
      InsertGet(t, k1, v1, p);
      InsertGet(t, k2, v2, p);
      InsertGet(Insert(t, k1, v1), k2, v2, p);
      InsertGet(Insert(t, k2, v2), k1, v1, p);
    }
    SameContentSameTree(a, b);
  }
}
