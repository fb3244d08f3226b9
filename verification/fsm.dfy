/**
  `FSM.createCTable`, `Tree` and `Tree.Node` on the heap.

  A `Node` holds its character, its list of children and its `res`, as the
  Java class does; `addChild`, `findChild`, `setRes` and `fill` work on them
  in place.  A `Tree` holds its root, and, as ghost state, every node it has
  allocated (`nodes`, in allocation order) and a value snapshot of them
  (`slots`, see module Arena).  `Valid` ties the two together, and `Model`
  is the tree as a value; the methods are proved against the functions of
  modules Tries, Table and Builder.
*/
module FSM {
  import opened Wrappers
  import opened Tries
  import opened Table
  import opened Arena
  import opened Decoder
  import opened Builder

  /** The characters of a list of nodes, in list order. */
  function Chars(ns: seq<Node>): (ds: seq<char>)
    ensures |ds| == |ns|
  {
    seq(|ns|, i requires 0 <= i < |ns| => ns[i].data)
  }

  class Node {
    const data: char
    var children: seq<Node>
    var res: Option<int>
    /** The node's index among the nodes of its tree. */
    ghost const id: nat

    /** `new Node(data, parent, new ArrayList<Node>())`. */
    constructor (data: char, ghost id: nat)
      ensures this.data == data && this.id == id
      ensures children == [] && res == None
    {
      this.data := data;
      this.id := id;
      children := [];
      res := None;
    }

    /** `findChild(c)`: the first child holding `c`, or null. */
    method FindChild(c: char) returns (r: Node?)
      ensures var k := FirstIndex(Chars(children), c);
        && (r == null <==> k == |children|)
        && (r != null ==> r == children[k])
    {
      var i := 0;
      while i < |children|
        invariant i <= |children|
        invariant forall j | 0 <= j < i :: children[j].data != c
      {
        if children[i].data == c {
          FirstIndexIs(Chars(children), c, i);
          return children[i];
        }
        i := i + 1;
      }
      FirstIndexIs(Chars(children), c, |children|);
      return null;
    }

    /** `addChild(c)`: append a new node for `c`, then sort the children.
        The sort is performed as a stable sort treats a list that is sorted
        up to its new last element: that element moves left past every
        sibling that compares greater, found by scanning from the end. */
    method AddChild(c: char, ghost newId: nat) returns (n: Node)
      modifies this
      ensures fresh(n) && n.data == c && n.id == newId
      ensures n.children == [] && n.res == None
      ensures res == old(res)
      ensures var p := InsertPos(Chars(old(children)), c);
        children == old(children)[..p] + [n] + old(children)[p..]
      ensures StrictlyAscending(Chars(old(children))) && c !in Chars(old(children)) ==>
        StrictlyAscending(Chars(children))
    {
      n := new Node(c, newId);
      ghost var ds := Chars(children);
      var j := SortPos(c);
      children := children[..j] + [n] + children[j..];
      CharsInsert(old(children), j, n);
      if StrictlyAscending(ds) && c !in ds {
        InsertPosBounds(ds, c);
        AscendingInsert(ds, j, c);
      }
    }

    /** Where the sort places a node for `c` appended to the children: the
        scan from the end past every child that compares greater. */
    method SortPos(c: char) returns (j: nat)
      ensures j == InsertPos(Chars(children), c)
    {
      ghost var ds := Chars(children);
      j := |children|;
      assert ds[..j] == ds;
      while j > 0 && CompareTo(children[j - 1].data, c) > 0
        invariant j <= |children|
        invariant InsertPos(ds, c) == InsertPos(ds[..j], c)
      {
        InsertPosPass(ds, c, j);
        j := j - 1;
      }
      InsertPosStop(ds, c, j);
    }

    /** `setRes(r)`. */
    method SetRes(r: Option<int>)
      modifies this
      ensures res == r && children == old(children)
    {
      res := r;
    }

    /** `fill()`: the node's record, then the lists of its children, the
        last one's width zeroed, then the node's width back-patched with the
        length of the whole list. */
    method Fill(ghost nodes: seq<Node>, ghost A: seq<Slot>) returns (me: seq<int>)
      requires Coupled(nodes, A) && Shaped(A) && id < |A| && nodes[id] == this
      ensures me == Table.Fill(Abs(A, id))
      decreases |A| - id
    {
      ghost var t := Abs(A, id);
      assert t.data == data && t.res == res && |t.children| == |children| by {
        assert Mirrors(this, A[id], nodes);
        AbsChildren(A, id);
      }
      me := [data as int, 0, Code(res)];
      ghost var h := me;
      var c := 0;
      while c < |children|
        invariant c <= |children|
        invariant me == h + Block(t.children, c)
      {
        var n := children[c];
        assert n.id < |A| && nodes[n.id] == n && id < n.id && t.children[c] == Abs(A, n.id) by {
          ChildOf(nodes, A, id, c);
        }
        var ch := n.Fill(nodes, A);
        if c + 1 == |children| {
          ch := ch[1 := 0];
        }
        assert ch == List(t.children[c], Last(t.children, c)) by {
          FillChild(t.children, c);
        }
        BlockAppend(h, t.children, c);
        me := me + ch;
        c := c + 1;
      }
      PatchHeader(data as int, 0, Code(res), |me|, Block(t.children, |t.children|));
      me := me[1 := |me|];
    }
  }

  /** Child `c` of the node of slot `i` is the node of the slot its index
      names. */
  lemma ChildOf(nodes: seq<Node>, A: seq<Slot>, i: nat, c: nat)
    requires Coupled(nodes, A) && Shaped(A) && i < |A| && c < |A[i].kids|
    ensures var y := A[i].kids[c];
      && i < y < |A| && c < |nodes[i].children| && nodes[i].children[c] == nodes[y] && nodes[y].id == y
      && Abs(A, i).children[c] == Abs(A, y)
  {
    assert Mirrors(nodes[i], A[i], nodes);
    AbsChildren(A, i);
  }

  /** The list `Node.fill` returns for child `c`, as its parent leaves it. */
  lemma FillChild(cs: seq<Trie>, c: nat)
    requires c < |cs|
    ensures (if c + 1 == |cs| then Table.Fill(cs[c])[1 := 0] else Table.Fill(cs[c])) ==
      List(cs[c], Last(cs, c))
  {
    var b := Block(cs[c].children, |cs[c].children|);
    PatchHeader(cs[c].data as int, 3 + |b|, Code(cs[c].res), 0, b);
  }

  lemma BlockAppend(h: seq<int>, cs: seq<Trie>, c: nat)
    requires c < |cs|
    ensures h + Block(cs, c) + List(cs[c], Last(cs, c)) == h + Block(cs, c + 1)
  {
  }

  /** Writing a record's width field. */
  lemma PatchHeader(x: int, y: int, z: int, y': int, b: seq<int>)
    ensures ([x, y, z] + b)[1 := y'] == [x, y', z] + b
  {
  }

  lemma CharsInsert(ns: seq<Node>, p: nat, n: Node)
    requires p <= |ns|
    ensures Chars(ns[..p] + [n] + ns[p..]) == Chars(ns)[..p] + [n.data] + Chars(ns)[p..]
  {
    var l := ns[..p] + [n] + ns[p..];
    var ds := Chars(ns)[..p] + [n.data] + Chars(ns)[p..];
    forall k | 0 <= k < |l|
      ensures Chars(l)[k] == ds[k]
    {
      if k < p {
      } else if k > p {
        assert l[k] == ns[k - 1] && ds[k] == Chars(ns)[k - 1];
      }
    }
  }

  /** Node `n` is slot `s` on the heap: same character and result, and its
      children are the nodes at the indices `s.kids`. */
  predicate Mirrors(n: Node, s: Slot, nodes: seq<Node>)
    reads n
  {
    && n.data == s.data && n.res == s.res
    && |n.children| == |s.kids|
    && forall k | 0 <= k < |s.kids| :: s.kids[k] < |nodes| && n.children[k] == nodes[s.kids[k]]
  }

  /** The nodes of a tree, slot by slot. */
  ghost predicate Coupled(nodes: seq<Node>, A: seq<Slot>)
    reads nodes
  {
    && |nodes| == |A|
    && (forall i | 0 <= i < |nodes| :: nodes[i].id == i)
    && (forall i {:trigger Mirrors(nodes[i], A[i], nodes)} | 0 <= i < |nodes| :: Mirrors(nodes[i], A[i], nodes))
  }

  lemma MirrorsGrow(n: Node, s: Slot, nodes: seq<Node>, x: Node)
    requires Mirrors(n, s, nodes)
    ensures Mirrors(n, s, nodes + [x])
  {
  }

  /** After `addChild(c)` on the node of slot `cid`, that node is the slot
      `AddKid` produces. */
  lemma RelinkParent(ns: seq<Node>, A: seq<Slot>, cid: nat, c: char, cur: Node, next: Node, oldch: seq<Node>)
    requires Shaped(A) && cid < |A| == |ns|
    requires cur.data == A[cid].data && cur.res == A[cid].res
    requires |oldch| == |A[cid].kids|
    requires forall k | 0 <= k < |oldch| :: A[cid].kids[k] < |ns| && oldch[k] == ns[A[cid].kids[k]]
    requires Chars(oldch) == KidLabels(A, cid)
    requires var p := InsertPos(Chars(oldch), c); cur.children == oldch[..p] + [next] + oldch[p..]
    ensures Mirrors(cur, AddKid(A, cid, c)[cid], ns + [next])
  {
    var p := InsertPos(Chars(oldch), c);
    var ks := A[cid].kids;
    var ks' := ks[..p] + [|A|] + ks[p..];
    var ns' := ns + [next];
    assert AddKid(A, cid, c)[cid].kids == ks';
    forall k | 0 <= k < |ks'|
      ensures ks'[k] < |ns'| && cur.children[k] == ns'[ks'[k]]
    {
      if k < p {
        assert ks'[k] == ks[k] && cur.children[k] == oldch[k];
      } else if k > p {
        assert ks'[k] == ks[k - 1] && cur.children[k] == oldch[k - 1];
      }
    }
  }

  /** What `findChild` compares and returns is what the snapshot
      records. */
  lemma CharsKids(nodes: seq<Node>, A: seq<Slot>, i: nat)
    requires Coupled(nodes, A) && Shaped(A) && i < |A|
    ensures Chars(nodes[i].children) == KidLabels(A, i)
    ensures forall k | 0 <= k < |A[i].kids| :: nodes[i].children[k] == nodes[A[i].kids[k]]
  {
    assert Mirrors(nodes[i], A[i], nodes);
    forall k | 0 <= k < |A[i].kids|
      ensures Chars(nodes[i].children)[k] == KidLabels(A, i)[k]
    {
      var y := A[i].kids[k];
      assert Mirrors(nodes[y], A[y], nodes);
    }
  }

  class Tree {
    var root: Node
    ghost var nodes: seq<Node>
    ghost var slots: seq<Slot>

    ghost predicate Valid()
      reads this, nodes
    {
      && Coupled(nodes, slots) && WF(slots) && nodes[0] == root
    }

    /** The tree as a value. */
    ghost function Model(): Trie
      reads this
      requires WF(slots)
    {
      Abs(slots, 0)
    }

    /** `new Tree(rootData)`: a root node with no children and no result. */
    constructor (rootData: char)
      ensures Valid() && Model() == Leaf(rootData)
      ensures fresh(root) && nodes == [root]
    {
      var r := new Node(rootData, 0);
      root := r;
      nodes := [r];
      slots := [Slot(rootData, None, [], [])];
      new;
      assert Mirrors(r, slots[0], nodes);
      assert Abs(slots, 0).children == [];
    }

    /** One pass of the loop over `ents.keySet()` in `createCTable`: walk
        `key` from the root with `findChild`, calling `addChild` where it
        returns null, then `setRes(v)` on the node reached. */
    method Insert(key: string, v: int)
      requires Valid()
      modifies this, nodes
      ensures Valid() && root == old(root)
      ensures Model() == Tries.Insert(old(Model()), key, v)
      ensures old(nodes) <= nodes
      ensures forall j | |old(nodes)| <= j < |nodes| :: fresh(nodes[j])
    {
      ghost var T := Model();
      ghost var target := Tries.Insert(T, key, v);
      ghost var n0 := nodes;
      var cur := root;
      ghost var cid: nat := 0;
      ghost var path: seq<nat> := [0];
      var i := 0;
      assert key[..0] == [] && key[0..] == key;
      while i < |key|
        invariant i <= |key|
        invariant Valid() && root == old(root)
        invariant n0 <= nodes
        invariant forall j | |n0| <= j < |nodes| :: fresh(nodes[j])
        invariant Walking(slots, path, key[..i], key[i..], v, target)
        invariant path[i] == cid && cur == nodes[cid]
      {
        assert key[..i + 1] == key[..i] + [key[i]];
        assert key[i..] == [key[i]] + key[i + 1..];
        cur, cid := Step(cur, key[i], cid, path, key[..i], key[i + 1..], v, target);
        path := path + [cid];
        i := i + 1;
      }
      assert key[..i] == key && key[i..] == [];
      StepDone(slots, path, key, v, target);
      SetResOn(cur, v, cid);
    }

    /** One turn of the inner loop of `createCTable`: find the child of
        `cur` for `c`, adding it when there is none. */
    method Step(cur: Node, c: char, ghost cid: nat, ghost path: seq<nat>, ghost q: string, ghost rest: string, ghost v: int, ghost target: Trie)
      returns (next: Node, ghost cid': nat)
      requires Valid() && Walking(slots, path, q, [c] + rest, v, target)
      requires path[|q|] == cid && cur == nodes[cid]
      modifies this, cur
      ensures Valid() && root == old(root)
      ensures Walking(slots, path + [cid'], q + [c], rest, v, target)
      ensures cid' < |nodes| && next == nodes[cid']
      ensures old(nodes) <= nodes
      ensures forall j | |old(nodes)| <= j < |nodes| :: fresh(nodes[j])
    {
      ghost var A := slots;
      CharsKids(nodes, A, cid);
      var found := cur.FindChild(c);
      if found == null {
        StepAdded(A, path, q, c, rest, v, target);
        next := AddChildTo(cur, c, cid);
        cid' := |A|;
      } else {
        StepFound(A, path, q, c, rest, v, target);
        cid' := A[cid].kids[FirstIndex(KidLabels(A, cid), c)];
        next := found;
      }
    }

    /** `curNode.addChild(c)`, with the new node entered in the ghost arena
        under the next free index. */
    method AddChildTo(cur: Node, c: char, ghost cid: nat) returns (next: Node)
      requires Valid() && cid < |slots| && cur == nodes[cid]
      requires c !in KidLabels(slots, cid)
      modifies this, cur
      ensures Valid() && root == old(root)
      ensures slots == AddKid(old(slots), cid, c)
      ensures nodes == old(nodes) + [next] && fresh(next)
    {
      ghost var A := slots;
      ghost var ns := nodes;
      CharsKids(ns, A, cid);
      ghost var oldch := cur.children;
      assert Mirrors(cur, A[cid], ns);
      assert forall j | 0 <= j < |ns| :: ns[j].id == j && Mirrors(ns[j], A[j], ns);
      next := cur.AddChild(c, |ns|);
      nodes := ns + [next];
      slots := AddKid(A, cid, c);
      AddKidWF(A, cid, c);
      AddKidSlots(A, cid, c);
      RelinkParent(ns, A, cid, c, cur, next, oldch);
      forall j | 0 <= j < |nodes|
        ensures nodes[j].id == j && Mirrors(nodes[j], slots[j], nodes)
      {
        if j < |ns| && j != cid {
          assert ns[j] != cur;
          assert Mirrors(ns[j], A[j], ns);
          MirrorsGrow(ns[j], A[j], ns, next);
        }
      }
    }

    /** `curNode.setRes(v)`, with the ghost arena updated to match. */
    method SetResOn(cur: Node, v: int, ghost cid: nat)
      requires Valid() && cid < |slots| && cur == nodes[cid]
      modifies this, cur
      ensures Valid() && root == old(root) && nodes == old(nodes)
      ensures slots == Arena.SetResAt(old(slots), cid, v)
    {
      ghost var A := slots;
      ghost var ns := nodes;
      assert forall j | 0 <= j < |ns| :: ns[j].id == j && Mirrors(ns[j], A[j], ns);
      cur.SetRes(Some(v));
      slots := Arena.SetResAt(A, cid, v);
      SetResAbs(A, cid, v);
      forall j | 0 <= j < |nodes|
        ensures nodes[j].id == j && Mirrors(nodes[j], slots[j], nodes)
      {
        if j != cid {
          assert ns[j] != cur;
          assert Mirrors(ns[j], A[j], ns);
        }
      }
    }

    /** `Tree.fill()`: the root's list without the root's record. */
    method Fill() returns (table: seq<int>)
      requires Valid()
      ensures table == TreeFill(Model())
    {
      var me := root.Fill(nodes, slots);
      table := me[3..];
    }
  }

  /** `createCTable(ents)` up to the rendering of the table as text: build
      the tree from the keys in the order `keys` lists them (the hash map's
      iteration order), then flatten it.  Every key of the map can be read
      back from the table, with its value. */
  method CreateTable(ents: map<string, int>, keys: seq<string>) returns (table: seq<int>)
    requires forall k :: k in keys <==> k in ents
    ensures table == TreeFill(Build(keys, ents))
    ensures forall k | k in ents && k != [] :: Decode(table, k) == Some(ents[k])
  {
    var t := new Tree(RootData);
    var i := 0;
    while i < |keys|
      invariant i <= |keys|
      invariant t.Valid() && t.Model() == Build(keys[..i], ents)
      invariant fresh(t) && forall j | 0 <= j < |t.nodes| :: fresh(t.nodes[j])
    {
      assert keys[..i + 1][..i] == keys[..i];
      t.Insert(keys[i], ents[keys[i]]);
      i := i + 1;
    }
    assert keys[..i] == keys;
    table := t.Fill();
    forall k | k in ents && k != []
      ensures Decode(table, k) == Some(ents[k])
    {
      var j :| 0 <= j < |keys| && keys[j] == k;
      TableAnswers(keys, ents, k);
    }
  }
}
