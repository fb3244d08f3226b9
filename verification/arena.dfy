/**
  The heap of `Tree.Node` objects, read off as values.

  Every node the tree has ever allocated gets an index in an arena, in
  allocation order, so a node's children always have larger indices than the
  node itself.  A `Slot` records what one node holds: its character, its
  `res`, the indices of its children in list order, and the characters on the
  path from the root to it (its label; a ghost bookkeeping device, not a
  field of the Java class).  `Abs` turns the slot at an index into the
  `Trie` value rooted there.

  Labels are what make the frame argument work: a node's subtree can contain
  the node at index `c` only if the node's label is a prefix of `c`'s, so
  changing `c` leaves every other subtree alone.
*/
module Arena {
  import opened Wrappers
  import opened Tries

  datatype Slot = Slot(data: char, res: Option<int>, kids: seq<nat>, word: string)

  /** Children have larger indices than their parent. */
  predicate Shaped(A: seq<Slot>)
  {
    forall i, k | 0 <= i < |A| && 0 <= k < |A[i].kids| :: i < A[i].kids[k] < |A|
  }

  /** The subtree rooted at slot `i`, as a value. */
  function Abs(A: seq<Slot>, i: nat): Trie
    requires Shaped(A) && i < |A|
    decreases |A| - i
  {
    Trie(A[i].data, A[i].res,
      seq(|A[i].kids|, k requires 0 <= k < |A[i].kids| => Abs(A, A[i].kids[k])))
  }

  /** The characters of the children of slot `i`, in list order. */
  function KidLabels(A: seq<Slot>, i: nat): (ds: seq<char>)
    requires Shaped(A) && i < |A|
    ensures |ds| == |A[i].kids|
  {
    seq(|A[i].kids|, k requires 0 <= k < |A[i].kids| => A[A[i].kids[k]].data)
  }

  /** The arena of a tree: slot 0 is the root, with the empty label; every
      child is labelled with its parent's label and its own character; and
      every sibling list is strictly ascending. */
  predicate WF(A: seq<Slot>)
  {
    && Shaped(A)
    && |A| > 0 && A[0].word == []
    && (forall i, k | 0 <= i < |A| && 0 <= k < |A[i].kids| ::
          A[A[i].kids[k]].word == A[i].word + [A[A[i].kids[k]].data])
    && (forall i | 0 <= i < |A| :: StrictlyAscending(KidLabels(A, i)))
  }

  /** `B` differs from `A` at most in slot `c`, whose character and label it
      keeps, and in slots appended after those of `A`. */
  predicate Touches(A: seq<Slot>, B: seq<Slot>, c: nat)
  {
    && c < |A| <= |B|
    && B[c].data == A[c].data && B[c].word == A[c].word
    && forall j | 0 <= j < |A| && j != c :: B[j] == A[j]
  }

  /** `path` lists the slots `findChild` visits when it follows `p` from
      the root: the first child holding the next character, each time. */
  predicate PathIn(A: seq<Slot>, path: seq<nat>, p: string)
    requires Shaped(A)
  {
    && |path| == |p| + 1 && path[0] == 0
    && (forall d | 0 <= d < |path| :: path[d] < |A|)
    && (forall d | 0 <= d < |path| :: A[path[d]].word == p[..d])
    && (forall d | 0 <= d < |p| ::
          var k := FirstIndex(KidLabels(A, path[d]), p[d]);
          k < |A[path[d]].kids| && path[d + 1] == A[path[d]].kids[k])
  }

  /** Slot `c` after `addChild(ch)` on its node: a new slot for the leaf is
      appended and its index is placed where the sort puts `ch`. */
  function AddKid(A: seq<Slot>, c: nat, ch: char): (B: seq<Slot>)
    requires Shaped(A) && c < |A|
    ensures |B| == |A| + 1
  {
    var s := A[c];
    var p := InsertPos(KidLabels(A, c), ch);
    A[c := s.(kids := s.kids[..p] + [|A|] + s.kids[p..])] + [Slot(ch, None, [], s.word + [ch])]
  }

  /** Slot `c` after `setRes(v)` on its node. */
  function SetResAt(A: seq<Slot>, c: nat, v: int): (B: seq<Slot>)
    requires c < |A|
    ensures |B| == |A|
  {
    A[c := A[c].(res := Some(v))]
  }

  // ---------------------------------------------------------------------
  // Reading subtrees
  // ---------------------------------------------------------------------

  lemma AbsChildren(A: seq<Slot>, i: nat)
    requires Shaped(A) && i < |A|
    ensures |Abs(A, i).children| == |A[i].kids|
    ensures forall k | 0 <= k < |A[i].kids| :: Abs(A, i).children[k] == Abs(A, A[i].kids[k])
    ensures Labels(Abs(A, i).children) == KidLabels(A, i)
  {
  }

  /** The tree an arena describes has strictly ascending sibling lists
      everywhere. */
  lemma {:induction false} AbsSorted(A: seq<Slot>, i: nat)
    requires WF(A) && i < |A|
    ensures Sorted(Abs(A, i))
    decreases |A| - i
  {
    AbsChildren(A, i);
    forall k | 0 <= k < |A[i].kids|
      ensures Sorted(Abs(A, i).children[k])
    {
      AbsSorted(A, A[i].kids[k]);
    }
  }

  /** A slot whose label is not a prefix of the label of `c` has a subtree
      without `c`, so a change to `c` does not reach it. */
  lemma {:induction false} Frame(A: seq<Slot>, B: seq<Slot>, c: nat, x: nat)
    requires WF(A) && Shaped(B) && Touches(A, B, c) && x < |A|
    requires !(A[x].word <= A[c].word)
    ensures Abs(B, x) == Abs(A, x)
    decreases |A| - x
  {
    assert x != c;
    assert B[x] == A[x];
    forall k | 0 <= k < |A[x].kids|
      ensures Abs(B, A[x].kids[k]) == Abs(A, A[x].kids[k])
    {
      var y := A[x].kids[k];
      assert A[y].word == A[x].word + [A[y].data];
      Frame(A, B, c, y);
    }
    AbsChildren(A, x);
    AbsChildren(B, x);
    assert Abs(B, x).children == Abs(A, x).children;
  }

  /** Following `p[d..]` from slot `path[d]` reaches slot `path[|p|]`. */
  lemma {:induction false} PathSub(A: seq<Slot>, path: seq<nat>, p: string, d: nat)
    requires Shaped(A) && PathIn(A, path, p) && d <= |p|
    ensures Has(Abs(A, path[d]), p[d..])
    ensures Sub(Abs(A, path[d]), p[d..]) == Abs(A, path[|p|])
    decreases |p| - d
  {
    if d == |p| {
      assert p[d..] == [];
    } else {
      PathSub(A, path, p, d + 1);
      AbsChildren(A, path[d]);
      assert p[d..][0] == p[d] && p[d..][1..] == p[d + 1..];
    }
  }

  /** A change to slot `c` at the end of `path` rewrites each slot on the
      path into its old subtree with the new subtree of `c` plugged in. */
  lemma {:induction false} Ancestors(A: seq<Slot>, B: seq<Slot>, c: nat, path: seq<nat>, p: string, d: nat)
    requires WF(A) && Shaped(B) && Touches(A, B, c)
    requires PathIn(A, path, p) && path[|p|] == c && d <= |p|
    ensures Has(Abs(A, path[d]), p[d..])
    ensures Abs(B, path[d]) == Plug(Abs(A, path[d]), p[d..], Abs(B, c))
    decreases |p| - d
  {
    PathSub(A, path, p, d);
    if d == |p| {
      assert p[d..] == [];
    } else {
      Ancestors(A, B, c, path, p, d + 1);
      var x := path[d];
      var ds := KidLabels(A, x);
      var k := FirstIndex(ds, p[d]);
      var q := p[d..];
      assert q[0] == p[d] && q[1..] == p[d + 1..];
      assert |A[x].word| == d < |p| == |A[c].word|;
      assert x != c && B[x] == A[x];
      AbsChildren(A, x);
      AbsChildren(B, x);
      var t := Abs(A, x);
      var y := Plug(t.children[k], q[1..], Abs(B, c));
      forall j | 0 <= j < |A[x].kids|
        ensures Abs(B, x).children[j] == t.children[k := y][j]
      {
        if j != k {
          var z := A[x].kids[j];
          assert ds[j] != ds[k];
          assert A[z].word == p[..d] + [A[z].data];
          Frame(A, B, c, z);
        }
      }
      assert Abs(B, x).children == t.children[k := y];
    }
  }

  /** A path stays a path when it is extended by the child `findChild`
      returns. */
  lemma PathExtend(A: seq<Slot>, path: seq<nat>, p: string, ch: char)
    requires WF(A) && PathIn(A, path, p)
    requires FirstIndex(KidLabels(A, path[|p|]), ch) < |A[path[|p|]].kids|
    ensures var c := path[|p|];
      PathIn(A, path + [A[c].kids[FirstIndex(KidLabels(A, c), ch)]], p + [ch])
  {
    var c := path[|p|];
    var y := A[c].kids[FirstIndex(KidLabels(A, c), ch)];
    var path', p' := path + [y], p + [ch];
    assert A[y].word == p[..|p|] + [ch];
    forall d | 0 <= d < |path'|
      ensures A[path'[d]].word == p'[..d]
    {
      if d < |path| {
        assert p'[..d] == p[..d];
      } else {
        assert p'[..d] == p';
      }
    }
    forall d | 0 <= d < |p'|
      ensures var k := FirstIndex(KidLabels(A, path'[d]), p'[d]);
        k < |A[path'[d]].kids| && path'[d + 1] == A[path'[d]].kids[k]
    {
      if d < |p| {
        assert path'[d] == path[d] && path'[d + 1] == path[d + 1] && p'[d] == p[d];
      }
    }
  }

  /** Step `d` of a path goes to the first child holding `p[d]`. */
  lemma PathStep(A: seq<Slot>, path: seq<nat>, p: string, d: nat)
    requires Shaped(A) && PathIn(A, path, p) && d < |p|
    ensures path[d] < |A|
    ensures var k := FirstIndex(KidLabels(A, path[d]), p[d]);
      k < |A[path[d]].kids| && path[d + 1] == A[path[d]].kids[k]
  {
    var next, c := path[d + 1], p[d];
  }

  /** A path that ends at slot `c` is still a path after `c` changes. */
  lemma PathKept(A: seq<Slot>, B: seq<Slot>, c: nat, path: seq<nat>, p: string)
    requires WF(A) && Shaped(B) && Touches(A, B, c)
    requires PathIn(A, path, p) && path[|p|] == c
    ensures PathIn(B, path, p)
  {
    forall d | 0 <= d < |path|
      ensures B[path[d]].word == p[..d]
    {
    }
    forall d | 0 <= d < |p|
      ensures var k := FirstIndex(KidLabels(B, path[d]), p[d]);
        k < |B[path[d]].kids| && path[d + 1] == B[path[d]].kids[k]
    {
      assert |A[path[d]].word| == d < |p| == |A[c].word|;
      assert path[d] != c;
      assert B[path[d]] == A[path[d]];
      assert KidLabels(B, path[d]) == KidLabels(A, path[d]);
      PathStep(A, path, p, d);
    }
  }

  // ---------------------------------------------------------------------
  // What `addChild` and `setRes` do to the arena
  // ---------------------------------------------------------------------

  /** The slots `AddKid` produces, one by one. */
  lemma AddKidSlots(A: seq<Slot>, c: nat, ch: char)
    requires Shaped(A) && c < |A|
    ensures var B := AddKid(A, c, ch); var p := InsertPos(KidLabels(A, c), ch);
      && B[c] == A[c].(kids := A[c].kids[..p] + [|A|] + A[c].kids[p..])
      && B[|A|] == Slot(ch, None, [], A[c].word + [ch])
      && Touches(A, B, c)
      && Shaped(B)
  {
    var B := AddKid(A, c, ch);
    var p := InsertPos(KidLabels(A, c), ch);
    var ks := A[c].kids;
    var ks' := ks[..p] + [|A|] + ks[p..];
    assert B[c].kids == ks';
    forall k | 0 <= k < |ks'|
      ensures c < ks'[k] <= |A|
    {
      if k < p {
        assert ks'[k] == ks[k];
      } else if k > p {
        assert ks'[k] == ks[k - 1];
      }
    }
  }

  /** The children's characters after `AddKid`: `ch` joins the list of
      slot `c` where the sort puts it, every other list stays. */
  lemma AddKidLabels(A: seq<Slot>, c: nat, ch: char)
    requires Shaped(A) && c < |A|
    ensures Shaped(AddKid(A, c, ch))
    ensures var B := AddKid(A, c, ch); var ds := KidLabels(A, c); var p := InsertPos(ds, ch);
      && KidLabels(B, c) == ds[..p] + [ch] + ds[p..]
      && KidLabels(B, |A|) == []
      && forall i | 0 <= i < |A| && i != c :: KidLabels(B, i) == KidLabels(A, i)
  {
    AddKidSlots(A, c, ch);
    var B := AddKid(A, c, ch);
    var ds := KidLabels(A, c);
    var p := InsertPos(ds, ch);
    var ks := A[c].kids;
    var l := ds[..p] + [ch] + ds[p..];
    forall k | 0 <= k < |l|
      ensures KidLabels(B, c)[k] == l[k]
    {
      if k < p {
        assert B[c].kids[k] == ks[k];
      } else if k > p {
        assert B[c].kids[k] == ks[k - 1] && l[k] == ds[k - 1];
      }
    }
    forall i | 0 <= i < |A| && i != c
      ensures KidLabels(B, i) == KidLabels(A, i)
    {
      assert B[i] == A[i];
    }
  }

  /** The new slot and the old children of slot `c` keep their labels. */
  lemma AddKidWords(A: seq<Slot>, c: nat, ch: char)
    requires WF(A) && c < |A|
    ensures Shaped(AddKid(A, c, ch))
    ensures var B := AddKid(A, c, ch);
      forall i, k | 0 <= i < |B| && 0 <= k < |B[i].kids| ::
        B[B[i].kids[k]].word == B[i].word + [B[B[i].kids[k]].data]
  {
    var B := AddKid(A, c, ch);
    var p := InsertPos(KidLabels(A, c), ch);
    AddKidSlots(A, c, ch);
    forall i, k | 0 <= i < |B| && 0 <= k < |B[i].kids|
      ensures B[B[i].kids[k]].word == B[i].word + [B[B[i].kids[k]].data]
    {
      var y := B[i].kids[k];
      if i == c {
        var ks := A[c].kids;
        if k < p {
          assert y == ks[k];
        } else if k > p {
          assert y == ks[k - 1];
        }
      } else {
        assert i < |A| && B[i] == A[i];
      }
    }
  }

  /** `addChild(ch)` on slot `c`, when `findChild(ch)` returned null, keeps
      the arena well formed. */
  lemma AddKidWF(A: seq<Slot>, c: nat, ch: char)
    requires WF(A) && c < |A| && ch !in KidLabels(A, c)
    ensures WF(AddKid(A, c, ch)) && Touches(A, AddKid(A, c, ch), c)
  {
    var B := AddKid(A, c, ch);
    var ds := KidLabels(A, c);
    var p := InsertPos(ds, ch);
    AddKidSlots(A, c, ch);
    AddKidWords(A, c, ch);
    AddKidLabels(A, c, ch);
    forall i | 0 <= i < |B|
      ensures StrictlyAscending(KidLabels(B, i))
    {
      if i == c {
        InsertPosBounds(ds, ch);
        AscendingInsert(ds, p, ch);
      }
    }
  }

  /** The subtree of an old child of slot `c` is the same after
      `addChild(ch)` on `c`. */
  lemma AddKidOldChild(A: seq<Slot>, c: nat, ch: char, j: nat)
    requires WF(A) && c < |A| && j < |A[c].kids|
    ensures Abs(AddKid(A, c, ch), A[c].kids[j]) == Abs(A, A[c].kids[j])
  {
    AddKidSlots(A, c, ch);
    var y := A[c].kids[j];
    assert A[y].word == A[c].word + [A[y].data];
    Frame(A, AddKid(A, c, ch), c, y);
  }

  /** After `addChild(ch)` on slot `c`, the subtree at `c` is the old one
      with `AddChild` applied to its children. */
  lemma AddKidAbs(A: seq<Slot>, c: nat, ch: char)
    requires WF(A) && c < |A| && ch !in KidLabels(A, c)
    ensures var B := AddKid(A, c, ch);
      && WF(B) && Touches(A, B, c)
      && Abs(B, |A|) == Leaf(ch)
      && Abs(B, c) == Abs(A, c).(children := AddChild(Abs(A, c).children, ch))
  {
    AddKidWF(A, c, ch);
    AddKidSlots(A, c, ch);
    var B := AddKid(A, c, ch);
    var p := InsertPos(KidLabels(A, c), ch);
    var ks := A[c].kids;
    var t := Abs(A, c);
    var a := AddChild(t.children, ch);
    AbsChildren(A, c);
    AbsChildren(B, c);
    assert Abs(B, |A|).children == [];
    forall k | 0 <= k < |B[c].kids|
      ensures Abs(B, c).children[k] == a[k]
    {
      if k != p {
        var j := if k < p then k else k - 1;
        assert B[c].kids[k] == ks[j] && a[k] == t.children[j];
        AddKidOldChild(A, c, ch, j);
      }
    }
    assert Abs(B, c).children == a;
  }

  /** `setRes(v)` on slot `c` sets `res` of the subtree at `c` and keeps
      the arena well formed. */
  lemma SetResAbs(A: seq<Slot>, c: nat, v: int)
    requires WF(A) && c < |A|
    ensures var B := SetResAt(A, c, v);
      && WF(B) && Touches(A, B, c)
      && Abs(B, c) == Abs(A, c).(res := Some(v))
  {
    var B := SetResAt(A, c, v);
    assert Shaped(B);
    forall i | 0 <= i < |A|
      ensures KidLabels(B, i) == KidLabels(A, i)
    {
    }
    AbsChildren(A, c);
    AbsChildren(B, c);
    forall k | 0 <= k < |A[c].kids|
      ensures Abs(B, A[c].kids[k]) == Abs(A, A[c].kids[k])
    {
      var y := A[c].kids[k];
      assert A[y].word == A[c].word + [A[y].data];
      Frame(A, B, c, y);
    }
    assert Abs(B, c).children == Abs(A, c).children;
  }

  // ---------------------------------------------------------------------
  // The insertion walk, one step at a time
  // ---------------------------------------------------------------------

  /** What remains to be done when the walk for a key stands at the end of
      `q` in the tree `Abs(A, 0)`: inserting the rest of the key there
      gives `target`. */
  predicate Walking(A: seq<Slot>, path: seq<nat>, q: string, rest: string, v: int, target: Trie)
  {
    && WF(A) && PathIn(A, path, q)
    && Has(Abs(A, 0), q)
    && target == Plug(Abs(A, 0), q, Insert(Sub(Abs(A, 0), q), rest, v))
  }

  /** `findChild(c)` found a child: the walk moves to it. */
  lemma StepFound(A: seq<Slot>, path: seq<nat>, q: string, c: char, rest: string, v: int, target: Trie)
    requires Walking(A, path, q, [c] + rest, v, target)
    requires FirstIndex(KidLabels(A, path[|q|]), c) < |A[path[|q|]].kids|
    ensures var x := path[|q|];
      Walking(A, path + [A[x].kids[FirstIndex(KidLabels(A, x), c)]], q + [c], rest, v, target)
  {
    var x := path[|q|];
    var m := Abs(A, 0);
    PathSub(A, path, q, 0);
    AbsChildren(A, x);
    InsertStep(m, q, c, rest, v);
    PlugSelf(m, q);
    PathExtend(A, path, q, c);
  }

  /** `findChild(c)` returned null: after `addChild(c)` the path extends
      to the new slot. */
  lemma StepAddedPath(A: seq<Slot>, path: seq<nat>, q: string, c: char)
    requires WF(A) && PathIn(A, path, q)
    requires FirstIndex(KidLabels(A, path[|q|]), c) == |A[path[|q|]].kids|
    ensures c !in KidLabels(A, path[|q|])
    ensures WF(AddKid(A, path[|q|], c))
    ensures PathIn(AddKid(A, path[|q|], c), path + [|A|], q + [c])
  {
    var x := path[|q|];
    var B := AddKid(A, x, c);
    var ds := KidLabels(A, x);
    var p := InsertPos(ds, c);
    FirstIndexIn(ds, c);
    AddKidWF(A, x, c);
    assert FirstIndex(KidLabels(B, x), c) == p && B[x].kids[p] == |A| by {
      AddKidLabels(A, x, c);
      AddKidSlots(A, x, c);
      FirstIndexInserted(ds, p, c, c);
    }
    PathKept(A, B, x, path, q);
    PathExtend(B, path, q, c);
  }

  /** `findChild(c)` returned null: `addChild(c)` makes a new slot and the
      walk moves to it. */
  lemma StepAdded(A: seq<Slot>, path: seq<nat>, q: string, c: char, rest: string, v: int, target: Trie)
    requires Walking(A, path, q, [c] + rest, v, target)
    requires FirstIndex(KidLabels(A, path[|q|]), c) == |A[path[|q|]].kids|
    ensures c !in KidLabels(A, path[|q|])
    ensures Walking(AddKid(A, path[|q|], c), path + [|A|], q + [c], rest, v, target)
  {
    var x := path[|q|];
    var m := Abs(A, 0);
    var B := AddKid(A, x, c);
    StepAddedPath(A, path, q, c);
    var s := Sub(m, q);
    assert s == Abs(A, x) && Labels(s.children) == KidLabels(A, x) by {
      PathSub(A, path, q, 0);
      AbsChildren(A, x);
    }
    var d := Descend(s.children, c);
    assert Abs(B, 0) == Plug(m, q, s.(children := d.0)) by {
      AddKidWF(A, x, c);
      AddKidAbs(A, x, c);
      Ancestors(A, B, x, path, q, 0);
    }
    InsertStep(m, q, c, rest, v);
  }

  /** At the end of the key, `setRes(v)` completes the insertion. */
  lemma StepDone(A: seq<Slot>, path: seq<nat>, q: string, v: int, target: Trie)
    requires Walking(A, path, q, [], v, target)
    ensures WF(SetResAt(A, path[|q|], v))
    ensures Abs(SetResAt(A, path[|q|], v), 0) == target
  {
    var x := path[|q|];
    PathSub(A, path, q, 0);
    SetResAbs(A, x, v);
    Ancestors(A, SetResAt(A, x, v), x, path, q, 0);
  }
}
