/**
  The flat table `Tree.fill` produces from the prefix tree.

  `Node.fill` emits three integers for its node (character code, width,
  result) followed by the lists of its children in order; the last child's
  width is overwritten with 0 and the node's own width is back-patched with
  the length of its whole list.  `Tree.fill` drops the root's record.

  `List(t, last)` is the list `Node.fill` returns for `t` once its parent has
  (for the last child, `last`) zeroed its width; `Fill(t)` is the list as
  `Node.fill` returns it.  Module FSM proves the method that performs the
  writes in place against these functions.
*/
module Table {
  import opened Wrappers
  import opened Tries

  /** `res == null ? 0 : res`: an absent result and a result of 0 both
      become 0. */
  function Code(res: Option<int>): int
  {
    if res.Some? then res.value else 0
  }

  /** The list of `t`: its record, whose width is the length of the whole
      list (0 when `t` is the last child of its parent), then its
      children's lists. */
  function List(t: Trie, last: bool): (r: seq<int>)
    ensures |r| >= 3
    decreases t, 1
  {
    var b := Block(t.children, |t.children|);
    [t.data as int, if last then 0 else 3 + |b|, Code(t.res)] + b
  }

  /** The lists of the first `n` children, the list of the last child of
      all with its width zeroed. */
  function Block(cs: seq<Trie>, n: nat): seq<int>
    requires n <= |cs|
    decreases cs, 0, n
  {
    if n == 0 then [] else Block(cs, n - 1) + List(cs[n - 1], Last(cs, n - 1))
  }

  /** Whether child `j` is the last one, whose width `Node.fill` zeroes. */
  predicate Last(cs: seq<Trie>, j: nat)
  {
    j + 1 == |cs|
  }

  /** `Node.fill`. */
  function Fill(t: Trie): seq<int>
  {
    List(t, false)
  }

  /** `Tree.fill`: the root's list without its own record. */
  function TreeFill(t: Trie): seq<int>
  {
    Fill(t)[3..]
  }

  // ---------------------------------------------------------------------
  // A reference layout: one record per node in pre-order
  // ---------------------------------------------------------------------

  /** The nodes of the subtree in pre-order, children in list order, each
      paired with whether it is the last child of its parent. */
  function PreOrder(t: Trie, last: bool): seq<(Trie, bool)>
    decreases t, 1
  {
    [(t, last)] + PreOrderBlock(t.children, |t.children|)
  }

  function PreOrderBlock(cs: seq<Trie>, n: nat): seq<(Trie, bool)>
    requires n <= |cs|
    decreases cs, 0, n
  {
    if n == 0 then [] else PreOrderBlock(cs, n - 1) + PreOrder(cs[n - 1], Last(cs, n - 1))
  }

  /** The three integers a node stands for in the table: its character code,
      0 when it is the last child and otherwise the number of integers its
      subtree takes, and its result code. */
  function Record(e: (Trie, bool)): seq<int>
  {
    [e.0.data as int, if e.1 then 0 else 3 * Size(e.0), Code(e.0.res)]
  }

  function Render(es: seq<(Trie, bool)>): seq<int>
  {
    if es == [] then [] else Render(es[..|es| - 1]) + Record(es[|es| - 1])
  }

  // ---------------------------------------------------------------------
  // Lengths and the pre-order reading
  // ---------------------------------------------------------------------

  lemma {:induction false} RenderAppend(a: seq<(Trie, bool)>, b: seq<(Trie, bool)>)
    ensures Render(a + b) == Render(a) + Render(b)
    decreases |b|
  {
    if b == [] {
      assert a + b == a;
    } else {
      var b' := b[..|b| - 1];
      assert (a + b)[..|a + b| - 1] == a + b';
      RenderAppend(a, b');
    }
  }

  lemma {:induction false} RenderLength(es: seq<(Trie, bool)>)
    ensures |Render(es)| == 3 * |es|
    decreases |es|
  {
    if es != [] { RenderLength(es[..|es| - 1]); }
  }

  lemma RenderSingle(e: (Trie, bool))
    ensures Render([e]) == Record(e)
  {
    assert [e][..0] == [];
  }

  /** Each record is three integers, so record `j` of a rendered list sits at
      offset `3 * j`. */
  lemma {:induction false} RenderAt(es: seq<(Trie, bool)>, j: nat)
    requires j < |es|
    ensures |Render(es)| == 3 * |es|
    ensures Render(es)[3 * j .. 3 * j + 3] == Record(es[j])
    decreases |es|
  {
    var init := es[..|es| - 1];
    if j < |es| - 1 {
      RenderAt(init, j);
    } else if init != [] {
      RenderAt(init, 0);
    }
  }

  /** `Node.fill` returns three integers per node of the subtree. */
  lemma {:induction false} ListLength(t: Trie, last: bool)
    ensures |List(t, last)| == 3 * Size(t)
    decreases t, 1
  {
    BlockLength(t.children, |t.children|);
    assert t.children[..|t.children|] == t.children;
  }

  lemma {:induction false} BlockLength(cs: seq<Trie>, n: nat)
    requires n <= |cs|
    ensures |Block(cs, n)| == 3 * SumSizes(cs[..n])
    decreases cs, 0, n
  {
    if n > 0 {
      BlockLength(cs, n - 1);
      ListLength(cs[n - 1], Last(cs, n - 1));
      assert cs[..n][..n - 1] == cs[..n - 1];
    }
  }

  /** `Node.fill` writes its own header: the node's character code, the length
      of its whole list and its result code, followed by its children's
      lists; only the width field depends on whether the node is a last
      child. */
  lemma FillHeader(t: Trie, last: bool)
    ensures |List(t, last)| == |Fill(t)|
    ensures List(t, last)[0] == t.data as int
    ensures List(t, last)[1] == if last then 0 else |Fill(t)|
    ensures List(t, last)[2] == Code(t.res)
    ensures List(t, last)[3..] == Block(t.children, |t.children|)
  {
  }

  /** After its record, the list of a node holds its children's lists. */
  lemma ListInner(t: Trie, last: bool)
    ensures |List(t, last)| == 3 + |Block(t.children, |t.children|)|
    ensures forall i | 0 <= i < |Block(t.children, |t.children|)| ::
      List(t, last)[3 + i] == Block(t.children, |t.children|)[i]
  {
  }

  /** `Tree.fill` returns three integers per node except the root. */
  lemma TreeFillLength(t: Trie)
    ensures |TreeFill(t)| == 3 * (Size(t) - 1)
  {
    ListLength(t, false);
  }

  /** The table is the pre-order list of records: the list of a node is the
      rendering of its subtree's nodes in pre-order. */
  lemma {:induction false} ListIsPreOrder(t: Trie, last: bool)
    ensures List(t, last) == Render(PreOrder(t, last))
    decreases t, 1
  {
    var b := PreOrderBlock(t.children, |t.children|);
    BlockIsPreOrder(t.children, |t.children|);
    RenderAppend([(t, last)], b);
    RenderSingle((t, last));
    ListLength(t, last);
  }

  lemma {:induction false} BlockIsPreOrder(cs: seq<Trie>, n: nat)
    requires n <= |cs|
    ensures Block(cs, n) == Render(PreOrderBlock(cs, n))
    decreases cs, 0, n
  {
    if n > 0 {
      BlockIsPreOrder(cs, n - 1);
      ListIsPreOrder(cs[n - 1], Last(cs, n - 1));
      RenderAppend(PreOrderBlock(cs, n - 1), PreOrder(cs[n - 1], Last(cs, n - 1)));
    }
  }

  /** Record `j` of the table `Tree.fill` returns describes node `j + 1` of
      the pre-order walk (node 0, the root, is dropped). */
  lemma TreeFillRecord(t: Trie, j: nat)
    requires j < Size(t) - 1
    ensures |TreeFill(t)| == 3 * (Size(t) - 1)
    ensures |PreOrder(t, false)| == Size(t)
    ensures TreeFill(t)[3 * j .. 3 * j + 3] == Record(PreOrder(t, false)[j + 1])
  {
    var es := PreOrder(t, false);
    var ft := Fill(t);
    assert ft == Render(es) by { ListIsPreOrder(t, false); }
    assert |ft| == 3 * Size(t) by { ListLength(t, false); }
    RenderLength(es);
    RenderAt(es, j + 1);
    assert TreeFill(t)[3 * j .. 3 * j + 3] == ft[3 * (j + 1) .. 3 * (j + 1) + 3];
  }

  // ---------------------------------------------------------------------
  // Where each child's list sits
  // ---------------------------------------------------------------------

  /** The lists of the first `j` children start the lists of the first
      `n`. */
  lemma {:induction false} BlockPrefix(cs: seq<Trie>, j: nat, n: nat)
    requires j <= n <= |cs|
    ensures |Block(cs, j)| <= |Block(cs, n)|
    ensures forall i | 0 <= i < |Block(cs, j)| :: Block(cs, n)[i] == Block(cs, j)[i]
    decreases n
  {
    if j < n {
      BlockPrefix(cs, j, n - 1);
    }
  }

  /** The list of child `j` sits among its siblings' lists right after the
      lists of children `0 .. j - 1`. */
  lemma ChildList(cs: seq<Trie>, j: nat)
    requires j < |cs|
    ensures |Block(cs, j)| + |List(cs[j], Last(cs, j))| == |Block(cs, j + 1)|
    ensures |Block(cs, j + 1)| <= |Block(cs, |cs|)|
    ensures forall i | 0 <= i < |List(cs[j], Last(cs, j))| ::
      Block(cs, |cs|)[|Block(cs, j)| + i] == List(cs[j], Last(cs, j))[i]
  {
    BlockPrefix(cs, j + 1, |cs|);
  }

  /** The record of child `j`: its character code, its result code, and a
      width field that is 0 for the last child and otherwise the length of
      the child's list. */
  lemma ChildRecord(cs: seq<Trie>, j: nat)
    requires j < |cs|
    ensures |Block(cs, j)| + 3 <= |Block(cs, |cs|)|
    ensures Block(cs, |cs|)[|Block(cs, j)|] == cs[j].data as int
    ensures Block(cs, |cs|)[|Block(cs, j)| + 1] == if j + 1 == |cs| then 0 else |Fill(cs[j])|
    ensures Block(cs, |cs|)[|Block(cs, j)| + 2] == Code(cs[j].res)
  {
    ChildList(cs, j);
    var all, x, l := Block(cs, |cs|), |Block(cs, j)|, List(cs[j], Last(cs, j));
    assert all[x + 0] == l[0] && all[x + 1] == l[1] && all[x + 2] == l[2];
  }

  /** Skip property: from the record of a child that is not the last one,
      advancing by its width field lands exactly on the record of the next
      sibling. */
  lemma SkipToSibling(cs: seq<Trie>, j: nat)
    requires j + 1 < |cs|
    ensures |Block(cs, j)| + 3 <= |Block(cs, j + 1)|
    ensures |Block(cs, j + 1)| + 3 <= |Block(cs, |cs|)|
    ensures |Block(cs, j)| + Block(cs, |cs|)[|Block(cs, j)| + 1] == |Block(cs, j + 1)|
  {
    ChildList(cs, j);
    ChildRecord(cs, j);
    ChildRecord(cs, j + 1);
  }

  /** The lists of a child's own children follow the child's record
      unchanged. */
  lemma ChildInner(cs: seq<Trie>, k: nat)
    requires k < |cs|
    ensures |Block(cs, k)| + 3 + |Block(cs[k].children, |cs[k].children|)| == |Block(cs, k + 1)|
    ensures |Block(cs, k + 1)| <= |Block(cs, |cs|)|
    ensures forall i | 0 <= i < |Block(cs[k].children, |cs[k].children|)| ::
      Block(cs, |cs|)[|Block(cs, k)| + 3 + i] == Block(cs[k].children, |cs[k].children|)[i]
  {
    var all, x, l := Block(cs, |cs|), |Block(cs, k)|, List(cs[k], Last(cs, k));
    var inner := Block(cs[k].children, |cs[k].children|);
    assert x + |l| == |Block(cs, k + 1)| <= |all| && |l| == 3 + |inner| by {
      ChildList(cs, k);
      ListInner(cs[k], Last(cs, k));
    }
    forall i | 0 <= i < |inner|
      ensures all[x + 3 + i] == inner[i]
    {
      assert l[3 + i] == inner[i] by { ListInner(cs[k], Last(cs, k)); }
      assert all[x + (3 + i)] == l[3 + i] by { ChildList(cs, k); }
    }
  }
}
