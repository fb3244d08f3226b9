/**
  A reader of the flat table, written from the record format alone: three
  integers per node (character code, width, result), siblings chained by
  their width fields, a width of 0 on the last sibling, and a node's first
  child right after its record.  The generator has no such reader; it is the
  reference against which decodability of `Tree.fill`'s output is proved.
*/
module Decoder {
  import opened Wrappers
  import opened Tries
  import opened Table

  /** Scan the sibling records in `[pos, end)` for the character code `c`,
      jumping by each record's width field; a width of 0 ends the list. */
  function FindSibling(table: seq<int>, pos: nat, end: nat, c: int): (r: Option<nat>)
    requires end <= |table|
    ensures r.Some? ==> pos <= r.value && r.value + 3 <= end && table[r.value] == c
    decreases end - pos
  {
    if pos + 3 > end then None
    else if table[pos] == c then Some(pos)
    else if table[pos + 1] <= 0 then None
    else FindSibling(table, pos + table[pos + 1], end, c)
  }

  /** Where the lists of the children of the record at `q` end: at the end
      of its own list, which its width gives, or, for a last sibling (width
      0), at the end of the enclosing range. */
  function ChildrenEnd(table: seq<int>, q: nat, end: nat): (e: nat)
    requires q + 3 <= end <= |table|
    ensures e <= end
  {
    var w := table[q + 1];
    if w <= 0 || q + w > end then end else q + w
  }

  /** Consume `key` one character at a time, starting with the sibling list
      in `[pos, end)`; the result is the position of the record of the last
      character. */
  function Match(table: seq<int>, pos: nat, end: nat, key: string): (r: Option<nat>)
    requires key != [] && end <= |table|
    ensures r.Some? ==> r.value + 3 <= end
    decreases |key|
  {
    match FindSibling(table, pos, end, key[0] as int)
    case None => None
    case Some(q) =>
      if |key| == 1 then Some(q)
      else Match(table, q + 3, ChildrenEnd(table, q, end), key[1..])
  }

  /** The result field of the record reached by `key`, if any. */
  function Decode(table: seq<int>, key: string): Option<int>
  {
    if key == [] then None
    else
      match Match(table, 0, |table|, key)
      case None => None
      case Some(q) => Some(table[q + 2])
  }

  // ---------------------------------------------------------------------
  // Reading the lists `Node.fill` writes
  // ---------------------------------------------------------------------

  /** The lists of the sibling nodes `cs` appear in `table` from position
      `b` on. */
  predicate Embeds(table: seq<int>, b: nat, end: nat, cs: seq<Trie>)
  {
    && b + |Block(cs, |cs|)| == end <= |table|
    && forall i | 0 <= i < |Block(cs, |cs|)| :: table[b + i] == Block(cs, |cs|)[i]
  }

  /** A sibling list in `[.., end)` as the scan sees it: record `i` sits at
      `offs[i]`, carries character code `ds[i]` and result `codes[i]`, every
      record but the last has a positive width leading to the next one, and
      the last one has width 0. */
  predicate Chained(table: seq<int>, end: nat, offs: seq<nat>, ds: seq<char>, codes: seq<int>)
  {
    && end <= |table|
    && |offs| == |ds| == |codes|
    && (forall i | 0 <= i < |offs| ::
          && offs[i] + 3 <= end
          && table[offs[i]] == ds[i] as int
          && table[offs[i] + 2] == codes[i])
    && (forall i | 0 <= i < |offs| - 1 ::
          offs[i] < offs[i + 1] && table[offs[i] + 1] == offs[i + 1] - offs[i])
    && (|offs| > 0 ==> table[offs[|offs| - 1] + 1] == 0)
  }

  /** The scan from record `j` stops at the first record carrying `c`. */
  lemma {:induction false} ScanChain(table: seq<int>, end: nat, offs: seq<nat>, ds: seq<char>, codes: seq<int>, c: char, j: nat)
    requires Chained(table, end, offs, ds, codes)
    requires j <= FirstIndex(ds, c) < |ds|
    ensures FindSibling(table, offs[j], end, c as int) == Some(offs[FirstIndex(ds, c)])
    decreases |ds| - j
  {
    if j < FirstIndex(ds, c) {
      assert ds[j] != c;
      ScanChain(table, end, offs, ds, codes, c, j + 1);
    }
  }

  /** The scan from record `j` finds nothing when no sibling carries `c`:
      it stops at the width 0 of the last record. */
  lemma {:induction false} ScanMiss(table: seq<int>, end: nat, offs: seq<nat>, ds: seq<char>, codes: seq<int>, c: char, j: nat)
    requires Chained(table, end, offs, ds, codes)
    requires FirstIndex(ds, c) == |ds| && j < |ds|
    ensures FindSibling(table, offs[j], end, c as int) == None
    decreases |ds| - j
  {
    assert ds[j] != c;
    if j + 1 < |ds| {
      ScanMiss(table, end, offs, ds, codes, c, j + 1);
    }
  }

  /** Where each sibling's list starts, counted from position `b`. */
  function Offsets(b: nat, cs: seq<Trie>): (offs: seq<nat>)
    ensures |offs| == |cs|
  {
    seq(|cs|, i requires 0 <= i < |cs| => b + |Block(cs, i)|)
  }

  function Codes(cs: seq<Trie>): (codes: seq<int>)
    ensures |codes| == |cs|
  {
    seq(|cs|, i requires 0 <= i < |cs| => Code(cs[i].res))
  }

  /** The record of sibling `i`, read from the table. */
  lemma RecordInTable(table: seq<int>, b: nat, end: nat, cs: seq<Trie>, i: nat)
    requires Embeds(table, b, end, cs) && i < |cs|
    ensures b + |Block(cs, i)| + 3 <= end
    ensures table[b + |Block(cs, i)|] == cs[i].data as int
    ensures table[b + |Block(cs, i)| + 1] == if Last(cs, i) then 0 else |Fill(cs[i])|
    ensures table[b + |Block(cs, i)| + 2] == Code(cs[i].res)
  {
    var all, x := Block(cs, |cs|), |Block(cs, i)|;
    assert x + 3 <= |all| && all[x] == cs[i].data as int && all[x + 2] == Code(cs[i].res)
      && all[x + 1] == (if Last(cs, i) then 0 else |Fill(cs[i])|) by {
      ChildRecord(cs, i);
    }
    assert table[b + x] == all[x] && table[b + (x + 1)] == all[x + 1] && table[b + (x + 2)] == all[x + 2];
  }

  /** Each sibling's record sits at its offset, with its character and
      result code. */
  lemma RecordsAtOffsets(table: seq<int>, b: nat, end: nat, cs: seq<Trie>)
    requires Embeds(table, b, end, cs)
    ensures var offs := Offsets(b, cs);
      forall i | 0 <= i < |offs| ::
        && offs[i] + 3 <= end
        && table[offs[i]] == Labels(cs)[i] as int
        && table[offs[i] + 2] == Codes(cs)[i]
  {
    var offs := Offsets(b, cs);
    forall i | 0 <= i < |offs|
      ensures offs[i] + 3 <= end
      ensures table[offs[i]] == Labels(cs)[i] as int
      ensures table[offs[i] + 2] == Codes(cs)[i]
    {
      RecordInTable(table, b, end, cs, i);
    }
  }

  /** Each sibling but the last has a width leading to the next one; the
      last one has width 0. */
  lemma WidthsLink(table: seq<int>, b: nat, end: nat, cs: seq<Trie>)
    requires Embeds(table, b, end, cs)
    ensures var offs := Offsets(b, cs);
      && (forall i | 0 <= i < |offs| - 1 ::
            offs[i] + 3 <= end && offs[i] < offs[i + 1] && table[offs[i] + 1] == offs[i + 1] - offs[i])
      && (|offs| > 0 ==> offs[|offs| - 1] + 3 <= end && table[offs[|offs| - 1] + 1] == 0)
  {
    var offs := Offsets(b, cs);
    forall i | 0 <= i < |offs| - 1
      ensures offs[i] + 3 <= end && offs[i] < offs[i + 1] && table[offs[i] + 1] == offs[i + 1] - offs[i]
    {
      var x, y := |Block(cs, i)|, |Block(cs, i + 1)|;
      SkipToSibling(cs, i);
      assert table[b + (x + 1)] == Block(cs, |cs|)[x + 1];
      assert offs[i] == b + x && offs[i + 1] == b + y;
    }
    if |offs| > 0 {
      RecordInTable(table, b, end, cs, |cs| - 1);
    }
  }

  /** The siblings' records in the table form a sibling chain. */
  lemma SiblingsChained(table: seq<int>, b: nat, end: nat, cs: seq<Trie>)
    requires Embeds(table, b, end, cs)
    ensures Chained(table, end, Offsets(b, cs), Labels(cs), Codes(cs))
  {
    RecordsAtOffsets(table, b, end, cs);
    WidthsLink(table, b, end, cs);
  }

  /** Where the list of sibling `k` sits in `table`, the lists of its own
      children fill the rest of it, from three positions on. */
  lemma EmbedsChildren(table: seq<int>, b: nat, end: nat, cs: seq<Trie>, k: nat)
    requires Embeds(table, b, end, cs) && k < |cs|
    ensures b + |Block(cs, k + 1)| <= end
    ensures Embeds(table, b + |Block(cs, k)| + 3, b + |Block(cs, k + 1)|, cs[k].children)
  {
    var all, x := Block(cs, |cs|), |Block(cs, k)|;
    var inner := Block(cs[k].children, |cs[k].children|);
    assert x + 3 + |inner| == |Block(cs, k + 1)| <= |all| by { ChildInner(cs, k); }
    forall i | 0 <= i < |inner|
      ensures table[b + x + 3 + i] == inner[i]
    {
      assert all[x + 3 + i] == inner[i] by { ChildInner(cs, k); }
      assert table[b + (x + 3 + i)] == all[x + 3 + i];
    }
  }

  /** The range the decoder gives the children of sibling `k` is exactly
      the part of its list after its record. */
  lemma ChildrenRange(table: seq<int>, b: nat, end: nat, cs: seq<Trie>, k: nat)
    requires Embeds(table, b, end, cs) && k < |cs|
    ensures b + |Block(cs, k)| + 3 <= end
    ensures ChildrenEnd(table, b + |Block(cs, k)|, end) == b + |Block(cs, k + 1)|
  {
    RecordInTable(table, b, end, cs, k);
    assert b + |Block(cs, k + 1)| <= end by { ChildInner(cs, k); }
    if !Last(cs, k) {
      assert |Block(cs, k)| + |Fill(cs[k])| == |Block(cs, k + 1)| by {
        ChildList(cs, k);
      }
    } else {
      assert b + |Block(cs, k + 1)| == end;
    }
  }

  /** The scan of the sibling lists `Node.fill` writes stops at the record
      of the first sibling holding `c`, and finds nothing when none does. */
  lemma ScanEmbedded(table: seq<int>, b: nat, end: nat, cs: seq<Trie>, c: char)
    requires Embeds(table, b, end, cs)
    ensures var k := FirstIndex(Labels(cs), c);
      FindSibling(table, b, end, c as int) == if k == |cs| then None else Some(b + |Block(cs, k)|)
  {
    if cs == [] {
      assert b == end;
    } else {
      var offs := Offsets(b, cs);
      SiblingsChained(table, b, end, cs);
      assert offs[0] == b;
      if FirstIndex(Labels(cs), c) == |cs| {
        ScanMiss(table, end, offs, Labels(cs), Codes(cs), c, 0);
      } else {
        ScanChain(table, end, offs, Labels(cs), Codes(cs), c, 0);
      }
    }
  }

  /** Past the record of sibling `k`, `Match` goes on among the lists of
      its children, which fill the rest of sibling `k`'s list. */
  lemma MatchDescends(table: seq<int>, b: nat, end: nat, cs: seq<Trie>, key: string)
    requires Embeds(table, b, end, cs) && |key| > 1
    requires FirstIndex(Labels(cs), key[0]) < |cs|
    ensures var k := FirstIndex(Labels(cs), key[0]);
      var p, e := b + |Block(cs, k)| + 3, b + |Block(cs, k + 1)|;
      && Embeds(table, p, e, cs[k].children)
      && Match(table, b, end, key) == Match(table, p, e, key[1..])
  {
    var k := FirstIndex(Labels(cs), key[0]);
    ScanEmbedded(table, b, end, cs, key[0]);
    ChildrenRange(table, b, end, cs, k);
    EmbedsChildren(table, b, end, cs, k);
  }

  /** The children's lists of sibling `k` fill some range, and `Match`
      goes on there with the rest of the key. */
  lemma MatchDeeper(table: seq<int>, b: nat, end: nat, cs: seq<Trie>, key: string)
    requires Embeds(table, b, end, cs) && |key| > 1
    requires FirstIndex(Labels(cs), key[0]) < |cs|
    ensures exists p, e :: && Embeds(table, p, e, cs[FirstIndex(Labels(cs), key[0])].children)
                           && Match(table, b, end, key) == Match(table, p, e, key[1..])
  {
    MatchDescends(table, b, end, cs, key);
  }

  /** Following `key` from a node whose children's lists fill `[b, end)`
      reaches a record exactly when the node holds `key`, and that record
      carries the result code of the node `key` leads to. */
  lemma {:induction false} MatchEmbedded(table: seq<int>, b: nat, end: nat, t: Trie, key: string)
    requires Embeds(table, b, end, t.children) && key != []
    ensures Match(table, b, end, key).Some? <==> Has(t, key)
    ensures Has(t, key) ==> table[Match(table, b, end, key).value + 2] == Code(Get(t, key))
    decreases |key|
  {
    var cs := t.children;
    var k := FirstIndex(Labels(cs), key[0]);
    if k == |cs| {
      ScanEmbedded(table, b, end, cs, key[0]);
    } else if |key| == 1 {
      ScanEmbedded(table, b, end, cs, key[0]);
      RecordInTable(table, b, end, cs, k);
      assert key[1..] == [];
    } else {
      MatchDeeper(table, b, end, cs, key);
      var p, e :| Embeds(table, p, e, cs[k].children) && Match(table, b, end, key) == Match(table, p, e, key[1..]);
      MatchEmbedded(table, p, e, cs[k], key[1..]);
    }
  }

  /** Round trip: reading a non-empty key back from the table `Tree.fill`
      produces finds a record exactly when the tree holds the key, and the
      record's third field is the result code of the node the key leads
      to. */
  lemma RoundTrip(t: Trie, key: string)
    ensures Decode(TreeFill(t), key) == if key != [] && Has(t, key) then Some(Code(Get(t, key))) else None
  {
    if key != [] {
      var table := TreeFill(t);
      assert Embeds(table, 0, |table|, t.children) by {
        FillHeader(t, false);
        assert table == Block(t.children, |t.children|);
      }
      MatchEmbedded(table, 0, |table|, t, key);
    }
  }
}
