/**
  The tree `createCTable` builds from a whole map, as a value.

  `createCTable` starts from a root holding '-' and inserts the keys of its
  map in the order `ents.keySet()` yields them, each with the value the map
  holds for it.  That order is the hash map's, which the model does not fix:
  it is the parameter `keys`.  The lemmas say what the finished tree holds,
  and that it is the same tree whatever the order.
*/
module Builder {
  import opened Wrappers
  import opened Tries
  import opened Table
  import opened Decoder

  /** The root `new Tree("-")` creates. */
  const RootData: char := '-'

  /** The tree after the keys `keys` have been inserted in order. */
  function Build(keys: seq<string>, ents: map<string, int>): (t: Trie)
    requires forall k | k in keys :: k in ents
    ensures t.data == RootData
  {
    if keys == [] then Leaf(RootData)
    else
      var key := keys[|keys| - 1];
      Insert(Build(keys[..|keys| - 1], ents), key, ents[key])
  }

  /** `p` begins some key of `keys`. */
  predicate Begins(p: string, keys: seq<string>)
  {
    exists j | 0 <= j < |keys| :: p <= keys[j]
  }

  lemma {:induction false} BuildSorted(keys: seq<string>, ents: map<string, int>)
    requires forall k | k in keys :: k in ents
    ensures Sorted(Build(keys, ents))
  {
    if keys != [] {
      var key := keys[|keys| - 1];
      BuildSorted(keys[..|keys| - 1], ents);
      InsertSorted(Build(keys[..|keys| - 1], ents), key, ents[key]);
    }
  }

  /** The finished tree holds exactly the prefixes of the keys. */
  lemma {:induction false} BuildHas(keys: seq<string>, ents: map<string, int>, p: string)
    requires forall k | k in keys :: k in ents
    ensures Has(Build(keys, ents), p) <==> p == [] || Begins(p, keys)
  {
    if keys == [] {
      HasLeaf(RootData, p);
    } else {
      var n := |keys| - 1;
      var init := keys[..n];
      BuildHas(init, ents, p);
      BuildSorted(init, ents);
      InsertHas(Build(init, ents), keys[n], ents[keys[n]], p);
      if Begins(p, keys) && !(p <= keys[n]) {
        var j :| 0 <= j < |keys| && p <= keys[j];
        assert j < n && keys[j] == init[j];
      }
      if Begins(p, init) {
        var j :| 0 <= j < |init| && p <= init[j];
        assert keys[j] == init[j];
      }
    }
  }

  /** The node a key leads to holds the map's value for it; every other
      node holds none. */
  lemma {:induction false} BuildGet(keys: seq<string>, ents: map<string, int>, p: string)
    requires forall k | k in keys :: k in ents
    ensures Get(Build(keys, ents), p) == if p in keys then Some(ents[p]) else None
  {
    if keys == [] {
      GetLeaf(RootData, p);
    } else {
      var n := |keys| - 1;
      var init := keys[..n];
      BuildGet(init, ents, p);
      BuildSorted(init, ents);
      InsertGet(Build(init, ents), keys[n], ents[keys[n]], p);
      if p in keys && p != keys[n] {
        var j :| 0 <= j < |keys| && keys[j] == p;
        assert init[j] == p;
      }
      if p in init {
        var j :| 0 <= j < |init| && init[j] == p;
        assert keys[j] == p;
      }
    }
  }

  /** The finished tree depends only on which keys there are, not on the
      order in which the hash map hands them out. */
  lemma BuildOrderFree(keys1: seq<string>, keys2: seq<string>, ents: map<string, int>)
    requires forall k | k in keys1 :: k in ents
    requires forall k :: k in keys1 <==> k in keys2
    ensures Build(keys1, ents) == Build(keys2, ents)
  {
    var t1, t2 := Build(keys1, ents), Build(keys2, ents);
    BuildSorted(keys1, ents);
    BuildSorted(keys2, ents);
    forall p ensures Has(t1, p) <==> Has(t2, p) {
      BuildHas(keys1, ents, p);
      BuildHas(keys2, ents, p);
      if Begins(p, keys1) {
        var j :| 0 <= j < |keys1| && p <= keys1[j];
        assert keys1[j] in keys2;
        var j2 :| 0 <= j2 < |keys2| && keys2[j2] == keys1[j];
      }
      if Begins(p, keys2) {
        var j :| 0 <= j < |keys2| && p <= keys2[j];
        assert keys2[j] in keys1;
        var j1 :| 0 <= j1 < |keys1| && keys1[j1] == keys2[j];
      }
    }
    forall p ensures Get(t1, p) == Get(t2, p) {
      BuildGet(keys1, ents, p);
      BuildGet(keys2, ents, p);
    }
    SameContentSameTree(t1, t2);
  }

  /** What the table `createCTable` renders answers for each string: a
      non-empty string finds a record exactly when it begins some key; the
      record's result is the key's value for a key and 0 for a proper
      prefix of keys only. */
  lemma TableAnswers(keys: seq<string>, ents: map<string, int>, p: string)
    requires forall k | k in keys :: k in ents
    ensures Decode(TreeFill(Build(keys, ents)), p) ==
      if p != [] && Begins(p, keys) then Some(if p in keys then ents[p] else 0) else None
  {
    var t := Build(keys, ents);
    RoundTrip(t, p);
    BuildHas(keys, ents, p);
    BuildGet(keys, ents, p);
    GetSub(t, p);
  }

  /** The table holds three integers for every node but the root, and the
      tree has at most one node per character of the keys, plus the root. */
  lemma {:induction false} BuildSize(keys: seq<string>, ents: map<string, int>)
    requires forall k | k in keys :: k in ents
    ensures |TreeFill(Build(keys, ents))| == 3 * (Size(Build(keys, ents)) - 1)
    ensures Size(Build(keys, ents)) <= 1 + TotalLength(keys)
  {
    TreeFillLength(Build(keys, ents));
    if keys != [] {
      var n := |keys| - 1;
      BuildSize(keys[..n], ents);
      InsertSize(Build(keys[..n], ents), keys[n], ents[keys[n]]);
    }
  }

  function TotalLength(keys: seq<string>): nat
  {
    if keys == [] then 0 else TotalLength(keys[..|keys| - 1]) + |keys[|keys| - 1]|
  }

  /** The first two entries of the source's map, "&amp;" and "&apos;",
      each read back their value from the table. */
  lemma AmpAposKeys(keys: seq<string>, ents: map<string, int>)
    requires keys == ["&amp;", "&apos;"] && ents == map["&amp;" := 38, "&apos;" := 39]
    ensures forall k | k in keys :: k in ents
    ensures Decode(TreeFill(Build(keys, ents)), "&amp;") == Some(38)
    ensures Decode(TreeFill(Build(keys, ents)), "&apos;") == Some(39)
  {
    assert "&amp;" <= keys[0] && "&apos;" <= keys[1];
    TableAnswers(keys, ents, "&amp;");
    TableAnswers(keys, ents, "&apos;");
  }

  /** The proper prefixes of "&amp;" and "&apos;" reach records holding 0:
      the two keys run through the same nodes for '&' and 'a', and part at
      'm' and 'p'. */
  lemma AmpAposShared(keys: seq<string>, ents: map<string, int>)
    requires keys == ["&amp;", "&apos;"] && ents == map["&amp;" := 38, "&apos;" := 39]
    ensures forall k | k in keys :: k in ents
    ensures Decode(TreeFill(Build(keys, ents)), "&") == Some(0)
    ensures Decode(TreeFill(Build(keys, ents)), "&a") == Some(0)
    ensures Decode(TreeFill(Build(keys, ents)), "&am") == Some(0)
    ensures Decode(TreeFill(Build(keys, ents)), "&ap") == Some(0)
  {
    assert "&" <= keys[0] && "&a" <= keys[0] && "&" !in keys && "&a" !in keys;
    assert "&am" <= keys[0] && "&ap" <= keys[1] && "&am" !in keys && "&ap" !in keys;
    TableAnswers(keys, ents, "&");
    TableAnswers(keys, ents, "&a");
    TableAnswers(keys, ents, "&am");
    TableAnswers(keys, ents, "&ap");
  }

  /** A string that leaves the tree reaches no record. */
  lemma AmpAposMiss(keys: seq<string>, ents: map<string, int>)
    requires keys == ["&amp;", "&apos;"] && ents == map["&amp;" := 38, "&apos;" := 39]
    ensures forall k | k in keys :: k in ents
    ensures Decode(TreeFill(Build(keys, ents)), "&b") == None
  {
    forall j | 0 <= j < |keys|
      ensures !("&b" <= keys[j])
    {
      assert keys[j][1] == 'a' != "&b"[1];
    }
    TableAnswers(keys, ents, "&b");
  }
}
