# The entity-matching trie of `FSM.java`

`sonospauseIR/FSM.java` turns a map from entity strings (`"&amp;"`,
`"&apos;"`, …) to character codes into a flat table of integers. A firmware
matcher walks that table one input character at a time. `createCTable`
builds a prefix tree (`Tree`, whose nodes are `Tree.Node`) by walking each key
from the root:

- `findChild` finds the child for the next character.
- `addChild` adds the child when it is missing, then re-sorts the children.
- `setRes` stores the key's value at the last node.

`Node.fill` then flattens the tree in pre-order. Each node becomes one record
of three integers:

- its character;
- its width, the distance to the next sibling's record, or 0 for the last
  sibling;
- its result, 0 when the node has none.

`Tree.fill` drops the root's own record.

The project has seven modules, one file each:

- **`Wrappers`** (`wrappers.dfy`): `Option`, which models Java's `null`.
- **`Tries`** (`tries.dfy`): the tree as a value (`Trie`), and the insertion
  loop as the function `Insert`. Lemmas say what an inserted tree contains
  (`Has`, `Get`), that children stay sorted, how the size grows, and that
  insertions of distinct keys commute.
- **`Table`** (`table.dfy`): `Node.fill` and `Tree.fill` as functions. The
  layout lemmas state each record's position and contents, and that the
  table is the tree's pre-order rendering.
- **`Decoder`** (`decoder.dfy`): a reader for the table that follows the
  sibling widths, as its consumer does. `RoundTrip` proves that the table
  answers exactly the questions the tree answers.
- **`Arena`** (`arena.dfy`): the heap of nodes read back as values. Each
  node allocated gets an index. `Abs` turns the slot at an index into a
  `Trie`. The lemmas state what one `addChild` or `setRes` does to every
  subtree.
- **`Builder`** (`builder.dfy`): the tree built from a whole map, in any key
  order. This covers what the finished table holds, and the first two
  entries of the source's own map.
- **`FSM`** (`fsm.dfy`): the Java classes on the heap.
  - `Node` has a mutable `children` list and a mutable `res`, and the
    methods `FindChild`, `AddChild`, `SetRes` and `Fill`.
  - `Tree` owns the root and, as ghost state, every node it allocated.
    `Tree.Insert` is the body of the key loop of `createCTable`, and is
    proved to compute `Tries.Insert`.
  - `CreateTable` is the key loop followed by `Tree.fill`.

The model deliberately keeps the source's own choices:

- The empty key sets the root's result, which `Tree.fill` then drops.
- A `null` result and a stored 0 both become 0 in the table.

## Model

| member | source | states |
|---|---|---|
| Tries.CompareTo | sonospauseIR/FSM.java:153-156 | `compareTo` of two one-character nodes is negative, zero or positive exactly when the first character is smaller than, equal to or greater than the second |
| Tries.FirstIndex | sonospauseIR/FSM.java:119-124 | `findChild`'s scan: the index it stops at holds the character and no earlier child does; it is the list length when there is no such child |
| Tries.FirstIndexIs | sonospauseIR/FSM.java:119-124 | any index with `findChild`'s stopping property is the one `FirstIndex` returns |
| Tries.FirstIndexIn | sonospauseIR/FSM.java:119-124 | `findChild` finds a child exactly when the character is among the children's characters |
| Tries.FirstIndexAscending | sonospauseIR/FSM.java:119-124 | in an ascending child list, `findChild` of a child's own character finds that child |
| Tries.InsertPos | sonospauseIR/FSM.java:110-111 | where `Collections.sort` places the new child: every child from there on compares greater, and the one before it does not |
| Tries.InsertPosPass | sonospauseIR/FSM.java:111 | the new child moves past an earlier child that compares greater |
| Tries.InsertPosStop | sonospauseIR/FSM.java:111 | the new child stops behind a child that does not compare greater, or at the front |
| Tries.InsertPosBounds | sonospauseIR/FSM.java:110-111 | in an ascending list without the character, every child before the position is smaller and every child from it on is greater |
| Tries.LabelsAddChild | sonospauseIR/FSM.java:108-113 | after `addChild` the children's characters are the old ones with the new character inserted at its sorted position |
| Tries.AscendingInsert | sonospauseIR/FSM.java:110-111 | inserting a character between the smaller and the greater ones keeps a list strictly ascending |
| Tries.AddChildPermutes | sonospauseIR/FSM.java:108-113 | `addChild` then sort is a permutation of the old children plus the new empty node |
| Tries.AddChildSorted | sonospauseIR/FSM.java:108-113 | in a sorted child list without the character, `addChild` keeps it strictly ascending, permutes old children plus the new node, and puts the new node at its sorted position |
| Tries.FirstIndexInserted | sonospauseIR/FSM.java:108-124 | after the insertion `findChild` finds the new child at its position, and every other character's child at its old index, shifted by one if it lay after the new child |
| Tries.Descend | sonospauseIR/FSM.java:47-49 | one step of the walk yields a child list and an index holding a child for the character |
| Tries.DescendFind | sonospauseIR/FSM.java:47-49 | the step reuses the first matching child and leaves the list alone, or adds a new empty child; any other character's child stays findable |
| Tries.InsertHas | sonospauseIR/FSM.java:44-52 | after inserting a key, the tree holds a path exactly when it held it before or the path is a prefix of the key |
| Tries.InsertGet | sonospauseIR/FSM.java:44-52 | after inserting a key with a value, looking up the key gives the value and every other path gives what it gave before |
| Tries.InsertSorted | sonospauseIR/FSM.java:108-113 | insertion keeps every node's children strictly ascending |
| Tries.InsertThenFind | sonospauseIR/FSM.java:44-52 | walking the key after its insertion reaches a node holding the key's value |
| Tries.InsertExisting | sonospauseIR/FSM.java:46-52 | inserting a key that is already a path only overwrites the result of the node it reaches |
| Tries.ReinsertKeepsShape | sonospauseIR/FSM.java:46-52 | the same, and the tree keeps its number of nodes |
| Tries.InsertSize | sonospauseIR/FSM.java:46-50 | insertion adds one node per character of the key beyond the part already in the tree |
| Tries.MatchedHas | sonospauseIR/FSM.java:46-50 | the walk matches the whole key exactly when the key is already a path of the tree |
| Tries.InsertCommutes | sonospauseIR/FSM.java:44 | two insertions of distinct keys give the same tree in either order |
| Tries.SameContentSameTree | sonospauseIR/FSM.java:44-52 | two sorted trees with the same root character, the same paths and the same results are equal |
| Tries.InsertStep | sonospauseIR/FSM.java:46-50 | one step of the walk moves the rest of the insertion into the found or added child, leaving the result the same |
| Tries.HasLeaf | sonospauseIR/FSM.java:109 | a fresh node holds only the empty path |
| Tries.GetLeaf | sonospauseIR/FSM.java:109 | a fresh node holds no result |
| Tries.GetSub | sonospauseIR/FSM.java:119-124 | looking up a path gives the result of the node the path reaches, and nothing off the tree |
| Tries.HasPrefix | sonospauseIR/FSM.java:46-50 | every prefix of a path of the tree is a path of the tree |
| Tries.PlugSelf | sonospauseIR/FSM.java:46-52 | putting back the subtree a path reaches leaves the tree unchanged |
| Tries.PlugSub | sonospauseIR/FSM.java:46-52 | after a subtree is replaced, the path reaches the new subtree, and a second replacement overrides the first |
| Tries.SumSizesAddChild | sonospauseIR/FSM.java:108-113 | `addChild` adds exactly one node to the children's subtrees |
| Table.FillHeader | sonospauseIR/FSM.java:137-151 | a node's list starts with its character, its width (0 for the last sibling, else the list's length) and its result or 0, and then the children's lists follow |
| Table.ListLength | sonospauseIR/FSM.java:137-151 | a node's list has three integers per node of its subtree |
| Table.TreeFillLength | sonospauseIR/FSM.java:80-83 | `Tree.fill` has three integers per node except the root |
| Table.ListIsPreOrder | sonospauseIR/FSM.java:137-151 | a node's list is its subtree's records in pre-order, each with its last-sibling flag |
| Table.BlockIsPreOrder | sonospauseIR/FSM.java:143-148 | the children's concatenated lists are their subtrees' records in pre-order |
| Table.TreeFillRecord | sonospauseIR/FSM.java:80-83 | record `j` of `Tree.fill` is the record of the pre-order node `j + 1` (the root is node 0) |
| Table.RenderAppend | sonospauseIR/FSM.java:147 | rendering records distributes over concatenation |
| Table.RenderAt | sonospauseIR/FSM.java:137-151 | in a rendered list, record `j` occupies positions `3j` to `3j+2` |
| Table.ChildRecord | sonospauseIR/FSM.java:143-148 | in the children's concatenated lists, child `j`'s record holds its character, its width (0 for the last child) and its result |
| Table.ChildList | sonospauseIR/FSM.java:143-148 | child `j`'s list sits, unchanged but for the last child's width, right after the lists of the children before it |
| Table.SkipToSibling | sonospauseIR/FSM.java:143-149 | adding a child's width to its record's position gives the next sibling's record |
| Table.ChildInner | sonospauseIR/FSM.java:143-148 | inside child `k`'s list, its own children's lists follow its record |
| Table.BlockPrefix | sonospauseIR/FSM.java:143-148 | the lists of the first `j` children are a prefix of the lists of the first `n` |
| Decoder.FindSibling | sonospauseIR/FSM.java:143-149 | a sibling scan that stops does so on a record of the character, within the list's range |
| Decoder.Match | sonospauseIR/FSM.java:137-151 | a walk of the table that succeeds ends on a whole record inside the table |
| Decoder.ScanChain | sonospauseIR/FSM.java:143-149 | following the widths along a sibling chain finds the first sibling carrying the character |
| Decoder.ScanMiss | sonospauseIR/FSM.java:143-149 | following the widths along a chain without the character finds nothing |
| Decoder.RecordInTable | sonospauseIR/FSM.java:137-151 | wherever a child list is laid out in the table, child `i`'s record holds its character, width and result |
| Decoder.WidthsLink | sonospauseIR/FSM.java:145-149 | each sibling's width leads to the next sibling's record, and the last sibling's width is 0 |
| Decoder.SiblingsChained | sonospauseIR/FSM.java:143-149 | a laid-out child list is a sibling chain the scan can follow |
| Decoder.EmbedsChildren | sonospauseIR/FSM.java:143-148 | inside a laid-out child list, each child's own child list is laid out after its record |
| Decoder.ChildrenRange | sonospauseIR/FSM.java:145-149 | a record's width, or the end of the list for the last sibling, bounds the record's child list |
| Decoder.ScanEmbedded | sonospauseIR/FSM.java:143-149 | scanning a laid-out child list for a character finds the record of the child `findChild` would return, or nothing when there is none |
| Decoder.MatchDescends | sonospauseIR/FSM.java:137-151 | after the first character, the walk of the table continues in the found child's own child list |
| Decoder.MatchEmbedded | sonospauseIR/FSM.java:137-151 | walking a key through a laid-out child list succeeds exactly when the key is a path of the tree, and ends on a record holding the key's result |
| Decoder.RoundTrip | sonospauseIR/FSM.java:80-83 | reading a non-empty string from `Tree.fill`'s table gives the result of the node it reaches, or 0 if that node has none, exactly when the string is a path of the tree; otherwise nothing |
| Arena.AbsChildren | sonospauseIR/FSM.java:91-94 | the value of a node's subtree has as children the values of its child nodes, in list order |
| Arena.AbsSorted | sonospauseIR/FSM.java:108-113 | in a well-formed heap every subtree has strictly ascending children |
| Arena.Frame | sonospauseIR/FSM.java:108-135 | changing one node leaves unchanged every subtree that does not contain it |
| Arena.Ancestors | sonospauseIR/FSM.java:45-50 | changing the node a path reaches replaces exactly that subtree inside each node on the path |
| Arena.PathSub | sonospauseIR/FSM.java:45-50 | the node a walk reaches is the subtree the walked string reaches |
| Arena.PathStep | sonospauseIR/FSM.java:47-50 | each step of a walk goes to the first child holding the next character, as `findChild` does |
| Arena.PathKept | sonospauseIR/FSM.java:45-50 | changing the node at the end of a walk keeps the walk valid |
| Arena.PathExtend | sonospauseIR/FSM.java:47-50 | when `findChild` finds a child, the walk extends to it |
| Arena.AddKidSlots | sonospauseIR/FSM.java:108-113 | the parent gains the new node at its sorted position, the new node is empty, and no other node changes |
| Arena.AddKidLabels | sonospauseIR/FSM.java:108-113 | the parent's children's characters gain the new one at its sorted position; no other node's list changes |
| Arena.AddKidWF | sonospauseIR/FSM.java:108-113 | adding a character the node does not have keeps the heap well formed |
| Arena.AddKidOldChild | sonospauseIR/FSM.java:108-113 | the old children's subtrees are not changed by `addChild` |
| Arena.AddKidAbs | sonospauseIR/FSM.java:108-113 | the new node is an empty leaf, and the parent's subtree becomes the old one with `AddChild` applied to its children |
| Arena.SetResAbs | sonospauseIR/FSM.java:133-135 | `setRes` keeps the heap well formed and changes only the node's own result |
| Arena.StepFound | sonospauseIR/FSM.java:47-50 | when `findChild` finds a child, moving to it keeps the rest of the insertion to do unchanged |
| Arena.StepAddedPath | sonospauseIR/FSM.java:47-50 | when `findChild` finds nothing, the character is absent and the added child extends the walk |
| Arena.StepAdded | sonospauseIR/FSM.java:48-50 | when `findChild` finds nothing, `addChild` and the move keep the rest of the insertion unchanged |
| Arena.StepDone | sonospauseIR/FSM.java:52 | when the key is used up, `setRes` on the current node completes the insertion |
| Builder.BuildSorted | sonospauseIR/FSM.java:43-53 | the built tree has strictly ascending children everywhere |
| Builder.BuildHas | sonospauseIR/FSM.java:43-53 | the built tree holds exactly the empty path and the prefixes of the keys |
| Builder.BuildGet | sonospauseIR/FSM.java:43-53 | the node a key reaches holds the map's value for it, and every other node holds none |
| Builder.BuildOrderFree | sonospauseIR/FSM.java:44 | the built tree is the same whatever order the map hands out its keys |
| Builder.TableAnswers | sonospauseIR/FSM.java:42-56 | reading the table gives a non-empty string's value if it is a key, 0 if it is only a prefix of a key, and nothing otherwise |
| Builder.BuildSize | sonospauseIR/FSM.java:43-56 | the table has three integers per node except the root; the tree has at most one node per key character plus the root |
| Builder.AmpAposKeys | sonospauseIR/FSM.java:23-24 | from the map `"&amp;"`→38, `"&apos;"`→39, the table gives back 38 and 39 for the two keys |
| Builder.AmpAposShared | sonospauseIR/FSM.java:23-24 | in that table the shared prefixes `"&"` and `"&a"`, and the prefixes `"&am"` and `"&ap"` where the two keys part, reach records holding 0 |
| Builder.AmpAposMiss | sonospauseIR/FSM.java:23-24 | in that table `"&b"` reaches no record |
| FSM.Node.constructor | sonospauseIR/FSM.java:86-90 | a new node has its character, no children and a `null` result |
| FSM.Node.FindChild | sonospauseIR/FSM.java:119-127 | returns `null` exactly when no child has the character, and otherwise the first child that has it |
| FSM.Node.SortPos | sonospauseIR/FSM.java:111 | the scan from the end finds the position where the sort places the new child |
| FSM.Node.AddChild | sonospauseIR/FSM.java:108-117 | returns a fresh empty node with the character, inserted at its sorted position among the old children; the result field is untouched, and a strictly ascending list stays so |
| FSM.Node.SetRes | sonospauseIR/FSM.java:133-135 | sets the result and leaves the children alone |
| FSM.Node.Fill | sonospauseIR/FSM.java:137-151 | the list built in place, with the last child's width cleared and the header back-patched, is the `fill` list of the node's subtree |
| FSM.Tree.constructor | sonospauseIR/FSM.java:76-78 | a new tree is a single root node with the given character |
| FSM.Tree.Insert | sonospauseIR/FSM.java:45-52 | one pass of the key loop turns the tree into `Tries.Insert` of the old tree, and keeps every node allocated before |
| FSM.Tree.Step | sonospauseIR/FSM.java:46-50 | one character of the walk: find or add the child and move to it, keeping the rest of the insertion the same |
| FSM.Tree.AddChildTo | sonospauseIR/FSM.java:48-49 | `addChild` on a node of the tree changes the heap as `AddKid` says, with one fresh node |
| FSM.Tree.SetResOn | sonospauseIR/FSM.java:52 | `setRes` on a node of the tree changes the heap as `SetResAt` says |
| FSM.Tree.Fill | sonospauseIR/FSM.java:80-83 | `Tree.fill` is the root's list without its first record |
| FSM.CreateTable | sonospauseIR/FSM.java:42-56 | the table is the flattened tree built from the map's keys in the given order, and every non-empty key reads back its value |

## Left out

- `main` (lines 22-40) is not modelled. It re-decodes strings through
  UTF-8 and ISO-8859-1, and it prints. Only its first two entries appear,
  as the `AmpApos` lemmas.
- The hexadecimal rendering of the table (lines 54-67) is not modelled.
  The `case 0` falls through, so every integer becomes `\x<hex>`, and the
  conversion goes through `BigInteger`. `FSM.CreateTable` returns the list
  of integers that this loop reads.
- The hash map's key order is not fixed: `CreateTable` takes it as the
  parameter `keys`. `Builder.BuildOrderFree` shows that the order does not
  matter.
- `null` values in the map are not modelled. The map holds plain integers.
- The `parent` field and the getters `getData`, `getParent`, `getChildren`
  and `getRes` are not modelled. Nothing in the core reads them.
- A node's `data` is a one-character `String` in the source and a `char`
  here. `addChild(char)` and `findChild(char)` wrap the character in such
  a string, so the two agree. Java's `char` is a UTF-16 unit; Dafny's
  `char` is a Unicode scalar value. No encoding is modelled.
- FSM.Node.AddChild: models `Collections.sort` only on a child list that
  is sorted before the add. The tree keeps every list sorted and
  duplicate-free, so the new node is inserted at its place. On an arbitrary
  list the sort would also reorder the old children.
- Integer widths: widths and results are unbounded integers. Java's
  `Integer` would overflow only past 2^31 - 1 table entries.
- The empty key, and a key whose value is 0: the code accepts both, and the
  model follows it. The empty key stores its value at the root, and
  `Tree.fill` drops the root's record, so the value is lost. A stored 0
  looks in the table like a node without a value. `Decoder.Decode` answers
  nothing for the empty string. A caller might expect the empty key to be
  rejected; `createCTable` accepts it.
- `Decoder` is not part of the source. It is a reference reader of the
  table, written to state what the table means.
