/** `prepare_tree_data` (ocr_runner.py): the rows of the comparison table,
    whose attributes are flattened keys such as `invoice_items_0_price`, are
    turned into a nested tree for the grid's tree view. Each attribute is
    split on every `_`; the parts are looked up level by level, starting at
    the top-level list, and a node is appended to the current level's list
    whenever no node of that name is there yet.

    The lists are updated in place and shared between the nodes that hold
    them, so they are objects (`NodeList`). The proofs talk about a ghost
    snapshot `H` of the lists' contents (a `Heap`), which the methods keep
    in step with the objects (`Agrees`). */
module TreeBuilder {
  import opened Text
  import opened Json
  import opened Compare

  /** A Python list of node dicts, appended to in place. */
  class NodeList {
    var items: seq<Node>

    constructor ()
      ensures items == []
    {
      items := [];
    }
  }

  /** What a node holds besides its `Attribute`: the row's two values and
      its verdict (a leaf), or a `children` list (a branch). */
  datatype Content =
    | Values(withExtra: JsonValue, withoutExtra: JsonValue, comparison: Verdict)
    | Children(list: NodeList)

  datatype Node = Node(attribute: string, content: Content)

  /** The attribute split into tree levels: `row['Attribute'].split('_')`. */
  function PathOf(row: Row): (parts: seq<string>)
    ensures |parts| >= 1
  {
    Split(row.attribute, '_')
  }

  /** The leaf node a row gets when its last part is new. */
  function LeafFor(row: Row): Node
  {
    var parts := PathOf(row);
    Node(parts[|parts| - 1], Values(row.withExtra, row.withoutExtra, row.comparison))
  }

  /** Position of the first node named `a`, or -1: the generator
      `next((item for item in current_level if ...), None)`. */
  function Find(nodes: seq<Node>, a: string): (k: int)
    ensures -1 <= k < |nodes|
    ensures k >= 0 ==> nodes[k].attribute == a
    ensures forall j :: 0 <= j < |nodes| && (k < 0 || j < k) ==> nodes[j].attribute != a
  {
    if nodes == [] then -1
    else if nodes[0].attribute == a then 0
    else
      var k := Find(nodes[1..], a);
      if k < 0 then -1 else k + 1
  }

  function Attributes(nodes: seq<Node>): (names: seq<string>)
    ensures |names| == |nodes|
  {
    seq(|nodes|, k requires 0 <= k < |nodes| => nodes[k].attribute)
  }

  /** No two nodes of a list share an attribute. */
  predicate DistinctNames(nodes: seq<Node>)
  {
    forall j, k :: 0 <= j < k < |nodes| ==> nodes[j].attribute != nodes[k].attribute
  }

  lemma FindIsMembership(nodes: seq<Node>, a: string)
    ensures Find(nodes, a) >= 0 <==> a in Attributes(nodes)
  {
    var k := Find(nodes, a);
    if k >= 0 {
      assert Attributes(nodes)[k] == a;
    } else {
      assert forall j :: 0 <= j < |nodes| ==> Attributes(nodes)[j] != a;
    }
  }

  /** Appending to a list does not move the first match of a name already in it. */
  lemma FindExtends(nodes: seq<Node>, more: seq<Node>, a: string)
    requires Find(nodes, a) >= 0
    ensures Find(nodes + more, a) == Find(nodes, a)
  {
    assert forall j :: 0 <= j < |nodes| ==> (nodes + more)[j] == nodes[j];
  }

  /** A node appended under a name not yet in the list is what the name finds. */
  lemma FindAppended(nodes: seq<Node>, n: Node)
    requires Find(nodes, n.attribute) < 0
    ensures Find(nodes + [n], n.attribute) == |nodes|
  {
    assert forall j :: 0 <= j < |nodes| ==> (nodes + [n])[j] == nodes[j];
    assert (nodes + [n])[|nodes|] == n;
  }

  /** Snapshot of the contents of every list the builder has allocated. */
  type Heap = map<NodeList, seq<Node>>

  /** The snapshot matches the objects. */
  ghost predicate Agrees(H: Heap)
    reads H.Keys
  {
    forall L :: L in H ==> L.items == H[L]
  }

  /** Every branch's `children` list is part of the snapshot. */
  ghost predicate Closed(H: Heap)
  {
    forall L, k :: L in H && 0 <= k < |H[L]| && H[L][k].content.Children? ==> H[L][k].content.list in H
  }

  /** The well-formedness `prepare_tree_data` keeps: the lists are closed
      under `children`, within any list the names are distinct, and the
      top-level list `root` is nobody's `children`. */
  ghost predicate Valid(H: Heap, root: NodeList)
  {
    && root in H
    && Closed(H)
    && (forall L :: L in H ==> DistinctNames(H[L]))
    && (forall L, k :: L in H && 0 <= k < |H[L]| && H[L][k].content.Children? ==> H[L][k].content.list != root)
  }

  /** Lists only ever grow: every old list keeps its old contents as a prefix. */
  ghost predicate Grows(H: Heap, H': Heap)
  {
    && H.Keys <= H'.Keys
    && forall L :: L in H ==> H[L] <= H'[L]
  }

  /** Where a lookup of a path ends. */
  datatype Lookup =
    | At(level: NodeList)   // the list the next part would be looked up in
    | Found(node: Node)     // the node named by the path's last part
    | Blocked               // an earlier part names a leaf, which has no children
    | Missing               // some part is not in the list it is looked up in

  /** Follow the first `j` parts of `parts` from `root`, through branches. */
  ghost function Descend(H: Heap, root: NodeList, parts: seq<string>, j: nat): (p: Lookup)
    requires Closed(H) && root in H && j <= |parts|
    ensures p.At? ==> p.level in H
    ensures !p.Found?
  {
    if j == 0 then At(root)
    else
      var prev := Descend(H, root, parts, j - 1);
      if !prev.At? then prev
      else
        var k := Find(H[prev.level], parts[j - 1]);
        if k < 0 then Missing
        else if H[prev.level][k].content.Children? then At(H[prev.level][k].content.list)
        else Blocked
  }

  /** Look a whole path up: the node its last part names, if every earlier
      part names a branch and every part is present. */
  ghost function Resolve(H: Heap, root: NodeList, parts: seq<string>): (r: Lookup)
    requires Closed(H) && root in H && |parts| >= 1
    ensures !r.At?
  {
    var d := Descend(H, root, parts, |parts| - 1);
    if !d.At? then d
    else
      var k := Find(H[d.level], parts[|parts| - 1]);
      if k < 0 then Missing else Found(H[d.level][k])
  }

  /** Once a lookup is blocked or missing, following more parts changes nothing. */
  lemma {:induction false} DescendSticky(H: Heap, root: NodeList, parts: seq<string>, j: nat, j2: nat)
    requires Closed(H) && root in H && j <= j2 <= |parts|
    requires !Descend(H, root, parts, j).At?
    ensures Descend(H, root, parts, j2) == Descend(H, root, parts, j)
    decreases j2
  {
    if j2 > j {
      DescendSticky(H, root, parts, j, j2 - 1);
    }
  }

  /** A part that is not where the path leads makes the whole path missing;
      a leaf before the last part blocks it. */
  lemma ResolveStops(H: Heap, root: NodeList, parts: seq<string>, j: nat)
    requires Closed(H) && root in H && j < |parts|
    requires Descend(H, root, parts, j).At?
    ensures Find(H[Descend(H, root, parts, j).level], parts[j]) < 0 ==> Resolve(H, root, parts) == Missing
    ensures j < |parts| - 1 && Descend(H, root, parts, j + 1) == Blocked ==> Resolve(H, root, parts) == Blocked
  {
    if j < |parts| - 1 && !Descend(H, root, parts, j + 1).At? {
      DescendSticky(H, root, parts, j + 1, |parts| - 1);
    }
  }

  /** Growing lists never redirect a lookup that already got somewhere. */
  lemma {:induction false} DescendGrows(H: Heap, H': Heap, root: NodeList, parts: seq<string>, j: nat)
    requires Closed(H) && Closed(H') && root in H && Grows(H, H') && j <= |parts|
    requires Descend(H, root, parts, j) != Missing
    ensures Descend(H', root, parts, j) == Descend(H, root, parts, j)
  {
    if j > 0 {
      var prev := Descend(H, root, parts, j - 1);
      assert prev != Missing;
      DescendGrows(H, H', root, parts, j - 1);
      if prev.At? {
        var level := prev.level;
        assert Find(H[level], parts[j - 1]) >= 0;
        assert H'[level] == H[level] + H'[level][|H[level]|..];
        FindExtends(H[level], H'[level][|H[level]|..], parts[j - 1]);
      }
    }
  }

  /** A path that resolves (or is blocked) resolves the same way after any growth. */
  lemma ResolveGrows(H: Heap, H': Heap, root: NodeList, parts: seq<string>)
    requires Closed(H) && Closed(H') && root in H && Grows(H, H') && |parts| >= 1
    requires Resolve(H, root, parts) != Missing
    ensures Resolve(H', root, parts) == Resolve(H, root, parts)
  {
    var last := |parts| - 1;
    DescendGrows(H, H', root, parts, last);
    var d := Descend(H, root, parts, last);
    if d.At? {
      var k := Find(H[d.level], parts[last]);
      assert H'[d.level] == H[d.level] + H'[d.level][|H[d.level]|..];
      FindExtends(H[d.level], H'[d.level][|H[d.level]|..], parts[last]);
    }
  }

  /** What one insertion does to the top-level list: nothing when a node of
      that name is there, otherwise it appends one node of that name. */
  predicate AppendedIfAbsent(before: seq<Node>, after: seq<Node>, a: string)
  {
    if Find(before, a) >= 0 then after == before
    else |after| == |before| + 1 && after[..|before|] == before && after[|before|].attribute == a
  }

  /** Adding a new empty list keeps the snapshot valid. */
  lemma ValidAddEmpty(H: Heap, root: NodeList, D: NodeList)
    requires Valid(H, root) && D !in H
    ensures Valid(H[D := []], root)
  {
  }

  /** Appending a node under a name its list lacks keeps the snapshot
      valid, when a branch's `children` is a new empty list. */
  lemma ValidAppend(H: Heap, root: NodeList, L: NodeList, n: Node, C: NodeList)
    requires Valid(H, root) && L in H && C !in H
    requires Find(H[L], n.attribute) < 0
    requires n.content.Children? ==> n.content.list == C
    ensures Valid(H[L := H[L] + [n]][C := []], root)
  {
    var H' := H[L := H[L] + [n]][C := []];
    assert forall k :: 0 <= k < |H[L]| ==> H'[L][k] == H[L][k];
    assert H'[L][|H[L]|] == n;
  }

  /** `next(...)` as the loop it is: the position of the first node named
      `part` in `level`, or -1. */
  method FindIn(level: NodeList, part: string) returns (k: int)
    ensures k == Find(level.items, part)
  {
    var j := 0;
    while j < |level.items|
      invariant 0 <= j <= |level.items|
      invariant forall m :: 0 <= m < j ==> level.items[m].attribute != part
    {
      if level.items[j].attribute == part {
        return j;
      }
      j := j + 1;
    }
    return -1;
  }

  /** What one pass of the inner loop at the list `level` does: find
      `part`; when it is absent, append a new node, a leaf with the row's
      values for the last part and otherwise a branch with a new empty
      `children` list; then move to that node's `children`, or, when the
      node is a leaf, to the new empty list `existing.get('children', [])`
      returns, which belongs to no node. */
  ghost predicate Visited(H: Heap, level: NodeList, part: string, isLast: bool, row: Row, next: NodeList, H': Heap)
    requires level in H
  {
    var k := Find(H[level], part);
    if k >= 0 && H[level][k].content.Children? then
      next == H[level][k].content.list && H' == H
    else if k >= 0 then
      next !in H && H' == H[next := []]
    else if isLast then
      next !in H && H' == H[level := H[level] + [Node(part, Values(row.withExtra, row.withoutExtra, row.comparison))]][next := []]
    else
      next !in H && H' == H[level := H[level] + [Node(part, Children(next))]][next := []]
  }

  method Visit(level: NodeList, part: string, isLast: bool, row: Row, ghost H: Heap)
    returns (next: NodeList, ghost H': Heap)
    requires Agrees(H) && Closed(H) && level in H
    modifies level
    ensures Agrees(H') && Visited(H, level, part, isLast, row, next, H')
    ensures H'.Keys == H.Keys + {next}
    ensures next in H || fresh(next)
  {
    var k := FindIn(level, part);
    if k >= 0 {
      var existing := level.items[k];
      if existing.content.Children? {
        next := existing.content.list;
        H' := H;
      } else {
        next := new NodeList();
        H' := H[next := []];
      }
    } else if isLast {
      next := new NodeList();
      var node := Node(part, Values(row.withExtra, row.withoutExtra, row.comparison));
      level.items := level.items + [node];
      H' := H[level := H[level] + [node]][next := []];
    } else {
      next := new NodeList();
      var node := Node(part, Children(next));
      level.items := level.items + [node];
      H' := H[level := H[level] + [node]][next := []];
    }
  }

  /** Whether, after a pass, the current list is still the one the row's
      path leads to from the top level. */
  ghost function StillOnPath(H: Heap, level: NodeList, part: string, isLast: bool, track: bool): bool
    requires level in H
  {
    var k := Find(H[level], part);
    if k >= 0 && H[level][k].content.Children? then track
    else if k >= 0 || isLast then false
    else track
  }

  /** The loop invariant of `InsertRow` after `i` parts of the row's path.
      `track` says the current list `level` is where the path leads; once it
      is false, `level` is a new list that belongs to no node. */
  ghost predicate Progress(H0: Heap, H: Heap, root: NodeList, row: Row, i: nat, level: NodeList, track: bool, added: bool)
  {
    var parts := PathOf(row);
    && i <= |parts|
    && Valid(H0, root) && Valid(H, root) && Grows(H0, H) && level in H
    && (added <==> Resolve(H0, root, parts) == Missing)
    && (i == 0 ==> level == root && track && H == H0)
    && (i > 0 ==> level != root && AppendedIfAbsent(H0[root], H[root], parts[0]))
    && (track ==> Descend(H, root, parts, i) == At(level))
    && (!track ==> level !in H0 && H[level] == [])
    && (!added ==> forall L :: L in H0 ==> H[L] == H0[L])
    && (!added && track ==> H == H0)
    && (added && track ==> i < |parts| && Resolve(H, root, parts) == Missing)
    && (added && !track ==> i == |parts| && Resolve(H, root, parts) == Found(LeafFor(row)))
  }

  /** Before the first pass the invariant holds at the top level. */
  lemma ProgressStart(H0: Heap, root: NodeList, row: Row, added: bool)
    requires Valid(H0, root)
    requires added <==> Resolve(H0, root, PathOf(row)) == Missing
    ensures Progress(H0, H0, root, row, 0, root, true, added)
  {
  }

  /** One pass of the inner loop keeps the invariant. */
  lemma ProgressStep(H0: Heap, H: Heap, root: NodeList, row: Row, i: nat, level: NodeList, track: bool, added: bool,
                     next: NodeList, H': Heap)
    requires Progress(H0, H, root, row, i, level, track, added) && i < |PathOf(row)|
    requires Visited(H, level, PathOf(row)[i], i == |PathOf(row)| - 1, row, next, H')
    ensures Progress(H0, H', root, row, i + 1, next, StillOnPath(H, level, PathOf(row)[i], i == |PathOf(row)| - 1, track), added)
  {
    var parts := PathOf(row);
    var k := Find(H[level], parts[i]);
    if k >= 0 && H[level][k].content.Children? {
      ProgressIntoBranch(H0, H, root, row, i, level, track, added);
    } else if k >= 0 {
      ProgressIntoLeaf(H0, H, root, row, i, level, track, added, next);
    } else {
      ProgressAppend(H0, H, root, row, i, level, track, added, next, H');
    }
  }

  /** The part names an existing branch: move into its `children`. */
  lemma ProgressIntoBranch(H0: Heap, H: Heap, root: NodeList, row: Row, i: nat, level: NodeList, track: bool, added: bool)
    requires Progress(H0, H, root, row, i, level, track, added) && i < |PathOf(row)|
    requires var k := Find(H[level], PathOf(row)[i]); k >= 0 && H[level][k].content.Children?
    ensures var k := Find(H[level], PathOf(row)[i]);
      Progress(H0, H, root, row, i + 1, H[level][k].content.list, track, added)
  {
    if track {
      ResolveStops(H, root, PathOf(row), i);
    }
  }

  /** The part names an existing leaf: nothing is appended, and the rest of
      the path goes to a list that belongs to no node. */
  lemma ProgressIntoLeaf(H0: Heap, H: Heap, root: NodeList, row: Row, i: nat, level: NodeList, track: bool, added: bool,
                         next: NodeList)
    requires Progress(H0, H, root, row, i, level, track, added) && i < |PathOf(row)|
    requires var k := Find(H[level], PathOf(row)[i]); k >= 0 && H[level][k].content.Values?
    requires next !in H
    ensures Progress(H0, H[next := []], root, row, i + 1, next, false, added)
  {
    if track {
      ResolveStops(H, root, PathOf(row), i);
    }
    ValidAddEmpty(H, root, next);
  }

  /** The part is absent: a node is appended, and the path now leads to it. */
  lemma ProgressAppend(H0: Heap, H: Heap, root: NodeList, row: Row, i: nat, level: NodeList, track: bool, added: bool,
                       next: NodeList, H': Heap)
    requires Progress(H0, H, root, row, i, level, track, added) && i < |PathOf(row)|
    requires Find(H[level], PathOf(row)[i]) < 0
    requires Visited(H, level, PathOf(row)[i], i == |PathOf(row)| - 1, row, next, H')
    ensures Progress(H0, H', root, row, i + 1, next, track && i < |PathOf(row)| - 1, added)
  {
    var n := H'[level][|H[level]|];
    assert H' == H[level := H[level] + [n]][next := []];
    ValidAppend(H, root, level, n, next);
    if !track {
      ProgressAppendDetached(H0, H, root, row, i, level, added, next, H');
    } else if i < |PathOf(row)| - 1 {
      ProgressAppendBranch(H0, H, root, row, i, level, added, n, next, H');
    } else {
      ProgressAppendLeaf(H0, H, root, row, i, level, added, n, next, H');
    }
  }

  lemma GrowsTransitive(H0: Heap, H: Heap, H': Heap)
    requires Grows(H0, H) && Grows(H, H')
    ensures Grows(H0, H')
  {
    forall L | L in H0 ensures H0[L] <= H'[L] {
      assert H'[L][..|H0[L]|] == H[L][..|H0[L]|];
    }
  }

  /** Appending a node under the missing part `i` of a path that leads to
      `level`: the first `i + 1` parts now lead to that node. */
  lemma AppendedDescends(H: Heap, H': Heap, root: NodeList, parts: seq<string>, i: nat, level: NodeList, n: Node)
    requires Closed(H) && Closed(H') && root in H && Grows(H, H') && i < |parts|
    requires Descend(H, root, parts, i) == At(level)
    requires Find(H[level], parts[i]) < 0 && n.attribute == parts[i]
    requires H'[level] == H[level] + [n]
    ensures Descend(H', root, parts, i) == At(level)
    ensures Find(H'[level], parts[i]) == |H[level]| && H'[level][|H[level]|] == n
  {
    DescendGrows(H, H', root, parts, i);
    FindAppended(H[level], n);
  }

  /** A new branch for a part before the last: the path now leads into the
      branch's `children`, where the next part is missing. */
  lemma AppendedBranchLeads(H: Heap, H': Heap, root: NodeList, parts: seq<string>, i: nat, level: NodeList, next: NodeList)
    requires Closed(H) && Closed(H') && root in H && Grows(H, H') && i < |parts| - 1
    requires Descend(H, root, parts, i) == At(level)
    requires Find(H[level], parts[i]) < 0
    requires H'[level] == H[level] + [Node(parts[i], Children(next))]
    requires next in H' && H'[next] == []
    ensures Descend(H', root, parts, i + 1) == At(next)
    ensures Resolve(H', root, parts) == Missing
  {
    AppendedDescends(H, H', root, parts, i, level, Node(parts[i], Children(next)));
    assert Descend(H', root, parts, i + 1) == At(next);
    ResolveStops(H', root, parts, i + 1);
  }

  /** A new leaf for the last part: the path now resolves to it. */
  lemma AppendedLeafResolves(H: Heap, H': Heap, root: NodeList, parts: seq<string>, level: NodeList, n: Node)
    requires Closed(H) && Closed(H') && root in H && Grows(H, H') && |parts| >= 1
    requires Descend(H, root, parts, |parts| - 1) == At(level)
    requires Find(H[level], parts[|parts| - 1]) < 0 && n.attribute == parts[|parts| - 1]
    requires H'[level] == H[level] + [n]
    ensures Resolve(H', root, parts) == Found(n)
  {
    AppendedDescends(H, H', root, parts, |parts| - 1, level, n);
  }

  /** A new branch where the path leads: the path is still missing, one
      level further down, in the branch's new empty `children`. */
  lemma ProgressAppendBranch(H0: Heap, H: Heap, root: NodeList, row: Row, i: nat, level: NodeList, added: bool,
                             n: Node, next: NodeList, H': Heap)
    requires Progress(H0, H, root, row, i, level, true, added) && i < |PathOf(row)| - 1
    requires Find(H[level], PathOf(row)[i]) < 0
    requires next !in H && n == Node(PathOf(row)[i], Children(next))
    requires H' == H[level := H[level] + [n]][next := []]
    requires Valid(H', root)
    ensures Progress(H0, H', root, row, i + 1, next, true, added)
  {
    var parts := PathOf(row);
    ResolveStops(H, root, parts, i);
    assert added;
    assert Grows(H, H');
    GrowsTransitive(H0, H, H');
    AppendedBranchLeads(H, H', root, parts, i, level, next);
    assert H'[root] == if level == root then H[root] + [n] else H[root];
  }

  /** A new leaf for the last part: the path now resolves to it. */
  lemma ProgressAppendLeaf(H0: Heap, H: Heap, root: NodeList, row: Row, i: nat, level: NodeList, added: bool,
                           n: Node, next: NodeList, H': Heap)
    requires Progress(H0, H, root, row, i, level, true, added) && i == |PathOf(row)| - 1
    requires Find(H[level], PathOf(row)[i]) < 0
    requires next !in H && n == LeafFor(row)
    requires H' == H[level := H[level] + [n]][next := []]
    requires Valid(H', root)
    ensures Progress(H0, H', root, row, i + 1, next, false, added)
  {
    var parts := PathOf(row);
    ResolveStops(H, root, parts, i);
    assert added;
    assert Grows(H, H');
    GrowsTransitive(H0, H, H');
    AppendedLeafResolves(H, H', root, parts, level, n);
    assert H'[root] == if level == root then H[root] + [n] else H[root];
  }

  /** Appending to a list that belongs to no node changes nothing in the tree. */
  lemma ProgressAppendDetached(H0: Heap, H: Heap, root: NodeList, row: Row, i: nat, level: NodeList, added: bool,
                               next: NodeList, H': Heap)
    requires Progress(H0, H, root, row, i, level, false, added) && i < |PathOf(row)|
    requires Find(H[level], PathOf(row)[i]) < 0
    requires Visited(H, level, PathOf(row)[i], i == |PathOf(row)| - 1, row, next, H')
    requires Valid(H', root)
    ensures Progress(H0, H', root, row, i + 1, next, false, added)
  {
    assert !added;
    assert H'[root] == H[root];
  }

  /** What the invariant says once the whole path has been walked. */
  lemma ProgressDone(H0: Heap, H: Heap, root: NodeList, row: Row, level: NodeList, track: bool, added: bool)
    requires Progress(H0, H, root, row, |PathOf(row)|, level, track, added)
    ensures Valid(H, root) && Grows(H0, H)
    ensures added ==> Resolve(H, root, PathOf(row)) == Found(LeafFor(row))
    ensures !added ==> forall L :: L in H0 ==> H[L] == H0[L]
    ensures AppendedIfAbsent(H0[root], H[root], PathOf(row)[0])
  {
  }

  /** The list `L` gained exactly one node, named by the part of the path
      that was missing from `L` when the path led there; for a part before
      the last it is a branch whose `children` is a list made for this row. */
  ghost predicate AppendedAtGap(H0: Heap, H1: Heap, root: NodeList, parts: seq<string>, L: NodeList)
    requires Closed(H0) && root in H0 && L in H0 && L in H1
  {
    && |H1[L]| == |H0[L]| + 1 && H1[L][..|H0[L]|] == H0[L]
    && exists i :: 0 <= i < |parts| && Descend(H0, root, parts, i) == At(L)
                   && Find(H0[L], parts[i]) < 0 && H1[L][|H0[L]|].attribute == parts[i]
                   && (i < |parts| - 1 ==> NewBranch(H0, H1[L][|H0[L]|]))
  }

  /** A branch whose `children` list did not exist in `H0`. */
  ghost predicate NewBranch(H0: Heap, n: Node)
  {
    n.content.Children? && n.content.list !in H0
  }

  /** A list made for the row holds at most one node, and a branch there
      has a `children` list made for the row too. */
  ghost predicate MadeForRow(H0: Heap, H: Heap, L: NodeList)
    requires L in H
  {
    |H[L]| <= 1 && forall k :: 0 <= k < |H[L]| && H[L][k].content.Children? ==> NewBranch(H0, H[L][k])
  }

  /** What the inner loop has done to the lists that existed before the row,
      after `i` parts: while `level` is one of them, none has changed and the
      path leads to `level`; afterwards `level` is a new empty list, and at
      most one old list has changed, by one node where the path was missing.
      Each list the loop has created holds at most the one node that
      continues the path (`MadeForRow`). */
  ghost predicate Framed(H0: Heap, H: Heap, root: NodeList, parts: seq<string>, i: nat, level: NodeList)
  {
    && Closed(H0) && root in H0 && i <= |parts|
    && H0.Keys <= H.Keys && level in H
    && (level !in H0 ==> H[level] == [])
    && (level in H0 ==> Descend(H0, root, parts, i) == At(level) && forall L :: L in H0 ==> H[L] == H0[L])
    && (forall L, L' :: L in H0 && L' in H0 && H[L] != H0[L] && H[L'] != H0[L'] ==> L == L')
    && (forall L :: L in H0 && H[L] != H0[L] ==> level !in H0 && AppendedAtGap(H0, H, root, parts, L))
    && (forall L :: L in H && L !in H0 ==> MadeForRow(H0, H, L))
  }

  /** One pass of the inner loop keeps every list made for the row to at
      most one node, whose `children` is made for the row as well. */
  lemma MadeForRowStep(H0: Heap, H: Heap, level: NodeList, part: string, isLast: bool, row: Row, next: NodeList, H': Heap)
    requires level in H && H0.Keys <= H.Keys
    requires level !in H0 ==> H[level] == []
    requires forall L :: L in H && L !in H0 ==> MadeForRow(H0, H, L)
    requires Visited(H, level, part, isLast, row, next, H')
    ensures forall L :: L in H' && L !in H0 ==> MadeForRow(H0, H', L)
  {
    forall L | L in H' && L !in H0
      ensures MadeForRow(H0, H', L)
    {
      if L != next && L != level {
        assert H'[L] == H[L];
      }
    }
  }

  /** The node appended where the path went missing meets `AppendedAtGap`. */
  lemma AppendedAtGapIntro(H0: Heap, H1: Heap, root: NodeList, parts: seq<string>, L: NodeList, i: nat)
    requires Closed(H0) && root in H0 && L in H0 && L in H1 && i < |parts|
    requires |H1[L]| == |H0[L]| + 1 && H1[L][..|H0[L]|] == H0[L]
    requires Descend(H0, root, parts, i) == At(L) && Find(H0[L], parts[i]) < 0
    requires H1[L][|H0[L]|].attribute == parts[i]
    requires i < |parts| - 1 ==> NewBranch(H0, H1[L][|H0[L]|])
    ensures AppendedAtGap(H0, H1, root, parts, L)
  {
  }

  /** One pass of the inner loop keeps the frame. */
  lemma FramedStep(H0: Heap, H: Heap, root: NodeList, row: Row, i: nat, level: NodeList, next: NodeList, H': Heap)
    requires Framed(H0, H, root, PathOf(row), i, level) && i < |PathOf(row)|
    requires Visited(H, level, PathOf(row)[i], i == |PathOf(row)| - 1, row, next, H')
    ensures Framed(H0, H', root, PathOf(row), i + 1, next)
  {
    var parts := PathOf(row);
    if level !in H0 {
      FramedDetached(H0, H, root, row, i, level, next, H');
    } else if Find(H[level], parts[i]) >= 0 {
      FramedExisting(H0, H, root, row, i, level, next, H');
    } else {
      FramedAppend(H0, H, root, row, i, level, next, H');
    }
  }

  /** Past the old lists, the pass only touches lists made for the row. */
  lemma FramedDetached(H0: Heap, H: Heap, root: NodeList, row: Row, i: nat, level: NodeList, next: NodeList, H': Heap)
    requires Framed(H0, H, root, PathOf(row), i, level) && i < |PathOf(row)| && level !in H0
    requires Visited(H, level, PathOf(row)[i], i == |PathOf(row)| - 1, row, next, H')
    ensures Framed(H0, H', root, PathOf(row), i + 1, next)
  {
    var parts := PathOf(row);
    assert Find(H[level], parts[i]) < 0;
    forall L | L in H0
      ensures H'[L] == H[L]
    {
    }
    forall L | L in H0 && H'[L] != H0[L]
      ensures AppendedAtGap(H0, H', root, parts, L)
    {
      assert AppendedAtGap(H0, H, root, parts, L);
    }
    MadeForRowStep(H0, H, level, parts[i], i == |parts| - 1, row, next, H');
  }

  /** The part is in an old list: nothing old changes, and the path goes on
      into a branch's list or into a new list. */
  lemma FramedExisting(H0: Heap, H: Heap, root: NodeList, row: Row, i: nat, level: NodeList, next: NodeList, H': Heap)
    requires Framed(H0, H, root, PathOf(row), i, level) && i < |PathOf(row)| && level in H0
    requires Find(H[level], PathOf(row)[i]) >= 0
    requires Visited(H, level, PathOf(row)[i], i == |PathOf(row)| - 1, row, next, H')
    ensures Framed(H0, H', root, PathOf(row), i + 1, next)
  {
    var parts := PathOf(row);
    var k := Find(H[level], parts[i]);
    assert H[level] == H0[level];
    if H[level][k].content.Children? {
      assert Descend(H0, root, parts, i + 1) == At(next);
    }
    MadeForRowStep(H0, H, level, parts[i], i == |parts| - 1, row, next, H');
  }

  /** The part is missing from an old list: that list gains the one node. */
  lemma FramedAppend(H0: Heap, H: Heap, root: NodeList, row: Row, i: nat, level: NodeList, next: NodeList, H': Heap)
    requires Framed(H0, H, root, PathOf(row), i, level) && i < |PathOf(row)| && level in H0
    requires Find(H[level], PathOf(row)[i]) < 0
    requires Visited(H, level, PathOf(row)[i], i == |PathOf(row)| - 1, row, next, H')
    ensures Framed(H0, H', root, PathOf(row), i + 1, next)
  {
    var parts := PathOf(row);
    assert H[level] == H0[level];
    assert H'[level][|H0[level]|].attribute == parts[i];
    AppendedAtGapIntro(H0, H', root, parts, level, i);
    MadeForRowStep(H0, H, level, parts[i], i == |parts| - 1, row, next, H');
  }

  /** One pass of the inner loop, with the invariant it keeps. */
  method Advance(root: NodeList, row: Row, i: nat, level: NodeList, ghost track: bool, ghost added: bool,
                 ghost H0: Heap, ghost H: Heap)
    returns (next: NodeList, ghost track': bool, ghost H': Heap)
    requires Agrees(H) && Progress(H0, H, root, row, i, level, track, added) && i < |PathOf(row)|
    requires Framed(H0, H, root, PathOf(row), i, level)
    modifies level
    ensures Agrees(H') && Progress(H0, H', root, row, i + 1, next, track', added)
    ensures Framed(H0, H', root, PathOf(row), i + 1, next)
    ensures H'.Keys == H.Keys + {next}
    ensures next in H || fresh(next)
  {
    var parts := Split(row.attribute, '_');
    next, H' := Visit(level, parts[i], i == |parts| - 1, row, H);
    ProgressStep(H0, H, root, row, i, level, track, added, next, H');
    FramedStep(H0, H, root, row, i, level, next, H');
    track' := StillOnPath(H, level, parts[i], i == |parts| - 1, track);
  }

  /** The inner loop: walk every part of the row's path from the top level. */
  method WalkPath(root: NodeList, row: Row, ghost added: bool, ghost H0: Heap)
    returns (ghost H1: Heap, ghost level: NodeList, ghost track: bool)
    requires Agrees(H0) && Progress(H0, H0, root, row, 0, root, true, added)
    modifies H0.Keys
    ensures Agrees(H1) && Progress(H0, H1, root, row, |PathOf(row)|, level, track, added)
    ensures Framed(H0, H1, root, PathOf(row), |PathOf(row)|, level)
    ensures forall L :: L in H1 && L !in H0 ==> fresh(L)
  {
    var parts := Split(row.attribute, '_');
    H1 := H0;
    var current := root;
    track := true;
    for i := 0 to |parts|
      invariant Agrees(H1) && Progress(H0, H1, root, row, i, current, track, added)
      invariant Framed(H0, H1, root, PathOf(row), i, current)
      invariant forall L :: L in H1 && L !in H0 ==> fresh(L)
    {
      current, track, H1 := Advance(root, row, i, current, track, added, H0, H1);
    }
    level := current;
  }

  /** What inserting one row does, from the lists `H0` before it to `H1`
      after it. `added` says whether the row's path was missing beforehand;
      exactly then the tree changes, and afterwards the path leads to a leaf
      carrying the row's values. A path that already resolves (an earlier
      row with it won) or runs through a leaf leaves every list as it was.
      At most one list changes, by one node where the path went missing (a
      branch with a new `children` list unless it is the last part), and
      each list the row creates holds at most one node, whose `children`,
      if any, is new as well. */
  ghost predicate Inserted(H0: Heap, H1: Heap, root: NodeList, row: Row, added: bool)
  {
    && Valid(H0, root) && Valid(H1, root) && Grows(H0, H1)
    && (added <==> Resolve(H0, root, PathOf(row)) == Missing)
    && (added ==> Resolve(H1, root, PathOf(row)) == Found(LeafFor(row)))
    && (!added ==> forall L :: L in H0 ==> H1[L] == H0[L])
    && AppendedIfAbsent(H0[root], H1[root], PathOf(row)[0])
    && (forall L, L' :: L in H0 && L' in H0 && H1[L] != H0[L] && H1[L'] != H0[L'] ==> L == L')
    && (forall L :: L in H0 && H1[L] != H0[L] ==> AppendedAtGap(H0, H1, root, PathOf(row), L))
    && (forall L :: L in H1 && L !in H0 ==> MadeForRow(H0, H1, L))
  }

  /** The body of the outer loop for one row, as `Inserted` describes it. */
  method InsertRow(root: NodeList, row: Row, ghost H0: Heap) returns (ghost H1: Heap, ghost added: bool)
    requires Agrees(H0) && Valid(H0, root)
    modifies H0.Keys
    ensures Agrees(H1) && Inserted(H0, H1, root, row, added)
    ensures forall L :: L in H1 && L !in H0 ==> fresh(L)
  {
    added := Resolve(H0, root, PathOf(row)) == Missing;
    ProgressStart(H0, root, row, added);
    ghost var level, track;
    H1, level, track := WalkPath(root, row, added, H0);
    ProgressDone(H0, H1, root, row, level, track, added);
  }

  /** The first part of every row's path, in row order. */
  function Heads(rows: seq<Row>): (heads: seq<string>)
    ensures |heads| == |rows|
    ensures forall j :: 0 <= j < |rows| ==> heads[j] == PathOf(rows[j])[0]
  {
    seq(|rows|, j requires 0 <= j < |rows| => PathOf(rows[j])[0])
  }

  /** Each name once, at its first occurrence. */
  function Dedup(s: seq<string>): seq<string>
  {
    if s == [] then []
    else
      var d := Dedup(s[..|s| - 1]);
      if s[|s| - 1] in d then d else d + [s[|s| - 1]]
  }

  /** Appending does not move the first occurrence of a name already present. */
  lemma IndexOfPrefix(s: seq<string>, a: string, x: string)
    requires x in s
    ensures x in s + [a] && IndexOf(s + [a], x) == IndexOf(s, x)
  {
    var i := IndexOf(s, x);
    assert (s + [a])[i] == x;
    assert forall k :: 0 <= k < i ==> (s + [a])[k] == s[k];
  }

  /** `Dedup` keeps exactly the names of its input, each once, in the order
      of their first occurrences. */
  lemma {:induction false} DedupSpec(s: seq<string>)
    ensures forall x :: x in Dedup(s) <==> x in s
    ensures forall p, q :: 0 <= p < q < |Dedup(s)| ==> Dedup(s)[p] != Dedup(s)[q]
    ensures forall p, q :: 0 <= p < q < |Dedup(s)| ==> IndexOf(s, Dedup(s)[p]) < IndexOf(s, Dedup(s)[q])
  {
    if s != [] {
      var t := s[..|s| - 1];
      var a := s[|s| - 1];
      assert s == t + [a];
      DedupSpec(t);
      var d := Dedup(t);
      forall x | x in t
        ensures IndexOf(s, x) == IndexOf(t, x)
      {
        IndexOfPrefix(t, a, x);
      }
      if a !in d {
        assert a !in t;
        assert IndexOf(s, a) == |t|;
        assert Dedup(s) == d + [a];
        forall p | 0 <= p < |d|
          ensures d[p] in t
        {
          assert d[p] in d;
        }
      }
    }
  }

  /** What one row does to the names of the top-level list. */
  lemma TopLevelStep(before: seq<Node>, after: seq<Node>, a: string)
    requires AppendedIfAbsent(before, after, a)
    ensures Attributes(after) == if a in Attributes(before) then Attributes(before) else Attributes(before) + [a]
  {
    FindIsMembership(before, a);
    if Find(before, a) < 0 {
      assert forall k :: 0 <= k < |before| ==> after[k] == before[k];
    }
  }

  /** The outer loop's per-row facts about earlier rows survive one more row. */
  lemma RowsStep(Hb: Heap, H: Heap, tree: NodeList, rows: seq<Row>, j: nat, added: seq<bool>, a: bool)
    requires Valid(Hb, tree) && Valid(H, tree) && Grows(Hb, H) && j < |rows| && |added| == j
    requires a <==> Resolve(Hb, tree, PathOf(rows[j])) == Missing
    requires a ==> Resolve(H, tree, PathOf(rows[j])) == Found(LeafFor(rows[j]))
    requires forall m :: 0 <= m < j ==> Resolve(Hb, tree, PathOf(rows[m])) != Missing
    requires forall m :: 0 <= m < j && added[m] ==> Resolve(Hb, tree, PathOf(rows[m])) == Found(LeafFor(rows[m]))
    ensures forall m :: 0 <= m <= j ==> Resolve(H, tree, PathOf(rows[m])) != Missing
    ensures forall m :: 0 <= m <= j && (added + [a])[m] ==> Resolve(H, tree, PathOf(rows[m])) == Found(LeafFor(rows[m]))
  {
    forall m | 0 <= m < j
      ensures Resolve(H, tree, PathOf(rows[m])) == Resolve(Hb, tree, PathOf(rows[m]))
    {
      ResolveGrows(Hb, H, tree, PathOf(rows[m]));
    }
    if !a {
      ResolveGrows(Hb, H, tree, PathOf(rows[j]));
    }
  }

  /** A row whose path an earlier row already placed adds nothing. */
  lemma FirstRowWinsStep(Hb: Heap, tree: NodeList, rows: seq<Row>, j: nat, added: seq<bool>, a: bool)
    requires Valid(Hb, tree) && j < |rows| && |added| == j
    requires a <==> Resolve(Hb, tree, PathOf(rows[j])) == Missing
    requires forall m :: 0 <= m < j ==> Resolve(Hb, tree, PathOf(rows[m])) != Missing
    requires forall k, m :: 0 <= k < m < j && PathOf(rows[k]) == PathOf(rows[m]) ==> !added[m]
    ensures forall k, m :: 0 <= k < m <= j && PathOf(rows[k]) == PathOf(rows[m]) ==> !(added + [a])[m]
  {
    forall k, m | 0 <= k < m <= j && PathOf(rows[k]) == PathOf(rows[m])
      ensures !(added + [a])[m]
    {
      if m == j {
        assert Resolve(Hb, tree, PathOf(rows[k])) != Missing;
      } else {
        assert (added + [a])[m] == added[m];
      }
    }
  }

  /** What the outer loop of `prepare_tree_data` has built after the first
      `j` rows. */
  ghost predicate Built(H: Heap, tree: NodeList, rows: seq<Row>, j: nat, added: seq<bool>)
  {
    && j <= |rows| && Valid(H, tree)
    && Attributes(H[tree]) == Dedup(Heads(rows[..j]))
    && |added| == j
    && (forall m :: 0 <= m < j ==> Resolve(H, tree, PathOf(rows[m])) != Missing)
    && (forall m :: 0 <= m < j && added[m] ==> Resolve(H, tree, PathOf(rows[m])) == Found(LeafFor(rows[m])))
    && (forall k, m :: 0 <= k < m < j && PathOf(rows[k]) == PathOf(rows[m]) ==> !added[m])
  }

  /** Inserting row `j` as `InsertRow` promises extends what was built. */
  lemma BuiltStep(Hb: Heap, H: Heap, tree: NodeList, rows: seq<Row>, j: nat, added: seq<bool>, a: bool)
    requires Built(Hb, tree, rows, j, added) && j < |rows|
    requires Valid(H, tree) && Grows(Hb, H)
    requires a <==> Resolve(Hb, tree, PathOf(rows[j])) == Missing
    requires a ==> Resolve(H, tree, PathOf(rows[j])) == Found(LeafFor(rows[j]))
    requires AppendedIfAbsent(Hb[tree], H[tree], PathOf(rows[j])[0])
    ensures Built(H, tree, rows, j + 1, added + [a])
  {
    RowsStep(Hb, H, tree, rows, j, added, a);
    FirstRowWinsStep(Hb, tree, rows, j, added, a);
    TopNamesStep(Hb[tree], H[tree], rows, j);
  }

  /** One more row adds its first part to the heads. */
  lemma HeadsStep(rows: seq<Row>, j: nat)
    requires j < |rows|
    ensures Heads(rows[..j + 1]) == Heads(rows[..j]) + [PathOf(rows[j])[0]]
  {
    assert rows[..j + 1][..j] == rows[..j];
  }

  /** `Dedup` of a sequence extended by one name. */
  lemma DedupStep(s: seq<string>, x: string)
    ensures Dedup(s + [x]) == if x in Dedup(s) then Dedup(s) else Dedup(s) + [x]
  {
    assert (s + [x])[..|s|] == s;
  }

  /** The top-level names follow `Dedup` of the rows' first parts. */
  lemma TopNamesStep(before: seq<Node>, after: seq<Node>, rows: seq<Row>, j: nat)
    requires j < |rows| && Attributes(before) == Dedup(Heads(rows[..j]))
    requires AppendedIfAbsent(before, after, PathOf(rows[j])[0])
    ensures Attributes(after) == Dedup(Heads(rows[..j + 1]))
  {
    TopLevelStep(before, after, PathOf(rows[j])[0]);
    HeadsStep(rows, j);
    DedupStep(Heads(rows[..j]), PathOf(rows[j])[0]);
  }

  /** No earlier row has the same first part. */
  predicate NewHead(rows: seq<Row>, j: nat)
    requires j < |rows|
  {
    forall k :: 0 <= k < j ==> PathOf(rows[k])[0] != PathOf(rows[j])[0]
  }

  /** A row whose first part no earlier row had finds no top-level node of
      that name, so its path is missing. */
  lemma NewHeadMissing(H: Heap, tree: NodeList, rows: seq<Row>, j: nat)
    requires Valid(H, tree) && j < |rows|
    requires Attributes(H[tree]) == Dedup(Heads(rows[..j]))
    requires NewHead(rows, j)
    ensures Resolve(H, tree, PathOf(rows[j])) == Missing
  {
    var parts := PathOf(rows[j]);
    var heads := Heads(rows[..j]);
    forall k | 0 <= k < |heads|
      ensures heads[k] != parts[0]
    {
      assert rows[..j][k] == rows[k];
    }
    DedupSpec(heads);
    FindIsMembership(H[tree], parts[0]);
    assert Descend(H, tree, parts, 0) == At(tree);
    ResolveStops(H, tree, parts, 0);
  }

  /** The snapshots `Hs[0..j]` before each of the first `j` rows, each row
      inserted as `Inserted` describes. */
  ghost predicate History(Hs: seq<Heap>, tree: NodeList, rows: seq<Row>, j: nat, added: seq<bool>)
  {
    && j <= |rows| && |Hs| == j + 1 && |added| == j
    && forall m :: 0 <= m < j ==> Inserted(Hs[m], Hs[m + 1], tree, rows[m], added[m])
  }

  lemma HistoryStep(Hs: seq<Heap>, tree: NodeList, rows: seq<Row>, j: nat, added: seq<bool>, H: Heap, a: bool)
    requires History(Hs, tree, rows, j, added) && j < |rows|
    requires Inserted(Hs[j], H, tree, rows[j], a)
    ensures History(Hs + [H], tree, rows, j + 1, added + [a])
  {
    var Hs', added' := Hs + [H], added + [a];
    forall m | 0 <= m < j + 1
      ensures Inserted(Hs'[m], Hs'[m + 1], tree, rows[m], added'[m])
    {
      if m < j {
        assert Hs'[m] == Hs[m] && Hs'[m + 1] == Hs[m + 1] && added'[m] == added[m];
      } else {
        assert Hs'[m] == Hs[j] && Hs'[m + 1] == H && added'[m] == a;
      }
    }
  }

  /** The outer loop's invariant after `j` rows. */
  ghost predicate Prepared(H: Heap, tree: NodeList, rows: seq<Row>, j: nat, added: seq<bool>, Hs: seq<Heap>)
  {
    && Built(H, tree, rows, j, added)
    && History(Hs, tree, rows, j, added) && Hs[j] == H
    && (forall m :: 0 <= m < j && NewHead(rows, m) ==> added[m])
  }

  /** Inserting row `j` as `Inserted` describes keeps the outer invariant. */
  lemma PreparedStep(Hb: Heap, H: Heap, tree: NodeList, rows: seq<Row>, j: nat, added: seq<bool>, Hs: seq<Heap>, a: bool)
    requires Prepared(Hb, tree, rows, j, added, Hs) && j < |rows|
    requires Inserted(Hb, H, tree, rows[j], a)
    ensures Prepared(H, tree, rows, j + 1, added + [a], Hs + [H])
  {
    BuiltStep(Hb, H, tree, rows, j, added, a);
    HistoryStep(Hs, tree, rows, j, added, H, a);
    NewHeadStep(Hb, tree, rows, j, added, a);
  }

  /** A row with a new first part is added, so the claim extends by one row. */
  lemma NewHeadStep(Hb: Heap, tree: NodeList, rows: seq<Row>, j: nat, added: seq<bool>, a: bool)
    requires Valid(Hb, tree) && j < |rows| && |added| == j
    requires Attributes(Hb[tree]) == Dedup(Heads(rows[..j]))
    requires forall m :: 0 <= m < j && NewHead(rows, m) ==> added[m]
    requires a <==> Resolve(Hb, tree, PathOf(rows[j])) == Missing
    ensures forall m :: 0 <= m < j + 1 && NewHead(rows, m) ==> (added + [a])[m]
  {
    if NewHead(rows, j) {
      NewHeadMissing(Hb, tree, rows, j);
    }
    assert forall m :: 0 <= m < j ==> (added + [a])[m] == added[m];
  }

  /** What the outer invariant says once every row is in. */
  lemma PreparedDone(H: Heap, tree: NodeList, rows: seq<Row>, added: seq<bool>, Hs: seq<Heap>)
    requires Prepared(H, tree, rows, |rows|, added, Hs)
    ensures Valid(H, tree) && Attributes(H[tree]) == Dedup(Heads(rows))
    ensures |added| == |rows| && |Hs| == |rows| + 1 && Hs[|rows|] == H
    ensures forall j :: 0 <= j < |rows| ==> Inserted(Hs[j], Hs[j + 1], tree, rows[j], added[j])
    ensures forall j :: 0 <= j < |rows| ==> Resolve(H, tree, PathOf(rows[j])) != Missing
    ensures forall j :: 0 <= j < |rows| && added[j] ==> Resolve(H, tree, PathOf(rows[j])) == Found(LeafFor(rows[j]))
    ensures forall k, j :: 0 <= k < j < |rows| && PathOf(rows[k]) == PathOf(rows[j]) ==> !added[j]
    ensures forall j :: 0 <= j < |rows| && NewHead(rows, j) ==> added[j]
  {
    assert rows[..|rows|] == rows;
  }

  /** `prepare_tree_data(df)`: insert the rows in order into a new top-level
      list. `Hs[j]` is the snapshot before row `j`, and each row is inserted
      as `Inserted` describes (so `added[j]` says exactly whether row `j`
      changed the tree). Afterwards the lists are well formed (sibling names
      distinct); the top-level names are the rows' first parts, each once,
      in order of first appearance; no row's path is missing; a row whose
      path an earlier row already had changes nothing, so the first row
      wins; and a row with a new first part is always added. */
  method PrepareTreeData(rows: seq<Row>) returns (tree: NodeList, ghost H: Heap, ghost added: seq<bool>, ghost Hs: seq<Heap>)
    ensures Agrees(H) && Valid(H, tree)
    ensures Attributes(tree.items) == Dedup(Heads(rows))
    ensures |added| == |rows|
    ensures |Hs| == |rows| + 1 && Hs[0] == map[tree := []] && Hs[|rows|] == H
    ensures forall j :: 0 <= j < |rows| ==> Inserted(Hs[j], Hs[j + 1], tree, rows[j], added[j])
    ensures forall j :: 0 <= j < |rows| ==> Resolve(H, tree, PathOf(rows[j])) != Missing
    ensures forall j :: 0 <= j < |rows| && added[j] ==> Resolve(H, tree, PathOf(rows[j])) == Found(LeafFor(rows[j]))
    ensures forall k, j :: 0 <= k < j < |rows| && PathOf(rows[k]) == PathOf(rows[j]) ==> !added[j]
    ensures forall j :: 0 <= j < |rows| && NewHead(rows, j) ==> added[j]
  {
    tree := new NodeList();
    H := map[tree := []];
    added := [];
    Hs := [H];
    for j := 0 to |rows|
      invariant Agrees(H) && Prepared(H, tree, rows, j, added, Hs) && Hs[0] == map[tree := []]
      invariant forall L :: L in H ==> fresh(L)
    {
      ghost var Hb := H;
      ghost var a;
      H, a := InsertRow(tree, rows[j], H);
      PreparedStep(Hb, H, tree, rows, j, added, Hs, a);
      added := added + [a];
      Hs := Hs + [H];
    }
    PreparedDone(H, tree, rows, added, Hs);
  }
}
