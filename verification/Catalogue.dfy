/** The eBKP-H catalogue: custom codes keep it acyclic, and the two-pass builder loses no row of it. */
module Catalogue {
  import opened Domain

  datatype Row = Row(code: string, parent: Option<string>, level: int, labelDe: string, isSeed: bool)

  /** Codes are the primary key. */
  predicate DistinctCodes(rows: seq<Row>) {
    forall i, j :: 0 <= i < j < |rows| ==> rows[i].code != rows[j].code
  }

  predicate HasCode(rows: seq<Row>, code: string) {
    exists i :: 0 <= i < |rows| && rows[i].code == code
  }

  /** Top level, or orphaned. */
  predicate IsRoot(rows: seq<Row>, r: Row) {
    r.parent.None? || !HasCode(rows, r.parent.value)
  }

  /** The rows of `part` that stand at the top of the catalogue `rows`, in order. */
  function Roots(rows: seq<Row>, part: seq<Row>): seq<Row> {
    if part == [] then []
    else
      var front, r := Roots(rows, part[..|part| - 1]), part[|part| - 1];
      if IsRoot(rows, r) then front + [r] else front
  }

  /** The rows directly below `code`, in order. */
  function Children(rows: seq<Row>, code: string): seq<Row> {
    if rows == [] then []
    else
      var front, r := Children(rows[..|rows| - 1], code), rows[|rows| - 1];
      if r.parent == Some(code) then front + [r] else front
  }

  // ---- The builder ----

  class Node {
    const row: Row
    var children: seq<Node>

    constructor (row: Row)
      ensures this.row == row && children == []
    {
      this.row := row;
      children := [];
    }
  }

  ghost predicate Covers(nodes: map<string, Node>, rows: seq<Row>) {
    && (forall i :: 0 <= i < |rows| ==> rows[i].code in nodes && nodes[rows[i].code].row == rows[i])
    && (forall c :: c in nodes ==> HasCode(rows, c) && nodes[c].row.code == c)
  }

  ghost function NodesOf(nodes: map<string, Node>, rows: seq<Row>): (ns: seq<Node>)
    requires forall i :: 0 <= i < |rows| ==> rows[i].code in nodes
    ensures |ns| == |rows|
  {
    seq(|rows|, i requires 0 <= i < |rows| => nodes[rows[i].code])
  }

  lemma {:induction false} ChildrenAreRows(rows: seq<Row>, code: string)
    ensures forall r :: r in Children(rows, code) <==> r in rows && r.parent == Some(code)
  {
    if rows != [] { ChildrenAreRows(rows[..|rows| - 1], code); }
  }

  lemma {:induction false} RootsAreRows(rows: seq<Row>, part: seq<Row>)
    ensures forall r :: r in Roots(rows, part) <==> r in part && IsRoot(rows, r)
  {
    if part != [] { RootsAreRows(rows, part[..|part| - 1]); }
  }

  method IndexByCode(rows: seq<Row>) returns (nodes: map<string, Node>)
    requires DistinctCodes(rows)
    ensures Covers(nodes, rows)
    ensures forall c :: c in nodes ==> fresh(nodes[c]) && nodes[c].children == []
  {
    nodes := map[];
    for i := 0 to |rows|
      invariant Covers(nodes, rows[..i])
      invariant forall c :: c in nodes ==> fresh(nodes[c]) && nodes[c].children == []
    {
      var node := new Node(rows[i]);
      assert forall c :: HasCode(rows[..i], c) ==> HasCode(rows[..i + 1], c) by {
        forall c | HasCode(rows[..i], c) ensures HasCode(rows[..i + 1], c) {
          var k :| 0 <= k < i && rows[..i][k].code == c;
          assert rows[..i + 1][k].code == c;
        }
      }
      assert rows[..i + 1][i].code == rows[i].code;
      nodes := nodes[rows[i].code := node];
    }
    assert rows[..|rows|] == rows;
  }

  /** The nodes carry, in order, exactly the children among `part`. */
  ghost predicate Linked(nodes: map<string, Node>, part: seq<Row>)
    requires forall i :: 0 <= i < |part| ==> part[i].code in nodes
    reads nodes.Values
  {
    forall c :: c in nodes ==> Linked1(nodes, part, c)
  }

  ghost predicate Linked1(nodes: map<string, Node>, part: seq<Row>, c: string)
    requires c in nodes && forall i :: 0 <= i < |part| ==> part[i].code in nodes
    reads nodes[c]
  {
    ChildrenAreRows(part, c);
    nodes[c].children == NodesOf(nodes, Children(part, c))
  }

  /** `parent.children.append(node)` */
  method Append(nodes: map<string, Node>, rows: seq<Row>, i: nat)
    requires i < |rows| && Covers(nodes, rows) && Linked(nodes, rows[..i])
    requires rows[i].parent.Some? && rows[i].parent.value in nodes
    modifies nodes[rows[i].parent.value]
    ensures Linked(nodes, rows[..i + 1])
  {
    var node, parent := nodes[rows[i].code], nodes[rows[i].parent.value];
    ghost var code := rows[i].parent.value;
    assert rows[..i + 1][..i] == rows[..i] && rows[..i + 1][i] == rows[i];
    assert forall c :: c in nodes ==> Linked1(nodes, rows[..i], c);
    assert forall c :: c in nodes && c != code ==> nodes[c] != parent;
    hide HasCode;
    parent.children := parent.children + [node];
    ChildrenAreRows(rows[..i + 1], code);
    assert Linked1(nodes, rows[..i + 1], code);
    forall c | c in nodes && c != code ensures Linked1(nodes, rows[..i + 1], c) {
      ChildrenAreRows(rows[..i + 1], c);
    }
  }

  lemma RootsStep(nodes: map<string, Node>, rows: seq<Row>, i: nat)
    requires i < |rows| && Covers(nodes, rows)
    ensures IsRoot(rows, rows[i]) <==> rows[i].parent.None? || rows[i].parent.value !in nodes
    ensures Roots(rows, rows[..i + 1])
         == if IsRoot(rows, rows[i]) then Roots(rows, rows[..i]) + [rows[i]] else Roots(rows, rows[..i])
    ensures rows[i].code in nodes
  {
    assert rows[..i + 1][..i] == rows[..i] && rows[..i + 1][i] == rows[i];
    if rows[i].parent.Some? && HasCode(rows, rows[i].parent.value) {
      var k :| 0 <= k < |rows| && rows[k].code == rows[i].parent.value;
    }
  }

  lemma NodesOfAppend(nodes: map<string, Node>, rows: seq<Row>, r: Row)
    requires r.code in nodes && forall i :: 0 <= i < |rows| ==> rows[i].code in nodes
    ensures forall i :: 0 <= i < |rows + [r]| ==> (rows + [r])[i].code in nodes
    ensures NodesOf(nodes, rows + [r]) == NodesOf(nodes, rows) + [nodes[r.code]]
  {
  }

  /** _build_tree */
  method BuildTree(rows: seq<Row>) returns (roots: seq<Node>, ghost nodes: map<string, Node>)
    requires DistinctCodes(rows)
    ensures Covers(nodes, rows) && Linked(nodes, rows)
    ensures forall c :: c in nodes ==> fresh(nodes[c])
    ensures forall i :: 0 <= i < |Roots(rows, rows)| ==> Roots(rows, rows)[i].code in nodes
    ensures roots == NodesOf(nodes, Roots(rows, rows))
  {
    var index := IndexByCode(rows);
    nodes := index;
    roots := [];
    assert Linked(index, []) by {
      assert forall c :: c in index ==> Linked1(index, [], c);
    }
    for i := 0 to |rows|
      invariant forall c :: c in index ==> fresh(index[c])
      invariant Linked(index, rows[..i])
      invariant forall k :: 0 <= k < |Roots(rows, rows[..i])| ==> Roots(rows, rows[..i])[k].code in index
      invariant roots == NodesOf(index, Roots(rows, rows[..i]))
    {
      hide *;
      var r := rows[i];
      RootsStep(index, rows, i);
      var node := index[r.code];
      if r.parent.None? {
        LinkedStep(index, rows, i);
        NodesOfAppend(index, Roots(rows, rows[..i]), r);
        roots := roots + [node];
      } else if r.parent.value in index {
        Append(index, rows, i);
      } else {
        LinkedStep(index, rows, i);
        NodesOfAppend(index, Roots(rows, rows[..i]), r);
        roots := roots + [node];
      }
    }
    assert rows[..|rows|] == rows;
  }

  lemma LinkedStep(nodes: map<string, Node>, rows: seq<Row>, i: nat)
    requires i < |rows| && Covers(nodes, rows) && Linked(nodes, rows[..i])
    requires rows[i].parent.None? || rows[i].parent.value !in nodes
    ensures Linked(nodes, rows[..i + 1])
  {
    assert rows[..i + 1][..i] == rows[..i];
    forall c | c in nodes ensures Linked1(nodes, rows[..i + 1], c) {
      assert Linked1(nodes, rows[..i], c);
    }
  }

  // ---- The forest as a value ----

  datatype Tree = Tree(row: Row, children: seq<Tree>)

  /** Parents rank below their children; `top` bounds all ranks. */
  ghost predicate Ranked(rows: seq<Row>, rank: map<string, nat>, top: nat) {
    forall i :: 0 <= i < |rows| ==> RankedRow(rows, rank, top, rows[i])
  }

  predicate RankedRow(rows: seq<Row>, rank: map<string, nat>, top: nat, r: Row) {
    && r.code in rank && rank[r.code] < top
    && (!IsRoot(rows, r) ==> r.parent.value in rank && rank[r.parent.value] < rank[r.code])
  }

  ghost predicate Acyclic(rows: seq<Row>) {
    exists rank, top :: Ranked(rows, rank, top)
  }

  /** The tree below a row. */
  ghost function Grow(rows: seq<Row>, rank: map<string, nat>, top: nat, r: Row): Tree
    requires Ranked(rows, rank, top) && r in rows
    decreases top - rank[r.code]
  {
    var below := Children(rows, r.code);
    ChildrenAreRows(rows, r.code);
    assert HasCode(rows, r.code);
    Tree(r, seq(|below|, i requires 0 <= i < |below| => GrowChild(rows, rank, top, r, below[i])))
  }

  ghost function GrowChild(rows: seq<Row>, rank: map<string, nat>, top: nat, r: Row, child: Row): Tree
    requires Ranked(rows, rank, top) && r in rows && child in rows && child.parent == Some(r.code)
    decreases top - rank[r.code], 0
  {
    assert HasCode(rows, r.code) && RankedRow(rows, rank, top, child) && RankedRow(rows, rank, top, r);
    Grow(rows, rank, top, child)
  }

  ghost function Forest(rows: seq<Row>, rank: map<string, nat>, top: nat): seq<Tree>
    requires Ranked(rows, rank, top)
  {
    RootsAreRows(rows, rows);
    seq(|Roots(rows, rows)|, i requires 0 <= i < |Roots(rows, rows)| => Grow(rows, rank, top, Roots(rows, rows)[i]))
  }
}
