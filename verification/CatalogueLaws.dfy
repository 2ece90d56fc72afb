/** What the catalogue builder returns, and what custom codes preserve. */
module CatalogueLaws {
  import opened Catalogue
  import opened Domain
  import opened StringOrder

  // ---- Custom codes ----

  /** The order in which the catalogue is listed. */
  predicate SortedByCode(rows: seq<Row>) {
    forall i, j :: 0 <= i < j < |rows| ==> Less(rows[i].code, rows[j].code)
  }

  /** The self-referencing foreign key. */
  predicate ParentsExist(rows: seq<Row>) {
    forall i :: 0 <= i < |rows| ==> rows[i].parent.None? || HasCode(rows, rows[i].parent.value)
  }

  datatype CreateOutcome = Created | DuplicateCode | UnknownParent

  function Insert(r: Row, rows: seq<Row>): seq<Row> {
    if rows == [] then [r]
    else if Less(r.code, rows[0].code) then [r] + rows
    else [rows[0]] + Insert(r, rows[1..])
  }

  class CatalogueStore {
    /** The table in listing order. */
    var rows: seq<Row>

    constructor (seeds: seq<Row>)
      ensures rows == seeds
    {
      rows := seeds;
    }

    /** create_custom_code */
    method CreateCustomCode(r: Row) returns (outcome: CreateOutcome)
      modifies this
      ensures HasCode(old(rows), r.code) ==> outcome == DuplicateCode
      ensures !HasCode(old(rows), r.code) ==>
        (outcome == UnknownParent <==> r.parent.Some? && !HasCode(old(rows), r.parent.value))
      ensures outcome.Created? <==> CanCreate(old(rows), r)
      ensures rows == if outcome.Created? then Insert(r.(isSeed := false), old(rows)) else old(rows)
    {
      if HasCode(rows, r.code) {
        return DuplicateCode;
      }
      if r.parent.Some? {
        if !HasCode(rows, r.parent.value) {
          return UnknownParent;
        }
      }
      rows := Insert(r.(isSeed := false), rows);
      outcome := Created;
    }
  }

  predicate CanCreate(rows: seq<Row>, r: Row) {
    !HasCode(rows, r.code) && (r.parent.Some? ==> HasCode(rows, r.parent.value))
  }

  lemma {:induction false} InsertMembers(r: Row, rows: seq<Row>)
    ensures forall x :: x in Insert(r, rows) <==> x == r || x in rows
    ensures multiset(Insert(r, rows)) == multiset(rows) + multiset{r}
  {
    if rows != [] {
      InsertMembers(r, rows[1..]);
      assert rows == [rows[0]] + rows[1..];
    }
  }

  lemma {:induction false} InsertKeepsOrder(r: Row, rows: seq<Row>)
    requires SortedByCode(rows) && !HasCode(rows, r.code)
    ensures SortedByCode(Insert(r, rows))
  {
    hide Less, HasCode;
    if rows != [] {
      LessTotal(r.code, rows[0].code);
      if Less(r.code, rows[0].code) {
        forall x | x in rows ensures Less(r.code, x.code) {
          if x != rows[0] { LessTransitive(r.code, rows[0].code, x.code); }
        }
        PrependKeepsOrder(r, rows);
      } else {
        HeadHasCode(rows);
        TailHasCode(rows);
        InsertKeepsOrder(r, rows[1..]);
        InsertMembers(r, rows[1..]);
        PrependKeepsOrder(rows[0], Insert(r, rows[1..]));
      }
    }
  }

  lemma PrependKeepsOrder(r: Row, rows: seq<Row>)
    requires SortedByCode(rows) && forall x :: x in rows ==> Less(r.code, x.code)
    ensures SortedByCode([r] + rows)
  {
    hide Less;
  }

  lemma HeadHasCode(rows: seq<Row>)
    requires rows != []
    ensures HasCode(rows, rows[0].code)
  {
  }

  lemma TailHasCode(rows: seq<Row>)
    requires rows != []
    ensures forall c :: HasCode(rows[1..], c) ==> HasCode(rows, c)
  {
    forall c | HasCode(rows[1..], c) ensures HasCode(rows, c) {
      var i :| 0 <= i < |rows[1..]| && rows[1..][i].code == c;
      assert rows[i + 1].code == c;
    }
  }

  lemma CodeOf(rows: seq<Row>, c: string)
    ensures HasCode(rows, c) <==> exists x :: x in rows && x.code == c
  {
    if HasCode(rows, c) {
      var i :| 0 <= i < |rows| && rows[i].code == c;
      assert rows[i] in rows;
    }
  }

  lemma SortedIsDistinct(rows: seq<Row>)
    requires SortedByCode(rows)
    ensures DistinctCodes(rows)
  {
    forall i, j | 0 <= i < j < |rows| ensures rows[i].code != rows[j].code {
      LessTotal(rows[i].code, rows[j].code);
    }
  }

  /** A custom code keeps the catalogue sorted, its references sound and its parents acyclic. */
  lemma CustomCodeKeepsAcyclic(rows: seq<Row>, r: Row)
    requires SortedByCode(rows) && ParentsExist(rows) && Acyclic(rows) && CanCreate(rows, r)
    ensures var after := Insert(r, rows);
      SortedByCode(after) && ParentsExist(after) && Acyclic(after)
  {
    var after := Insert(r, rows);
    InsertKeepsOrder(r, rows);
    InsertMembers(r, rows);
    forall c ensures HasCode(after, c) <==> c == r.code || HasCode(rows, c) {
      CodeOf(rows, c);
      CodeOf(after, c);
    }
    forall i | 0 <= i < |after| ensures after[i].parent.None? || HasCode(after, after[i].parent.value) {
      assert after[i] in after;
      if after[i] != r { var k :| 0 <= k < |rows| && rows[k] == after[i]; }
    }
    var rank, top :| Ranked(rows, rank, top);
    NewRank(rows, r, rank, top);
  }

  lemma NewRank(rows: seq<Row>, r: Row, rank: map<string, nat>, top: nat)
    requires ParentsExist(rows) && Ranked(rows, rank, top) && CanCreate(rows, r)
    ensures Acyclic(Insert(r, rows))
  {
    var after := Insert(r, rows);
    InsertMembers(r, rows);
    var place := if r.parent.Some? && r.parent.value in rank then rank[r.parent.value] + 1 else 0;
    var rank' := rank[r.code := place];
    var top' := top + place + 1;
    forall i | 0 <= i < |after| ensures RankedRow(after, rank', top', after[i]) {
      assert after[i] in after;
      if after[i] != r {
        var k :| 0 <= k < |rows| && rows[k] == after[i];
        assert RankedRow(rows, rank, top, rows[k]) && HasCode(rows, rows[k].code);
        assert rows[k].parent.Some? ==> HasCode(rows, rows[k].parent.value);
      } else if r.parent.Some? {
        var k :| 0 <= k < |rows| && rows[k].code == r.parent.value;
        assert RankedRow(rows, rank, top, rows[k]);
      }
    }
    assert Ranked(after, rank', top');
  }

  // ---- Flattening ----

  function Flatten(t: Tree): seq<Row>
    decreases t
  {
    [t.row] + FlattenAll(t.children)
  }

  function FlattenAll(ts: seq<Tree>): seq<Row>
    decreases ts
  {
    if ts == [] then [] else Flatten(ts[0]) + FlattenAll(ts[1..])
  }

  function TreeRows(ts: seq<Tree>): (rs: seq<Row>)
    ensures |rs| == |ts|
  {
    seq(|ts|, i requires 0 <= i < |ts| => ts[i].row)
  }

  /** Below every node stand exactly its children, in listing order. */
  ghost predicate Grown(rows: seq<Row>, t: Tree)
    decreases t
  {
    && t.row in rows
    && TreeRows(t.children) == Children(rows, t.row.code)
    && forall i :: 0 <= i < |t.children| ==> Grown(rows, t.children[i])
  }

  lemma {:induction false} GrowIsGrown(rows: seq<Row>, rank: map<string, nat>, top: nat, r: Row)
    requires Ranked(rows, rank, top) && r in rows
    ensures Grow(rows, rank, top, r).row == r && Grown(rows, Grow(rows, rank, top, r))
    decreases top - (if r.code in rank then rank[r.code] else 0)
  {
    var below, t := Children(rows, r.code), Grow(rows, rank, top, r);
    ChildrenAreRows(rows, r.code);
    assert RankedRow(rows, rank, top, r) && HasCode(rows, r.code);
    forall i | 0 <= i < |below|
      ensures t.children[i].row == below[i] && Grown(rows, t.children[i])
    {
      assert RankedRow(rows, rank, top, below[i]);
      assert t.children[i] == GrowChild(rows, rank, top, r, below[i]) == Grow(rows, rank, top, below[i]);
      GrowIsGrown(rows, rank, top, below[i]);
    }
    assert TreeRows(t.children) == below;
  }

  ghost function ParentRow(rows: seq<Row>, x: Row): Row
    requires !IsRoot(rows, x)
  {
    var i :| 0 <= i < |rows| && rows[i].code == x.parent.value;
    rows[i]
  }

  lemma {:induction false} ChildCount(rows: seq<Row>, c: string, x: Row)
    requires DistinctCodes(rows) && x in rows
    ensures multiset(Children(rows, c))[x] == if x.parent == Some(c) then 1 else 0
  {
    var n := |rows| - 1;
    assert rows == rows[..n] + [rows[n]];
    if x in rows[..n] {
      ChildCount(rows[..n], c, x);
      assert x != rows[n] by { var i :| 0 <= i < n && rows[i] == x; }
    } else {
      ChildrenAreRows(rows[..n], c);
      assert x !in Children(rows[..n], c);
    }
  }

  lemma {:induction false} RootCount(rows: seq<Row>, part: seq<Row>, x: Row)
    requires DistinctCodes(part) && x in part
    ensures multiset(Roots(rows, part))[x] == if IsRoot(rows, x) then 1 else 0
  {
    var n := |part| - 1;
    assert part == part[..n] + [part[n]];
    if x in part[..n] {
      RootCount(rows, part[..n], x);
      assert x != part[n] by { var i :| 0 <= i < n && part[i] == x; }
    } else {
      RootsAreRows(rows, part[..n]);
      assert x !in Roots(rows, part[..n]);
    }
  }

  function Indicator(b: bool): nat {
    if b then 1 else 0
  }

  ghost function ParentOccurrences(rows: seq<Row>, flat: seq<Row>, x: Row): nat {
    if IsRoot(rows, x) then 0 else multiset(flat)[ParentRow(rows, x)]
  }

  /** In a grown tree a row occurs once as the top, and otherwise as often as its parent does. */
  lemma {:induction false} TreeCount(rows: seq<Row>, t: Tree, x: Row)
    requires DistinctCodes(rows) && Grown(rows, t) && x in rows
    ensures multiset(Flatten(t))[x] == Indicator(t.row == x) + ParentOccurrences(rows, Flatten(t), x)
    decreases t
  {
    ForestCount(rows, t.children, x);
    ChildCount(rows, t.row.code, x);
    assert HasCode(rows, t.row.code) by { CodeOf(rows, t.row.code); }
    if !IsRoot(rows, x) {
      var p := ParentRow(rows, x);
      assert t.row == p <==> x.parent == Some(t.row.code) by { SameCode(rows, t.row, p); }
    }
  }

  lemma OccurrencesAdd(rows: seq<Row>, a: seq<Row>, b: seq<Row>, x: Row)
    requires DistinctCodes(rows) && x in rows
    ensures ParentOccurrences(rows, a + b, x) == ParentOccurrences(rows, a, x) + ParentOccurrences(rows, b, x)
  {
    hide DistinctCodes, IsRoot;
  }

  lemma CountsAdd(a: seq<Row>, b: seq<Row>, x: Row)
    ensures multiset(a + b)[x] == multiset(a)[x] + multiset(b)[x]
  {
  }

  lemma TreeRowsStep(ts: seq<Tree>, x: Row)
    requires ts != []
    ensures multiset(TreeRows(ts))[x] == Indicator(ts[0].row == x) + multiset(TreeRows(ts[1..]))[x]
  {
    assert TreeRows(ts) == [ts[0].row] + TreeRows(ts[1..]);
  }

  lemma FlattenAllStep(ts: seq<Tree>)
    requires ts != []
    ensures FlattenAll(ts) == Flatten(ts[0]) + FlattenAll(ts[1..])
  {
  }

  lemma SameCode(rows: seq<Row>, a: Row, b: Row)
    requires DistinctCodes(rows) && a in rows && b in rows
    ensures a == b <==> a.code == b.code
  {
  }

  lemma {:induction false} ForestCount(rows: seq<Row>, ts: seq<Tree>, x: Row)
    requires DistinctCodes(rows) && x in rows
    requires forall i :: 0 <= i < |ts| ==> Grown(rows, ts[i])
    ensures multiset(FlattenAll(ts))[x] == multiset(TreeRows(ts))[x] + ParentOccurrences(rows, FlattenAll(ts), x)
    decreases ts
  {
    if ts != [] {
      TreeCount(rows, ts[0], x);
      ForestCount(rows, ts[1..], x);
      OccurrencesAdd(rows, Flatten(ts[0]), FlattenAll(ts[1..]), x);
      hide *;
      CountsAdd(Flatten(ts[0]), FlattenAll(ts[1..]), x);
      TreeRowsStep(ts, x);
      assert FlattenAll(ts) == Flatten(ts[0]) + FlattenAll(ts[1..]) by { FlattenAllStep(ts); }
    } else {
      assert TreeRows(ts) == [];
    }
  }

  /** Every row occurs exactly once: it is a root, or its parent occurs exactly once. */
  lemma {:induction false} OccursOnce(rows: seq<Row>, rank: map<string, nat>, top: nat, x: Row)
    requires DistinctCodes(rows) && Ranked(rows, rank, top) && x in rows
    ensures multiset(FlattenAll(Forest(rows, rank, top)))[x] == 1
    decreases if x.code in rank then rank[x.code] else 0
  {
    var forest := Forest(rows, rank, top);
    RootsAreRows(rows, rows);
    forall i | 0 <= i < |forest| ensures Grown(rows, forest[i]) && forest[i].row == Roots(rows, rows)[i] {
      GrowIsGrown(rows, rank, top, Roots(rows, rows)[i]);
    }
    assert TreeRows(forest) == Roots(rows, rows);
    ForestCount(rows, forest, x);
    RootCount(rows, rows, x);
    if !IsRoot(rows, x) {
      assert RankedRow(rows, rank, top, x);
      OccursOnce(rows, rank, top, ParentRow(rows, x));
    }
  }

  lemma {:induction false} OnlyRows(rows: seq<Row>, ts: seq<Tree>)
    requires forall i :: 0 <= i < |ts| ==> Grown(rows, ts[i])
    ensures forall x :: x in FlattenAll(ts) ==> x in rows
    decreases ts
  {
    if ts != [] {
      OnlyRows(rows, ts[0].children);
      OnlyRows(rows, ts[1..]);
    }
  }

  lemma {:induction false} DistinctCount(rows: seq<Row>, x: Row)
    requires DistinctCodes(rows) && x in rows
    ensures multiset(rows)[x] == 1
  {
    var n := |rows| - 1;
    assert rows == rows[..n] + [rows[n]];
    if x in rows[..n] {
      DistinctCount(rows[..n], x);
      assert x != rows[n] by { var i :| 0 <= i < n && rows[i] == x; }
    }
  }

  /** No row is lost and none is shown twice, orphans included, for every acyclic catalogue. */
  lemma FlatteningIsPermutation(rows: seq<Row>, rank: map<string, nat>, top: nat)
    requires DistinctCodes(rows) && Ranked(rows, rank, top)
    ensures multiset(FlattenAll(Forest(rows, rank, top))) == multiset(rows)
  {
    var flat := FlattenAll(Forest(rows, rank, top));
    RootsAreRows(rows, rows);
    forall i | 0 <= i < |Forest(rows, rank, top)| ensures Grown(rows, Forest(rows, rank, top)[i]) {
      GrowIsGrown(rows, rank, top, Roots(rows, rows)[i]);
    }
    OnlyRows(rows, Forest(rows, rank, top));
    forall x ensures multiset(flat)[x] == multiset(rows)[x] {
      if x in rows {
        OccursOnce(rows, rank, top, x);
        DistinctCount(rows, x);
      } else {
        assert x !in flat;
      }
    }
  }

  /** Siblings keep the listing order. */
  lemma {:induction false} SiblingsInOrder(rows: seq<Row>, part: seq<Row>, code: string)
    requires SortedByCode(part)
    ensures SortedByCode(Children(part, code)) && SortedByCode(Roots(rows, part))
  {
    if part != [] {
      var n := |part| - 1;
      SiblingsInOrder(rows, part[..n], code);
      ChildrenAreRows(part[..n], code);
      RootsAreRows(rows, part[..n]);
      forall x | x in part[..n] ensures Less(x.code, part[n].code) {
        var i :| 0 <= i < n && part[i] == x;
      }
      var cs, rs := Children(part[..n], code), Roots(rows, part[..n]);
      assert forall i :: 0 <= i < |cs| ==> cs[i] in part[..n];
      assert forall i :: 0 <= i < |rs| ==> rs[i] in part[..n];
    }
  }

  // ---- The mutable nodes show that forest ----

  ghost predicate Depicts(n: Node, t: Tree, nodes: map<string, Node>)
    reads nodes.Values
    decreases t
  {
    && n in nodes.Values
    && n.row == t.row
    && |n.children| == |t.children|
    && forall i :: 0 <= i < |t.children| ==> Depicts(n.children[i], t.children[i], nodes)
  }

  lemma {:induction false} NodeDepictsTree(nodes: map<string, Node>, rows: seq<Row>, rank: map<string, nat>, top: nat, r: Row)
    requires DistinctCodes(rows) && Covers(nodes, rows) && Linked(nodes, rows)
    requires Ranked(rows, rank, top) && r in rows && r.code in nodes
    ensures Depicts(nodes[r.code], Grow(rows, rank, top, r), nodes)
    decreases top - (if r.code in rank then rank[r.code] else 0)
  {
    var below, t := Children(rows, r.code), Grow(rows, rank, top, r);
    assert Linked1(nodes, rows, r.code);
    ChildrenAreRows(rows, r.code);
    assert RankedRow(rows, rank, top, r) && HasCode(rows, r.code);
    forall i | 0 <= i < |below|
      ensures Depicts(nodes[r.code].children[i], t.children[i], nodes)
    {
      assert RankedRow(rows, rank, top, below[i]);
      assert nodes[r.code].children[i] == nodes[below[i].code];
      assert t.children[i] == GrowChild(rows, rank, top, r, below[i]) == Grow(rows, rank, top, below[i]);
      NodeDepictsTree(nodes, rows, rank, top, below[i]);
    }
    assert nodes[r.code].row == r by {
      var k :| 0 <= k < |rows| && rows[k] == r;
    }
  }

  /** get_catalogue_tree: from any acyclic listing the in-place builder returns nodes that show the forest
      whose flattening is the listing. */
  method GetCatalogueTree(rows: seq<Row>, ghost rank: map<string, nat>, ghost top: nat)
    returns (roots: seq<Node>, ghost nodes: map<string, Node>)
    requires DistinctCodes(rows) && Ranked(rows, rank, top)
    ensures |roots| == |Forest(rows, rank, top)|
    ensures forall i :: 0 <= i < |roots| ==> Depicts(roots[i], Forest(rows, rank, top)[i], nodes)
    ensures multiset(FlattenAll(Forest(rows, rank, top))) == multiset(rows)
  {
    roots, nodes := BuildTree(rows);
    RootsAreRows(rows, rows);
    forall i | 0 <= i < |roots|
      ensures Depicts(roots[i], Forest(rows, rank, top)[i], nodes)
    {
      NodeDepictsTree(nodes, rows, rank, top, Roots(rows, rows)[i]);
    }
    FlatteningIsPermutation(rows, rank, top);
  }
}
