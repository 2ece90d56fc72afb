/** Whole runs of custom codes, and what protects them from cycles. */
module CatalogueRuns {
  import opened Catalogue
  import opened CatalogueLaws
  import opened Domain

  /** The table after a run of `create_custom_code`; refused codes change nothing. */
  function AfterCodes(rows: seq<Row>, codes: seq<Row>): seq<Row> {
    if codes == [] then rows
    else
      var before, r := AfterCodes(rows, codes[..|codes| - 1]), codes[|codes| - 1];
      if CanCreate(before, r) then Insert(r.(isSeed := false), before) else before
  }

  lemma {:induction false} RunKeepsCatalogue(rows: seq<Row>, codes: seq<Row>)
    requires SortedByCode(rows) && ParentsExist(rows) && Acyclic(rows)
    ensures var after := AfterCodes(rows, codes); SortedByCode(after) && ParentsExist(after) && Acyclic(after)
  {
    hide SortedByCode, ParentsExist, Acyclic, HasCode;
    if codes != [] {
      var front, r := codes[..|codes| - 1], codes[|codes| - 1];
      RunKeepsCatalogue(rows, front);
      if CanCreate(AfterCodes(rows, front), r) {
        CustomCodeKeepsAcyclic(AfterCodes(rows, front), r.(isSeed := false));
      }
    }
  }

  /** What a run leaves: every row that was there, as it was, and of the codes sent those accepted, as custom rows. */
  lemma {:induction false} RunContents(rows: seq<Row>, codes: seq<Row>)
    ensures forall x :: x in rows ==> x in AfterCodes(rows, codes)
    ensures forall x :: x in AfterCodes(rows, codes) && x !in rows ==>
      exists i :: 0 <= i < |codes| && x == Row(codes[i].code, codes[i].parent, codes[i].level, codes[i].labelDe, false)
  {
    if codes != [] {
      var front, r := codes[..|codes| - 1], codes[|codes| - 1];
      RunContents(rows, front);
      InsertMembers(r.(isSeed := false), AfterCodes(rows, front));
      forall x | x in AfterCodes(rows, codes) && x !in rows
        ensures exists i :: 0 <= i < |codes| && x == Row(codes[i].code, codes[i].parent, codes[i].level, codes[i].labelDe, false)
      {
        if x in AfterCodes(rows, front) {
          var i :| 0 <= i < |front| && x == Row(front[i].code, front[i].parent, front[i].level, front[i].labelDe, false);
          assert codes[i] == front[i];
        } else {
          assert codes[|codes| - 1] == r;
        }
      }
    }
  }

  ghost predicate ShowsAll(rows: seq<Row>, rank: map<string, nat>, top: nat)
    requires Ranked(rows, rank, top)
  {
    multiset(FlattenAll(Forest(rows, rank, top))) == multiset(rows)
  }

  /** After any run of custom codes the tree shows every row of the table exactly once. */
  lemma RunFlattening(rows: seq<Row>, codes: seq<Row>)
    requires SortedByCode(rows) && ParentsExist(rows) && Acyclic(rows)
    ensures DistinctCodes(AfterCodes(rows, codes))
    ensures exists rank, top :: Ranked(AfterCodes(rows, codes), rank, top) && ShowsAll(AfterCodes(rows, codes), rank, top)
  {
    RunKeepsCatalogue(rows, codes);
    var after := AfterCodes(rows, codes);
    SortedIsDistinct(after);
    var rank, top :| Ranked(after, rank, top);
    FlatteningIsPermutation(after, rank, top);
    assert ShowsAll(after, rank, top);
  }

  // ---- Without the foreign key ----

  /** The root above a row. */
  ghost function TopOf(rows: seq<Row>, rank: map<string, nat>, top: nat, x: Row): (r: Row)
    requires Ranked(rows, rank, top) && x in rows
    ensures r in rows && IsRoot(rows, r)
    ensures r.code in rank && x.code in rank && rank[r.code] <= rank[x.code]
    decreases if x.code in rank then rank[x.code] else 0
  {
    assert RankedRow(rows, rank, top, x);
    if IsRoot(rows, x) then x
    else
      assert RankedRow(rows, rank, top, ParentRow(rows, x));
      TopOf(rows, rank, top, ParentRow(rows, x))
  }

  ghost function RowWith(rows: seq<Row>, code: string): (r: Row)
    requires HasCode(rows, code)
    ensures r in rows && r.code == code
  {
    var i :| 0 <= i < |rows| && rows[i].code == code;
    rows[i]
  }

  lemma CodeIdentifies(rows: seq<Row>, a: Row, b: Row)
    requires DistinctCodes(rows) && a in rows && b in rows && a.code == b.code
    ensures a == b
  {
  }

  /** The new row would stand below an orphan that waits for it. */
  ghost predicate ClosesCycle(rows: seq<Row>, rank: map<string, nat>, top: nat, r: Row)
    requires Ranked(rows, rank, top) && CanCreate(rows, r)
  {
    r.parent.Some? && TopOf(rows, rank, top, RowWith(rows, r.parent.value)).parent == Some(r.code)
  }

  lemma InsertHasCode(rows: seq<Row>, r: Row, c: string)
    ensures HasCode(Insert(r, rows), c) <==> c == r.code || HasCode(rows, c)
  {
    InsertMembers(r, rows);
    CodeOf(rows, c);
    CodeOf(Insert(r, rows), c);
  }

  /** Ranks never fall on the way down from the root, in any ranking of the extended table. */
  lemma {:induction false} RankAlongChain(
    rows: seq<Row>, rank: map<string, nat>, top: nat, r: Row, rank': map<string, nat>, top': nat, x: Row)
    requires DistinctCodes(rows) && Ranked(rows, rank, top) && CanCreate(rows, r) && x in rows
    requires Ranked(Insert(r, rows), rank', top')
    ensures var root := TopOf(rows, rank, top, x);
      x.code in rank' && root.code in rank' && rank'[root.code] <= rank'[x.code]
    decreases if x.code in rank then rank[x.code] else 0
  {
    InsertMembers(r, rows);
    assert RankedRow(rows, rank, top, x);
    RankedAt(Insert(r, rows), rank', top', x);
    if !IsRoot(rows, x) {
      var p := ParentRow(rows, x);
      RankedAt(rows, rank, top, p);
      InsertHasCode(rows, r, p.code);
      RankAlongChain(rows, rank, top, r, rank', top', p);
    }
  }

  lemma RankedAt(rows: seq<Row>, rank: map<string, nat>, top: nat, x: Row)
    requires Ranked(rows, rank, top) && x in rows
    ensures RankedRow(rows, rank, top, x)
  {
  }

  lemma CycleIsCycle(rows: seq<Row>, rank: map<string, nat>, top: nat, r: Row)
    requires DistinctCodes(rows) && Ranked(rows, rank, top) && CanCreate(rows, r) && ClosesCycle(rows, rank, top, r)
    ensures !Acyclic(Insert(r, rows))
  {
    var after, p := Insert(r, rows), RowWith(rows, r.parent.value);
    var root := TopOf(rows, rank, top, p);
    if rank', top' :| Ranked(after, rank', top') {
      InsertMembers(r, rows);
      RankAlongChain(rows, rank, top, r, rank', top', p);
      RankedAt(after, rank', top', r);
      RankedAt(after, rank', top', root);
      InsertHasCode(rows, r, r.code);
      InsertHasCode(rows, r, p.code);
      assert false;
    }
  }

  /** The row stands below an orphan that waits for `code`. */
  ghost predicate Waiting(rows: seq<Row>, rank: map<string, nat>, top: nat, x: Row, code: string)
    requires Ranked(rows, rank, top) && x in rows
  {
    TopOf(rows, rank, top, x).parent == Some(code)
  }

  /** The waiting rows move above the new one. */
  ghost function NewPlace(rows: seq<Row>, rank: map<string, nat>, top: nat, r: Row, c: string): nat
    requires Ranked(rows, rank, top) && c in rank
  {
    if c == r.code then top
    else if HasCode(rows, c) && Waiting(rows, rank, top, RowWith(rows, c), r.code) then top + 1 + rank[c]
    else rank[c]
  }

  ghost function NewRanks(rows: seq<Row>, rank: map<string, nat>, top: nat, r: Row): map<string, nat>
    requires Ranked(rows, rank, top)
  {
    (map c | c in rank :: NewPlace(rows, rank, top, r, c))[r.code := top]
  }

  lemma PlaceOf(rows: seq<Row>, rank: map<string, nat>, top: nat, r: Row, x: Row)
    requires DistinctCodes(rows) && Ranked(rows, rank, top) && CanCreate(rows, r) && x in rows
    ensures x.code in rank && rank[x.code] < top && x.code != r.code
    ensures NewRanks(rows, rank, top, r)[x.code]
         == if Waiting(rows, rank, top, x, r.code) then top + 1 + rank[x.code] else rank[x.code]
  {
    RankedAt(rows, rank, top, x);
    CodeOf(rows, x.code);
    CodeIdentifies(rows, RowWith(rows, x.code), x);
  }

  lemma NoCycleIsAcyclic(rows: seq<Row>, rank: map<string, nat>, top: nat, r: Row)
    requires DistinctCodes(rows) && Ranked(rows, rank, top) && CanCreate(rows, r) && !ClosesCycle(rows, rank, top, r)
    ensures Acyclic(Insert(r, rows))
  {
    var after, rank', top' := Insert(r, rows), NewRanks(rows, rank, top, r), 2 * top + 2;
    InsertMembers(r, rows);
    forall i | 0 <= i < |after| ensures RankedRow(after, rank', top', after[i]) {
      var x := after[i];
      assert x in after;
      if x == r {
        if r.parent.Some? { PlaceOf(rows, rank, top, r, RowWith(rows, r.parent.value)); }
      } else {
        OldRowRanked(rows, rank, top, r, x);
      }
    }
    assert Ranked(after, rank', top');
  }

  lemma OldRowRanked(rows: seq<Row>, rank: map<string, nat>, top: nat, r: Row, x: Row)
    requires DistinctCodes(rows) && Ranked(rows, rank, top) && CanCreate(rows, r) && x in rows
    ensures RankedRow(Insert(r, rows), NewRanks(rows, rank, top, r), 2 * top + 2, x)
  {
    PlaceOf(rows, rank, top, r, x);
    if x.parent.Some? {
      InsertHasCode(rows, r, x.parent.value);
      if !IsRoot(rows, x) {
        var p := ParentRow(rows, x);
        RankedAt(rows, rank, top, x);
        PlaceOf(rows, rank, top, r, p);
        assert Waiting(rows, rank, top, x, r.code) <==> Waiting(rows, rank, top, p, r.code);
      } else if x.parent.value == r.code {
        assert Waiting(rows, rank, top, x, r.code);
      }
    }
  }

  /** Without the foreign key orphans are possible, and then a custom code keeps the catalogue acyclic exactly when it
      is not created below an orphan whose missing parent it is. */
  lemma AcyclicExactly(rows: seq<Row>, rank: map<string, nat>, top: nat, r: Row)
    requires DistinctCodes(rows) && Ranked(rows, rank, top) && CanCreate(rows, r)
    ensures Acyclic(Insert(r, rows)) <==> !ClosesCycle(rows, rank, top, r)
  {
    if ClosesCycle(rows, rank, top, r) {
      CycleIsCycle(rows, rank, top, r);
    } else {
      NoCycleIsAcyclic(rows, rank, top, r);
    }
  }

  /** The orphan C1 waits for C; creating C below C1 closes the cycle. */
  lemma ClosedCycleWitness()
    ensures var rows, r := [Row("C1", Some("C"), 2, "Dach", true)], Row("C", Some("C1"), 1, "Rohbau", false);
      SortedByCode(rows) && Acyclic(rows) && CanCreate(rows, r) && !Acyclic(Insert(r, rows))
  {
    var rows, r := [Row("C1", Some("C"), 2, "Dach", true)], Row("C", Some("C1"), 1, "Rohbau", false);
    assert rows[0].code == "C1" && "C1" != "C";
    assert |"C1"| == 2 && |"C"| == 1;
    assert RankedRow(rows, map["C1" := 0], 1, rows[0]);
    assert Ranked(rows, map["C1" := 0], 1);
    AcyclicExactly(rows, map["C1" := 0], 1, r);
    var p := RowWith(rows, "C1");
    assert p == rows[0] && TopOf(rows, map["C1" := 0], 1, p) == p;
  }
}
