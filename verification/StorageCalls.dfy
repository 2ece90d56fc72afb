/** One upload call against its interleaved steps, and a run that meets every assumption made about them. */
module StorageCalls {
  import opened Storage

  // ---- The call is its steps, run alone ----

  function Reads(id: UploadId, n: nat): seq<Op> {
    seq(n, i => Read(id))
  }

  /** The steps of one call: one read a chunk and one that finds the end. */
  function CallSteps(id: UploadId, chunks: seq<Content>, mimeAllowed: bool): seq<Op> {
    [Begin(id, chunks, mimeAllowed)] + Reads(id, |chunks| + 1) + [CheckExists(id), Commit(id)]
  }

  lemma {:induction false} AfterConcat(hash: Content -> string, s: State, ops: seq<Op>, more: seq<Op>)
    ensures After(hash, s, ops + more) == After(hash, After(hash, s, ops), more)
    decreases |more|
  {
    if more == [] {
      assert ops + more == ops;
    } else {
      assert (ops + more)[..|ops + more| - 1] == ops + more[..|more| - 1];
      AfterConcat(hash, s, ops, more[..|more| - 1]);
    }
  }

  lemma AfterOne(hash: Content -> string, s: State, op: Op)
    ensures After(hash, s, [op]) == Step(hash, s, op)
  {
    assert [op][..0] == [];
  }

  lemma AfterFirstRead(hash: Content -> string, s: State, id: UploadId, n: nat)
    requires n > 0
    ensures After(hash, s, Reads(id, n)) == After(hash, Step(hash, s, Read(id)), Reads(id, n - 1))
  {
    assert Reads(id, n) == [Read(id)] + Reads(id, n - 1);
    AfterConcat(hash, s, [Read(id)], Reads(id, n - 1));
    AfterOne(hash, s, Read(id));
  }

  lemma {:induction false} IdleReads(hash: Content -> string, s: State, id: UploadId, n: nat)
    requires id in s.uploads && !s.uploads[id].phase.Streaming?
    ensures After(hash, s, Reads(id, n)) == s
  {
    if n > 0 {
      AfterFirstRead(hash, s, id, n);
      IdleReads(hash, s, id, n - 1);
    }
  }

  /** Where the reads leave an upload: hashed, or rejected without a temp file. */
  function Streamed(hash: Content -> string, s: State, id: UploadId, all: Content): State
    requires id in s.uploads
  {
    if |all| <= s.maxBytes then Advance(s, id, Hashed(hash(all))).(temps := s.temps[id := all])
    else Advance(s, id, Finished(FileTooLarge)).(temps := s.temps - {id})
  }

  lemma ConcatFirst(rest: seq<Content>)
    requires rest != []
    ensures Concat(rest) == rest[0] + Concat(rest[1..])
  {
    ConcatSplit(rest, 1);
    assert rest[..1] == [rest[0]] && [rest[0]][..0] == [];
  }

  /** A read ends the streaming as specified, or leaves as much to do. */
  lemma OneRead(hash: Content -> string, s: State, id: UploadId)
    requires id in s.uploads && s.uploads[id].phase.Streaming? && id in s.temps
    requires s.uploads[id].phase.size == |s.temps[id]| <= s.maxBytes
    ensures var rest, next := s.uploads[id].phase.rest, Step(hash, s, Read(id));
      var all := s.temps[id] + Concat(rest);
      && id in next.uploads
      && (!next.uploads[id].phase.Streaming? ==> next == Streamed(hash, s, id, all))
      && (next.uploads[id].phase.Streaming? ==>
           && rest != [] && next.uploads[id].phase.rest == rest[1..] && id in next.temps
           && next.uploads[id].phase.size == |next.temps[id]| <= next.maxBytes
           && next.temps[id] + Concat(rest[1..]) == all
           && Streamed(hash, next, id, all) == Streamed(hash, s, id, all))
  {
    var rest, next := s.uploads[id].phase.rest, Step(hash, s, Read(id));
    if rest == [] {
      assert s.temps[id] + Concat(rest) == s.temps[id];
    } else {
      ConcatFirst(rest);
      hide Concat;
      assert s.temps[id] + Concat(rest) == s.temps[id] + rest[0] + Concat(rest[1..]);
    }
  }

  lemma {:induction false} ReadsFinish(hash: Content -> string, s: State, id: UploadId, n: nat)
    requires id in s.uploads && s.uploads[id].phase.Streaming? && id in s.temps
    requires s.uploads[id].phase.size == |s.temps[id]| <= s.maxBytes
    requires n > |s.uploads[id].phase.rest|
    ensures After(hash, s, Reads(id, n)) == Streamed(hash, s, id, s.temps[id] + Concat(s.uploads[id].phase.rest))
    decreases n
  {
    hide After, Step, Streamed, Concat;
    var rest, next := s.uploads[id].phase.rest, Step(hash, s, Read(id));
    AfterFirstRead(hash, s, id, n);
    OneRead(hash, s, id);
    if next.uploads[id].phase.Streaming? {
      ReadsFinish(hash, next, id, n - 1);
    } else {
      IdleReads(hash, next, id, n - 1);
    }
  }

  /** The state after a whole call run alone. */
  function Called(hash: Content -> string, s: State, id: UploadId, body: Content, mimeAllowed: bool): State {
    var r := ResultOf(hash, s.maxBytes, body, mimeAllowed);
    s.(uploads := s.uploads[id := Upload(body, Finished(r))], blobs := BlobsWith(s.blobs, body, r))
  }

  lemma FinishCall(hash: Content -> string, s: State, id: UploadId)
    requires id in s.uploads && s.uploads[id].phase.Hashed? && id in s.temps
    requires s.temps[id] == s.uploads[id].body && s.uploads[id].phase.digest == hash(s.temps[id])
    ensures var body := s.uploads[id].body; var r := Stored(hash(body), |body|);
      After(hash, s, [CheckExists(id), Commit(id)])
      == Advance(s, id, Finished(r)).(temps := s.temps - {id}, blobs := BlobsWith(s.blobs, body, r))
  {
    hide After;
    assert [CheckExists(id), Commit(id)] == [CheckExists(id)] + [Commit(id)];
    AfterConcat(hash, s, [CheckExists(id)], [Commit(id)]);
    AfterOne(hash, s, CheckExists(id));
    AfterOne(hash, Step(hash, s, CheckExists(id)), Commit(id));
  }

  lemma IdleFinish(hash: Content -> string, s: State, id: UploadId)
    requires id in s.uploads && s.uploads[id].phase.Finished?
    ensures After(hash, s, [CheckExists(id), Commit(id)]) == s
  {
    assert Step(hash, s, CheckExists(id)) == s && Step(hash, s, Commit(id)) == s;
    hide *;
    assert [CheckExists(id), Commit(id)] == [CheckExists(id)] + [Commit(id)];
    AfterConcat(hash, s, [CheckExists(id)], [Commit(id)]);
    AfterOne(hash, s, CheckExists(id));
    AfterOne(hash, s, Commit(id));
  }

  lemma CallSplits(hash: Content -> string, s: State, id: UploadId, chunks: seq<Content>, mimeAllowed: bool)
    ensures var start := Step(hash, s, Begin(id, chunks, mimeAllowed));
      After(hash, s, CallSteps(id, chunks, mimeAllowed))
      == After(hash, After(hash, start, Reads(id, |chunks| + 1)), [CheckExists(id), Commit(id)])
  {
    hide After, Step;
    AfterOne(hash, s, Begin(id, chunks, mimeAllowed));
    AfterConcat(hash, s, [Begin(id, chunks, mimeAllowed)], Reads(id, |chunks| + 1));
    AfterConcat(hash, s, [Begin(id, chunks, mimeAllowed)] + Reads(id, |chunks| + 1), [CheckExists(id), Commit(id)]);
  }

  lemma Refused(hash: Content -> string, s: State, id: UploadId, chunks: seq<Content>)
    requires id !in s.uploads && id !in s.temps
    ensures Step(hash, s, Begin(id, chunks, false)) == Called(hash, s, id, Concat(chunks), false)
  {
  }

  lemma Begun(hash: Content -> string, s: State, id: UploadId, chunks: seq<Content>)
    requires id !in s.uploads && id !in s.temps
    ensures Step(hash, s, Begin(id, chunks, true))
         == s.(uploads := s.uploads[id := Upload(Concat(chunks), Streaming(chunks, 0))], temps := s.temps[id := []])
  {
  }

  /** From the end of the stream to the end of the call. */
  lemma StreamedThenDone(hash: Content -> string, s: State, id: UploadId, rest: seq<Content>, body: Content)
    requires id !in s.uploads && id !in s.temps
    ensures var start := s.(uploads := s.uploads[id := Upload(body, Streaming(rest, 0))], temps := s.temps[id := []]);
      After(hash, Streamed(hash, start, id, body), [CheckExists(id), Commit(id)]) == Called(hash, s, id, body, true)
  {
    hide After;
    var start := s.(uploads := s.uploads[id := Upload(body, Streaming(rest, 0))], temps := s.temps[id := []]);
    var read := Streamed(hash, start, id, body);
    assert read.temps - {id} == s.temps;
    if |body| <= s.maxBytes { FinishCall(hash, read, id); } else { IdleFinish(hash, read, id); }
  }

  /** Run without interruption, the steps of an upload have the result, the blobs and the temp files that
      `FileStore.StoreUpload` has. */
  lemma StepsAreTheCall(hash: Content -> string, s: State, id: UploadId, chunks: seq<Content>, mimeAllowed: bool)
    requires id !in s.uploads && id !in s.temps
    ensures After(hash, s, CallSteps(id, chunks, mimeAllowed)) == Called(hash, s, id, Concat(chunks), mimeAllowed)
  {
    hide After, Concat, Step, Streamed;
    var body, start := Concat(chunks), Step(hash, s, Begin(id, chunks, mimeAllowed));
    CallSplits(hash, s, id, chunks, mimeAllowed);
    if mimeAllowed {
      Begun(hash, s, id, chunks);
      ReadsFinish(hash, start, id, |chunks| + 1);
      assert [] + body == body;
      StreamedThenDone(hash, s, id, chunks, body);
    } else {
      Refused(hash, s, id, chunks);
      IdleReads(hash, start, id, |chunks| + 1);
      IdleFinish(hash, start, id);
    }
  }

  // ---- The requirements can be met ----

  /** A hash that tells one-byte contents 1 and 2 apart. */
  function ToyHash(c: Content): string {
    if c == [1] then seq(64, i => '0') else seq(64, i => 'f')
  }

  const TOY_CONTENTS: set<Content> := {[1], [2]}

  const TOY_START := State(10, map[], map[], map[])

  /** Two uploads of different contents, both begun before either is read. */
  function ToyRun(): seq<Op> {
    [Begin(1, [[1]], true), Begin(2, [[2]], true)] + RestOfCall(1) + RestOfCall(2)
  }

  lemma ToyConcat(x: int)
    ensures Concat([[x]]) == [x]
  {
    assert [[x]][..0] == [];
  }

  function RestOfCall(id: UploadId): seq<Op> {
    Reads(id, 2) + [CheckExists(id), Commit(id)]
  }

  lemma ToyHashIsGood()
    ensures GoodHash(ToyHash, TOY_CONTENTS) && FinalPath(ToyHash([1])) != FinalPath(ToyHash([2]))
  {
    assert ToyHash([1])[0] == '0' && ToyHash([2])[0] == 'f';
  }

  lemma ToyRunIsWithin()
    ensures AllWithin(TOY_CONTENTS, ToyRun()) && Inv(ToyHash, TOY_CONTENTS, TOY_START)
  {
    ToyConcat(1);
    ToyConcat(2);
    forall i | 0 <= i < |ToyRun()| ensures Within(TOY_CONTENTS, ToyRun()[i]) {
      hide Concat;
    }
  }

  function BothBegun(): State {
    State(10, map[1 := [], 2 := []], map[],
          map[1 := Upload([1], Streaming([[1]], 0)), 2 := Upload([2], Streaming([[2]], 0))])
  }

  lemma ToyBegins()
    ensures After(ToyHash, TOY_START, [Begin(1, [[1]], true), Begin(2, [[2]], true)]) == BothBegun()
  {
    ToyConcat(1);
    ToyConcat(2);
    var ops := [Begin(1, [[1]], true), Begin(2, [[2]], true)];
    assert ops == [ops[0]] + [ops[1]];
    AfterConcat(ToyHash, TOY_START, [ops[0]], [ops[1]]);
    AfterOne(ToyHash, TOY_START, ops[0]);
    AfterOne(ToyHash, Step(ToyHash, TOY_START, ops[0]), ops[1]);
  }

  /** The assumptions of the laws above hold of a real hash, start and interleaved run, at whose end both
      uploads are stored. */
  lemma RequirementsAreMet()
    ensures GoodHash(ToyHash, TOY_CONTENTS) && Inv(ToyHash, TOY_CONTENTS, TOY_START) && AllWithin(TOY_CONTENTS, ToyRun())
    ensures var end := After(ToyHash, TOY_START, ToyRun());
      && end.blobs == map[FinalPath(ToyHash([1])) := [1], FinalPath(ToyHash([2])) := [2]]
      && end.uploads.Keys == {1, 2} && forall id :: id in end.uploads ==> end.uploads[id].phase.Finished?
  {
    ToyHashIsGood();
    ToyRunIsWithin();
    ToyBegins();
    hide After, Step, ToyHash, FinalPath, Reads;
    var first := [Begin(1, [[1]], true), Begin(2, [[2]], true)];
    var one := ToyFinish(BothBegun(), 1, [1]);
    var two := ToyFinish(one, 2, [2]);
    assert ToyRun() == first + RestOfCall(1) + RestOfCall(2);
    AfterConcat(ToyHash, TOY_START, first, RestOfCall(1));
    AfterConcat(ToyHash, TOY_START, first + RestOfCall(1), RestOfCall(2));
  }

  lemma ToyFinish(s: State, id: UploadId, body: Content) returns (t: State)
    requires id in s.uploads && id in s.temps && s.temps[id] == [] && |body| == 1 <= s.maxBytes
    requires s.uploads[id] == Upload(body, Streaming([body], 0))
    ensures t == After(ToyHash, s, RestOfCall(id))
    ensures t == s.(uploads := s.uploads[id := Upload(body, Finished(Stored(ToyHash(body), 1)))],
                    temps := s.temps - {id}, blobs := BlobsWith(s.blobs, body, Stored(ToyHash(body), 1)))
  {
    AfterConcat(ToyHash, s, Reads(id, 2), [CheckExists(id), Commit(id)]);
    assert Concat([body]) == body by { assert [body][..0] == []; }
    ReadsFinish(ToyHash, s, id, 2);
    assert s.temps[id] + Concat([body]) == body;
    var read := Streamed(ToyHash, s, id, body);
    FinishCall(ToyHash, read, id);
    t := After(ToyHash, s, RestOfCall(id));
  }
}
