/** Content-addressed uploads: the streaming call itself, and its file-system steps under any interleaving. */
module Storage {
  import opened Domain

  type Content = seq<int>
  type UploadId = nat

  /** `<root>/<shard>/<name>` */
  datatype Path = Path(shard: string, name: string)

  predicate IsHex(c: char) {
    '0' <= c <= '9' || 'a' <= c <= 'f'
  }

  predicate IsDigest(d: string) {
    |d| == 64 && forall i :: 0 <= i < |d| ==> IsHex(d[i])
  }

  /** resolve_path */
  function ResolvePath(digest: string): Option<Path> {
    if !IsDigest(digest) then None else Some(Path(digest[..2], digest))
  }

  /** SHA-256 as the model sees it: well-formed digests, and no collision among the contents in use. */
  ghost predicate GoodHash(hash: Content -> string, used: set<Content>) {
    && (forall c :: IsDigest(hash(c)))
    && (forall a, b :: a in used && b in used && hash(a) == hash(b) ==> a == b)
  }

  function FinalPath(digest: string): Path {
    Path(if |digest| >= 2 then digest[..2] else digest, digest)
  }

  function Concat(chunks: seq<Content>): Content {
    if chunks == [] then [] else Concat(chunks[..|chunks| - 1]) + chunks[|chunks| - 1]
  }

  lemma {:induction false} ConcatSplit(chunks: seq<Content>, k: nat)
    requires k <= |chunks|
    ensures Concat(chunks) == Concat(chunks[..k]) + Concat(chunks[k..])
    decreases |chunks| - k
  {
    if k == |chunks| {
      assert chunks[..k] == chunks;
    } else {
      ConcatSplit(chunks[..|chunks| - 1], k);
      assert chunks[..|chunks| - 1][..k] == chunks[..k];
      assert chunks[k..][..|chunks| - k - 1] == chunks[..|chunks| - 1][k..];
    }
  }

  lemma ConcatPrefixLength(chunks: seq<Content>, k: nat)
    requires k <= |chunks|
    ensures |Concat(chunks[..k])| <= |Concat(chunks)|
  {
    ConcatSplit(chunks, k);
  }

  // ---- The call on its own ----

  datatype Result = Stored(sha256: string, size: nat) | FileTooLarge | UnsupportedMediaType

  /** What a call returns, from the body alone. */
  function ResultOf(hash: Content -> string, maxBytes: nat, body: Content, mimeAllowed: bool): Result {
    if !mimeAllowed then UnsupportedMediaType
    else if |body| > maxBytes then FileTooLarge
    else Stored(hash(body), |body|)
  }

  /** The blobs after a call with result `r`: at most the content is added under its digest. */
  function BlobsWith(blobs: map<Path, Content>, body: Content, r: Result): map<Path, Content> {
    if r.Stored? && FinalPath(r.sha256) !in blobs then blobs[FinalPath(r.sha256) := body] else blobs
  }

  class FileStore {
    const maxBytes: nat
    var temps: map<UploadId, Content>
    var blobs: map<Path, Content>

    constructor (maxBytes: nat)
      ensures this.maxBytes == maxBytes && temps == map[] && blobs == map[]
    {
      this.maxBytes := maxBytes;
      temps, blobs := map[], map[];
    }

    /** store_upload, uninterrupted. `chunks` are the successive non-empty reads of the body and `tmp` is the
        fresh random name. */
    method StoreUpload(hash: Content -> string, tmp: UploadId, chunks: seq<Content>, mimeAllowed: bool) returns (r: Result)
      requires tmp !in temps
      modifies this`temps, this`blobs
      ensures r == ResultOf(hash, maxBytes, Concat(chunks), mimeAllowed)
      ensures temps == old(temps) && blobs == BlobsWith(old(blobs), Concat(chunks), r)
    {
      if !mimeAllowed {
        return UnsupportedMediaType;
      }
      var size, hashed := 0, [];
      temps := temps[tmp := []];
      for i := 0 to |chunks|
        invariant hashed == Concat(chunks[..i]) && size == |hashed| <= maxBytes
        invariant temps == old(temps)[tmp := hashed] && blobs == old(blobs)
      {
        var chunk := chunks[i];
        assert chunks[..i + 1][..i] == chunks[..i];
        size := size + |chunk|;
        if size > maxBytes {
          ConcatPrefixLength(chunks, i + 1);
          temps := temps - {tmp};
          return FileTooLarge;
        }
        hashed := hashed + chunk;
        temps := temps[tmp := temps[tmp] + chunk];
      }
      assert chunks[..|chunks|] == chunks;
      var sha256 := hash(hashed);
      var finalPath := FinalPath(sha256);
      if finalPath !in blobs {
        blobs := blobs[finalPath := temps[tmp]];
      }
      temps := temps - {tmp};
      r := Stored(sha256, size);
    }
  }

  // ---- The steps, interleaved ----

  datatype Phase =
    | Streaming(rest: seq<Content>, size: nat)
    | Hashed(digest: string)
    | Decided(digest: string, exists_: bool)
    | Finished(result: Result)
    | Aborted

  datatype Upload = Upload(body: Content, phase: Phase)

  datatype State = State(maxBytes: nat, temps: map<UploadId, Content>, blobs: map<Path, Content>, uploads: map<UploadId, Upload>)

  datatype Op =
    | Begin(id: UploadId, chunks: seq<Content>, mimeAllowed: bool)
    | Read(id: UploadId)
    | CheckExists(id: UploadId)
    | Commit(id: UploadId)
    | Abort(id: UploadId)

  function Advance(s: State, id: UploadId, phase: Phase): State
    requires id in s.uploads
  {
    s.(uploads := s.uploads[id := s.uploads[id].(phase := phase)])
  }

  /** One atomic step of one upload; steps that do not apply leave the state alone. `Abort` is any
      exception other than a StorageError while streaming, such as a disconnected client. */
  function Step(hash: Content -> string, s: State, op: Op): State {
    match op
    case Begin(id, chunks, mimeAllowed) =>
      if id in s.uploads then s
      else if !mimeAllowed then
        s.(uploads := s.uploads[id := Upload(Concat(chunks), Finished(UnsupportedMediaType))])
      else
        s.(uploads := s.uploads[id := Upload(Concat(chunks), Streaming(chunks, 0))], temps := s.temps[id := []])
    case Read(id) =>
      if id !in s.uploads || !s.uploads[id].phase.Streaming? || id !in s.temps then s
      else
        var p := s.uploads[id].phase;
        if p.rest == [] then Advance(s, id, Hashed(hash(s.temps[id])))
        else if p.size + |p.rest[0]| > s.maxBytes then
          Advance(s, id, Finished(FileTooLarge)).(temps := s.temps - {id})
        else
          Advance(s, id, Streaming(p.rest[1..], p.size + |p.rest[0]|)).(temps := s.temps[id := s.temps[id] + p.rest[0]])
    case CheckExists(id) =>
      if id !in s.uploads || !s.uploads[id].phase.Hashed? then s
      else
        var d := s.uploads[id].phase.digest;
        Advance(s, id, Decided(d, FinalPath(d) in s.blobs))
    case Commit(id) =>
      if id !in s.uploads || !s.uploads[id].phase.Decided? || id !in s.temps then s
      else
        var p := s.uploads[id].phase;
        var done := Advance(s, id, Finished(Stored(p.digest, |s.uploads[id].body|))).(temps := s.temps - {id});
        if p.exists_ then done else done.(blobs := s.blobs[FinalPath(p.digest) := s.temps[id]])
    case Abort(id) =>
      if id !in s.uploads || !s.uploads[id].phase.Streaming? then s else Advance(s, id, Aborted)
  }

  /** The file at a content address hashes to its name and fits the cap. */
  ghost predicate BlobInv(hash: Content -> string, used: set<Content>, s: State, path: Path)
    requires path in s.blobs
  {
    s.blobs[path] in used && path == FinalPath(hash(s.blobs[path])) && |s.blobs[path]| <= s.maxBytes
  }

  /** How far an upload has come, and what its temp file and its blob look like. */
  ghost predicate UploadInv(hash: Content -> string, used: set<Content>, s: State, id: UploadId)
    requires id in s.uploads
  {
    var body := s.uploads[id].body;
    && body in used
    && match s.uploads[id].phase
    case Streaming(rest, size) =>
      id in s.temps && s.temps[id] + Concat(rest) == body && size == |s.temps[id]| <= s.maxBytes
    case Hashed(d) => id in s.temps && s.temps[id] == body && d == hash(body) && |body| <= s.maxBytes
    case Decided(d, e) =>
      && id in s.temps && s.temps[id] == body && d == hash(body) && |body| <= s.maxBytes
      && (e ==> FinalPath(d) in s.blobs)
    case Finished(Stored(d, size)) =>
      && id !in s.temps
      && d == hash(body) && size == |body| <= s.maxBytes
      && FinalPath(d) in s.blobs && s.blobs[FinalPath(d)] == body
    case Finished(FileTooLarge) => id !in s.temps && |body| > s.maxBytes
    case Finished(UnsupportedMediaType) => id !in s.temps
    case Aborted => id in s.temps
  }

  ghost predicate Inv(hash: Content -> string, used: set<Content>, s: State) {
    && (forall path :: path in s.blobs ==> BlobInv(hash, used, s, path))
    && (forall id :: id in s.uploads ==> UploadInv(hash, used, s, id))
    && (forall id :: id in s.temps ==> id in s.uploads)
  }

  /** The call brings in no content beyond those in use. */
  predicate Within(used: set<Content>, op: Op) {
    op.Begin? ==> Concat(op.chunks) in used
  }

  predicate AllWithin(used: set<Content>, ops: seq<Op>) {
    forall i :: 0 <= i < |ops| ==> Within(used, ops[i])
  }

  /** Present blobs stay, with the same content. */
  predicate BlobsKept(s: State, t: State) {
    forall path :: path in s.blobs ==> path in t.blobs && t.blobs[path] == s.blobs[path]
  }

  lemma FinalPathInjective(a: string, b: string)
    requires FinalPath(a) == FinalPath(b)
    ensures a == b
  {
  }

  /** Only a commit writes a blob. */
  lemma BlobsChange(hash: Content -> string, s: State, op: Op)
    ensures Step(hash, s, op).blobs == s.blobs || (
      && op.Commit? && op.id in s.uploads && s.uploads[op.id].phase.Decided? && op.id in s.temps
      && Step(hash, s, op).blobs == s.blobs[FinalPath(s.uploads[op.id].phase.digest) := s.temps[op.id]])
  {
  }

  lemma StepKeepsBlobs(hash: Content -> string, used: set<Content>, s: State, op: Op)
    requires GoodHash(hash, used) && Inv(hash, used, s)
    ensures BlobsKept(s, Step(hash, s, op))
  {
    hide Step;
    BlobsChange(hash, s, op);
    if op.Commit? && op.id in s.uploads && s.uploads[op.id].phase.Decided? {
      assert UploadInv(hash, used, s, op.id);
      var path := FinalPath(s.uploads[op.id].phase.digest);
      if path in s.blobs {
        assert BlobInv(hash, used, s, path);
        FinalPathInjective(hash(s.blobs[path]), hash(s.uploads[op.id].body));
      }
    }
  }

  lemma OtherUploadsKeep(hash: Content -> string, used: set<Content>, s: State, t: State, id: UploadId)
    requires id in s.uploads && id in t.uploads && s.uploads[id] == t.uploads[id] && s.maxBytes == t.maxBytes
    requires id in s.temps <==> id in t.temps
    requires id in s.temps ==> s.temps[id] == t.temps[id]
    requires BlobsKept(s, t) && UploadInv(hash, used, s, id)
    ensures UploadInv(hash, used, t, id)
  {
  }

  lemma ReadKeepsUpload(hash: Content -> string, used: set<Content>, s: State, id: UploadId)
    requires id in s.uploads && UploadInv(hash, used, s, id)
    ensures UploadInv(hash, used, Step(hash, s, Read(id)), id)
  {
    if s.uploads[id].phase.Streaming? {
      var rest := s.uploads[id].phase.rest;
      if rest != [] {
        ConcatSplit(rest, 1);
        assert rest[..1] == [rest[0]] && Concat([rest[0]]) == [] + rest[0] by {
          assert [rest[0]][..0] == [];
        }
        assert s.temps[id] + (rest[0] + Concat(rest[1..])) == s.temps[id] + rest[0] + Concat(rest[1..]);
      }
    }
  }

  lemma StepKeepsUpload(hash: Content -> string, used: set<Content>, s: State, op: Op)
    requires GoodHash(hash, used) && Inv(hash, used, s) && Within(used, op) && op.id in Step(hash, s, op).uploads
    ensures UploadInv(hash, used, Step(hash, s, op), op.id)
  {
    if op.id in s.uploads { assert UploadInv(hash, used, s, op.id); }
    if op.Read? {
      ReadKeepsUpload(hash, used, s, op.id);
    } else if op.Commit? && op.id in s.uploads && s.uploads[op.id].phase.Decided? && s.uploads[op.id].phase.exists_ {
      var path := FinalPath(s.uploads[op.id].phase.digest);
      assert BlobInv(hash, used, s, path);
      FinalPathInjective(hash(s.blobs[path]), hash(s.uploads[op.id].body));
    }
  }

  /** A step touches its own upload only. */
  lemma StepFrame(hash: Content -> string, s: State, op: Op, id: UploadId)
    requires id != op.id
    ensures var t := Step(hash, s, op);
      && (id in t.uploads <==> id in s.uploads) && (id in t.temps <==> id in s.temps)
      && (id in s.uploads ==> t.uploads[id] == s.uploads[id]) && (id in s.temps ==> t.temps[id] == s.temps[id])
  {
  }

  lemma StepKeepsOwnership(hash: Content -> string, s: State, op: Op)
    requires op.id in s.temps ==> op.id in s.uploads
    ensures op.id in Step(hash, s, op).temps ==> op.id in Step(hash, s, op).uploads
    ensures Step(hash, s, op).maxBytes == s.maxBytes
  {
  }

  lemma NewBlobInv(hash: Content -> string, used: set<Content>, s: State, op: Op, path: Path)
    requires GoodHash(hash, used) && Inv(hash, used, s)
    requires path in Step(hash, s, op).blobs && path !in s.blobs
    ensures BlobInv(hash, used, Step(hash, s, op), path)
  {
    assert UploadInv(hash, used, s, op.id);
  }

  lemma StepKeepsInv(hash: Content -> string, used: set<Content>, s: State, op: Op)
    requires GoodHash(hash, used) && Inv(hash, used, s) && Within(used, op)
    ensures Inv(hash, used, Step(hash, s, op))
  {
    hide Step, UploadInv, GoodHash;
    var t := Step(hash, s, op);
    StepKeepsOwnership(hash, s, op);
    StepKeepsBlobs(hash, used, s, op);
    if op.id in t.uploads { StepKeepsUpload(hash, used, s, op); }
    forall id | id in t.uploads && id != op.id ensures UploadInv(hash, used, t, id) {
      StepFrame(hash, s, op, id);
      OtherUploadsKeep(hash, used, s, t, id);
    }
    forall id | id in t.temps ensures id in t.uploads {
      if id != op.id { StepFrame(hash, s, op, id); }
    }
    forall path | path in t.blobs ensures BlobInv(hash, used, t, path) {
      if path in s.blobs { assert BlobInv(hash, used, s, path); } else { NewBlobInv(hash, used, s, op, path); }
    }
  }

  function After(hash: Content -> string, s: State, ops: seq<Op>): State {
    if ops == [] then s else Step(hash, After(hash, s, ops[..|ops| - 1]), ops[|ops| - 1])
  }

  /** Over every interleaving: files at content addresses are complete and hash to their names, and a file once
      there keeps its content. */
  lemma {:induction false} RunKeepsInv(hash: Content -> string, used: set<Content>, s: State, ops: seq<Op>, i: nat)
    requires GoodHash(hash, used) && Inv(hash, used, s) && AllWithin(used, ops) && i <= |ops|
    ensures Inv(hash, used, After(hash, s, ops[..i])) && Inv(hash, used, After(hash, s, ops))
    ensures BlobsKept(After(hash, s, ops[..i]), After(hash, s, ops))
    decreases |ops|
  {
    if i < |ops| {
      var front := ops[..|ops| - 1];
      RunKeepsInv(hash, used, s, front, i);
      assert front[..i] == ops[..i];
      StepKeepsInv(hash, used, After(hash, s, front), ops[|ops| - 1]);
      StepKeepsBlobs(hash, used, After(hash, s, front), ops[|ops| - 1]);
    } else {
      assert ops[..i] == ops;
      if i > 0 {
        RunKeepsInv(hash, used, s, ops[..i - 1], i - 1);
        assert ops[..i - 1][..i - 1] == ops[..i - 1];
        StepKeepsInv(hash, used, After(hash, s, ops[..i - 1]), ops[i - 1]);
      }
    }
  }

  /** What a caller was told holds from then on, whatever other uploads do: the digest resolves to a file with
      exactly the uploaded bytes, of the stated size and within the cap. */
  lemma ResultStaysTrue(hash: Content -> string, used: set<Content>, s: State, ops: seq<Op>, i: nat, id: UploadId)
    requires GoodHash(hash, used) && Inv(hash, used, s) && AllWithin(used, ops) && i <= |ops|
    requires id in After(hash, s, ops[..i]).uploads
    requires After(hash, s, ops[..i]).uploads[id].phase.Finished?
    requires After(hash, s, ops[..i]).uploads[id].phase.result.Stored?
    ensures var told, body := After(hash, s, ops[..i]).uploads[id].phase.result, After(hash, s, ops[..i]).uploads[id].body;
      var now := After(hash, s, ops);
      && ResolvePath(told.sha256).Some?
      && ResolvePath(told.sha256).value in now.blobs
      && now.blobs[ResolvePath(told.sha256).value] == body
      && told.size == |body| <= After(hash, s, ops[..i]).maxBytes
  {
    RunKeepsInv(hash, used, s, ops, i);
    assert UploadInv(hash, used, After(hash, s, ops[..i]), id);
  }

  /** Serving by digest is right: the path of a digest, if there is a file, holds content with that digest, and
      every stored file is found under its own name and no other. */
  lemma ServedContentMatches(hash: Content -> string, used: set<Content>, s: State, path: Path, digest: string)
    requires GoodHash(hash, used) && Inv(hash, used, s) && path in s.blobs
    ensures ResolvePath(digest) == Some(path) <==> digest == hash(s.blobs[path])
    ensures ResolvePath(path.name) == Some(path)
    ensures path == Path(hash(s.blobs[path])[..2], hash(s.blobs[path]))
  {
    assert BlobInv(hash, used, s, path);
  }

  /** Identical content is stored once. */
  lemma Deduplicated(hash: Content -> string, used: set<Content>, s: State, p: Path, q: Path)
    requires Inv(hash, used, s) && p in s.blobs && q in s.blobs && s.blobs[p] == s.blobs[q]
    ensures p == q
  {
    assert BlobInv(hash, used, s, p) && BlobInv(hash, used, s, q);
  }

  /** A rejected upload leaves no temp file. Temp files remain exactly of uploads still under way and of those
      that ended in an exception other than a StorageError, which only the first clause cleans up after. */
  lemma TempFilesExactly(hash: Content -> string, used: set<Content>, s: State, id: UploadId)
    requires Inv(hash, used, s)
    ensures id in s.temps <==> id in s.uploads && !s.uploads[id].phase.Finished?
  {
    if id in s.uploads { assert UploadInv(hash, used, s, id); }
  }

  /** So a client that disconnects leaves its partial file behind for good. */
  lemma AbortedStaysAborted(hash: Content -> string, s: State, id: UploadId, op: Op)
    requires id in s.uploads && s.uploads[id].phase.Aborted? && id in s.temps
    ensures var t := Step(hash, s, op);
      id in t.uploads && t.uploads[id].phase.Aborted? && id in t.temps && t.temps[id] == s.temps[id]
  {
    if op.id != id { StepFrame(hash, s, op, id); }
  }

  lemma {:induction false} AbortLeaks(hash: Content -> string, used: set<Content>, s: State, id: UploadId, ops: seq<Op>)
    requires Inv(hash, used, s) && id in s.uploads && s.uploads[id].phase.Streaming?
    ensures var end := After(hash, Step(hash, s, Abort(id)), ops);
      id in end.uploads && end.uploads[id].phase.Aborted? && id in end.temps && end.temps[id] == s.temps[id]
  {
    assert UploadInv(hash, used, s, id);
    if ops != [] {
      AbortLeaks(hash, used, s, id, ops[..|ops| - 1]);
      hide Step, Inv;
      AbortedStaysAborted(hash, After(hash, Step(hash, s, Abort(id)), ops[..|ops| - 1]), id, ops[|ops| - 1]);
    }
  }
}
