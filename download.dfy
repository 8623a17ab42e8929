/** The download side of FileList.tsx: `handleDownload` fetches every chunk of
    a file in `part_index` order from the chunk store, stops at the first chunk
    that cannot be fetched, and otherwise joins the chunks into one file;
    `handleChunkDownload` fetches and saves a single chunk. The signed-in user,
    the part rows and the chunk store are inputs. */
module Download {
  import opened Wrappers
  import opened Decimal
  import opened UploadPlan
  import opened FileNames

  type Bytes = seq<bv8>

  /** What the chunk store answers to one `download(path)`. */
  datatype FetchResponse = Data(bytes: Bytes) | Failed(message: string) | NoData

  /** The fields of a `files` row that the download reads. */
  datatype FileEntry = FileEntry(id: string, fileName: string)

  /** A file as handed to the browser: saved name, content type and bytes. */
  datatype SavedFile = SavedFile(name: string, contentType: string, bytes: Bytes)

  datatype DownloadError =
    | NotAuthenticated
    | NoPartsFound
    | ChunkFailed(partIndex: int, message: string)
    | ChunkUnavailable(partIndex: int)

  /** The message the full download reports for a chunk that came back empty. */
  const NoDataMessage: string := "No data returned"

  /** The storage path of a chunk: `${owner}/${fileId}/part${partIndex}`.
      Every key lies in the owner's folder, inside the file's folder, and
      names a `part` followed by at least one more character. */
  function ChunkKey(owner: string, fileId: string, partIndex: int): (key: string)
    ensures owner + "/" + fileId + "/part" < key
  {
    owner + "/" + fileId + "/part" + IntToString(partIndex)
  }

  /** The store's answer for `key`; a key it does not hold is an error. The
      message stands in for the store's own error text, which the model does
      not know. */
  function Fetch(storage: map<string, FetchResponse>, key: string): FetchResponse {
    if key in storage then storage[key] else Failed("Object not found")
  }

  function FetchPart(owner: string, fileId: string, part: PartRow, storage: map<string, FetchResponse>): FetchResponse {
    Fetch(storage, ChunkKey(owner, fileId, part.partIndex))
  }

  /** The store's answers for the listed parts, in list order. */
  function Responses(owner: string, fileId: string, parts: seq<PartRow>, storage: map<string, FetchResponse>): (rs: seq<FetchResponse>)
    ensures |rs| == |parts|
  {
    seq(|parts|, j requires 0 <= j < |parts| => FetchPart(owner, fileId, parts[j], storage))
  }

  /** The bytes of answers that all hold data, in order. */
  function Chunks(rs: seq<FetchResponse>): (chunks: seq<Bytes>)
    requires forall j :: 0 <= j < |rs| ==> rs[j].Data?
  {
    seq(|rs|, j requires 0 <= j < |rs| => rs[j].bytes)
  }

  /** The chunks gathered by the first `k` iterations of the download loop,
      given the store's answers `rs` for the listed parts, or the failure that
      ended it early. */
  function Collect(parts: seq<PartRow>, rs: seq<FetchResponse>, k: nat): Result<seq<Bytes>, DownloadError>
    requires |rs| == |parts| && k <= |parts|
  {
    if k == 0 then Success([])
    else
      match Collect(parts, rs, k - 1)
      case Failure(e) => Failure(e)
      case Success(chunks) =>
        match rs[k - 1]
        case Failed(m) => Failure(ChunkFailed(parts[k - 1].partIndex, m))
        case NoData => Failure(ChunkFailed(parts[k - 1].partIndex, NoDataMessage))
        case Data(b) => Success(chunks + [b])
  }

  /** `new Blob(chunks)`: the chunks' bytes one after another. */
  function Concat(chunks: seq<Bytes>): Bytes {
    if chunks == [] then [] else Concat(chunks[..|chunks| - 1]) + chunks[|chunks| - 1]
  }

  /** Where chunk `j` starts in `Concat(chunks)`. */
  function Offset(chunks: seq<Bytes>, j: nat): nat
    requires j <= |chunks|
  {
    if j == 0 then 0 else Offset(chunks, j - 1) + |chunks[j - 1]|
  }

  /** The outcome `handleDownload` reaches for `file`, signed in as `user`,
      given the part rows the query returned (None when it returned null). */
  function DownloadOutcome(user: Option<string>, file: FileEntry, parts: Option<seq<PartRow>>, storage: map<string, FetchResponse>)
    : (r: Result<SavedFile, DownloadError>)
    ensures user.None? ==> r == Failure(NotAuthenticated)
    ensures user.Some? && (parts.None? || parts.value == []) ==> r == Failure(NoPartsFound)
    ensures r.Success? ==> r.value.name == file.fileName && r.value.contentType == ContentType(file.fileName)
  {
    if user.None? then Failure(NotAuthenticated)
    else if parts.None? || parts.value == [] then Failure(NoPartsFound)
    else
      match Collect(parts.value, Responses(user.value, file.id, parts.value, storage), |parts.value|)
      case Failure(e) => Failure(e)
      case Success(chunks) => Success(SavedFile(file.fileName, ContentType(file.fileName), Concat(chunks)))
  }

  /** The loop of `handleDownload`: fetches the chunks in the order of the
      part rows, each under its key, and returns at the first failed or empty
      fetch. */
  method FetchChunks(owner: string, fileId: string, ps: seq<PartRow>, storage: map<string, FetchResponse>)
    returns (r: Result<seq<Bytes>, DownloadError>)
    ensures r == Collect(ps, Responses(owner, fileId, ps, storage), |ps|)
  {
    ghost var rs := Responses(owner, fileId, ps, storage);
    var chunks: seq<Bytes> := [];
    var i := 0;
    while i < |ps|
      invariant 0 <= i <= |ps|
      invariant Collect(ps, rs, i) == Success(chunks)
    {
      var chunkPath := ChunkKey(owner, fileId, ps[i].partIndex);
      var response := Fetch(storage, chunkPath);
      assert response == rs[i] by {
        ResponsesAt(owner, fileId, ps, storage, i);
      }
      if response.Failed? {
        assert Collect(ps, rs, |ps|) == Failure(ChunkFailed(ps[i].partIndex, response.message)) by {
          CollectFailureSticks(ps, rs, i + 1, |ps|);
        }
        return Failure(ChunkFailed(ps[i].partIndex, response.message));
      }
      if response.NoData? {
        assert Collect(ps, rs, |ps|) == Failure(ChunkFailed(ps[i].partIndex, NoDataMessage)) by {
          CollectFailureSticks(ps, rs, i + 1, |ps|);
        }
        return Failure(ChunkFailed(ps[i].partIndex, NoDataMessage));
      }
      assert Collect(ps, rs, i + 1) == Success(chunks + [response.bytes]);
      chunks := chunks + [response.bytes];
      i := i + 1;
    }
    r := Success(chunks);
  }

  /** `handleDownload`: checks the session and the part rows, runs the fetch
      loop, then saves the concatenated chunks under the file's own name and
      content type. */
  method HandleDownload(user: Option<string>, file: FileEntry, parts: Option<seq<PartRow>>, storage: map<string, FetchResponse>)
    returns (r: Result<SavedFile, DownloadError>)
    ensures r == DownloadOutcome(user, file, parts, storage)
  {
    if user.None? {
      return Failure(NotAuthenticated);
    }
    if parts.None? || |parts.value| == 0 {
      return Failure(NoPartsFound);
    }
    var fetched := FetchChunks(user.value, file.id, parts.value, storage);
    if fetched.Failure? {
      return Failure(fetched.error);
    }
    var contentType := ContentType(file.fileName);
    r := Success(SavedFile(file.fileName, contentType, Concat(fetched.value)));
  }

  /** `handleChunkDownload`: fetches one chunk under the same key as the full
      download. A chunk is saved exactly when the user is signed in and its
      key yields data; it is then always typed as binary data and named after
      the file with the part index inserted before the extension. */
  function HandleChunkDownload(user: Option<string>, fileId: string, fileName: string, partIndex: int, storage: map<string, FetchResponse>)
    : (r: Result<SavedFile, DownloadError>)
    ensures r.Success? <==> user.Some? && Fetch(storage, ChunkKey(user.value, fileId, partIndex)).Data?
    ensures r.Success? ==>
      r.value.contentType == OctetStream && r.value.name == ChunkFileName(fileName, partIndex)
      && r.value.bytes == Fetch(storage, ChunkKey(user.value, fileId, partIndex)).bytes
    ensures r.Failure? ==> r.error == if user.None? then NotAuthenticated else ChunkUnavailable(partIndex)
  {
    if user.None? then Failure(NotAuthenticated)
    else
      match Fetch(storage, ChunkKey(user.value, fileId, partIndex))
      case Data(b) => Success(SavedFile(ChunkFileName(fileName, partIndex), OctetStream, b))
      case _ => Failure(ChunkUnavailable(partIndex))
  }

  /** Once the loop has failed, later parts change nothing. */
  lemma {:induction false} CollectFailureSticks(parts: seq<PartRow>, rs: seq<FetchResponse>, k: nat, n: nat)
    requires |rs| == |parts| && k <= n <= |parts|
    requires Collect(parts, rs, k).Failure?
    ensures Collect(parts, rs, n) == Collect(parts, rs, k)
    decreases n - k
  {
    if k < n {
      CollectFailureSticks(parts, rs, k + 1, n);
    }
  }

  /** The loop gets through `k` parts exactly when each of their answers
      holds data, and then holds those chunks in part order. */
  lemma {:induction false} CollectSucceedsIff(parts: seq<PartRow>, rs: seq<FetchResponse>, k: nat)
    requires |rs| == |parts| && k <= |parts|
    ensures Collect(parts, rs, k).Success? <==> forall j :: 0 <= j < k ==> rs[j].Data?
    ensures Collect(parts, rs, k).Success? ==>
      |Collect(parts, rs, k).value| == k && forall j :: 0 <= j < k ==> Collect(parts, rs, k).value[j] == rs[j].bytes
  {
    if k > 0 {
      CollectSucceedsIff(parts, rs, k - 1);
      if Collect(parts, rs, k).Success? {
        var prev := Collect(parts, rs, k - 1).value;
        assert Collect(parts, rs, k).value == prev + [rs[k - 1].bytes];
      }
    }
  }

  /** A failed download names the first part whose answer held no data:
      every part before it was fetched, and its own fetch gave an error or
      nothing. */
  lemma {:induction false} CollectFailsAtFirst(parts: seq<PartRow>, rs: seq<FetchResponse>, k: nat)
    requires |rs| == |parts| && k <= |parts|
    requires Collect(parts, rs, k).Failure?
    ensures exists j ::
      && 0 <= j < k
      && !rs[j].Data?
      && (forall i :: 0 <= i < j ==> rs[i].Data?)
      && Collect(parts, rs, k).error.ChunkFailed?
      && Collect(parts, rs, k).error.partIndex == parts[j].partIndex
  {
    if Collect(parts, rs, k - 1).Failure? {
      CollectFailsAtFirst(parts, rs, k - 1);
    } else {
      CollectSucceedsIff(parts, rs, k - 1);
      assert !rs[k - 1].Data?;
    }
  }

  /** When answer `j` is the first without data, the loop ends with that
      part's failure. */
  lemma CollectFailsAt(parts: seq<PartRow>, rs: seq<FetchResponse>, j: nat)
    requires |rs| == |parts| && j < |parts|
    requires !rs[j].Data? && forall i :: 0 <= i < j ==> rs[i].Data?
    ensures Collect(parts, rs, |parts|)
      == Failure(ChunkFailed(parts[j].partIndex, if rs[j].Failed? then rs[j].message else NoDataMessage))
  {
    CollectSucceedsIff(parts, rs, j);
    CollectFailureSticks(parts, rs, j + 1, |parts|);
  }

  /** `bytes` holds chunk `j` unchanged at `Offset(chunks, j)`. */
  predicate ChunkAt(bytes: Bytes, chunks: seq<Bytes>, j: nat)
    requires j < |chunks|
  {
    Offset(chunks, j) + |chunks[j]| <= |bytes| && bytes[Offset(chunks, j)..Offset(chunks, j) + |chunks[j]|] == chunks[j]
  }

  /** Chunk `j` sits in the concatenation at `Offset(chunks, j)`, unchanged. */
  lemma {:induction false} ConcatPlacesChunk(chunks: seq<Bytes>, j: nat)
    requires j < |chunks|
    ensures |Concat(chunks)| == Offset(chunks, |chunks|)
    ensures ChunkAt(Concat(chunks), chunks, j)
    decreases |chunks|
  {
    var init := chunks[..|chunks| - 1];
    assert forall i :: 0 <= i <= |init| ==> Offset(init, i) == Offset(chunks, i) by {
      OffsetPrefix(chunks, init);
    }
    if j < |chunks| - 1 {
      ConcatPlacesChunk(init, j);
      assert Concat(chunks) == Concat(init) + chunks[|chunks| - 1];
    } else {
      ConcatLength(init);
    }
    ConcatLength(chunks);
  }

  lemma {:induction false} ConcatLength(chunks: seq<Bytes>)
    ensures |Concat(chunks)| == Offset(chunks, |chunks|)
    decreases |chunks|
  {
    if chunks != [] {
      var init := chunks[..|chunks| - 1];
      ConcatLength(init);
      OffsetPrefix(chunks, init);
    }
  }

  lemma {:induction false} OffsetPrefix(chunks: seq<Bytes>, init: seq<Bytes>)
    requires |init| <= |chunks| && init == chunks[..|init|]
    ensures forall i :: 0 <= i <= |init| ==> Offset(init, i) == Offset(chunks, i)
  {
    forall i | 0 <= i <= |init| ensures Offset(init, i) == Offset(chunks, i) {
      OffsetPrefixAt(chunks, init, i);
    }
  }

  lemma {:induction false} OffsetPrefixAt(chunks: seq<Bytes>, init: seq<Bytes>, i: nat)
    requires |init| <= |chunks| && init == chunks[..|init|] && i <= |init|
    ensures Offset(init, i) == Offset(chunks, i)
  {
    if i > 0 {
      OffsetPrefixAt(chunks, init, i - 1);
      assert init[i - 1] == chunks[i - 1];
    }
  }

  /** Answer `j` is the store's answer for the key of the `j`-th listed part. */
  lemma ResponsesAt(owner: string, fileId: string, parts: seq<PartRow>, storage: map<string, FetchResponse>, j: nat)
    requires j < |parts|
    ensures Responses(owner, fileId, parts, storage)[j] == FetchPart(owner, fileId, parts[j], storage)
  {
  }

  /** The full download succeeds exactly when the user is signed in, the part
      list is non-empty and the store answers every listed part with data. It
      then saves, under the file's own name and type, those chunks
      concatenated in list order. */
  lemma DownloadSucceedsIff(user: Option<string>, file: FileEntry, parts: Option<seq<PartRow>>, storage: map<string, FetchResponse>)
    ensures DownloadOutcome(user, file, parts, storage).Success? <==>
      user.Some? && parts.Some? && parts.value != []
      && forall j :: 0 <= j < |parts.value| ==> Responses(user.value, file.id, parts.value, storage)[j].Data?
    ensures DownloadOutcome(user, file, parts, storage).Success? ==>
      DownloadOutcome(user, file, parts, storage).value
        == SavedFile(file.fileName, ContentType(file.fileName), Concat(Chunks(Responses(user.value, file.id, parts.value, storage))))
  {
    if user.Some? && parts.Some? && parts.value != [] {
      var ps := parts.value;
      var rs := Responses(user.value, file.id, ps, storage);
      CollectSucceedsIff(ps, rs, |ps|);
      OutcomeOfCollect(user, file, parts, storage);
      if Collect(ps, rs, |ps|).Success? {
        CollectIsChunks(ps, rs);
      }
    }
  }

  /** A loop that got through every part holds exactly the answers' bytes. */
  lemma CollectIsChunks(parts: seq<PartRow>, rs: seq<FetchResponse>)
    requires |rs| == |parts|
    requires Collect(parts, rs, |parts|).Success?
    ensures forall j :: 0 <= j < |rs| ==> rs[j].Data?
    ensures Collect(parts, rs, |parts|).value == Chunks(rs)
  {
    CollectSucceedsIff(parts, rs, |parts|);
  }

  lemma OutcomeOfCollect(user: Option<string>, file: FileEntry, parts: Option<seq<PartRow>>, storage: map<string, FetchResponse>)
    requires user.Some? && parts.Some? && parts.value != []
    ensures var r := Collect(parts.value, Responses(user.value, file.id, parts.value, storage), |parts.value|);
      DownloadOutcome(user, file, parts, storage)
        == if r.Success? then Success(SavedFile(file.fileName, ContentType(file.fileName), Concat(r.value))) else Failure(r.error)
  {
  }

  /** In the saved file, the chunk of the `j`-th listed part, the store's
      answer for that part's key, sits unchanged at the offset given by the
      chunks before it. */
  lemma DownloadPlacesChunks(user: Option<string>, file: FileEntry, parts: Option<seq<PartRow>>, storage: map<string, FetchResponse>, j: nat)
    requires DownloadOutcome(user, file, parts, storage).Success?
    requires j < |parts.value|
    ensures forall i :: 0 <= i < |parts.value| ==> Responses(user.value, file.id, parts.value, storage)[i].Data?
    ensures var chunks := Chunks(Responses(user.value, file.id, parts.value, storage));
      var bytes := DownloadOutcome(user, file, parts, storage).value.bytes;
      FetchPart(user.value, file.id, parts.value[j], storage) == Data(chunks[j]) && ChunkAt(bytes, chunks, j)
  {
    var rs := Responses(user.value, file.id, parts.value, storage);
    var bytes := DownloadOutcome(user, file, parts, storage).value.bytes;
    assert forall i :: 0 <= i < |rs| ==> rs[i].Data? by {
      DownloadSucceedsIff(user, file, parts, storage);
    }
    var chunks := Chunks(rs);
    assert bytes == Concat(chunks) by {
      DownloadSucceedsIff(user, file, parts, storage);
    }
    assert FetchPart(user.value, file.id, parts.value[j], storage) == Data(chunks[j]) by {
      ResponsesAt(user.value, file.id, parts.value, storage, j);
    }
    ConcatPlacesChunk(chunks, j);
  }

  /** When a chunk fetch fails the download produces no file at all: the
      outcome is the failure of the first part that could not be fetched. */
  lemma DownloadFailsAtFirstBadChunk(user: Option<string>, file: FileEntry, parts: Option<seq<PartRow>>, storage: map<string, FetchResponse>, j: nat)
    requires user.Some? && parts.Some? && j < |parts.value|
    requires !Responses(user.value, file.id, parts.value, storage)[j].Data?
    requires forall i :: 0 <= i < j ==> Responses(user.value, file.id, parts.value, storage)[i].Data?
    ensures var r := Responses(user.value, file.id, parts.value, storage)[j];
      DownloadOutcome(user, file, parts, storage)
        == Failure(ChunkFailed(parts.value[j].partIndex, if r.Failed? then r.message else NoDataMessage))
  {
    CollectFailsAt(parts.value, Responses(user.value, file.id, parts.value, storage), j);
    OutcomeOfCollect(user, file, parts, storage);
  }

  /** What follows the folders and `part` in a key is a numeral that reads
      back as the part index. */
  lemma ChunkKeyIndex(owner: string, fileId: string, partIndex: int)
    ensures var tail := ChunkKey(owner, fileId, partIndex)[|owner| + |fileId| + 6..];
      Numeral(tail) && ParseInt(tail) == partIndex
  {
    var folder := owner + "/" + fileId + "/part";
    assert ChunkKey(owner, fileId, partIndex)[|folder|..] == IntToString(partIndex);
    ParseIntToString(partIndex);
  }

  /** Keys of one owner and file differ whenever their part indices differ. */
  lemma ChunkKeyInjective(owner: string, fileId: string, a: int, b: int)
    ensures ChunkKey(owner, fileId, a) == ChunkKey(owner, fileId, b) <==> a == b
  {
    var ka, kb := ChunkKey(owner, fileId, a), ChunkKey(owner, fileId, b);
    if ka == kb {
      ChunkKeyIndex(owner, fileId, a);
      ChunkKeyIndex(owner, fileId, b);
      assert ka[|owner| + |fileId| + 6..] == kb[|owner| + |fileId| + 6..];
    }
  }

  /** The single-chunk download of a listed part reads the very key the full
      download reads: after a successful full download, every listed part can
      be saved alone, as binary data, with the same bytes it contributed. */
  lemma ChunkDownloadAgreesWithFull(user: Option<string>, file: FileEntry, parts: Option<seq<PartRow>>, storage: map<string, FetchResponse>, j: nat)
    requires DownloadOutcome(user, file, parts, storage).Success?
    requires j < |parts.value|
    ensures var chunk := HandleChunkDownload(user, file.id, file.fileName, parts.value[j].partIndex, storage);
      var answer := Responses(user.value, file.id, parts.value, storage)[j];
      && answer.Data?
      && chunk == Success(SavedFile(ChunkFileName(file.fileName, parts.value[j].partIndex), OctetStream, answer.bytes))
  {
    DownloadSucceedsIff(user, file, parts, storage);
    ResponsesAt(user.value, file.id, parts.value, storage, j);
  }

  /** The four part rows an upload writes name four distinct chunk keys, so
      the download asks the store for four different objects. */
  lemma PlannedChunkKeysDistinct(owner: string, fileId: string, fileSize: nat, nodes: seq<StorageNode>)
    requires NumParts <= |nodes|
    ensures forall i, j :: 0 <= i < j < NumParts ==>
      ChunkKey(owner, fileId, PlanParts(fileId, fileSize, nodes)[i].partIndex)
        != ChunkKey(owner, fileId, PlanParts(fileId, fileSize, nodes)[j].partIndex)
  {
    var rows := PlanParts(fileId, fileSize, nodes);
    forall i, j | 0 <= i < j < NumParts
      ensures ChunkKey(owner, fileId, rows[i].partIndex) != ChunkKey(owner, fileId, rows[j].partIndex)
    {
      ChunkKeyInjective(owner, fileId, rows[i].partIndex, rows[j].partIndex);
    }
  }
}
