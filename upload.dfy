/** The upload side of FileUpload.tsx: `handleUpload` creates the file record,
    `simulateDistribution` writes one part row per planned part and then marks
    the file distributed. The two database tables and the progress bar are the
    state of class `Backend`; a ghost log records every write in order, so that
    the order of the writes can be stated and proved. */
module Upload {
  import opened Wrappers
  import opened UploadPlan

  /** The values the `files.status` column can take. The upload only ever
      writes the first two. */
  datatype FileStatus = Uploading | Distributed | Complete | Error

  /** A row of the `files` table. */
  datatype FileRecord = FileRecord(id: string, fileName: string, fileSizeBytes: nat, numParts: nat, status: FileStatus)

  /** The file the user picked in the browser. */
  datatype LocalFile = LocalFile(name: string, size: nat)

  /** One observable write of the upload, in the order it is issued. */
  datatype Effect =
    | InsertFile(record: FileRecord)
    | InsertPart(row: PartRow)
    | SetStatus(fileId: string, status: FileStatus)
    | SetProgress(percent: int)

  /** Which way `handleUpload` ended: the toast it shows, or none. */
  datatype UploadOutcome =
    | NothingSelected
    | RecordInsertFailed
    | DistributionFailed(fileId: string)
    | DistributedOk(fileId: string)

  /** `((i + 1) / numParts) * 100` after `done == i + 1` parts: a quarter of
      the bar per part, with no rounding, from 0 up to exactly 100. */
  function ProgressPercent(done: nat): (percent: int)
    requires done <= NumParts
    ensures percent == 25 * done
    ensures 0 <= percent <= 100 && (percent == 100 <==> done == NumParts)
  {
    done * 100 / NumParts
  }

  /** The node query answered with enough rows (`nodes` is null on a failed query). */
  predicate EnoughNodes(nodes: Option<seq<StorageNode>>) {
    nodes.Some? && |nodes.value| >= NumParts
  }

  /** The record `handleUpload` inserts, under the id the database assigns. */
  function NewRecord(id: string, file: LocalFile): FileRecord {
    FileRecord(id, file.name, file.size, 4, Uploading)
  }

  /** The `files` table after `.update({ status: 'distributed' }).eq('id', fileId)`. */
  function MarkDistributed(files: map<string, FileRecord>, fileId: string): map<string, FileRecord> {
    if fileId in files then files[fileId := files[fileId].(status := Distributed)] else files
  }

  /** The writes of the first `k` iterations of the part loop. */
  function PartEffects(fileId: string, fileSize: nat, nodes: seq<StorageNode>, k: nat): (e: seq<Effect>)
    requires k <= NumParts <= |nodes|
    ensures |e| == 2 * k
  {
    if k == 0 then []
    else
      PartEffects(fileId, fileSize, nodes, k - 1)
      + [InsertPart(PlannedRow(fileId, fileSize, nodes, k - 1)), SetProgress(ProgressPercent(k))]
  }

  /** The writes of `simulateDistribution`: none when it throws for lack of
      nodes, otherwise every part row and then the status flip. */
  function DistributionEffects(fileId: string, fileSize: nat, nodes: Option<seq<StorageNode>>): seq<Effect> {
    if EnoughNodes(nodes) then PartEffects(fileId, fileSize, nodes.value, NumParts) + [SetStatus(fileId, Distributed)]
    else []
  }

  /** The writes of one `handleUpload` call. `inserted` is the id the database
      returned for the new record, or None when the insert reported an error. */
  function UploadEffects(selected: Option<LocalFile>, inserted: Option<string>, nodes: Option<seq<StorageNode>>): seq<Effect> {
    match selected
    case None => []
    case Some(file) =>
      match inserted
      case None => [SetProgress(0)]
      case Some(id) =>
        [SetProgress(0), InsertFile(NewRecord(id, file))]
        + DistributionEffects(id, file.size, nodes)
        + (if EnoughNodes(nodes) then [SetProgress(0)] else [])
  }

  /** The part indices written for `fileId`, in write order. */
  function PartIndicesWritten(effects: seq<Effect>, fileId: string): seq<int> {
    if effects == [] then []
    else
      var e := effects[|effects| - 1];
      PartIndicesWritten(effects[..|effects| - 1], fileId)
      + (if e.InsertPart? && e.row.fileId == fileId then [e.row.partIndex] else [])
  }

  /** The progress values shown, in order. */
  function ProgressValues(effects: seq<Effect>): seq<int> {
    if effects == [] then []
    else
      var e := effects[|effects| - 1];
      ProgressValues(effects[..|effects| - 1]) + (if e.SetProgress? then [e.percent] else [])
  }

  lemma {:induction false} PartIndicesWrittenAppend(a: seq<Effect>, b: seq<Effect>, fileId: string)
    ensures PartIndicesWritten(a + b, fileId) == PartIndicesWritten(a, fileId) + PartIndicesWritten(b, fileId)
    decreases |b|
  {
    if b == [] {
      assert a + b == a;
    } else {
      var b' := b[..|b| - 1];
      assert (a + b)[..|a + b| - 1] == a + b';
      PartIndicesWrittenAppend(a, b', fileId);
    }
  }

  lemma {:induction false} ProgressValuesAppend(a: seq<Effect>, b: seq<Effect>)
    ensures ProgressValues(a + b) == ProgressValues(a) + ProgressValues(b)
    decreases |b|
  {
    if b == [] {
      assert a + b == a;
    } else {
      var b' := b[..|b| - 1];
      assert (a + b)[..|a + b| - 1] == a + b';
      ProgressValuesAppend(a, b');
    }
  }

  /** After `k` iterations the part rows 1..k of the file have been written,
      in ascending order, and the progress bar has shown 25, 50, ... 25k. */
  lemma {:induction false} PartEffectsContents(fileId: string, fileSize: nat, nodes: seq<StorageNode>, k: nat)
    requires k <= NumParts <= |nodes|
    ensures PartIndicesWritten(PartEffects(fileId, fileSize, nodes, k), fileId) == seq(k, i => i + 1)
    ensures ProgressValues(PartEffects(fileId, fileSize, nodes, k)) == seq(k, i => 25 * (i + 1))
    ensures forall j :: 0 <= j < |PartEffects(fileId, fileSize, nodes, k)| ==>
      !PartEffects(fileId, fileSize, nodes, k)[j].SetStatus? && !PartEffects(fileId, fileSize, nodes, k)[j].InsertFile?
  {
    if k > 0 {
      var prev := PartEffects(fileId, fileSize, nodes, k - 1);
      var step := [InsertPart(PlannedRow(fileId, fileSize, nodes, k - 1)), SetProgress(ProgressPercent(k))];
      PartEffectsContents(fileId, fileSize, nodes, k - 1);
      PartIndicesWrittenAppend(prev, step, fileId);
      ProgressValuesAppend(prev, step);
      var insert, show := step[0], step[1];
      assert step == [insert] + [show];
      assert [insert][..0] == [] && [show][..0] == [];
      PartIndicesWrittenAppend([insert], [show], fileId);
      ProgressValuesAppend([insert], [show]);
    }
  }

  /** The record is created with status `uploading` and four parts: when a
      file is selected and the insert returns an id, the second write inserts
      that record, and no other write inserts one. */
  lemma RecordCreatedUploading(selected: Option<LocalFile>, inserted: Option<string>, nodes: Option<seq<StorageNode>>)
    ensures forall j :: 0 <= j < |UploadEffects(selected, inserted, nodes)| && UploadEffects(selected, inserted, nodes)[j].InsertFile? ==>
      j == 1 && UploadEffects(selected, inserted, nodes)[j].record.status == Uploading
      && UploadEffects(selected, inserted, nodes)[j].record.numParts == NumParts
    ensures selected.Some? && inserted.Some? ==>
      |UploadEffects(selected, inserted, nodes)| >= 2
      && UploadEffects(selected, inserted, nodes)[1] == InsertFile(NewRecord(inserted.value, selected.value))
  {
    if selected.Some? && inserted.Some? && EnoughNodes(nodes) {
      PartEffectsContents(inserted.value, selected.value.size, nodes.value, NumParts);
    }
  }

  /** The only status ever written is `distributed`, and it is written only
      once the rows of parts 1, 2, 3 and 4 of that file have all been written,
      in this order. */
  lemma DistributedOnlyAfterAllParts(selected: Option<LocalFile>, inserted: Option<string>, nodes: Option<seq<StorageNode>>)
    ensures forall j :: 0 <= j < |UploadEffects(selected, inserted, nodes)| && UploadEffects(selected, inserted, nodes)[j].SetStatus? ==>
      UploadEffects(selected, inserted, nodes)[j].status == Distributed
      && PartIndicesWritten(UploadEffects(selected, inserted, nodes)[..j], UploadEffects(selected, inserted, nodes)[j].fileId) == [1, 2, 3, 4]
  {
    if selected.Some? && inserted.Some? && EnoughNodes(nodes) {
      var id, file, ns := inserted.value, selected.value, nodes.value;
      var head := [SetProgress(0), InsertFile(NewRecord(id, file))];
      var body := PartEffects(id, file.size, ns, NumParts);
      var pre := head + body;
      var e := UploadEffects(selected, inserted, nodes);
      assert e == pre + [SetStatus(id, Distributed), SetProgress(0)];
      PartEffectsContents(id, file.size, ns, NumParts);
      assert PartIndicesWritten(pre, id) == [1, 2, 3, 4] by {
        assert head == [head[0]] + [head[1]];
        assert [head[0]][..0] == [] && [head[1]][..0] == [];
        PartIndicesWrittenAppend([head[0]], [head[1]], id);
        PartIndicesWrittenAppend(head, body, id);
      }
      assert forall j :: 0 <= j < |pre| ==> !pre[j].SetStatus? by {
        forall j | 0 <= j < |pre| ensures !pre[j].SetStatus? {
          if j >= 2 { assert pre[j] == body[j - 2]; }
        }
      }
      assert forall j :: 0 <= j < |pre| ==> e[j] == pre[j];
      assert e[..|pre|] == pre;
    }
  }

  /** Without enough online nodes the upload writes the record and nothing
      else: no part row and no status change, so the record stays `uploading`. */
  lemma InsufficientNodesWritesNothing(selected: Option<LocalFile>, inserted: Option<string>, nodes: Option<seq<StorageNode>>)
    requires !EnoughNodes(nodes)
    ensures forall j :: 0 <= j < |UploadEffects(selected, inserted, nodes)| ==>
      !UploadEffects(selected, inserted, nodes)[j].InsertPart? && !UploadEffects(selected, inserted, nodes)[j].SetStatus?
    ensures selected.Some? && inserted.Some? ==>
      UploadEffects(selected, inserted, nodes) == [SetProgress(0), InsertFile(NewRecord(inserted.value, selected.value))]
  {
  }

  /** During a successful distribution the progress bar shows 25, 50, 75 and
      100 percent, a non-decreasing sequence that ends at 100. */
  lemma DistributionProgress(fileId: string, fileSize: nat, nodes: Option<seq<StorageNode>>)
    requires EnoughNodes(nodes)
    ensures ProgressValues(DistributionEffects(fileId, fileSize, nodes)) == [25, 50, 75, 100]
  {
    var body := PartEffects(fileId, fileSize, nodes.value, NumParts);
    PartEffectsContents(fileId, fileSize, nodes.value, NumParts);
    ProgressValuesAppend(body, [SetStatus(fileId, Distributed)]);
    assert [SetStatus(fileId, Distributed)][..0] == [];
  }

  /** Over the node query, the distribution goes ahead exactly when the
      registry lists at least four online nodes; a failed query (null) never
      lets it go ahead. */
  lemma EnoughNodesIffFourOnline(registry: seq<StorageNode>)
    ensures EnoughNodes(Some(OnlineNodes(registry, NumParts))) <==> CountOnline(registry) >= NumParts
    ensures !EnoughNodes(None)
  {
    OnlineNodesCount(registry, NumParts);
  }

  /** The database tables the upload writes and the progress bar it drives. */
  class Backend {
    /** The `files` table, keyed by record id. */
    var files: map<string, FileRecord>
    /** The `file_parts` table, in insertion order. */
    var parts: seq<PartRow>
    /** The upload component's progress bar, in percent. */
    var progress: int
    /** Every write issued so far, in order. */
    ghost var effects: seq<Effect>

    constructor ()
      ensures files == map[] && parts == [] && progress == 0 && effects == []
    {
      files := map[];
      parts := [];
      progress := 0;
      effects := [];
    }

    /** `simulateDistribution`: fails when the node query returned fewer than
        four rows (or none), before writing anything; otherwise writes the four
        planned part rows one by one and then marks the file distributed. The
        insert results are not checked by the source, so inserts always land. */
    method SimulateDistribution(fileId: string, fileSize: nat, nodes: Option<seq<StorageNode>>) returns (ok: bool)
      modifies this
      ensures ok == EnoughNodes(nodes)
      ensures effects == old(effects) + DistributionEffects(fileId, fileSize, nodes)
      ensures parts == old(parts) + (if ok then PlanParts(fileId, fileSize, nodes.value) else [])
      ensures files == if ok then MarkDistributed(old(files), fileId) else old(files)
      ensures progress == if ok then 100 else old(progress)
    {
      var partSize := (fileSize + NumParts - 1) / NumParts;
      if nodes.None? || |nodes.value| < NumParts {
        return false;
      }
      var ns := nodes.value;
      ghost var plan := PlanParts(fileId, fileSize, ns);
      var i := 0;
      while i < NumParts
        invariant 0 <= i <= NumParts
        invariant parts == old(parts) + plan[..i]
        invariant effects == old(effects) + PartEffects(fileId, fileSize, ns, i)
        invariant files == old(files)
        invariant progress == if i == 0 then old(progress) else ProgressPercent(i)
      {
        var size := if i == NumParts - 1 then fileSize - partSize * (NumParts - 1) else partSize;
        var row := PartRow(fileId, i + 1, ns[i].id, size);
        assert row == plan[i] by {
          assert size == PartSizeAt(fileSize, i);
        }
        parts := parts + [row];
        progress := (i + 1) * 100 / NumParts;
        assert PartEffects(fileId, fileSize, ns, i + 1)
          == PartEffects(fileId, fileSize, ns, i) + [InsertPart(row), SetProgress(progress)] by {
          assert progress == ProgressPercent(i + 1);
          assert row == PlannedRow(fileId, fileSize, ns, i);
        }
        effects := effects + [InsertPart(row), SetProgress(progress)];
        assert plan[..i + 1] == plan[..i] + [plan[i]];
        i := i + 1;
      }
      assert plan[..NumParts] == plan;
      if fileId in files {
        files := files[fileId := files[fileId].(status := Distributed)];
      }
      effects := effects + [SetStatus(fileId, Distributed)];
      ok := true;
    }

    /** `handleUpload`: with no file selected it does nothing. Otherwise it
        resets the progress bar and inserts the record in status `uploading`;
        if the insert fails it stops there. It then runs the distribution; if
        that throws, the failure is only reported and the record keeps status
        `uploading`. On success the progress bar is reset to 0. The id the
        database assigns to the new record is one the table does not hold. */
    method HandleUpload(selected: Option<LocalFile>, inserted: Option<string>, nodes: Option<seq<StorageNode>>)
      returns (outcome: UploadOutcome)
      requires inserted.Some? ==> inserted.value !in files
      modifies this
      ensures effects == old(effects) + UploadEffects(selected, inserted, nodes)
      ensures selected.None? ==>
        outcome == NothingSelected && files == old(files) && parts == old(parts) && progress == old(progress)
      ensures selected.Some? && inserted.None? ==>
        outcome == RecordInsertFailed && files == old(files) && parts == old(parts) && progress == 0
      ensures selected.Some? && inserted.Some? && !EnoughNodes(nodes) ==>
        var id := inserted.value;
        outcome == DistributionFailed(id) && files == old(files)[id := NewRecord(id, selected.value)]
        && parts == old(parts) && progress == 0
      ensures selected.Some? && inserted.Some? && EnoughNodes(nodes) ==>
        var id := inserted.value;
        outcome == DistributedOk(id)
        && files == old(files)[id := NewRecord(id, selected.value).(status := Distributed)]
        && parts == old(parts) + PlanParts(id, selected.value.size, nodes.value)
        && progress == 0
    {
      if selected.None? {
        return NothingSelected;
      }
      var file := selected.value;
      progress := 0;
      effects := effects + [SetProgress(0)];
      if inserted.None? {
        return RecordInsertFailed;
      }
      var id := inserted.value;
      var record := FileRecord(id, file.name, file.size, 4, Uploading);
      files := files[id := record];
      effects := effects + [InsertFile(record)];
      var ok := SimulateDistribution(id, file.size, nodes);
      if !ok {
        return DistributionFailed(id);
      }
      progress := 0;
      effects := effects + [SetProgress(0)];
      outcome := DistributedOk(id);
    }
  }
}
