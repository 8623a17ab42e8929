/** The deterministic part of `simulateDistribution` in FileUpload.tsx: how a
    file's size is divided over four parts and which node each part row names.
    Sizes are unbounded integers, because the recorded size of the last part
    can be negative. */
module UploadPlan {

  /** Every file is split into exactly this many parts. */
  const NumParts: nat := 4

  /** A row of the `storage_nodes` table, as far as the upload reads it. */
  datatype StorageNode = StorageNode(id: string, nodeName: string, status: string)

  /** A row written to the `file_parts` table. The random placeholder checksum
      the source stores is not part of the model. */
  datatype PartRow = PartRow(fileId: string, partIndex: int, nodeId: string, sizeBytes: int)

  /** `Math.ceil(fileSize / numParts)` for a non-negative integral size. */
  function PartSize(fileSize: nat): (ps: nat)
    ensures NumParts * ps >= fileSize
    ensures NumParts * ps < fileSize + NumParts
  {
    (fileSize + NumParts - 1) / NumParts
  }

  /** The size recorded for the part at zero-based position `i`: the ceiling
      for every part but the last, which gets what the other three leave. Parts
      1 to 3 are exactly the ceiling of a quarter of the file; no part exceeds
      it, and the last one falls at most two bytes below zero. */
  function PartSizeAt(fileSize: nat, i: nat): (size: int)
    requires i < NumParts
    ensures i < NumParts - 1 ==> NumParts * size - NumParts < fileSize <= NumParts * size
    ensures -2 <= size <= PartSize(fileSize)
  {
    if i == NumParts - 1 then fileSize - PartSize(fileSize) * (NumParts - 1) else PartSize(fileSize)
  }

  function LastPartSize(fileSize: nat): int {
    PartSizeAt(fileSize, NumParts - 1)
  }

  /** The row written for the part at zero-based position `i`: part index
      `i + 1`, placed on the `i`-th node the query returned. */
  function PlannedRow(fileId: string, fileSize: nat, nodes: seq<StorageNode>, i: nat): PartRow
    requires i < NumParts <= |nodes|
  {
    PartRow(fileId, i + 1, nodes[i].id, PartSizeAt(fileSize, i))
  }

  /** All rows the upload writes for one file, in the order it writes them:
      part indices 1, 2, 3, 4, all for this file, each placed on the node the
      query returned at the same position. */
  function PlanParts(fileId: string, fileSize: nat, nodes: seq<StorageNode>): (rows: seq<PartRow>)
    requires NumParts <= |nodes|
    ensures |rows| == NumParts
    ensures forall i :: 0 <= i < NumParts ==>
      rows[i].fileId == fileId && rows[i].partIndex == i + 1 && rows[i].nodeId == nodes[i].id
  {
    seq(NumParts, i requires 0 <= i < NumParts => PlannedRow(fileId, fileSize, nodes, i))
  }

  function SumSizes(rows: seq<PartRow>): int {
    if rows == [] then 0 else SumSizes(rows[..|rows| - 1]) + rows[|rows| - 1].sizeBytes
  }

  /** The planned part sizes add up to exactly the file's size. */
  lemma PlanSizesSum(fileId: string, fileSize: nat, nodes: seq<StorageNode>)
    requires NumParts <= |nodes|
    ensures SumSizes(PlanParts(fileId, fileSize, nodes)) == fileSize
  {
    var rows := PlanParts(fileId, fileSize, nodes);
    var ps := PartSize(fileSize);
    assert rows[..1][..0] == [];
    assert SumSizes(rows[..1]) == ps by { assert rows[..1][..0] == []; }
    assert SumSizes(rows[..2]) == 2 * ps by { assert rows[..2][..1] == rows[..1]; }
    assert SumSizes(rows[..3]) == 3 * ps by { assert rows[..3][..2] == rows[..2]; }
    assert rows[..|rows| - 1] == rows[..3];
  }

  /** The last part's size is negative exactly for files of 1, 2 or 5 bytes. */
  lemma LastPartNegativeIff(fileSize: nat)
    ensures LastPartSize(fileSize) < 0 <==> fileSize == 1 || fileSize == 2 || fileSize == 5
  {
    var q, r := fileSize / 4, fileSize % 4;
    assert fileSize == 4 * q + r;
    if r == 0 {
      assert PartSize(fileSize) == q;
    } else {
      assert PartSize(fileSize) == q + 1;
    }
  }

  /** The concrete negative sizes: -2 for one byte, -1 for two or five bytes. */
  lemma SmallFileLastParts()
    ensures LastPartSize(1) == -2 && LastPartSize(2) == -1 && LastPartSize(5) == -1
    ensures LastPartSize(3) == 0 && LastPartSize(6) == 0
  {
  }

  /** An empty file is planned as four parts of size zero, not rejected. */
  lemma EmptyFilePlan(fileId: string, nodes: seq<StorageNode>)
    requires NumParts <= |nodes|
    ensures |PlanParts(fileId, 0, nodes)| == NumParts
    ensures forall i :: 0 <= i < NumParts ==> PlanParts(fileId, 0, nodes)[i].sizeBytes == 0
  {
  }

  /** The node query of the upload: rows with status `online`, at most `limit`
      of them, in the order the registry lists them. */
  function OnlineNodes(registry: seq<StorageNode>, limit: nat): (r: seq<StorageNode>)
    ensures |r| <= limit
    ensures forall n :: n in r ==> n in registry && n.status == "online"
  {
    if registry == [] || limit == 0 then []
    else if registry[0].status == "online" then [registry[0]] + OnlineNodes(registry[1..], limit - 1)
    else OnlineNodes(registry[1..], limit)
  }

  function CountOnline(registry: seq<StorageNode>): nat {
    if registry == [] then 0
    else (if registry[0].status == "online" then 1 else 0) + CountOnline(registry[1..])
  }

  predicate DistinctIds(nodes: seq<StorageNode>) {
    forall i, j :: 0 <= i < j < |nodes| ==> nodes[i].id != nodes[j].id
  }

  /** The query returns `limit` nodes exactly when the registry has that many
      online; otherwise it returns all online ones. */
  lemma {:induction false} OnlineNodesCount(registry: seq<StorageNode>, limit: nat)
    ensures |OnlineNodes(registry, limit)| == if CountOnline(registry) < limit then CountOnline(registry) else limit
  {
    if registry != [] && limit != 0 {
      if registry[0].status == "online" {
        OnlineNodesCount(registry[1..], limit - 1);
      } else {
        OnlineNodesCount(registry[1..], limit);
      }
    }
  }

  /** Nodes with distinct ids stay distinct after the query. */
  lemma {:induction false} OnlineNodesDistinct(registry: seq<StorageNode>, limit: nat)
    requires DistinctIds(registry)
    ensures DistinctIds(OnlineNodes(registry, limit))
  {
    if registry != [] && limit != 0 {
      var tail := registry[1..];
      assert DistinctIds(tail) by {
        forall i, j | 0 <= i < j < |tail| ensures tail[i].id != tail[j].id {
          assert tail[i] == registry[i + 1] && tail[j] == registry[j + 1];
        }
      }
      if registry[0].status == "online" {
        OnlineNodesDistinct(tail, limit - 1);
        var rest := OnlineNodes(tail, limit - 1);
        var r := [registry[0]] + rest;
        forall i, j | 0 <= i < j < |r| ensures r[i].id != r[j].id {
          if i == 0 {
            assert r[j] == rest[j - 1] && rest[j - 1] in tail;
            var k :| 0 <= k < |tail| && tail[k] == rest[j - 1];
            assert tail[k] == registry[k + 1];
          } else {
            assert r[i] == rest[i - 1] && r[j] == rest[j - 1];
          }
        }
      } else {
        OnlineNodesDistinct(tail, limit);
      }
    }
  }

  /** Some online node of the registry has this id. */
  predicate OnlineIn(registry: seq<StorageNode>, id: string) {
    exists n :: n in registry && n.status == "online" && n.id == id
  }

  /** Planning over the node query: every part lands on an online node of the
      registry, and no two parts share a node when the registry's ids are
      distinct. */
  lemma PlanOnOnlineNodes(fileId: string, fileSize: nat, registry: seq<StorageNode>)
    requires NumParts <= |OnlineNodes(registry, NumParts)|
    ensures forall i :: 0 <= i < NumParts ==>
      OnlineIn(registry, PlanParts(fileId, fileSize, OnlineNodes(registry, NumParts))[i].nodeId)
    ensures DistinctIds(registry) ==> forall i, j :: 0 <= i < j < NumParts ==>
      PlanParts(fileId, fileSize, OnlineNodes(registry, NumParts))[i].nodeId != PlanParts(fileId, fileSize, OnlineNodes(registry, NumParts))[j].nodeId
  {
    var nodes := OnlineNodes(registry, NumParts);
    var rows := PlanParts(fileId, fileSize, nodes);
    forall i | 0 <= i < NumParts
      ensures OnlineIn(registry, rows[i].nodeId)
    {
      var n := nodes[i];
      assert n in nodes;
      assert n in registry && n.status == "online" && n.id == rows[i].nodeId;
    }
    if DistinctIds(registry) {
      OnlineNodesDistinct(registry, NumParts);
      forall i, j | 0 <= i < j < NumParts ensures rows[i].nodeId != rows[j].nodeId {
        assert rows[i].nodeId == nodes[i].id && rows[j].nodeId == nodes[j].id;
      }
    }
  }
}
