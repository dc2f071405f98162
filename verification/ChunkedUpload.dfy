/**
 The upload of an artifact in chunks, up to four at a time, following
 `_upload_artifact_continue_helper` in qcom/scripts/all/qdc_runner.py. The answer of the service to
 each part is an input: None where the call gives no response.
 */
module ChunkedUpload {
  import opened Wrappers

  type Bytes = seq<bv8>

  datatype Part = Part(number: nat, offset: nat, size: nat, payload: Bytes)

  const ChunkSize: nat := 10000000
  const ParallelTasks: nat := 4

  function Min(a: nat, b: nat): nat { if a <= b then a else b }

  /** The parts of the file from `offset` on. */
  function Parts(file: Bytes, number: nat, offset: nat): seq<Part>
    requires offset <= |file|
    decreases |file| - offset
  {
    if offset == |file| then []
    else
      var size := Min(ChunkSize, |file| - offset);
      [Part(number, offset, size, file[offset..offset + size])] + Parts(file, number + 1, offset + size)
  }

  function Flatten(batches: seq<seq<Part>>): seq<Part> {
    if batches == [] then [] else Flatten(batches[..|batches| - 1]) + batches[|batches| - 1]
  }

  ghost predicate AllAccepted(parts: seq<Part>, status: nat -> Option<int>) {
    forall i :: 0 <= i < |parts| ==> status(parts[i].number) == Some(200)
  }

  /** file.read from a position */
  function Read(file: Bytes, position: nat): Bytes
    requires position <= |file|
  {
    file[position..position + Min(ChunkSize, |file| - position)]
  }

  lemma PartsStep(file: Bytes, number: nat, offset: nat)
    requires offset <= |file|
    ensures var buffer := Read(file, offset);
            if buffer == [] then offset == |file| && Parts(file, number, offset) == []
            else
              && offset + |buffer| <= |file|
              && Parts(file, number, offset) == [Part(number, offset, |buffer|, buffer)] + Parts(file, number + 1, offset + |buffer|)
              && (|buffer| < ChunkSize ==> Parts(file, number + 1, offset + |buffer|) == [])
  {
  }

  /** The inner loop: reads chunks and submits a task for each, until there are four or the file ends. */
  method NextBatch(file: Bytes, number: nat, offset: nat)
    returns (tasks: seq<Part>, part: nat, index: nat, hasMore: bool)
    requires offset <= |file|
    ensures |tasks| <= ParallelTasks && (hasMore ==> |tasks| == ParallelTasks)
    ensures offset <= index <= |file| && (hasMore ==> offset < index)
    ensures Parts(file, number, offset) == tasks + if hasMore then Parts(file, part, index) else []
  {
    hide Parts, Read;
    tasks, part, index, hasMore := [], number, offset, true;
    var position := offset;
    while |tasks| < ParallelTasks
      invariant |tasks| <= ParallelTasks && hasMore && offset <= index == position <= |file|
      invariant index == offset ==> tasks == []
      invariant Parts(file, number, offset) == tasks + Parts(file, part, index)
      decreases ParallelTasks - |tasks|
    {
      var buffer := Read(file, position);
      PartsStep(file, part, position);
      position := position + |buffer|;
      if buffer == [] {
        hasMore := false;
        break;
      }
      Reassociate(tasks, Part(part, index, |buffer|, buffer), Parts(file, part + 1, index + |buffer|));
      tasks := tasks + [Part(part, index, |buffer|, buffer)];
      if |buffer| < ChunkSize {
        hasMore := false;
        break;
      }
      part := part + 1;
      index := index + |buffer|;
    }
  }

  /** Waits for the tasks of a batch. */
  method AwaitBatch(tasks: seq<Part>, status: nat -> Option<int>) returns (ok: bool)
    ensures ok <==> AllAccepted(tasks, status)
  {
    for i := 0 to |tasks|
      invariant forall k :: 0 <= k < i ==> status(tasks[k].number) == Some(200)
    {
      var r := status(tasks[i].number);
      if r.None? || r.value != 200 {
        return false;
      }
    }
    return true;
  }

  /** The batches submitted; `ok` is false where the source raises RuntimeError. */
  method Upload(file: Bytes, status: nat -> Option<int>) returns (batches: seq<seq<Part>>, ok: bool)
    ensures Flatten(batches) <= Parts(file, 1, 0)
    ensures forall i :: 0 <= i < |batches| ==> 1 <= |batches[i]| <= ParallelTasks
    ensures ok <==> AllAccepted(Parts(file, 1, 0), status)
    ensures ok <==> forall k: nat :: 1 <= k <= |Parts(file, 1, 0)| ==> status(k) == Some(200)
    ensures ok ==> Flatten(batches) == Parts(file, 1, 0)
    ensures !ok ==> batches != [] && AllAccepted(Flatten(batches[..|batches| - 1]), status) && !AllAccepted(batches[|batches| - 1], status)
  {
    FlattenNothing();
    AcceptedByNumber(file, status);
    hide Parts, AllAccepted, Flatten;
    batches := [];
    var index, part, hasMore := 0, 1, true;
    ghost var all := Parts(file, 1, 0);
    AcceptedAppend([], [], status);
    while hasMore
      invariant index <= |file|
      invariant all == Flatten(batches) + if hasMore then Parts(file, part, index) else []
      invariant forall i :: 0 <= i < |batches| ==> 1 <= |batches[i]| <= ParallelTasks
      invariant AllAccepted(Flatten(batches), status)
      decreases |file| - index, hasMore
    {
      ghost var before := Flatten(batches);
      var tasks, nextPart, nextIndex, more := NextBatch(file, part, index);
      ghost var rest := if more then Parts(file, nextPart, nextIndex) else [];
      assert before + (tasks + rest) == before + tasks + rest;
      part, index, hasMore := nextPart, nextIndex, more;
      if |tasks| > 0 {
        batches := batches + [tasks];
        FlattenSnoc(batches[..|batches| - 1], tasks);
        assert batches[..|batches| - 1] + [tasks] == batches;
        var accepted := AwaitBatch(tasks, status);
        AcceptedAppend(before, tasks, status);
        AcceptedAppend(before + tasks, rest, status);
        if !accepted {
          return batches, false;
        }
      } else {
        assert before + tasks == before;
      }
    }
    assert Flatten(batches) + [] == Flatten(batches);
    ok := true;
  }

  lemma FlattenNothing()
    ensures Flatten([]) == []
  {
  }

  lemma FlattenSnoc(batches: seq<seq<Part>>, tasks: seq<Part>)
    ensures Flatten(batches + [tasks]) == Flatten(batches) + tasks
  {
    assert (batches + [tasks])[..|batches|] == batches;
  }

  lemma Reassociate(tasks: seq<Part>, p: Part, rest: seq<Part>)
    ensures tasks + ([p] + rest) == (tasks + [p]) + rest
  {
  }

  lemma AcceptedAppend(a: seq<Part>, b: seq<Part>, status: nat -> Option<int>)
    ensures AllAccepted(a + b, status) <==> AllAccepted(a, status) && AllAccepted(b, status)
    ensures AllAccepted([], status)
  {
    forall i | 0 <= i < |a| ensures (a + b)[i] == a[i] {}
    forall i | 0 <= i < |b| ensures (a + b)[|a| + i] == b[i] {}
    if AllAccepted(a + b, status) {
      forall i | 0 <= i < |b| ensures status(b[i].number) == Some(200) { assert (a + b)[|a| + i] == b[i]; }
    }
  }

  // ---------------------------------------------------------------- what arrives

  function Concatenated(parts: seq<Part>): Bytes {
    if parts == [] then [] else parts[0].payload + Concatenated(parts[1..])
  }

  lemma {:induction false} PartsConcatenate(file: Bytes, number: nat, offset: nat)
    requires offset <= |file|
    ensures Concatenated(Parts(file, number, offset)) == file[offset..]
    decreases |file| - offset
  {
    hide Parts, Read;
    PartsStep(file, number, offset);
    var buffer := Read(file, offset);
    if buffer == [] {
    } else {
      var next := offset + |buffer|;
      PartsConcatenate(file, number + 1, next);
      ReadIs(file, offset);
      assert file[offset..] == file[offset..next] + file[next..];
      var parts := Parts(file, number, offset);
      assert parts[0].payload == buffer && parts[1..] == Parts(file, number + 1, next);
    }
  }

  lemma ReadIs(file: Bytes, offset: nat)
    requires offset <= |file|
    ensures offset + |Read(file, offset)| <= |file| && Read(file, offset) == file[offset..offset + |Read(file, offset)|]
    ensures |Read(file, offset)| == Min(ChunkSize, |file| - offset)
  {
  }

  /** Part k (from 0) has number k + 1 and the k-th chunk, and only the last one may be short. */
  lemma {:induction false} PartAt(file: Bytes, number: nat, offset: nat, k: nat)
    requires offset <= |file| && k < |Parts(file, number, offset)|
    ensures var p := Parts(file, number, offset)[k];
            && p.number == number + k && p.offset == offset + k * ChunkSize
            && 0 < p.size == |p.payload| <= ChunkSize && p.offset + p.size <= |file|
            && p.payload == file[p.offset..p.offset + p.size]
            && (k + 1 < |Parts(file, number, offset)| ==> p.size == ChunkSize)
    decreases k
  {
    hide Parts, Read;
    PartsStep(file, number, offset);
    ReadIs(file, offset);
    var buffer := Read(file, offset);
    var parts := Parts(file, number, offset);
    if k == 0 {
    } else {
      assert parts[k] == parts[1..][k - 1];
      PartAt(file, number + 1, offset + |buffer|, k - 1);
    }
  }

  lemma AcceptedByNumber(file: Bytes, status: nat -> Option<int>)
    ensures AllAccepted(Parts(file, 1, 0), status) <==>
            forall k: nat :: 1 <= k <= |Parts(file, 1, 0)| ==> status(k) == Some(200)
  {
    hide Parts;
    var parts := Parts(file, 1, 0);
    forall i | 0 <= i < |parts| ensures parts[i].number == i + 1 { PartAt(file, 1, 0, i); }
    if AllAccepted(parts, status) {
      forall k: nat | 1 <= k <= |parts| ensures status(k) == Some(200) { assert parts[k - 1].number == k; }
    }
  }

  /** There are as many parts as chunks are needed. */
  lemma {:induction false} PartsCount(file: Bytes, number: nat, offset: nat)
    requires offset <= |file|
    ensures var n := |Parts(file, number, offset)|;
            |file| - offset <= n * ChunkSize && (n > 0 ==> (n - 1) * ChunkSize < |file| - offset)
    decreases |file| - offset
  {
    if offset < |file| { PartsCount(file, number + 1, offset + Min(ChunkSize, |file| - offset)); }
  }

  /** What the service has after some parts arrived, each written at its offset. */
  function Stored(arrived: seq<Part>): map<int, bv8> {
    if arrived == [] then map[]
    else Stored(arrived[..|arrived| - 1]) + Placed(arrived[|arrived| - 1])
  }

  predicate Covers(p: Part, i: int) { p.offset <= i < p.offset + |p.payload| }

  function Placed(p: Part): map<int, bv8> {
    map i: int | p.offset <= i < p.offset + |p.payload| :: ByteAt(p, i)
  }

  function ByteAt(p: Part, i: int): bv8
    requires Covers(p, i)
  {
    p.payload[i - p.offset]
  }

  predicate PartOf(p: Part, file: Bytes) {
    p.offset + |p.payload| <= |file| && p.payload == file[p.offset..p.offset + |p.payload|]
  }

  lemma PlacedIs(p: Part, file: Bytes, i: int)
    requires PartOf(p, file)
    ensures i in Placed(p) <==> Covers(p, i)
    ensures i in Placed(p) ==> 0 <= i < |file| && Placed(p)[i] == file[i]
  {
  }

  lemma {:induction false} StoredIs(file: Bytes, arrived: seq<Part>, i: int)
    requires forall p :: p in arrived ==> PartOf(p, file)
    ensures i in Stored(arrived) <==> Covered(arrived, i)
    ensures i in Stored(arrived) ==> 0 <= i < |file| && Stored(arrived)[i] == file[i]
  {
    if arrived == [] {
    } else {
      var last, before := arrived[|arrived| - 1], arrived[..|arrived| - 1];
      assert last in arrived && forall p :: p in before ==> p in arrived;
      StoredIs(file, before, i);
      PlacedIs(last, file, i);
      CoveredStep(before, last, i);
      assert before + [last] == arrived;
      hide Covered, Placed, Covers, PartOf;
    }
  }

  ghost predicate Covered(parts: seq<Part>, i: int) {
    exists p :: p in parts && Covers(p, i)
  }

  lemma CoveredStep(before: seq<Part>, last: Part, i: int)
    ensures Covered(before + [last], i) <==> Covered(before, i) || Covers(last, i)
  {
    if Covered(before, i) {
      var p :| p in before && Covers(p, i);
      assert p in before + [last];
    }
    assert last in before + [last];
  }

  /** The parts cover every position. */
  lemma {:induction false} PartsCover(file: Bytes, number: nat, offset: nat, i: nat)
    requires offset <= i < |file|
    ensures Covered(Parts(file, number, offset), i)
    decreases |file| - offset
  {
    hide Parts, Read;
    PartsStep(file, number, offset);
    ReadIs(file, offset);
    var buffer := Read(file, offset);
    var parts := Parts(file, number, offset);
    if i < offset + |buffer| {
      assert parts[0] in parts && Covers(parts[0], i);
    } else {
      PartsCover(file, number + 1, offset + |buffer|, i);
    }
  }

  /**
   In whatever order the parts of the parallel tasks arrive, and even if some arrive again, the service
   ends up with exactly the file.
   */
  lemma UploadReassembles(file: Bytes, arrived: seq<Part>)
    requires forall p :: p in arrived <==> p in Parts(file, 1, 0)
    ensures forall i :: i in Stored(arrived) <==> 0 <= i < |file|
    ensures forall i :: 0 <= i < |file| ==> Stored(arrived)[i] == file[i]
  {
    hide Parts, Stored;
    var parts := Parts(file, 1, 0);
    forall p | p in arrived ensures PartOf(p, file) {
      var k :| 0 <= k < |parts| && parts[k] == p;
      PartAt(file, 1, 0, k);
    }
    forall i ensures i in Stored(arrived) <==> 0 <= i < |file|
      ensures 0 <= i < |file| ==> Stored(arrived)[i] == file[i]
    {
      StoredIs(file, arrived, i);
      if 0 <= i < |file| {
        PartsCover(file, 1, 0, i);
        var p :| p in parts && Covers(p, i);
        assert p in arrived;
      }
    }
  }
}
