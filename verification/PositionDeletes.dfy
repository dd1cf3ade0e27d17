/** Deleted row positions of one data file, gathered from its delete files, and the filter that drops them
    from each chunk of rows read. */
module PositionDeletes {
  import opened Wrappers
  import opened FileList
  import opened Words
  import Roaring
  import DV = DeletionVector

  /** What a stored file holds: the chunks of (path, position) rows of a parquet file with this many
      columns, or bytes. */
  datatype Contents = Parquet(columns: nat, chunks: seq<seq<(string, int)>>) | Bytes(data: seq<byte>)
  type Storage = map<string, Contents>

  datatype DeleteError =
    | EqualityUnsupported | FormatUnsupported | MissingSize | Unreadable | TooFewColumns | BadBlob(error: DV.Error)
    | PositionOutOfRange

  type Outcome<+T> = Result<T, DeleteError>

  const MAX_POSITION := 0x8000_0000_0000_0000

  // ---- What a delete file deletes ----

  predicate Readable(d: DeleteFile, storage: Storage)
    requires d.contentSize >= 0 && d.contentOffset >= 0
  {
    d.path in storage && storage[d.path].Bytes? && d.contentOffset + d.contentSize <= |storage[d.path].data|
  }

  /** A deletion vector: the positions of the blob at its byte range. */
  ghost function VectorPositions(d: DeleteFile, storage: Storage): (r: Outcome<set<int>>)
    requires d.contentOffset >= 0
  {
    if d.contentSize < 0 then Err(MissingSize)
    else if !Readable(d, storage) then Err(Unreadable)
    else
      match DV.FromBlob(storage[d.path].data[d.contentOffset..d.contentOffset + d.contentSize])
      case Err(e) => Err(BadBlob(e))
      case Ok(bitmaps) =>
        var positions := DV.Positions(bitmaps);
        if exists p :: p in positions && p >= MAX_POSITION then Err(PositionOutOfRange)
        else Ok(set p | p in positions :: p as int)
  }

  function RowPositions(rows: seq<(string, int)>, path: string): (r: set<int>) {
    set i | 0 <= i < |rows| && rows[i].0 == path :: rows[i].1
  }

  ghost function ChunkPositions(chunks: seq<seq<(string, int)>>, path: string): (r: set<int>) {
    set c, p | c in chunks && p in RowPositions(c, path) :: p
  }

  /** A position-delete file: the positions of its rows that name this data file. */
  ghost function FilePositions(d: DeleteFile, path: string, storage: Storage): (r: Outcome<set<int>>) {
    if d.format != "parquet" then Err(FormatUnsupported)
    else if d.path !in storage || !storage[d.path].Parquet? then Err(Unreadable)
    else if storage[d.path].columns < 2 && storage[d.path].chunks != [] then Err(TooFewColumns)
    else Ok(ChunkPositions(storage[d.path].chunks, path))
  }

  ghost function DeletedBy(d: DeleteFile, path: string, storage: Storage): (r: Outcome<set<int>>) {
    if d.contentOffset >= 0 then VectorPositions(d, storage) else FilePositions(d, path, storage)
  }

  ghost function AllDeleted(deletes: seq<DeleteFile>, path: string, storage: Storage): (r: Outcome<set<int>>) {
    if deletes == [] then Ok({})
    else
      var n := |deletes| - 1;
      match AllDeleted(deletes[..n], path, storage)
      case Err(e) => Err(e)
      case Ok(before) =>
        match DeletedBy(deletes[n], path, storage)
        case Err(e) => Err(e)
        case Ok(more) => Ok(before + more)
  }

  predicate HasEquality(deletes: seq<DeleteFile>) {
    exists i :: 0 <= i < |deletes| && deletes[i].kind == EqualityDeletes
  }

  /** The positions a data file's delete files remove; equality deletes among them fail the whole build. */
  ghost function DeletedPositions(deletes: seq<DeleteFile>, path: string, storage: Storage): (r: Outcome<set<int>>) {
    if HasEquality(deletes) then Err(EqualityUnsupported) else AllDeleted(deletes, path, storage)
  }

  /** Nothing is deleted but by some delete file, and everything a delete file deletes is deleted. */
  lemma {:induction false} DeletedIsUnion(deletes: seq<DeleteFile>, path: string, storage: Storage, p: int)
    requires AllDeleted(deletes, path, storage).Ok?
    ensures forall i :: 0 <= i < |deletes| ==> DeletedBy(deletes[i], path, storage).Ok?
    ensures p in AllDeleted(deletes, path, storage).value <==>
            exists i :: 0 <= i < |deletes| && p in DeletedBy(deletes[i], path, storage).value
  {
    hide DeletedBy;
    if deletes != [] {
      var n := |deletes| - 1;
      var before := deletes[..n];
      DeletedIsUnion(before, path, storage, p);
      forall i | 0 <= i < |deletes| ensures DeletedBy(deletes[i], path, storage).Ok? {
        if i < n {
          assert before[i] == deletes[i];
        }
      }
      if i :| 0 <= i < n && p in DeletedBy(before[i], path, storage).value {
        assert deletes[i] == before[i];
      }
      if i :| 0 <= i < n && p in DeletedBy(deletes[i], path, storage).value {
        assert deletes[i] == before[i];
      }
    }
  }

  // ---- What a delete file deletes, row by row ----

  /** Some chunk has a row of this path and position. */
  ghost predicate HasRow(chunks: seq<seq<(string, int)>>, path: string, p: int) {
    exists k, i :: 0 <= k < |chunks| && 0 <= i < |chunks[k]| && chunks[k][i] == (path, p)
  }

  /** A position-delete file deletes exactly the positions that some row of it gives for this data file. */
  lemma FileDeletes(d: DeleteFile, path: string, storage: Storage)
    requires d.contentOffset < 0
    ensures DeletedBy(d, path, storage).Ok? <==>
            && d.format == "parquet" && d.path in storage && storage[d.path].Parquet?
            && (storage[d.path].columns >= 2 || storage[d.path].chunks == [])
    ensures DeletedBy(d, path, storage).Ok? ==>
              forall p :: p in DeletedBy(d, path, storage).value <==> HasRow(storage[d.path].chunks, path, p)
  {
    if DeletedBy(d, path, storage).Ok? {
      var chunks := storage[d.path].chunks;
      forall p ensures p in ChunkPositions(chunks, path) <==> HasRow(chunks, path, p) {
        if p in ChunkPositions(chunks, path) {
          var c: seq<(string, int)> :| c in chunks && p in RowPositions(c, path);
          var i :| 0 <= i < |c| && c[i].0 == path && c[i].1 == p;
          assert c[i] == (path, p);
        }
        if HasRow(chunks, path, p) {
          var k, i :| 0 <= k < |chunks| && 0 <= i < |chunks[k]| && chunks[k][i] == (path, p);
          assert chunks[k][i].0 == path && p in RowPositions(chunks[k], path);
        }
      }
    }
  }

  /** The bytes of a deletion vector, if they are all there. */
  ghost predicate HasBlob(d: DeleteFile, storage: Storage, blob: seq<byte>) {
    && d.contentOffset >= 0 && d.contentSize >= 0 && d.path in storage && storage[d.path].Bytes?
    && d.contentOffset + d.contentSize <= |storage[d.path].data|
    && blob == storage[d.path].data[d.contentOffset..d.contentOffset + d.contentSize]
  }

  /** Some value of some bitmap gives this position. */
  ghost predicate Marked(bitmaps: DV.Bitmaps, p: int) {
    p >= 0 && exists key, low :: DV.Comes(bitmaps, p, key, low)
  }

  /**
   * A deletion vector deletes exactly the positions its blob decodes to, each the unsigned key times 2^32
   * plus a value; one beyond the signed 64-bit range fails it, as does a blob that is refused.
   */
  lemma VectorDeletes(d: DeleteFile, path: string, storage: Storage, blob: seq<byte>)
    requires HasBlob(d, storage, blob)
    ensures DV.FromBlob(blob).Err? ==> DeletedBy(d, path, storage) == Err(BadBlob(DV.FromBlob(blob).error))
    ensures DV.FromBlob(blob).Ok? ==>
              var bitmaps := DV.FromBlob(blob).value;
              if exists p :: p >= 0x8000_0000_0000_0000 && Marked(bitmaps, p)
              then DeletedBy(d, path, storage) == Err(PositionOutOfRange)
              else
                && DeletedBy(d, path, storage).Ok?
                && forall p :: p in DeletedBy(d, path, storage).value <==> Marked(bitmaps, p)
  {
    hide DV.FromBlob, DV.Positions, Marked;
    if DV.FromBlob(blob).Ok? {
      var bitmaps := DV.FromBlob(blob).value;
      forall p: nat ensures p in DV.Positions(bitmaps) <==> Marked(bitmaps, p) {
        PositionIsMarked(blob, bitmaps, p);
      }
      forall p: int | Marked(bitmaps, p) ensures p >= 0 {
        MarkedIsNat(bitmaps, p);
      }
      if p: int :| p >= 0x8000_0000_0000_0000 && Marked(bitmaps, p) {
        assert p in DV.Positions(bitmaps) && p >= MAX_POSITION;
      }
      if p: nat :| p in DV.Positions(bitmaps) && p >= MAX_POSITION {
        assert Marked(bitmaps, p) && p >= 0x8000_0000_0000_0000;
      }
    }
  }

  lemma PositionIsMarked(blob: seq<byte>, bitmaps: DV.Bitmaps, p: nat)
    requires DV.FromBlob(blob) == Ok(bitmaps)
    ensures p in DV.Positions(bitmaps) <==> Marked(bitmaps, p)
  {
    hide DV.FromBlob, DV.Positions, DV.Comes;
    DV.PositionsAreUnique(blob, bitmaps, p);
  }

  lemma MarkedIsNat(bitmaps: DV.Bitmaps, p: int)
    requires Marked(bitmaps, p)
    ensures p >= 0
  {
  }

  /** A deletion vector that is not all there fails. */
  lemma VectorMissing(d: DeleteFile, path: string, storage: Storage)
    requires d.contentOffset >= 0 && forall blob :: !HasBlob(d, storage, blob)
    ensures DeletedBy(d, path, storage) == Err(if d.contentSize < 0 then MissingSize else Unreadable)
  {
    if d.contentSize >= 0 && Readable(d, storage) {
      assert HasBlob(d, storage, storage[d.path].data[d.contentOffset..d.contentOffset + d.contentSize]);
    }
  }

  /** An equality delete fails the build, whatever else there is; and nothing else fails it so. */
  lemma EqualityFails(deletes: seq<DeleteFile>, path: string, storage: Storage)
    ensures DeletedPositions(deletes, path, storage) == Err(EqualityUnsupported) <==>
            exists i :: 0 <= i < |deletes| && deletes[i].kind == EqualityDeletes
  {
    hide DeletedBy;
    OtherFailures(deletes, path, storage);
  }

  lemma {:induction false} OtherFailures(deletes: seq<DeleteFile>, path: string, storage: Storage)
    ensures AllDeleted(deletes, path, storage) != Err(EqualityUnsupported)
    ensures AllDeleted(deletes, path, storage).Err? <==>
            exists i :: 0 <= i < |deletes| && FirstFailure(deletes, i, path, storage)
    ensures forall i :: 0 <= i < |deletes| && FirstFailure(deletes, i, path, storage) ==>
              AllDeleted(deletes, path, storage) == Err(DeletedBy(deletes[i], path, storage).error)
  {
    hide DeletedBy, FirstFailure;
    if deletes != [] {
      var n := |deletes| - 1;
      var before := deletes[..n];
      OtherFailures(before, path, storage);
      DeletedByOther(deletes[n], path, storage);
      forall i | 0 <= i < n
        ensures FirstFailure(before, i, path, storage) <==> FirstFailure(deletes, i, path, storage)
        ensures before[i] == deletes[i]
      {
        FailureInPrefix(deletes, i, path, storage);
      }
      LastFails(deletes, path, storage);
    }
  }

  lemma FailureInPrefix(deletes: seq<DeleteFile>, i: nat, path: string, storage: Storage)
    requires i < |deletes| - 1
    ensures FirstFailure(deletes[..|deletes| - 1], i, path, storage) <==> FirstFailure(deletes, i, path, storage)
  {
    hide DeletedBy;
    var before := deletes[..|deletes| - 1];
    assert forall j :: 0 <= j <= i ==> before[j] == deletes[j];
  }

  lemma LastFails(deletes: seq<DeleteFile>, path: string, storage: Storage)
    requires deletes != []
    ensures var n := |deletes| - 1;
      AllDeleted(deletes[..n], path, storage).Ok? ==>
        (FirstFailure(deletes, n, path, storage) <==> DeletedBy(deletes[n], path, storage).Err?)
    ensures var n := |deletes| - 1;
      (exists i :: 0 <= i < n && FirstFailure(deletes, i, path, storage)) ==> !FirstFailure(deletes, n, path, storage)
  {
    hide DeletedBy;
    var n := |deletes| - 1;
    var before := deletes[..n];
    if AllDeleted(before, path, storage).Ok? {
      DeletedIsUnion(before, path, storage, 0);
      assert forall i :: 0 <= i < n ==> before[i] == deletes[i];
    }
  }

  /** The first delete file that fails. */
  ghost predicate FirstFailure(deletes: seq<DeleteFile>, i: nat, path: string, storage: Storage)
    requires i < |deletes|
  {
    && DeletedBy(deletes[i], path, storage).Err?
    && forall j :: 0 <= j < i ==> DeletedBy(deletes[j], path, storage).Ok?
  }

  lemma DeletedByOther(d: DeleteFile, path: string, storage: Storage)
    ensures DeletedBy(d, path, storage) != Err(EqualityUnsupported)
  {
    hide DV.FromBlob, DV.Positions, ChunkPositions;
  }

  // ---- Gathering them ----

  method ScanVector(d: DeleteFile, storage: Storage, out: set<int>) returns (r: Outcome<set<int>>)
    requires d.contentOffset >= 0
    ensures r == match VectorPositions(d, storage)
                 case Err(e) => Err(e)
                 case Ok(more) => Ok(out + more)
  {
    hide DV.FromBlob, DV.Positions;
    if d.contentSize < 0 {
      return Err(MissingSize);
    }
    if !Readable(d, storage) {
      return Err(Unreadable);
    }
    var blob := DV.DecodeBlob(storage[d.path].data[d.contentOffset..d.contentOffset + d.contentSize]);
    if blob.Err? {
      return Err(BadBlob(blob.error));
    }
    var positions := DV.ToSet(blob.value);
    if exists p :: p in positions && p >= MAX_POSITION {
      return Err(PositionOutOfRange);
    }
    r := Ok(out + set p | p in positions :: p as int);
  }

  method ScanPositions(d: DeleteFile, path: string, storage: Storage, out: set<int>) returns (r: Outcome<set<int>>)
    ensures r == match FilePositions(d, path, storage)
                 case Err(e) => Err(e)
                 case Ok(more) => Ok(out + more)
  {
    if d.format != "parquet" {
      return Err(FormatUnsupported);
    }
    if d.path !in storage || !storage[d.path].Parquet? {
      return Err(Unreadable);
    }
    var chunks := storage[d.path].chunks;
    var result := out;
    for i := 0 to |chunks|
      invariant result == out + ChunkPositions(chunks[..i], path)
      invariant i > 0 ==> storage[d.path].columns >= 2
    {
      if storage[d.path].columns < 2 {
        return Err(TooFewColumns);
      }
      var chunk := chunks[i];
      ghost var before := result;
      for j := 0 to |chunk|
        invariant result == before + RowPositions(chunk[..j], path)
      {
        RowsSnoc(chunk, j, path);
        if chunk[j].0 == path {
          result := result + {chunk[j].1};
        }
      }
      assert chunk[..|chunk|] == chunk;
      assert chunks[..i + 1] == chunks[..i] + [chunk];
      ChunksSnoc(chunks[..i], chunk, path);
    }
    assert chunks[..|chunks|] == chunks;
    r := Ok(result);
  }

  lemma ChunksSnoc(chunks: seq<seq<(string, int)>>, chunk: seq<(string, int)>, path: string)
    ensures ChunkPositions(chunks + [chunk], path) == ChunkPositions(chunks, path) + RowPositions(chunk, path)
  {
    hide RowPositions;
    var both := chunks + [chunk];
    forall p | p in ChunkPositions(both, path) ensures p in ChunkPositions(chunks, path) + RowPositions(chunk, path) {
      var c :| c in both && p in RowPositions(c, path);
      assert c in chunks || c == chunk;
    }
    forall p | p in ChunkPositions(chunks, path) ensures p in ChunkPositions(both, path) {
      var c :| c in chunks && p in RowPositions(c, path);
      assert c in both;
    }
    assert both[|chunks|] == chunk;
    forall p | p in RowPositions(chunk, path) ensures p in ChunkPositions(both, path) {
      assert chunk in both;
    }
  }

  lemma RowsSnoc(rows: seq<(string, int)>, j: nat, path: string)
    requires j < |rows|
    ensures RowPositions(rows[..j + 1], path) ==
            RowPositions(rows[..j], path) + if rows[j].0 == path then {rows[j].1} else {}
  {
    var a, b := rows[..j], rows[..j + 1];
    forall p | p in RowPositions(b, path) ensures p in RowPositions(a, path) || (rows[j].0 == path && p == rows[j].1) {
      var i :| 0 <= i < |b| && b[i].0 == path && b[i].1 == p;
      if i < j {
        assert a[i] == b[i];
      }
    }
    forall p | p in RowPositions(a, path) ensures p in RowPositions(b, path) {
      var i :| 0 <= i < |a| && a[i].0 == path && a[i].1 == p;
      assert b[i] == a[i];
    }
    if rows[j].0 == path {
      assert b[j] == rows[j];
    }
  }

  /** The filter for a data file: none when nothing is deleted. */
  method BuildDeleteFilter(path: string, deletes: seq<DeleteFile>, storage: Storage)
    returns (r: Outcome<Option<set<int>>>)
    ensures r == match DeletedPositions(deletes, path, storage)
                 case Err(e) => Err(e)
                 case Ok(positions) => Ok(if positions == {} then None else Some(positions))
  {
    hide DeletedBy;
    if deletes == [] {
      return Ok(None);
    }
    for i := 0 to |deletes|
      invariant forall k :: 0 <= k < i ==> deletes[k].kind != EqualityDeletes
    {
      if deletes[i].kind == EqualityDeletes {
        return Err(EqualityUnsupported);
      }
    }
    var positions: set<int> := {};
    for i := 0 to |deletes|
      invariant AllDeleted(deletes[..i], path, storage) == Ok(positions)
    {
      assert deletes[..i + 1][..i] == deletes[..i];
      var more := ScanOne(deletes[i], path, storage, positions);
      if more.Err? {
        AllDeletedFails(deletes, i + 1, path, storage);
        return Err(more.error);
      }
      positions := more.value;
    }
    assert deletes[..|deletes|] == deletes;
    r := Ok(if positions == {} then None else Some(positions));
  }

  method ScanOne(d: DeleteFile, path: string, storage: Storage, out: set<int>) returns (r: Outcome<set<int>>)
    ensures r == match DeletedBy(d, path, storage)
                 case Err(e) => Err(e)
                 case Ok(more) => Ok(out + more)
  {
    hide VectorPositions, FilePositions;
    if d.contentOffset >= 0 {
      r := ScanVector(d, storage, out);
    } else {
      r := ScanPositions(d, path, storage, out);
    }
  }

  lemma {:induction false} AllDeletedFails(deletes: seq<DeleteFile>, n: nat, path: string, storage: Storage)
    requires n <= |deletes| && AllDeleted(deletes[..n], path, storage).Err?
    ensures AllDeleted(deletes, path, storage) == AllDeleted(deletes[..n], path, storage)
  {
    hide DeletedBy;
    if n == |deletes| {
      assert deletes[..n] == deletes;
    } else {
      assert deletes[..|deletes| - 1][..n] == deletes[..n];
      AllDeletedFails(deletes[..|deletes| - 1], n, path, storage);
    }
  }

  // ---- Dropping them, chunk by chunk ----

  const VECTOR_CAPACITY := 2048

  /** A row selection: a buffer of row offsets. */
  class SelectionVector {
    var indices: array<nat>

    constructor ()
      ensures fresh(indices) && indices.Length == 0
    {
      indices := new nat[0];
    }

    method Initialize(capacity: nat)
      modifies this
      ensures fresh(indices) && indices.Length == capacity
    {
      indices := new nat[capacity];
    }
  }

  /** The offsets below `count` of the rows from `start` on that are not deleted, in order. */
  function Selection(positions: set<int>, start: int, count: nat): (r: seq<nat>)
    ensures |r| <= count
  {
    if count == 0 then []
    else Selection(positions, start, count - 1) + if start + count - 1 in positions then [] else [count - 1]
  }

  class PositionDeleteFilter {
    const positions: set<int>

    constructor (positions: set<int>)
      ensures this.positions == positions
    {
      this.positions := positions;
    }

    /** Selects the surviving rows of a chunk. A chunk fits a vector. */
    method Filter(start: int, count: nat, result: SelectionVector) returns (selected: nat)
      requires count <= VECTOR_CAPACITY
      modifies result
      ensures selected <= result.indices.Length || count == 0
      ensures count > 0 ==> fresh(result.indices) && selected <= result.indices.Length == VECTOR_CAPACITY
      ensures count > 0 ==> result.indices[..selected] == Selection(positions, start, count)
      ensures count == 0 ==> selected == 0 && result.indices == old(result.indices)
    {
      if count == 0 {
        return 0;
      }
      result.Initialize(VECTOR_CAPACITY);
      selected := 0;
      for i := 0 to count
        invariant fresh(result.indices) && result.indices.Length == VECTOR_CAPACITY
        invariant selected <= i && result.indices[..selected] == Selection(positions, start, i)
      {
        if start + i !in positions {
          result.indices[selected] := i;
          selected := selected + 1;
        }
      }
    }
  }

  /** Rows from `first` up to `end` that are not deleted. */
  function Rows(positions: set<int>, first: nat, end: nat): (r: seq<nat>)
    requires first <= end
  {
    if first == end then [] else Rows(positions, first, end - 1) + if end - 1 in positions then [] else [end - 1]
  }

  ghost predicate StrictlyIncreasing(s: seq<nat>) {
    forall i, j :: 0 <= i < j < |s| ==> s[i] < s[j]
  }

  /** They are the rows not deleted, each once and in order. */
  lemma {:induction false} RowsExact(positions: set<int>, first: nat, end: nat)
    requires first <= end
    ensures StrictlyIncreasing(Rows(positions, first, end))
    ensures forall row :: row in Rows(positions, first, end) <==> first <= row < end && row !in positions
    decreases end - first
  {
    if first < end {
      RowsExact(positions, first, end - 1);
      var before := Rows(positions, first, end - 1);
      forall i | 0 <= i < |before| ensures before[i] < end - 1 {
        assert before[i] in before;
      }
    }
  }

  function Shift(s: seq<nat>, distance: nat): (r: seq<nat>)
    ensures |r| == |s|
  {
    seq(|s|, i requires 0 <= i < |s| => s[i] + distance)
  }

  lemma {:induction false} SelectionIsRows(positions: set<int>, start: nat, count: nat)
    ensures Shift(Selection(positions, start, count), start) == Rows(positions, start, start + count)
    decreases count
  {
    if count > 0 {
      SelectionIsRows(positions, start, count - 1);
    }
  }

  lemma {:induction false} RowsConcat(positions: set<int>, a: nat, b: nat, c: nat)
    requires a <= b <= c
    ensures Rows(positions, a, c) == Rows(positions, a, b) + Rows(positions, b, c)
    decreases c - b
  {
    if b < c {
      RowsConcat(positions, a, b, c - 1);
    }
  }

  /** Selections of consecutive chunks, each shifted to its chunk. */
  function Chunked(positions: set<int>, start: nat, counts: seq<nat>): (r: seq<nat>)
    decreases |counts|
  {
    if counts == [] then []
    else Shift(Selection(positions, start, counts[0]), start) + Chunked(positions, start + counts[0], counts[1..])
  }

  function Sum(counts: seq<nat>): (r: nat) {
    if counts == [] then 0 else counts[0] + Sum(counts[1..])
  }

  /** However a file is split into chunks, the selections together are the rows not deleted. */
  lemma {:induction false} ChunksCompose(positions: set<int>, start: nat, counts: seq<nat>)
    ensures Chunked(positions, start, counts) == Rows(positions, start, start + Sum(counts))
    decreases |counts|
  {
    if counts != [] {
      ChunksCompose(positions, start + counts[0], counts[1..]);
      SelectionIsRows(positions, start, counts[0]);
      RowsConcat(positions, start, start + counts[0], start + Sum(counts));
    }
  }

  /** No delete file deletes this row. */
  ghost predicate Survives(deletes: seq<DeleteFile>, path: string, storage: Storage, row: nat) {
    forall i :: 0 <= i < |deletes| ==>
      DeletedBy(deletes[i], path, storage).Ok? && row !in DeletedBy(deletes[i], path, storage).value
  }

  /**
   * A row of an entry survives exactly if none of the delete files of its own response, among those its
   * task refers to, deletes it.
   */
  lemma EntryRowSurvives(e: Entry, task: Task, r: Response, storage: Storage, row: nat)
    requires IsEntry(e, task, r.deletes)
    ensures Survives(e.deletes, e.path, storage, row) <==>
            forall k :: 0 <= k < |task.references| ==>
              var deleted := DeletedBy(r.deletes[task.references[k]], task.path, storage);
              deleted.Ok? && row !in deleted.value
  {
    hide DeletedBy;
  }

  /** The rows of a data file that survive its delete files: a strictly increasing list, the complement of
      the union of what they delete, from any chunking of the file. */
  lemma SurvivingRows(deletes: seq<DeleteFile>, path: string, storage: Storage, counts: seq<nat>)
    requires DeletedPositions(deletes, path, storage).Ok?
    ensures var rows := Chunked(DeletedPositions(deletes, path, storage).value, 0, counts);
      StrictlyIncreasing(rows) && forall row: nat :: row in rows <==> row < Sum(counts) && Survives(deletes, path, storage, row)
  {
    hide DeletedBy, Rows, Chunked, AllDeleted;
    var positions := DeletedPositions(deletes, path, storage).value;
    ChunksCompose(positions, 0, counts);
    RowsExact(positions, 0, Sum(counts));
    forall row: nat ensures row !in positions <==> Survives(deletes, path, storage, row) {
      DeletedIsUnion(deletes, path, storage, row);
    }
  }
}
