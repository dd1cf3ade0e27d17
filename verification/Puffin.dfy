/** A Puffin file around deletion-vector blobs: magic, blobs, and a footer (magic, payload, payload size,
    flags, magic) whose payload lists where each blob lies. The payload's JSON text is parsed by a library;
    the parsed tree is what is modelled. */
module Puffin {
  import opened Wrappers
  import opened Words
  import opened DeletionVector

  datatype PuffinError =
    | BadMagic | TrailingMagic | CompressedFooter | FooterFlags | PayloadSize | FooterMagic | Unparsed
    | NoBlobList | NoType | NoRange | RangeOutOfBounds

  type Parsed<+T> = Result<T, PuffinError>

  datatype Blob = Blob(offset: nat, length: nat)

  /** A field of a parsed blob description. */
  datatype Field = Missing | Text(text: string) | Integer(value: int) | Other
  datatype BlobMetadata = BlobMetadata(kind: Field, offset: Field, length: Field)
  /** A parsed footer payload: its `blobs` list, or none when the payload has no such list. */
  datatype Footer = Footer(blobs: seq<BlobMetadata>) | NoList

  const PUFFIN_MAGIC: seq<byte> := [0x50, 0x46, 0x41, 0x31]
  const TAIL_SIZE := 12 // payload size field, flags, magic
  const MIN_FILE_SIZE := 20
  const BLOB_TYPE := "deletion-vector-v1"

  function FlagsOf(data: seq<byte>): (r: nat)
    requires |data| >= MIN_FILE_SIZE
  {
    LoadLE(data[|data| - 8..|data| - 4])
  }

  function PayloadSizeOf(data: seq<byte>): (r: nat)
    requires |data| >= MIN_FILE_SIZE
  {
    LoadLE(data[|data| - 12..|data| - 8])
  }

  /** The offset of the footer payload. */
  function ValidateFooter(data: seq<byte>): (r: Parsed<nat>)
    requires |data| >= MIN_FILE_SIZE
    ensures r.Ok? ==> 8 <= r.value && r.value + PayloadSizeOf(data) + TAIL_SIZE == |data|
  {
    var size := |data|;
    if data[size - 4..] != PUFFIN_MAGIC then Err(TrailingMagic)
    else if FlagsOf(data) % 2 == 1 then Err(CompressedFooter)
    else if FlagsOf(data) != 0 then Err(FooterFlags)
    else if PayloadSizeOf(data) > size - MIN_FILE_SIZE then Err(PayloadSize)
    else
      var start := size - TAIL_SIZE - PayloadSizeOf(data);
      if data[start - 4..start] != PUFFIN_MAGIC then Err(FooterMagic) else Ok(start)
  }

  /** A parsed JSON integer read as a signed 64-bit number. */
  function Signed64(value: int): (r: int) {
    Signed(value % WRAP64, WRAP64)
  }

  /** The blob a description places in the file, or none when it is not a deletion vector. */
  function TryParseBlob(meta: BlobMetadata, sectionEnd: nat): (r: Parsed<seq<Blob>>)
    ensures r.Ok? ==> |r.value| <= 1
  {
    if !meta.kind.Text? then Err(NoType)
    else if meta.kind.text != BLOB_TYPE then Ok([])
    else if !meta.offset.Integer? || !meta.length.Integer? then Err(NoRange)
    else
      var offset, length := Signed64(meta.offset.value), Signed64(meta.length.value);
      if offset < 0 || length < 0 then Err(RangeOutOfBounds)
      else if offset < 4 || length > sectionEnd || offset > sectionEnd - length then Err(RangeOutOfBounds)
      else Ok([Blob(offset, length)])
  }

  function ParseBlobs(metas: seq<BlobMetadata>, sectionEnd: nat): (r: Parsed<seq<Blob>>) {
    if metas == [] then Ok([])
    else
      var before := ParseBlobs(metas[..|metas| - 1], sectionEnd);
      if before.Err? then before
      else
        var last := TryParseBlob(metas[|metas| - 1], sectionEnd);
        if last.Err? then last else Ok(before.value + last.value)
  }

  predicate IsBareDeletionVector(data: seq<byte>) {
    |data| >= 8 && data[4..8] == MAGIC
  }

  /** The blobs of a file; `parse` reads a footer payload. */
  function ParseFooter(data: seq<byte>, parse: seq<byte> -> Parsed<Footer>): (r: Parsed<seq<Blob>>) {
    if |data| >= MIN_FILE_SIZE && data[..4] == PUFFIN_MAGIC then
      var start := ValidateFooter(data);
      if start.Err? then Err(start.error)
      else
        var footer := parse(data[start.value..|data| - TAIL_SIZE]);
        if footer.Err? then Err(footer.error)
        else if footer.value.NoList? then Err(NoBlobList)
        else ParseBlobs(footer.value.blobs, start.value - 4)
    else if IsBareDeletionVector(data) then Ok([Blob(0, |data|)])
    else Err(BadMagic)
  }

  /** A reader: the file, and the blobs its footer lists. */
  class Reader {
    const data: seq<byte>
    var blobs: seq<Blob>

    constructor (data: seq<byte>)
      ensures this.data == data && blobs == []
    {
      this.data := data;
      this.blobs := [];
    }

    /** Fills `blobs` from the footer; on failure nothing is kept. */
    method Parse(parse: seq<byte> -> Parsed<Footer>) returns (r: Parsed<seq<Blob>>)
      modifies this
      ensures r == ParseFooter(data, parse)
      ensures blobs == if r.Ok? then r.value else old(blobs)
    {
      if |data| >= MIN_FILE_SIZE && data[..4] == PUFFIN_MAGIC {
        var start := ValidateFooter(data);
        if start.Err? {
          return Err(start.error);
        }
        var payloadSize := |data| - TAIL_SIZE - start.value;
        var sectionEnd := start.value - 4;
        var footer := parse(data[start.value..start.value + payloadSize]);
        if footer.Err? {
          return Err(footer.error);
        }
        if footer.value.NoList? {
          return Err(NoBlobList);
        }
        var found: seq<Blob> := [];
        var i := 0;
        var metas := footer.value.blobs;
        while i < |metas|
          invariant 0 <= i <= |metas|
          invariant ParseBlobs(metas[..i], sectionEnd) == Ok(found)
          invariant blobs == old(blobs)
        {
          assert metas[..i + 1][..i] == metas[..i];
          var blob := TryParseBlob(metas[i], sectionEnd);
          if blob.Err? {
            FailureStays(metas, i + 1, sectionEnd);
            return Err(blob.error);
          }
          found := found + blob.value;
          i := i + 1;
        }
        assert metas[..|metas|] == metas;
        blobs := found;
        return Ok(found);
      }
      if IsBareDeletionVector(data) {
        blobs := [Blob(0, |data|)];
        return Ok(blobs);
      }
      return Err(BadMagic);
    }

    /** Decodes a blob of this file. */
    method Decode(blob: Blob) returns (r: Decoded<Bitmaps>)
      requires blob.offset + blob.length <= |data|
      ensures r == FromBlob(data[blob.offset..blob.offset + blob.length])
    {
      r := DecodeBlob(data[blob.offset..blob.offset + blob.length]);
    }
  }

  lemma {:induction false} FailureStays(metas: seq<BlobMetadata>, n: nat, sectionEnd: nat)
    requires n <= |metas| && ParseBlobs(metas[..n], sectionEnd).Err?
    ensures ParseBlobs(metas, sectionEnd) == ParseBlobs(metas[..n], sectionEnd)
  {
    if n == |metas| {
      assert metas[..n] == metas;
    } else {
      assert metas[..|metas| - 1][..n] == metas[..n];
      FailureStays(metas[..|metas| - 1], n, sectionEnd);
    }
  }

  // ---- Which files and blobs are accepted ----

  /** The description is of a deletion vector, and places it in the blob section. */
  predicate Places(meta: BlobMetadata, sectionEnd: nat, b: Blob) {
    && meta.kind == Text("deletion-vector-v1") && meta.offset.Integer? && meta.length.Integer?
    && Signed64(meta.offset.value) == b.offset && Signed64(meta.length.value) == b.length
    && 4 <= b.offset && b.offset + b.length <= sectionEnd
  }

  /** A description of a blob of another type is passed over; one of a deletion vector has to place it. */
  ghost predicate Passes(meta: BlobMetadata, sectionEnd: nat) {
    meta.kind.Text? && (meta.kind.text == "deletion-vector-v1" ==> exists b :: Places(meta, sectionEnd, b))
  }

  lemma OneDescription(meta: BlobMetadata, sectionEnd: nat)
    ensures TryParseBlob(meta, sectionEnd).Ok? <==> Passes(meta, sectionEnd)
    ensures TryParseBlob(meta, sectionEnd).Ok? && meta.kind != Text("deletion-vector-v1") ==>
              TryParseBlob(meta, sectionEnd) == Ok([])
    ensures TryParseBlob(meta, sectionEnd).Ok? && meta.kind == Text("deletion-vector-v1") ==>
              |TryParseBlob(meta, sectionEnd).value| == 1 && Places(meta, sectionEnd, TryParseBlob(meta, sectionEnd).value[0])
  {
    hide Signed64;
    if meta.kind == Text(BLOB_TYPE) && TryParseBlob(meta, sectionEnd).Ok? {
      assert Places(meta, sectionEnd, TryParseBlob(meta, sectionEnd).value[0]);
    }
    if b :| Places(meta, sectionEnd, b) {
      assert TryParseBlob(meta, sectionEnd) == Ok([b]);
    }
  }

  /** Which descriptions of a list are of deletion vectors, in their order. */
  predicate Vectors(metas: seq<BlobMetadata>, indices: seq<nat>) {
    && (forall a, b :: 0 <= a < b < |indices| ==> indices[a] < indices[b])
    && (forall k :: 0 <= k < |indices| ==> indices[k] < |metas|)
    && forall i :: 0 <= i < |metas| ==> (i in indices <==> metas[i].kind == Text("deletion-vector-v1"))
  }

  lemma NoVectors()
    ensures Vectors([], [])
  {
  }

  lemma VectorsSnoc(metas: seq<BlobMetadata>, indices: seq<nat>)
    requires metas != [] && Vectors(metas[..|metas| - 1], indices)
    ensures forall k :: 0 <= k < |indices| ==> indices[k] < |metas| - 1
    ensures Vectors(metas, if metas[|metas| - 1].kind == Text("deletion-vector-v1") then indices + [|metas| - 1] else indices)
  {
    var n := |metas| - 1;
    var more := indices + [n];
    assert forall i :: 0 <= i < n ==> metas[..n][i] == metas[i];
    forall i | 0 <= i < |metas| ensures i in more <==> i in indices || i == n {
    }
  }

  /**
   * A footer's list is accepted exactly if every description passes, and then the blobs listed are those
   * of the deletion vectors, each where its description places it, in their order.
   */
  lemma {:induction false} ListedExactly(metas: seq<BlobMetadata>, sectionEnd: nat) returns (indices: seq<nat>)
    ensures ParseBlobs(metas, sectionEnd).Ok? <==> forall i :: 0 <= i < |metas| ==> Passes(metas[i], sectionEnd)
    ensures Vectors(metas, indices)
    ensures ParseBlobs(metas, sectionEnd).Ok? ==>
              var blobs := ParseBlobs(metas, sectionEnd).value;
              |blobs| == |indices| && forall k :: 0 <= k < |blobs| ==> Places(metas[indices[k]], sectionEnd, blobs[k])
  {
    hide TryParseBlob, Passes, Places, Vectors;
    if metas == [] {
      indices := [];
      NoVectors();
    } else {
      var n := |metas| - 1;
      var before := metas[..n];
      indices := ListedExactly(before, sectionEnd);
      OneDescription(metas[n], sectionEnd);
      assert forall i :: 0 <= i < n ==> before[i] == metas[i];
      VectorsSnoc(metas, indices);
      if metas[n].kind == Text("deletion-vector-v1") {
        indices := indices + [n];
      }
    }
  }

  /** A footer is accepted exactly if both magics, the flags and the payload's size are right. */
  lemma FooterExactly(data: seq<byte>)
    requires |data| >= 20
    ensures var n := |data|; var size := LoadLE(data[n - 12..n - 8]);
      && (ValidateFooter(data).Ok? <==>
            && data[n - 4..] == [0x50, 0x46, 0x41, 0x31] && data[n - 8..n - 4] == [0, 0, 0, 0]
            && size + 20 <= n && data[n - 16 - size..n - 12 - size] == [0x50, 0x46, 0x41, 0x31])
      && (ValidateFooter(data).Ok? ==> ValidateFooter(data).value == n - 12 - size)
      && (data[n - 4..] == [0x50, 0x46, 0x41, 0x31] ==>
            (ValidateFooter(data) == Err(CompressedFooter) <==> data[n - 8] as int % 2 == 1))
  {
    hide LoadLE;
    var flags := data[|data| - 8..|data| - 4];
    ZeroFlags(flags);
    assert flags[0] == data[|data| - 8];
  }

  lemma ZeroFlags(flags: seq<byte>)
    requires |flags| == 4
    ensures LoadLE(flags) == 0 <==> flags == [0, 0, 0, 0]
    ensures LoadLE(flags) % 2 == flags[0] as int % 2
  {
    hide LoadLE, LoadBE;
    assert flags == [flags[0], flags[1], flags[2], flags[3]];
    LoadsSpelledOut(flags[0], flags[1], flags[2], flags[3]);
    FourParts(flags[0] as int, flags[1] as int, flags[2] as int, flags[3] as int);
  }

  lemma FourParts(a: nat, b: nat, c: nat, d: nat)
    ensures a + 0x100 * b + 0x1_0000 * c + 0x100_0000 * d == 0 <==> a == b == c == d == 0
    ensures (a + 0x100 * b + 0x1_0000 * c + 0x100_0000 * d) % 2 == a % 2
  {
  }

  /** A file that is no Puffin file is a bare deletion vector, or none. */
  lemma BareExactly(data: seq<byte>, parse: seq<byte> -> Parsed<Footer>)
    requires |data| < 20 || data[..4] != [0x50, 0x46, 0x41, 0x31]
    ensures ParseFooter(data, parse) ==
            if |data| >= 8 && data[4..8] == [0xD1, 0xD3, 0x39, 0x64] then Ok([Blob(0, |data|)]) else Err(BadMagic)
  {
  }

  /** Of a Puffin file the payload between its footer's magic and tail is parsed, and has to hold a list. */
  lemma PayloadExactly(data: seq<byte>, parse: seq<byte> -> Parsed<Footer>)
    requires |data| >= 20 && data[..4] == [0x50, 0x46, 0x41, 0x31] && ValidateFooter(data).Ok?
    ensures var n := |data|; var size := LoadLE(data[n - 12..n - 8]);
      && size + 20 <= n
      && var footer := parse(data[n - 12 - size..n - 12]);
         ParseFooter(data, parse) ==
         if footer.Err? then Err(footer.error)
         else if footer.value.NoList? then Err(NoBlobList)
         else ParseBlobs(footer.value.blobs, n - 16 - size)
  {
    hide LoadLE, ParseBlobs;
  }

  // ---- Where the blobs lie ----

  lemma {:induction false} ParsedBlobsInSection(metas: seq<BlobMetadata>, sectionEnd: nat)
    requires ParseBlobs(metas, sectionEnd).Ok?
    ensures forall b :: b in ParseBlobs(metas, sectionEnd).value ==> 4 <= b.offset && b.offset + b.length <= sectionEnd
  {
    if metas != [] {
      ParsedBlobsInSection(metas[..|metas| - 1], sectionEnd);
    }
  }

  /** Every blob listed lies between the leading magic and the footer's, or is the whole bare file, so
      decoding it stays inside the file. */
  lemma BlobsInsideFile(data: seq<byte>, parse: seq<byte> -> Parsed<Footer>, b: Blob)
    requires ParseFooter(data, parse).Ok? && b in ParseFooter(data, parse).value
    ensures b.offset + b.length <= |data|
    ensures |data| >= MIN_FILE_SIZE && data[..4] == PUFFIN_MAGIC ==>
            4 <= b.offset && b.offset + b.length + 16 + PayloadSizeOf(data) <= |data|
    ensures !(|data| >= MIN_FILE_SIZE && data[..4] == PUFFIN_MAGIC) ==> b == Blob(0, |data|)
  {
    hide PayloadSizeOf, FlagsOf;
    if |data| >= MIN_FILE_SIZE && data[..4] == PUFFIN_MAGIC {
      var start := ValidateFooter(data).value;
      ParsedBlobsInSection(parse(data[start..|data| - TAIL_SIZE]).value.blobs, start - 4);
    }
  }

  // ---- A written file reads back ----

  function Concat(blobs: seq<seq<byte>>): (r: seq<byte>) {
    if blobs == [] then [] else Concat(blobs[..|blobs| - 1]) + blobs[|blobs| - 1]
  }

  /** What the footer should list for these blobs. */
  function Describe(blobs: seq<seq<byte>>): (r: seq<BlobMetadata>)
    ensures |r| == |blobs|
  {
    if blobs == [] then []
    else
      var before := blobs[..|blobs| - 1];
      Describe(before)
      + [BlobMetadata(Text(BLOB_TYPE), Integer(4 + |Concat(before)|), Integer(|blobs[|blobs| - 1]|))]
  }

  function WriteFile(blobs: seq<seq<byte>>, payload: seq<byte>): (r: seq<byte>)
    requires |payload| < WRAP
    ensures |r| == 20 + |Concat(blobs)| + |payload|
  {
    PUFFIN_MAGIC + Concat(blobs) + PUFFIN_MAGIC + payload + StoreLE(|payload|, 4) + StoreLE(0, 4) + PUFFIN_MAGIC
  }

  lemma Small64(n: nat)
    requires n < 0x8000_0000_0000_0000
    ensures Signed64(n) == n
  {
  }

  function PlaceBlobs(blobs: seq<seq<byte>>): (r: seq<Blob>)
    ensures |r| == |blobs|
  {
    if blobs == [] then []
    else
      var before := blobs[..|blobs| - 1];
      PlaceBlobs(before) + [Blob(4 + |Concat(before)|, |blobs[|blobs| - 1]|)]
  }

  lemma {:induction false} DescribedBlobsParse(blobs: seq<seq<byte>>, sectionEnd: nat)
    requires 4 + |Concat(blobs)| <= sectionEnd < 0x8000_0000_0000_0000
    ensures ParseBlobs(Describe(blobs), sectionEnd) == Ok(PlaceBlobs(blobs))
  {
    if blobs != [] {
      hide Signed64;
      var n := |blobs| - 1;
      DescribedBlobsParse(blobs[..n], sectionEnd);
      Small64(4 + |Concat(blobs[..n])|);
      Small64(|blobs[n]|);
      assert Describe(blobs)[..n] == Describe(blobs[..n]);
    }
  }

  lemma {:induction false} PlacedBlobs(blobs: seq<seq<byte>>, i: nat)
    requires i < |blobs|
    ensures var b := PlaceBlobs(blobs)[i];
      4 <= b.offset && b.offset - 4 + b.length <= |Concat(blobs)|
      && Concat(blobs)[b.offset - 4..b.offset - 4 + b.length] == blobs[i]
  {
    hide Concat, PlaceBlobs;
    var n := |blobs| - 1;
    PlaceLast(blobs);
    if i < n {
      PlacedBlobs(blobs[..n], i);
      var b := PlaceBlobs(blobs[..n])[i];
      SliceOfStart(Concat(blobs), |Concat(blobs[..n])|, b.offset - 4, b.offset - 4 + b.length);
    }
  }

  lemma PlaceLast(blobs: seq<seq<byte>>)
    requires blobs != []
    ensures var n := |blobs| - 1; var start := |Concat(blobs[..n])|;
      && PlaceBlobs(blobs) == PlaceBlobs(blobs[..n]) + [Blob(4 + start, |blobs[n]|)]
      && start + |blobs[n]| == |Concat(blobs)|
      && Concat(blobs)[..start] == Concat(blobs[..n]) && Concat(blobs)[start..start + |blobs[n]|] == blobs[n]
  {
    hide PlaceBlobs;
    PlacesSnoc(blobs);
    HoldsParts(Concat(blobs), 0, Concat(blobs[..|blobs| - 1]), blobs[|blobs| - 1]);
  }

  lemma PlacesSnoc(blobs: seq<seq<byte>>)
    requires blobs != []
    ensures var n := |blobs| - 1;
      PlaceBlobs(blobs) == PlaceBlobs(blobs[..n]) + [Blob(4 + |Concat(blobs[..n])|, |blobs[n]|)]
  {
  }

  lemma FileParts(a: seq<byte>, b: seq<byte>, c: seq<byte>, d: seq<byte>, e: seq<byte>, f: seq<byte>, g: seq<byte>)
    requires |a| == |c| == |e| == |f| == |g| == 4
    ensures var w := a + b + c + d + e + f + g; var n := |w|; var p := 8 + |b|;
      && w[..4] == a && w[4..4 + |b|] == b && w[p - 4..p] == c && w[p..n - 12] == d
      && w[n - 12..n - 8] == e && w[n - 8..n - 4] == f && w[n - 4..] == g
  {
  }

  lemma FooterOfWritten(blobs: seq<seq<byte>>, payload: seq<byte>)
    requires |payload| < WRAP
    ensures var data := WriteFile(blobs, payload); var end := 4 + |Concat(blobs)|;
      data[..4] == PUFFIN_MAGIC && data[4..end] == Concat(blobs) && data[end + 4..|data| - TAIL_SIZE] == payload
      && ValidateFooter(data) == Ok(end + 4)
  {
    hide LoadLE, StoreLE, Concat;
    Powers256();
    LoadStoreLE(|payload|, 4);
    LoadStoreLE(0, 4);
    FileParts(PUFFIN_MAGIC, Concat(blobs), PUFFIN_MAGIC, payload, StoreLE(|payload|, 4), StoreLE(0, 4), PUFFIN_MAGIC);
  }

  /** A file written with any blobs, and a payload that parses to their description, lists each of them
      where it is: reading the listed range gives the blob back. */
  lemma WrittenFileReads(blobs: seq<seq<byte>>, payload: seq<byte>, parse: seq<byte> -> Parsed<Footer>)
    requires |payload| < WRAP && |Concat(blobs)| < 0x4000_0000_0000_0000
    requires parse(payload) == Ok(Footer(Describe(blobs)))
    ensures var data := WriteFile(blobs, payload);
      && ParseFooter(data, parse) == Ok(PlaceBlobs(blobs))
      && forall i :: 0 <= i < |blobs| ==>
           var b := PlaceBlobs(blobs)[i];
           b.offset + b.length <= |data| && data[b.offset..b.offset + b.length] == blobs[i]
  {
    hide WriteFile, ValidateFooter, Concat, Describe, PlaceBlobs, ParseBlobs;
    var data := WriteFile(blobs, payload);
    var end := 4 + |Concat(blobs)|;
    FooterOfWritten(blobs, payload);
    DescribedBlobsParse(blobs, end);
    forall i | 0 <= i < |blobs|
      ensures var b := PlaceBlobs(blobs)[i];
        b.offset + b.length <= |data| && data[b.offset..b.offset + b.length] == blobs[i]
    {
      PlacedBlobs(blobs, i);
      var b := PlaceBlobs(blobs)[i];
      SliceOfSlice(data, 4, end, b.offset - 4, b.offset - 4 + b.length);
    }
  }

  /** So a file written with one encoded deletion vector per map decodes to those maps. */
  lemma WrittenVectorsDecode(vectors: seq<seq<Entry>>, payload: seq<byte>, parse: seq<byte> -> Parsed<Footer>,
                             blobs: seq<seq<byte>>, maps: seq<Bitmaps>)
    requires |blobs| == |vectors| == |maps|
    requires forall i :: 0 <= i < |vectors| ==> EncodesMap(vectors[i], maps[i], blobs[i])
    requires |payload| < WRAP && |Concat(blobs)| < 0x4000_0000_0000_0000
    requires parse(payload) == Ok(Footer(Describe(blobs)))
    ensures var data := WriteFile(blobs, payload); var listed := ParseFooter(data, parse);
      && listed.Ok? && |listed.value| == |maps|
      && forall i :: 0 <= i < |maps| ==>
           var b := listed.value[i];
           b.offset + b.length <= |data| && FromBlob(data[b.offset..b.offset + b.length]) == Ok(maps[i])
  {
    hide FromBlob, WriteFile, ParseFooter, Concat, Describe, EncodesMap, PlaceBlobs;
    WrittenFileReads(blobs, payload, parse);
    assert |PlaceBlobs(blobs)| == |blobs| by { PlacedCount(blobs); }
    forall i | 0 <= i < |maps| ensures FromBlob(blobs[i]) == Ok(maps[i]) {
      VectorDecodes(vectors[i], maps[i], blobs[i]);
    }
  }

  lemma PlacedCount(blobs: seq<seq<byte>>)
    ensures |PlaceBlobs(blobs)| == |blobs|
  {
  }

  lemma VectorDecodes(entries: seq<Entry>, bitmaps: Bitmaps, blob: seq<byte>)
    requires EncodesMap(entries, bitmaps, blob)
    ensures FromBlob(blob) == Ok(bitmaps)
  {
    hide FromBlob, EncodeBlob, EncodeBody;
    RoundTrip(entries, |EncodeBody(entries)|, bitmaps);
  }

  ghost predicate EncodesMap(entries: seq<Entry>, bitmaps: Bitmaps, blob: seq<byte>) {
    && ValidEntries(entries) && |EncodeBody(entries)| < WRAP && DistinctKeys(entries)
    && blob == EncodeBlob(entries, |EncodeBody(entries)|)
    && bitmaps.Keys == (set i | 0 <= i < |entries| :: entries[i].key)
    && forall i :: 0 <= i < |entries| ==> bitmaps[entries[i].key] == entries[i].bitmap
  }
}
