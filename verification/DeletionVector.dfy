/** The deletion-vector-v1 blob of the Puffin format: declared size, magic, bitmap count, then a key and
    a roaring bitmap per entry, then the checksum of everything from the magic to the last bitmap. */
module DeletionVector {
  import opened Wrappers
  import opened Words
  import opened Roaring
  import Crc32

  datatype Error =
    | TooSmall | MagicMismatch | BadCount | TruncatedKey | BadPayload | TrailingBytes
    | ChecksumMismatch

  type Decoded<+T> = Result<T, Error>

  type Bitmaps = map<int, Bitmap>
  /** A key, its bitmap, and the form its writer chooses for the bitmap. */
  datatype Entry = Entry(key: int, bitmap: Bitmap, form: Form)

  const MAGIC: seq<byte> := [0xD1, 0xD3, 0x39, 0x64]
  const WRAP := 0x1_0000_0000
  const WRAP64 := 0x1_0000_0000_0000_0000

  /** `emplace`: an entry already present stays. */
  function Emplace(bitmaps: Bitmaps, key: int, bitmap: Bitmap): (r: Bitmaps) {
    if key in bitmaps then bitmaps else bitmaps[key := bitmap]
  }

  function Min(a: nat, b: nat): (r: nat) {
    if a < b then a else b
  }

  /** Unsigned 32-bit arithmetic. */
  function Wrap32(x: int): (r: nat)
    ensures r < WRAP && (0 <= x < WRAP ==> r == x)
  {
    x % 0x1_0000_0000
  }

  lemma WrapAgain(x: int, k: int)
    ensures Wrap32(Wrap32(x) - k) == Wrap32(x - k)
  {
  }

  function KeyAt(blob: seq<byte>, pos: nat): (r: int)
    requires pos + 4 <= |blob|
  {
    LoadBound(blob[pos..pos + 4]);
    Powers256();
    Signed(LoadAt(blob, pos, 4), WRAP)
  }

  /** What is left at `pos` of the declared vector size: an unsigned 32-bit word, only ever decremented, so
      it wraps when the declaration is too small. */
  function VectorSizeAt(blob: seq<byte>, pos: nat): (r: nat)
    requires |blob| >= 4
    ensures r < WRAP
  {
    Wrap32(LoadBE(blob[..4]) - (pos - 4))
  }

  lemma CountDown(blob: seq<byte>, pos: nat, k: nat)
    requires |blob| >= 4
    ensures Wrap32(VectorSizeAt(blob, pos) - k) == VectorSizeAt(blob, pos + k)
  {
    hide LoadBE, Wrap32;
    WrapAgain(LoadBE(blob[..4]) - (pos - 4), k);
  }

  /** How far a bitmap at `pos` may be looked for. */
  function Window(blob: seq<byte>, pos: nat): (r: nat)
    requires 4 <= pos <= |blob|
  {
    Min(VectorSizeAt(blob, pos), |blob| - pos)
  }

  function SizeAt(blob: seq<byte>, pos: nat): (r: nat)
    requires 4 <= pos <= |blob|
    ensures pos + r <= |blob|
  {
    SerializedSize(blob[pos..], Window(blob, pos))
  }

  /** What is found at `pos` is all of a bitmap, and nothing more. */
  lemma BitmapHere(blob: seq<byte>, pos: nat)
    requires 4 <= pos <= |blob| && SizeAt(blob, pos) > 0
    ensures var n := SizeAt(blob, pos); SerializedSize(blob[pos..pos + n], n) == n
  {
    hide SerializedSize;
    var n := SizeAt(blob, pos);
    SizeIsSelfDelimiting(blob[pos..], Window(blob, pos));
    assert blob[pos..][..n] == blob[pos..pos + n];
  }

  function BitmapAt(blob: seq<byte>, pos: nat): (r: Bitmap)
    requires 4 <= pos <= |blob| && SizeAt(blob, pos) > 0
  {
    BitmapHere(blob, pos);
    Decode(blob[pos..pos + SizeAt(blob, pos)])
  }

  /** What stands at a position: a key and a bitmap, and where they end; or not even a key; or no bitmap. */
  datatype Found = NoKey | NoBitmap | Found(key: int, bitmap: Bitmap, end: nat)

  function EntryAt(blob: seq<byte>, pos: nat): (r: Found)
    requires |blob| >= 4
    ensures r.Found? ==> pos + 4 < r.end <= |blob|
  {
    if pos + 4 > |blob| then NoKey
    else
      var size := SizeAt(blob, pos + 4);
      if size == 0 then NoBitmap else Found(KeyAt(blob, pos), BitmapAt(blob, pos + 4), pos + 4 + size)
  }

  /** The entries from `pos` on, added to `bitmaps`, and where they end. */
  function ReadEntries(blob: seq<byte>, pos: nat, count: nat, bitmaps: Bitmaps): (r: Decoded<(Bitmaps, nat)>)
    requires 4 <= pos <= |blob|
    ensures r.Ok? ==> pos <= r.value.1 <= |blob|
    decreases count
  {
    if count == 0 then Ok((bitmaps, pos))
    else
      match EntryAt(blob, pos)
      case NoKey => Err(TruncatedKey)
      case NoBitmap => Err(BadPayload)
      case Found(key, bitmap, end) => ReadEntries(blob, end, count - 1, Emplace(bitmaps, key, bitmap))
  }

  function CountOf(blob: seq<byte>): (r: int)
    requires |blob| >= 20
  {
    LoadBound(blob[8..16]);
    Powers256();
    Signed(LoadAt(blob, 8, 8), WRAP64)
  }

  predicate ChecksumMatches(blob: seq<byte>)
    requires |blob| >= 8
  {
    LoadBE(blob[|blob| - 4..]) == ValueOf(Crc32.Checksum(blob[4..|blob| - 4]))
  }

  /** What decoding a blob gives. */
  function FromBlob(blob: seq<byte>): (r: Decoded<Bitmaps>) {
    if |blob| < 20 then Err(TooSmall)
    else if blob[4..8] != MAGIC then Err(MagicMismatch)
    else if CountOf(blob) < 0 then Err(BadCount)
    else Finish(blob, ReadEntries(blob, 16, CountOf(blob), map[]))
  }

  /** The checks after the last entry. */
  function Finish(blob: seq<byte>, entries: Decoded<(Bitmaps, nat)>): (r: Decoded<Bitmaps>)
    requires |blob| >= 20
  {
    match entries
    case Err(e) => Err(e)
    case Ok((bitmaps, end)) =>
      if end + 4 != |blob| then Err(TrailingBytes)
      else if !ChecksumMatches(blob) then Err(ChecksumMismatch)
      else Ok(bitmaps)
  }

  /** The parts of an entry, as they are met one after the other. */
  lemma EntryParts(blob: seq<byte>, pos: nat)
    requires 4 <= pos <= |blob|
    ensures EntryAt(blob, pos) ==
            if pos + 4 > |blob| then NoKey
            else if SizeAt(blob, pos + 4) == 0 then NoBitmap
            else Found(KeyAt(blob, pos), BitmapAt(blob, pos + 4), pos + 4 + SizeAt(blob, pos + 4))
  {
    hide SizeAt, BitmapAt, KeyAt;
  }

  lemma SizeHere(blob: seq<byte>, pos: nat)
    requires 4 <= pos <= |blob|
    ensures SizeAt(blob, pos) == SerializedSize(blob[pos..], Min(VectorSizeAt(blob, pos), |blob| - pos))
  {
    hide SerializedSize, VectorSizeAt;
  }

  lemma FirstVectorSize(blob: seq<byte>)
    requires |blob| >= 4
    ensures LoadBE(blob[..4]) == VectorSizeAt(blob, 4)
  {
    hide LoadLE;
    LoadBound(Reverse(blob[..4]));
    Powers256();
  }

  /** The decoder's loop over the entries: a cursor, and the declared size counted down in 32 bits. */
  method DecodeEntries(blob: seq<byte>, count: nat, declaredLeft: nat) returns (r: Decoded<(Bitmaps, nat)>)
    requires |blob| >= 20 && declaredLeft == VectorSizeAt(blob, 16)
    ensures r == ReadEntries(blob, 16, count, map[])
  {
    hide EntryAt, SizeAt, BitmapAt, KeyAt, VectorSizeAt, SerializedSize, Wrap32, Emplace;
    var bitmaps: Bitmaps := map[];
    var pos: nat := 16;
    var vectorSize: int := declaredLeft;
    var i := 0;
    while i < count
      invariant 0 <= i <= count && 16 <= pos <= |blob|
      invariant vectorSize == VectorSizeAt(blob, pos)
      invariant ReadEntries(blob, 16, count, map[]) == ReadEntries(blob, pos, count - i, bitmaps)
    {
      EntryParts(blob, pos);
      if pos + 4 > |blob| {
        return Err(TruncatedKey);
      }
      var key := KeyAt(blob, pos);
      CountDown(blob, pos, 4);
      pos := pos + 4;
      vectorSize := Wrap32(vectorSize - 4);
      var remaining := |blob| - pos;
      SizeHere(blob, pos);
      var size := SerializedSize(blob[pos..], Min(vectorSize, remaining));
      if size == 0 {
        return Err(BadPayload);
      }
      bitmaps := Emplace(bitmaps, key, BitmapAt(blob, pos));
      CountDown(blob, pos, size);
      pos := pos + size;
      vectorSize := Wrap32(vectorSize - size);
      i := i + 1;
    }
    r := Ok((bitmaps, pos));
  }

  /** The stored checksum, against the one computed over magic, count and entries. */
  method CompareChecksum(blob: seq<byte>, end: nat) returns (same: bool)
    requires end + 4 == |blob| && end >= 4
    ensures same <==> LoadBE(blob[|blob| - 4..]) == ValueOf(Crc32.Checksum(blob[4..|blob| - 4]))
  {
    hide ValueOf, LoadBE, Crc32.Checksum;
    var checksum := Crc32.ComputeChecksum(blob[4..end]);
    same := ValueOf(checksum) == LoadBE(blob[end..]);
  }

  lemma LeftAfterHeader(blob: seq<byte>)
    requires |blob| >= 4
    ensures Wrap32(Wrap32(LoadBE(blob[..4]) - 4) - 8) == VectorSizeAt(blob, 16)
  {
    hide Wrap32, VectorSizeAt, LoadBE;
    FirstVectorSize(blob);
    CountDown(blob, 4, 4);
    CountDown(blob, 8, 8);
  }

  /** The decoder. */
  method DecodeBlob(blob: seq<byte>) returns (r: Decoded<Bitmaps>)
    ensures r == FromBlob(blob)
  {
    hide VectorSizeAt, LoadBE, ReadEntries, Wrap32, CountOf, ValueOf, Crc32.Checksum;
    if |blob| < 20 {
      return Err(TooSmall);
    }
    var vectorSize: int := LoadBE(blob[..4]);
    if blob[4..8] != MAGIC {
      return Err(MagicMismatch);
    }
    vectorSize := Wrap32(vectorSize - 4);
    var count := CountOf(blob);
    vectorSize := Wrap32(vectorSize - 8);
    if count < 0 {
      return Err(BadCount);
    }
    LeftAfterHeader(blob);
    var entries := DecodeEntries(blob, count, vectorSize);
    match entries
    case Err(e) =>
      r := Err(e);
    case Ok((bitmaps, end)) =>
      if end + 4 != |blob| {
        return Err(TrailingBytes);
      }
      var same := CompareChecksum(blob, end);
      r := if same then Ok(bitmaps) else Err(ChecksumMismatch);
  }

  // ---- Which byte strings are accepted ----

  /** The entries start at offsets[0..n] and tile the blob from the count to the checksum. */
  ghost predicate Tiles(blob: seq<byte>, offsets: seq<nat>) {
    && |blob| >= 20 && blob[4..8] == [0xD1, 0xD3, 0x39, 0x64]
    && |offsets| > 0 && |offsets| == CountOf(blob) + 1 && offsets[0] == 16 && offsets[|offsets| - 1] + 4 == |blob|
    && (forall i :: 0 <= i < |offsets| - 1 ==> EntrySpans(blob, offsets[i], offsets[i + 1]))
    && LoadBE(blob[|blob| - 4..]) == ValueOf(Crc32.Checksum(blob[4..|blob| - 4]))
  }

  ghost predicate EntrySpans(blob: seq<byte>, start: nat, end: nat) {
    4 <= start <= |blob| && EntryAt(blob, start).Found? && EntryAt(blob, start).end == end
  }

  /** The entries at these offsets, the first of a repeated key winning. */
  ghost function Collect(blob: seq<byte>, offsets: seq<nat>, bitmaps: Bitmaps): (r: Bitmaps)
    requires |offsets| > 0
    requires forall i :: 0 <= i < |offsets| - 1 ==> EntrySpans(blob, offsets[i], offsets[i + 1])
    decreases |offsets|
  {
    if |offsets| == 1 then bitmaps
    else
      assert EntrySpans(blob, offsets[0], offsets[1]);
      var first := EntryAt(blob, offsets[0]);
      Collect(blob, offsets[1..], Emplace(bitmaps, first.key, first.bitmap))
  }

  lemma {:induction false} OffsetsOfEntries(blob: seq<byte>, pos: nat, count: nat, bitmaps: Bitmaps)
    returns (offsets: seq<nat>)
    requires 4 <= pos <= |blob| && ReadEntries(blob, pos, count, bitmaps).Ok?
    ensures |offsets| == count + 1 && offsets[0] == pos
    ensures forall i :: 0 <= i < count ==> EntrySpans(blob, offsets[i], offsets[i + 1])
    ensures ReadEntries(blob, pos, count, bitmaps) == Ok((Collect(blob, offsets, bitmaps), offsets[count]))
    decreases count
  {
    hide EntryAt;
    if count == 0 {
      offsets := [pos];
    } else {
      var first := EntryAt(blob, pos);
      assert EntrySpans(blob, pos, first.end);
      var rest := OffsetsOfEntries(blob, first.end, count - 1, Emplace(bitmaps, first.key, first.bitmap));
      offsets := [pos] + rest;
      assert offsets[1..] == rest;
      forall i | 0 <= i < count ensures EntrySpans(blob, offsets[i], offsets[i + 1]) {
        if i > 0 {
          assert EntrySpans(blob, rest[i - 1], rest[i]);
        }
      }
    }
  }

  /** Reading goes past the entries at these offsets. */
  lemma {:induction false} EntriesPassed(blob: seq<byte>, offsets: seq<nat>, count: nat, bitmaps: Bitmaps)
    requires |offsets| > 0 && 4 <= offsets[0] <= |blob| && |offsets| - 1 <= count
    requires forall i :: 0 <= i < |offsets| - 1 ==> EntrySpans(blob, offsets[i], offsets[i + 1])
    ensures 4 <= offsets[|offsets| - 1] <= |blob|
    ensures ReadEntries(blob, offsets[0], count, bitmaps)
         == ReadEntries(blob, offsets[|offsets| - 1], count - (|offsets| - 1), Collect(blob, offsets, bitmaps))
    decreases |offsets|
  {
    hide EntryAt;
    if |offsets| > 1 {
      assert EntrySpans(blob, offsets[0], offsets[1]);
      forall i | 0 <= i < |offsets[1..]| - 1 ensures EntrySpans(blob, offsets[1..][i], offsets[1..][i + 1]) {
        assert EntrySpans(blob, offsets[i + 1], offsets[i + 2]);
      }
      var first := EntryAt(blob, offsets[0]);
      EntriesPassed(blob, offsets[1..], count - 1, Emplace(bitmaps, first.key, first.bitmap));
    }
  }

  lemma EntriesAtOffsets(blob: seq<byte>, offsets: seq<nat>, bitmaps: Bitmaps)
    requires |offsets| > 0 && 4 <= offsets[0] <= |blob|
    requires forall i :: 0 <= i < |offsets| - 1 ==> EntrySpans(blob, offsets[i], offsets[i + 1])
    ensures ReadEntries(blob, offsets[0], |offsets| - 1, bitmaps)
         == Ok((Collect(blob, offsets, bitmaps), offsets[|offsets| - 1]))
  {
    hide EntryAt, EntrySpans;
    EntriesPassed(blob, offsets, |offsets| - 1, bitmaps);
  }

  /** A byte string is accepted exactly when magic, count, entries and a matching checksum tile it, and
      then it decodes to the entries of that tiling. */
  lemma AcceptsExactlyTilings(blob: seq<byte>)
    ensures FromBlob(blob).Ok? <==> exists offsets :: Tiles(blob, offsets)
    ensures forall offsets :: Tiles(blob, offsets) ==> FromBlob(blob) == Ok(Collect(blob, offsets, map[]))
  {
    hide EntryAt, ReadEntries, CountOf, LoadBE, ValueOf, Crc32.Checksum;
    if FromBlob(blob).Ok? {
      var offsets := OffsetsOfEntries(blob, 16, CountOf(blob), map[]);
      assert Tiles(blob, offsets);
    }
    forall offsets | Tiles(blob, offsets) ensures FromBlob(blob) == Ok(Collect(blob, offsets, map[])) {
      EntriesAtOffsets(blob, offsets, map[]);
    }
  }

  // ---- Encoding, and decoding what was encoded ----

  predicate KeyFits(key: int) {
    -0x8000_0000 <= key < 0x8000_0000
  }

  predicate ValidEntry(e: Entry) {
    KeyFits(e.key) && ValidBitmap(e.bitmap, e.form)
  }

  predicate ValidEntries(entries: seq<Entry>) {
    |entries| < 0x8000_0000_0000_0000 && forall i :: 0 <= i < |entries| ==> ValidEntry(entries[i])
  }

  function EntrySize(e: Entry): (r: nat)
    requires ValidEntry(e)
    ensures r > 0
  {
    SizeOf(e.bitmap, e.form)
  }

  function EncodeEntry(e: Entry): (r: seq<byte>)
    requires ValidEntry(e)
    ensures |r| == 4 + EntrySize(e)
  {
    StoreLE(Unsigned(e.key, WRAP), 4) + Encode(e.bitmap, e.form)
  }

  function EncodeEntries(entries: seq<Entry>): (r: seq<byte>)
    requires forall i :: 0 <= i < |entries| ==> ValidEntry(entries[i])
  {
    if entries == [] then [] else
      assert ValidEntry(entries[0]);
      EncodeEntry(entries[0]) + EncodeEntries(entries[1..])
  }

  function EncodeBody(entries: seq<Entry>): (r: seq<byte>)
    requires ValidEntries(entries)
    ensures |r| == 12 + |EncodeEntries(entries)|
  {
    MAGIC + (StoreLE(|entries|, 8) + EncodeEntries(entries))
  }

  /** A blob holding `entries` whose size field declares `declared`, and that ends in `tail`. */
  function EncodeWith(entries: seq<Entry>, declared: nat, tail: seq<byte>): (r: seq<byte>)
    requires ValidEntries(entries) && declared < WRAP
    ensures |r| == 4 + |EncodeBody(entries)| + |tail|
  {
    StoreBE(declared, 4) + EncodeBody(entries) + tail
  }

  /** The checksum of the entries' body, as a number. */
  function SumOf(entries: seq<Entry>): (r: nat)
    requires ValidEntries(entries)
    ensures r < WRAP
  {
    WordValue(Crc32.Checksum(EncodeBody(entries)));
    ValueOf(Crc32.Checksum(EncodeBody(entries)))
  }

  /** A blob that ends in the checksum of its body. The Puffin specification declares the size of the body;
      the repository's own test fixtures declare four more. */
  function EncodeBlob(entries: seq<Entry>, declared: nat): (r: seq<byte>)
    requires ValidEntries(entries) && declared < WRAP
    ensures |r| == 8 + |EncodeBody(entries)|
  {
    EncodeWith(entries, declared, StoreBE(SumOf(entries), 4))
  }

  /** The map a list of entries stands for. */
  function ToMap(entries: seq<Entry>, bitmaps: Bitmaps): (r: Bitmaps) {
    if entries == [] then bitmaps else ToMap(entries[1..], Emplace(bitmaps, entries[0].key, entries[0].bitmap))
  }

  /** Counting `left` down in 32 bits over the entries leaves room for every bitmap. */
  predicate LeavesRoom(entries: seq<Entry>, left: nat)
    requires forall i :: 0 <= i < |entries| ==> ValidEntry(entries[i])
    decreases |entries|
  {
    entries == [] ||
    (assert ValidEntry(entries[0]);
     var size := EntrySize(entries[0]);
     Wrap32(left - 4) >= size && LeavesRoom(entries[1..], Wrap32(Wrap32(left - 4) - size)))
  }

  /** A declaration of at least the body never makes the count wrap. */
  lemma {:induction false} EnoughLeavesRoom(entries: seq<Entry>, left: nat)
    requires forall i :: 0 <= i < |entries| ==> ValidEntry(entries[i])
    requires |EncodeEntries(entries)| <= left < WRAP
    ensures LeavesRoom(entries, left)
    decreases |entries|
  {
    hide EncodeEntry, EntrySize, ValidEntry, Wrap32;
    if entries != [] {
      assert ValidEntry(entries[0]);
      EnoughLeavesRoom(entries[1..], left - |EncodeEntry(entries[0])|);
    }
  }

  lemma SplitFrom(s: seq<byte>, start: nat, n: nat)
    requires start + n <= |s|
    ensures s[start..] == s[start..start + n] + s[start + n..]
  {
  }

  lemma KeyReadsBack(key: int, blob: seq<byte>, pos: nat)
    requires KeyFits(key) && Holds(blob, pos, StoreLE(Unsigned(key, WRAP), 4))
    ensures KeyAt(blob, pos) == key
  {
    hide LoadAt, StoreLE, Power256;
    Powers256();
    StoredAt(blob, pos, Unsigned(key, WRAP), 4);
  }

  lemma BitmapReadsBack(bitmap: Bitmap, form: Form, blob: seq<byte>, pos: nat)
    requires ValidBitmap(bitmap, form) && 4 <= pos && Holds(blob, pos, Encode(bitmap, form))
    ensures var size := |Encode(bitmap, form)|; SizeAt(blob, pos) == if VectorSizeAt(blob, pos) >= size then size else 0
    ensures SizeAt(blob, pos) > 0 ==> BitmapAt(blob, pos) == bitmap
  {
    hide Encode, Decode, SerializedSize, VectorSizeAt;
    var bits := Encode(bitmap, form);
    SplitFrom(blob, pos, |bits|);
    SizeOfEncoding(bitmap, form, blob[pos + |bits|..], Window(blob, pos));
    DecodeOfEncode(bitmap, form);
  }

  lemma EncodedParts(e: Entry, blob: seq<byte>, pos: nat)
    requires ValidEntry(e) && Holds(blob, pos, EncodeEntry(e))
    ensures KeyFits(e.key) && Holds(blob, pos, StoreLE(Unsigned(e.key, WRAP), 4))
    ensures ValidBitmap(e.bitmap, e.form) && Holds(blob, pos + 4, Encode(e.bitmap, e.form))
    ensures |Encode(e.bitmap, e.form)| == EntrySize(e) && pos + 4 <= |blob|
  {
    hide StoreLE, Encode, Unsigned, SizeOf, ValidBitmap;
    HoldsParts(blob, pos, StoreLE(Unsigned(e.key, WRAP), 4), Encode(e.bitmap, e.form));
  }

  /** An encoded entry is found, or its bitmap has no room. */
  lemma EntryReadsBack(e: Entry, blob: seq<byte>, pos: nat)
    requires ValidEntry(e) && 4 <= pos <= |blob| && Holds(blob, pos, EncodeEntry(e))
    ensures EntryAt(blob, pos) ==
            if VectorSizeAt(blob, pos + 4) >= EntrySize(e) then Found(e.key, e.bitmap, pos + 4 + EntrySize(e)) else NoBitmap
  {
    hide *;
    EncodedParts(e, blob, pos);
    KeyReadsBack(e.key, blob, pos);
    BitmapReadsBack(e.bitmap, e.form, blob, pos + 4);
    EntryParts(blob, pos);
  }

  /** Encoded entries anywhere in a blob are read back, or the first bitmap without room is refused. */
  lemma {:induction false} ReadEncoded(entries: seq<Entry>, blob: seq<byte>, pos: nat, bitmaps: Bitmaps)
    requires forall i :: 0 <= i < |entries| ==> ValidEntry(entries[i])
    requires 4 <= pos <= |blob| && Holds(blob, pos, EncodeEntries(entries))
    ensures ReadEntries(blob, pos, |entries|, bitmaps) ==
            if LeavesRoom(entries, VectorSizeAt(blob, pos))
            then Ok((ToMap(entries, bitmaps), pos + |EncodeEntries(entries)|)) else Err(BadPayload)
    decreases |entries|
  {
    hide EntryAt, EncodeEntry, EntrySize, VectorSizeAt, Wrap32, Emplace, ValidEntry, Holds, LeavesRoom;
    if entries == [] {
      RoomForNone(VectorSizeAt(blob, pos));
    } else {
      var e := entries[0];
      assert ValidEntry(e);
      HoldsParts(blob, pos, EncodeEntry(e), EncodeEntries(entries[1..]));
      RoomStep(entries, blob, pos);
      EntryReadsBack(e, blob, pos);
      if EntryAt(blob, pos).Found? {
        ReadEncoded(entries[1..], blob, pos + |EncodeEntry(e)|, Emplace(bitmaps, e.key, e.bitmap));
      }
    }
  }

  lemma RoomForNone(left: nat)
    ensures LeavesRoom([], left)
  {
  }

  /** The room for the rest of the entries is judged by what is left at their start. */
  lemma RoomStep(entries: seq<Entry>, blob: seq<byte>, pos: nat)
    requires entries != [] && 4 <= pos && |blob| >= 4
    requires forall i :: 0 <= i < |entries| ==> ValidEntry(entries[i])
    ensures ValidEntry(entries[0])
    ensures var size := EntrySize(entries[0]);
      LeavesRoom(entries, VectorSizeAt(blob, pos)) <==>
      VectorSizeAt(blob, pos + 4) >= size && LeavesRoom(entries[1..], VectorSizeAt(blob, pos + 4 + size))
  {
    hide EntrySize, VectorSizeAt, Wrap32, ValidEntry;
    assert ValidEntry(entries[0]);
    CountDown(blob, pos, 4);
    CountDown(blob, pos + 4, EntrySize(entries[0]));
  }

  lemma BlobFields(entries: seq<Entry>, declared: nat, tail: seq<byte>)
    requires ValidEntries(entries) && declared < WRAP
    ensures var blob := EncodeWith(entries, declared, tail); var n := |EncodeBody(entries)|;
      && LoadBE(blob[..4]) == declared && Holds(blob, 4, EncodeBody(entries))
      && blob[4..4 + n] == EncodeBody(entries) && blob[4 + n..] == tail
  {
    hide EncodeBody, LoadBE, StoreBE;
    Powers256();
    LoadStoreBE(declared, 4);
    ThreeParts(StoreBE(declared, 4), EncodeBody(entries), tail);
  }

  lemma ThreeParts(a: seq<byte>, b: seq<byte>, c: seq<byte>)
    ensures (a + b + c)[..|a|] == a && (a + b + c)[|a|..|a| + |b|] == b && (a + b + c)[|a| + |b|..] == c
  {
  }

  lemma SliceOfSlice(s: seq<byte>, from: nat, to: nat, i: nat, j: nat)
    requires from <= to <= |s| && i <= j <= to - from
    ensures s[from..to][i..j] == s[from + i..from + j]
  {
    var t := s[from..to];
    forall k | 0 <= k < j - i ensures t[i..j][k] == s[from + i..from + j][k] {
      assert t[i..j][k] == t[i + k];
    }
  }

  lemma BodyFields(entries: seq<Entry>, declared: nat, tail: seq<byte>)
    requires ValidEntries(entries) && declared < WRAP && |EncodeWith(entries, declared, tail)| >= 20
    ensures var blob := EncodeWith(entries, declared, tail); var n := |EncodeBody(entries)|;
      && blob[4..8] == MAGIC && CountOf(blob) == |entries| && LoadBE(blob[..4]) == declared
      && Holds(blob, 16, EncodeEntries(entries)) && blob[4..4 + n] == EncodeBody(entries) && blob[4 + n..] == tail
  {
    hide EncodeWith, EncodeEntries, LoadAt, StoreLE, Power256, LoadBE;
    var blob := EncodeWith(entries, declared, tail);
    BlobFields(entries, declared, tail);
    HoldsParts(blob, 4, MAGIC, StoreLE(|entries|, 8) + EncodeEntries(entries));
    HoldsParts(blob, 8, StoreLE(|entries|, 8), EncodeEntries(entries));
    Powers256();
    StoredAt(blob, 8, |entries|, 8);
  }

  /**
   * What decoding makes of written entries, whatever size is declared and whatever follows them: the map
   * they stand for, exactly if the declared size leaves each bitmap room, four bytes follow, and these
   * are the checksum of magic, count and entries; and otherwise the refusal that is due.
   */
  lemma DecodeWritten(entries: seq<Entry>, declared: nat, tail: seq<byte>)
    requires ValidEntries(entries) && declared < WRAP
    ensures FromBlob(EncodeWith(entries, declared, tail)) ==
            if |EncodeWith(entries, declared, tail)| < 20 then Err(TooSmall)
            else if !LeavesRoom(entries, Wrap32(declared - 12)) then Err(BadPayload)
            else if |tail| != 4 then Err(TrailingBytes)
            else if LoadBE(tail) != ValueOf(Crc32.Checksum(EncodeBody(entries))) then Err(ChecksumMismatch)
            else Ok(ToMap(entries, map[]))
  {
    hide EncodeWith, EncodeEntries, EncodeBody, ReadEntries, LeavesRoom, ToMap, LoadBE, CountOf, Wrap32, ValueOf,
         Crc32.Checksum, Holds;
    var blob := EncodeWith(entries, declared, tail);
    if |blob| >= 20 {
      BodyFields(entries, declared, tail);
      ReadEncoded(entries, blob, 16, map[]);
      if |tail| == 4 {
        assert blob[|blob| - 4..] == tail && blob[4..|blob| - 4] == EncodeBody(entries);
      }
    }
  }

  /** A blob of entries with room, stored with any 32-bit checksum, decodes exactly if it is its body's. */
  lemma WrongChecksumIsRefused(entries: seq<Entry>, declared: nat, sum: nat)
    requires ValidEntries(entries) && |EncodeBody(entries)| <= declared < WRAP && sum < WRAP
    ensures FromBlob(EncodeWith(entries, declared, StoreBE(sum, 4))) ==
            if sum == ValueOf(Crc32.Checksum(EncodeBody(entries))) then Ok(ToMap(entries, map[])) else Err(ChecksumMismatch)
  {
    hide EncodeWith, EncodeEntries, EncodeBody, LeavesRoom, ToMap, LoadBE, StoreBE, Wrap32, ValueOf, Crc32.Checksum;
    BodyLength(entries);
    DecodeWritten(entries, declared, StoreBE(sum, 4));
    EnoughLeavesRoom(entries, declared - 12);
    Powers256();
    LoadStoreBE(sum, 4);
    SmallWrap(declared - 12);
  }

  lemma BodyLength(entries: seq<Entry>)
    requires ValidEntries(entries)
    ensures |EncodeBody(entries)| == 12 + |EncodeEntries(entries)|
  {
  }

  lemma SmallWrap(x: nat)
    requires x < WRAP
    ensures Wrap32(x) == x
  {
  }

  /** Decoding an encoding gives the map back, whatever size it declares, except that a declaration whose
      32-bit count leaves some bitmap no room is refused. */
  lemma DecodeEncoded(entries: seq<Entry>, declared: nat)
    requires ValidEntries(entries) && declared < WRAP
    ensures FromBlob(EncodeBlob(entries, declared)) ==
            if LeavesRoom(entries, Wrap32(declared - 12)) then Ok(ToMap(entries, map[])) else Err(BadPayload)
  {
    hide EncodeWith, EncodeEntries, EncodeBody, LeavesRoom, ToMap, LoadBE, StoreBE, Wrap32, ValueOf, Crc32.Checksum, FromBlob;
    BodyLength(entries);
    DecodeWritten(entries, declared, StoreBE(SumOf(entries), 4));
    Powers256();
    LoadStoreBE(SumOf(entries), 4);
  }

  /** Whatever is accepted is refused once any one of its bytes, those of the declared size apart, is another. */
  lemma ChangedByteIsRefused(blob: seq<byte>, i: nat, b: byte)
    requires FromBlob(blob).Ok? && 4 <= i < |blob| && b != blob[i]
    ensures FromBlob(blob[i := b]).Err?
  {
    hide ReadEntries, CountOf, LoadBE, ValueOf, Crc32.Checksum;
    var changed := blob[i := b];
    var end := |blob| - 4;
    if FromBlob(changed).Ok? {
      if i < end {
        assert changed[end..] == blob[end..];
        assert changed[4..end] == blob[4..end][i - 4 := b];
        Crc32.ChangedByteIsDetected(blob[4..end], i - 4, b);
        WordValue(Crc32.Checksum(blob[4..end]));
        WordValue(Crc32.Checksum(changed[4..end]));
      } else {
        assert changed[4..end] == blob[4..end];
        assert changed[end..][i - end] == b && blob[end..][i - end] == blob[i];
        LoadBEIsInjective(blob[end..], changed[end..]);
      }
    }
  }

  /** Refusals before any entry is read. */
  lemma EarlyRefusals(blob: seq<byte>)
    ensures FromBlob(blob) == Err(TooSmall) <==> |blob| < 20
    ensures FromBlob(blob) == Err(MagicMismatch) <==> |blob| >= 20 && blob[4..8] != [0xD1, 0xD3, 0x39, 0x64]
    ensures FromBlob(blob) == Err(BadCount) <==>
            |blob| >= 20 && blob[4..8] == [0xD1, 0xD3, 0x39, 0x64] && blob[15] >= 0x80
  {
    hide ReadEntries, ChecksumMatches, LoadAt;
    if |blob| >= 20 {
      CountIsNegative(blob);
      LateErrors(blob, 16, CountOf(blob), map[]);
    }
  }

  /** The entries at these offsets are read, as far as they go: the first of them and then each where the one before ends. */
  ghost predicate Reached(blob: seq<byte>, offsets: seq<nat>) {
    && |blob| >= 20 && blob[4..8] == [0xD1, 0xD3, 0x39, 0x64]
    && 0 < |offsets| <= CountOf(blob) + 1 && offsets[0] == 16
    && forall i :: 0 <= i < |offsets| - 1 ==> EntrySpans(blob, offsets[i], offsets[i + 1])
  }

  /**
   * What a blob is refused for behind its header. Where entries are still to come: no room for a key, or
   * no bitmap behind it. Behind the last entry: anything but four bytes, or four that are not the checksum.
   */
  lemma LateRefusals(blob: seq<byte>, offsets: seq<nat>)
    requires Reached(blob, offsets)
    ensures var end := offsets[|offsets| - 1]; var r := FromBlob(blob);
            && 4 <= end <= |blob|
            && if |offsets| <= CountOf(blob) then
                 && (end + 4 > |blob| ==> r == Err(TruncatedKey))
                 && (end + 4 <= |blob| && SizeAt(blob, end + 4) == 0 ==> r == Err(BadPayload))
               else
                 && (end + 4 != |blob| ==> r == Err(TrailingBytes))
                 && (end + 4 == |blob| && LoadBE(blob[end..]) != ValueOf(Crc32.Checksum(blob[4..end])) ==>
                       r == Err(ChecksumMismatch))
  {
    hide SizeAt, KeyAt, BitmapAt, EntrySpans, CountOf, LoadBE, ValueOf, Crc32.Checksum;
    EntriesPassed(blob, offsets, CountOf(blob), map[]);
  }

  /** The count is negative exactly if its sign bit, in the last of its eight bytes, is set. */
  lemma CountIsNegative(blob: seq<byte>)
    requires |blob| >= 20
    ensures CountOf(blob) < 0 <==> blob[15] >= 0x80
  {
    hide LoadLE, Power256;
    var word := blob[8..16];
    LastByte(word[..7], word[7]);
    assert word == word[..7] + [word[7]];
    LoadBound(word[..7]);
    Power256Of7();
    LoadBound(word);
    Powers256();
  }

  lemma Power256Of7()
    ensures Power256(7) == 0x1_0000_0000_0000_00
  {
    assert Power256(3) == 0x1_0000_00;
    assert Power256(5) == 0x1_0000 * Power256(3);
    assert Power256(7) == 0x1_0000 * Power256(5);
  }

  lemma {:induction false} LastByte(bytes: seq<byte>, last: byte)
    ensures LoadLE(bytes + [last]) == LoadLE(bytes) + Power256(|bytes|) * last as int
    decreases |bytes|
  {
    if bytes == [] {
      assert [last][1..] == [];
    } else {
      assert (bytes + [last])[1..] == bytes[1..] + [last];
      LastByte(bytes[1..], last);
    }
  }

  lemma {:induction false} LateErrors(blob: seq<byte>, pos: nat, count: int, bitmaps: Bitmaps)
    requires 4 <= pos <= |blob|
    ensures count >= 0 && ReadEntries(blob, pos, count, bitmaps).Err? ==>
              ReadEntries(blob, pos, count, bitmaps) == Err(TruncatedKey)
              || ReadEntries(blob, pos, count, bitmaps) == Err(BadPayload)
    decreases count
  {
    hide EntryAt;
    if count > 0 {
      var first := EntryAt(blob, pos);
      if first.Found? {
        LateErrors(blob, first.end, count - 1, Emplace(bitmaps, first.key, first.bitmap));
      }
    }
  }

  predicate DistinctKeys(entries: seq<Entry>) {
    forall i, j :: 0 <= i < j < |entries| ==> entries[i].key != entries[j].key
  }

  lemma {:induction false} ToMapKeeps(entries: seq<Entry>, bitmaps: Bitmaps)
    ensures forall k :: k in bitmaps ==> k in ToMap(entries, bitmaps) && ToMap(entries, bitmaps)[k] == bitmaps[k]
    decreases |entries|
  {
    if entries != [] {
      ToMapKeeps(entries[1..], Emplace(bitmaps, entries[0].key, entries[0].bitmap));
    }
  }

  lemma {:induction false} ToMapKeys(entries: seq<Entry>, bitmaps: Bitmaps)
    ensures ToMap(entries, bitmaps).Keys == bitmaps.Keys + set i | 0 <= i < |entries| :: entries[i].key
    decreases |entries|
  {
    if entries != [] {
      ToMapKeys(entries[1..], Emplace(bitmaps, entries[0].key, entries[0].bitmap));
      assert forall i :: 0 <= i < |entries[1..]| ==> entries[1..][i] == entries[i + 1];
      var rest := set i | 0 <= i < |entries[1..]| :: entries[1..][i].key;
      var all := set i | 0 <= i < |entries| :: entries[i].key;
      forall k | k in all ensures k in rest + {entries[0].key} {
        var i :| 0 <= i < |entries| && entries[i].key == k;
        if i > 0 {
          assert entries[1..][i - 1].key == k;
        }
      }
      assert all == rest + {entries[0].key};
    }
  }

  /** The first entry with a key is in the map: it wins over any later one. */
  lemma {:induction false} ToMapHolds(entries: seq<Entry>, bitmaps: Bitmaps, i: nat)
    requires i < |entries| && entries[i].key !in bitmaps
    requires forall j :: 0 <= j < i ==> entries[j].key != entries[i].key
    ensures var m := ToMap(entries, bitmaps); entries[i].key in m && m[entries[i].key] == entries[i].bitmap
    decreases |entries|
  {
    var next := Emplace(bitmaps, entries[0].key, entries[0].bitmap);
    if i == 0 {
      ToMapKeeps(entries[1..], next);
    } else {
      assert entries[0].key != entries[i].key && entries[1..][i - 1] == entries[i];
      ToMapHolds(entries[1..], next, i - 1);
    }
  }

  /** Round trip: any finite map of keys to bitmaps, written in any order of its keys and declaring at
      least the size of its body, decodes to that map. */
  lemma RoundTrip(entries: seq<Entry>, declared: nat, bitmaps: Bitmaps)
    requires ValidEntries(entries) && |EncodeBody(entries)| <= declared < WRAP && DistinctKeys(entries)
    requires bitmaps.Keys == set i | 0 <= i < |entries| :: entries[i].key
    requires forall i :: 0 <= i < |entries| ==> bitmaps[entries[i].key] == entries[i].bitmap
    ensures FromBlob(EncodeBlob(entries, declared)) == Ok(bitmaps)
  {
    hide EncodeBlob, EncodeEntries, FromBlob, LeavesRoom, ToMap;
    DecodeEncoded(entries, declared);
    EnoughLeavesRoom(entries, declared - 12);
    ToMapKeys(entries, map[]);
    forall k | k in bitmaps ensures ToMap(entries, map[])[k] == bitmaps[k] {
      var i :| 0 <= i < |entries| && entries[i].key == k;
      ToMapHolds(entries, map[], i);
    }
    assert ToMap(entries, map[]) == bitmaps;
  }

  // ---- Row positions ----

  /** Sign extension to 64 bits, the shift and the or, as the decoder packs a key and a 32-bit value. */
  lemma PackWords(key: bv32, low: bv32)
    ensures var extended: bv64 := if key >= 0x8000_0000 then 0xFFFF_FFFF_0000_0000 | (key as bv64) else key as bv64;
      (extended << 32) | (low as bv64) == ((key as bv64) << 32) + (low as bv64)
  {
  }

  /** The same in arithmetic: the key as an unsigned 64-bit number, shifted within 64 bits. The low half
      of the shifted key is zero, so the or adds. */
  function Pack(key: int, low: nat): (r: nat) {
    ((key % WRAP64) * WRAP) % WRAP64 + low
  }

  ghost function Positions(bitmaps: Bitmaps): (r: set<nat>) {
    set key, low | key in bitmaps && low in Values(bitmaps[key]) :: Pack(key, low)
  }

  /** A position is the key's unsigned 32-bit value times 2^32 plus the low half: the sign extension of a
      negative key is shifted out. */
  lemma PackValue(key: int, low: nat)
    requires KeyFits(key) && low < WRAP
    ensures Pack(key, low) == Unsigned(key, WRAP) * WRAP + low < WRAP64
  {
    var u := Unsigned(key, WRAP);
    assert u * WRAP < WRAP64;
    if key < 0 {
      assert key % WRAP64 == u + (WRAP - 1) * WRAP;
      assert (key % WRAP64) * WRAP == u * WRAP + (WRAP - 1) * WRAP64;
    }
  }

  /** Different keys contribute different positions. */
  lemma PackInjective(k1: int, l1: nat, k2: int, l2: nat)
    requires KeyFits(k1) && l1 < WRAP
    requires KeyFits(k2) && l2 < WRAP
    requires Pack(k1, l1) == Pack(k2, l2)
    ensures k1 == k2 && l1 == l2
  {
    PackValue(k1, l1);
    PackValue(k2, l2);
    var u1, u2 := Unsigned(k1, WRAP), Unsigned(k2, WRAP);
    assert (u1 - u2) * WRAP == l2 - l1;
  }

  ghost predicate ValuesFit(bitmap: Bitmap) {
    forall low :: low in Values(bitmap) ==> low < WRAP
  }

  /** Keys of 32 bits, signed, and values of 32 bits. */
  ghost predicate InRange(bitmaps: Bitmaps) {
    forall key :: key in bitmaps ==> KeyFits(key) && ValuesFit(bitmaps[key])
  }

  lemma BitmapInRange(blob: seq<byte>, pos: nat)
    requires 4 <= pos <= |blob| && SizeAt(blob, pos) > 0
    ensures ValuesFit(BitmapAt(blob, pos))
  {
    hide SerializedSize, Values, SizeAt, Decode;
    BitmapHere(blob, pos);
    DecodeBounded(blob[pos..pos + SizeAt(blob, pos)]);
  }

  lemma KeyInRange(blob: seq<byte>, pos: nat)
    requires pos + 4 <= |blob|
    ensures KeyFits(KeyAt(blob, pos))
  {
    hide LoadLE, Power256;
    LoadBound(blob[pos..pos + 4]);
    Powers256();
  }

  lemma EntryInRange(blob: seq<byte>, pos: nat)
    requires 4 <= pos <= |blob|
    ensures EntryAt(blob, pos).Found? ==> KeyFits(EntryAt(blob, pos).key) && ValuesFit(EntryAt(blob, pos).bitmap)
  {
    hide *;
    EntryParts(blob, pos);
    if EntryAt(blob, pos).Found? {
      KeyInRange(blob, pos);
      BitmapInRange(blob, pos + 4);
    }
  }

  lemma {:induction false} ReadInRange(blob: seq<byte>, pos: nat, count: nat, bitmaps: Bitmaps)
    requires 4 <= pos <= |blob| && InRange(bitmaps)
    ensures ReadEntries(blob, pos, count, bitmaps).Ok? ==> InRange(ReadEntries(blob, pos, count, bitmaps).value.0)
    decreases count
  {
    hide EntryAt, ValuesFit, KeyFits;
    var first := EntryAt(blob, pos);
    if count > 0 && first.Found? {
      EntryInRange(blob, pos);
      ReadInRange(blob, first.end, count - 1, Emplace(bitmaps, first.key, first.bitmap));
    }
  }

  /** Position `p` is value `low` of the bitmap of `key`. */
  ghost predicate Comes(bitmaps: Bitmaps, p: nat, key: int, low: nat) {
    key in bitmaps && KeyFits(key) && low in Values(bitmaps[key]) && p == Unsigned(key, WRAP) * WRAP + low
  }

  /**
   * Every position of a decoded vector is the unsigned key times 2^32 plus the value for exactly one
   * key and value of its bitmaps, and every value of every bitmap gives one.
   */
  lemma PositionsAreUnique(blob: seq<byte>, bitmaps: Bitmaps, p: nat)
    requires FromBlob(blob) == Ok(bitmaps)
    ensures p in Positions(bitmaps) <==> exists key, low :: Comes(bitmaps, p, key, low)
    ensures forall k1, l1, k2, l2 :: Comes(bitmaps, p, k1, l1) && Comes(bitmaps, p, k2, l2) ==> k1 == k2 && l1 == l2
  {
    hide ReadEntries, CountOf, ChecksumMatches, Values, Pack, Unsigned;
    ReadInRange(blob, 16, CountOf(blob), map[]);
    assert InRange(bitmaps);
    forall key, low | key in bitmaps && low in Values(bitmaps[key])
      ensures KeyFits(key) && low < WRAP && Pack(key, low) == Unsigned(key, WRAP) * WRAP + low
    {
      assert ValuesFit(bitmaps[key]);
      PackValue(key, low);
    }
    forall k1, l1, k2, l2 | Comes(bitmaps, p, k1, l1) && Comes(bitmaps, p, k2, l2) ensures k1 == k2 && l1 == l2 {
      PackInjective(k1, l1, k2, l2);
    }
    if p in Positions(bitmaps) {
      var key, low :| key in bitmaps && low in Values(bitmaps[key]) && p == Pack(key, low);
      assert Comes(bitmaps, p, key, low);
    }
    if key, low :| Comes(bitmaps, p, key, low) {
      assert Pack(key, low) == p;
    }
  }

  /** Every value of one bitmap, packed with its key. */
  method AddValues(key: int, bitmap: Bitmap, out: set<nat>) returns (r: set<nat>)
    ensures r == out + set low | low in Values(bitmap) :: Pack(key, low)
  {
    hide Pack, Values;
    r := out;
    var i := 0;
    assert Values(bitmap[..0]) == {} by {
      NoValues(bitmap[..0]);
    }
    while i < |bitmap|
      invariant 0 <= i <= |bitmap|
      invariant r == out + set low | low in Values(bitmap[..i]) :: Pack(key, low)
    {
      var before := r;
      var c := bitmap[i];
      var j := 0;
      while j < |c.lows|
        invariant 0 <= j <= |c.lows|
        invariant r == before + set m | 0 <= m < j :: Pack(key, ValueAt(c.key, c.lows[m]))
      {
        r := r + {Pack(key, ValueAt(c.key, c.lows[j]))};
        j := j + 1;
      }
      ValuesSnoc(bitmap, i);
      i := i + 1;
    }
    assert bitmap[..|bitmap|] == bitmap;
  }

  lemma NoValues(bitmap: Bitmap)
    requires bitmap == []
    ensures Values(bitmap) == {}
  {
  }

  lemma Pick<T>(s: set<T>) returns (x: T)
    requires s != {}
    ensures x in s
  {
    x :| x in s;
  }

  /** Positions entry by entry: the values of every bitmap. */
  method ToSet(bitmaps: Bitmaps) returns (out: set<nat>)
    ensures out == Positions(bitmaps)
  {
    hide Pack, Values;
    out := {};
    var keys := set key | key in bitmaps;
    ghost var done: set<int> := {};
    while keys != {}
      invariant done + keys == bitmaps.Keys && done !! keys
      invariant out == set key, low | key in done && low in Values(bitmaps[key]) :: Pack(key, low)
      decreases |keys|
    {
      ghost var one := Pick(keys);
      var key :| key in keys;
      out := AddValues(key, bitmaps[key], out);
      done, keys := done + {key}, keys - {key};
    }
  }

  lemma ValuesSnoc(bitmap: Bitmap, i: nat)
    requires i < |bitmap|
    ensures Values(bitmap[..i + 1]) ==
            Values(bitmap[..i]) + set m | 0 <= m < |bitmap[i].lows| :: ValueAt(bitmap[i].key, bitmap[i].lows[m])
  {
    var more := set m | 0 <= m < |bitmap[i].lows| :: ValueAt(bitmap[i].key, bitmap[i].lows[m]);
    forall v | v in Values(bitmap[..i + 1]) ensures v in Values(bitmap[..i]) + more {
      var a, b :| 0 <= a < |bitmap[..i + 1]| && 0 <= b < |bitmap[..i + 1][a].lows|
        && v == ValueAt(bitmap[..i + 1][a].key, bitmap[..i + 1][a].lows[b]);
      if a < i {
        assert bitmap[..i][a] == bitmap[..i + 1][a];
      }
    }
    forall v | v in Values(bitmap[..i]) ensures v in Values(bitmap[..i + 1]) {
      var a, b :| 0 <= a < i && 0 <= b < |bitmap[..i][a].lows| && v == ValueAt(bitmap[..i][a].key, bitmap[..i][a].lows[b]);
      assert bitmap[..i][a] == bitmap[..i + 1][a];
    }
    forall v | v in more ensures v in Values(bitmap[..i + 1]) {
      var m :| 0 <= m < |bitmap[i].lows| && v == ValueAt(bitmap[i].key, bitmap[i].lows[m]);
      assert bitmap[..i + 1][i] == bitmap[i];
    }
  }
}
