/** The portable roaring serialization of a set of 32-bit values: cookie, container count, (key,
    cardinality - 1) headers, offsets, then each container, as its 16-bit values, above 4096 of them as a
    bit set, or, if the cookie says so and a flag marks it, as runs. */
module Roaring {
  import opened Wrappers
  import opened Words
  import opened BitSets

  /** The values `65536 * key + low` for `low` in `lows`. */
  datatype Container = Container(key: nat, lows: seq<nat>)
  type Bitmap = seq<Container>

  const COOKIE := 12346 // in four bytes: a serialization with no run containers
  const RUN_COOKIE := 12347 // in two bytes: flags say which containers are runs
  const MAX_CONTAINERS := 65536
  const MAX_ARRAY := 4096 // above this cardinality a container is a bit set
  const NO_OFFSETS := 4 // a serialization with run containers has offsets from this many containers on

  /** A writer's choice: no run containers, or those marked. */
  datatype Form = NoRuns | WithRuns(marked: seq<bool>)

  /** Which containers of a serialization are runs. */
  function Marks(form: Form, count: nat): (r: seq<bool>) {
    if form.NoRuns? then Zeros(count) else form.marked
  }

  predicate ValidContainer(c: Container, asRuns: bool) {
    && c.key < 65536 && 1 <= |c.lows| <= 65536
    && (forall i :: 0 <= i < |c.lows| ==> c.lows[i] < 65536)
    && (|c.lows| > MAX_ARRAY || asRuns ==> Increasing(c.lows))
  }

  predicate ValidContainers(bitmap: Bitmap, marks: seq<bool>) {
    |marks| == |bitmap| && forall i :: 0 <= i < |bitmap| ==> ValidContainer(bitmap[i], marks[i])
  }

  /** Arrays may hold their values in any order; bit sets and runs are of increasing ones. */
  predicate ValidBitmap(bitmap: Bitmap, form: Form) {
    && |bitmap| <= MAX_CONTAINERS && ValidContainers(bitmap, Marks(form, |bitmap|))
    && (form.WithRuns? ==> bitmap != [])
  }

  /** A value of a container, in 32 bits. */
  function ValueAt(key: nat, low: nat): (r: nat)
    ensures r < 0x1_0000_0000 && (65536 * key + low < 0x1_0000_0000 ==> r == 65536 * key + low)
  {
    (65536 * key + low) % 0x1_0000_0000
  }

  /** The 32-bit values a bitmap holds. */
  ghost function Values(bitmap: Bitmap): (r: set<nat>) {
    set i, j | 0 <= i < |bitmap| && 0 <= j < |bitmap[i].lows| :: ValueAt(bitmap[i].key, bitmap[i].lows[j])
  }

  // ---- Writing ----

  function Headers(bitmap: Bitmap): (r: seq<byte>)
    ensures |r| == 4 * |bitmap|
  {
    if bitmap == [] then []
    else
      var card: int := if bitmap[0].lows == [] then 0 else |bitmap[0].lows| - 1;
      StoreLE(bitmap[0].key, 2) + StoreLE(card, 2) + Headers(bitmap[1..])
  }

  function Lows(lows: seq<nat>): (r: seq<byte>)
    ensures |r| == 2 * |lows|
  {
    if lows == [] then [] else StoreLE(lows[0], 2) + Lows(lows[1..])
  }

  /** A run of consecutive values: its first, and how many more. */
  datatype Run = Run(start: nat, more: nat)

  function RunsOf(lows: seq<nat>): (r: seq<Run>)
    ensures |r| <= |lows| && (lows != [] ==> r != [] && r[0].start == lows[0])
  {
    if lows == [] then []
    else
      var rest := RunsOf(lows[1..]);
      if rest != [] && rest[0].start == lows[0] + 1 then [Run(lows[0], rest[0].more + 1)] + rest[1..]
      else [Run(lows[0], 0)] + rest
  }

  function Pairs(runs: seq<Run>): (r: seq<byte>)
    ensures |r| == 4 * |runs|
  {
    if runs == [] then [] else StoreLE(runs[0].start, 2) + StoreLE(runs[0].more, 2) + Pairs(runs[1..])
  }

  function ContainerBytes(lows: seq<nat>, asRuns: bool): (r: seq<byte>) {
    if asRuns then StoreLE(|RunsOf(lows)|, 2) + Pairs(RunsOf(lows))
    else if |lows| <= MAX_ARRAY then Lows(lows)
    else WriteBits(lows)
  }

  function Offsets(bitmap: Bitmap, marks: seq<bool>, start: nat): (r: seq<byte>)
    requires |marks| == |bitmap|
    ensures |r| == 4 * |bitmap|
  {
    if bitmap == [] then []
    else StoreLE(start, 4) + Offsets(bitmap[1..], marks[1..], start + |ContainerBytes(bitmap[0].lows, marks[0])|)
  }

  function Payload(bitmap: Bitmap, marks: seq<bool>): (r: seq<byte>)
    requires |marks| == |bitmap|
  {
    if bitmap == [] then [] else ContainerBytes(bitmap[0].lows, marks[0]) + Payload(bitmap[1..], marks[1..])
  }

  /** Flags, eight to a byte, the first in the lowest bit. */
  function Flags(marks: seq<bool>): (r: seq<byte>)
    ensures |r| == (|marks| + 7) / 8
    decreases |marks|
  {
    if marks == [] then []
    else
      var first := if |marks| >= 8 then marks[..8] else marks + Zeros(8 - |marks|);
      [ByteOf(first)] + Flags(if |marks| >= 8 then marks[8..] else [])
  }

  function ByteOf(bits: Bits): (r: byte)
    requires |bits| == 8
  {
    BitsOfValue(bits);
    EightBits();
    ValueOf(bits) as byte
  }

  /** With runs there are offsets only from four containers on. */
  function RunOffsets(bitmap: Bitmap, marked: seq<bool>): (r: seq<byte>)
    requires |marked| == |bitmap|
    ensures |r| == if |bitmap| >= NO_OFFSETS then 4 * |bitmap| else 0
  {
    if |bitmap| >= NO_OFFSETS then Offsets(bitmap, marked, HeadSize(true, |bitmap|)) else []
  }

  /** Everything before the containers. */
  function Head(bitmap: Bitmap, form: Form): (r: seq<byte>)
    requires ValidBitmap(bitmap, form)
    ensures |r| == HeadSize(form.WithRuns?, |bitmap|)
  {
    var n := |bitmap|;
    match form
    case NoRuns =>
      StoreLE(COOKIE, 4) + (StoreLE(n, 4) + (Headers(bitmap) + Offsets(bitmap, Zeros(n), HeadSize(false, n))))
    case WithRuns(marked) =>
      StoreLE(RUN_COOKIE, 2) + (StoreLE(n - 1, 2) + (Flags(marked) + (Headers(bitmap) + RunOffsets(bitmap, marked))))
  }

  function HeadSize(withRuns: bool, count: nat): (r: nat) {
    if !withRuns then 8 + 8 * count
    else 4 + (count + 7) / 8 + 4 * count + if count >= NO_OFFSETS then 4 * count else 0
  }

  /** How many bytes a bitmap takes. */
  function SizeOf(bitmap: Bitmap, form: Form): (r: nat)
    requires ValidBitmap(bitmap, form)
    ensures r > 0
  {
    HeadSize(form.WithRuns?, |bitmap|) + |Payload(bitmap, Marks(form, |bitmap|))|
  }

  function Encode(bitmap: Bitmap, form: Form): (r: seq<byte>)
    requires ValidBitmap(bitmap, form)
    ensures |r| == SizeOf(bitmap, form)
  {
    Head(bitmap, form) + Payload(bitmap, Marks(form, |bitmap|))
  }

  // ---- Reading ----

  /** What the start of a serialization tells: which containers are runs, the headers, and where the containers start. */
  datatype Layout = Layout(marks: seq<bool>, headers: seq<byte>, start: nat)

  function Unpack(bytes: seq<byte>): (r: Bits)
    ensures |r| == 8 * |bytes|
  {
    if bytes == [] then [] else BitsOf(bytes[0] as nat, 8) + Unpack(bytes[1..])
  }

  function LayoutOf(bytes: seq<byte>): (r: Option<Layout>)
    ensures r.Some? ==> 0 < r.value.start <= |bytes| && |r.value.headers| == 4 * |r.value.marks|
  {
    if |bytes| < 4 then None
    else if LoadAt(bytes, 0, 4) == COOKIE then PlainLayout(bytes)
    else if LoadAt(bytes, 0, 2) == RUN_COOKIE then RunLayout(bytes)
    else None
  }

  function PlainLayout(bytes: seq<byte>): (r: Option<Layout>)
    ensures r.Some? ==> 0 < r.value.start <= |bytes| && |r.value.headers| == 4 * |r.value.marks|
  {
    if |bytes| < 8 then None
    else
      var count := LoadAt(bytes, 4, 4);
      var start := HeadSize(false, count);
      if count > MAX_CONTAINERS || |bytes| < start then None
      else Some(Layout(Zeros(count), bytes[8..8 + 4 * count], start))
  }

  function RunLayout(bytes: seq<byte>): (r: Option<Layout>)
    requires |bytes| >= 4
    ensures r.Some? ==> 0 < r.value.start <= |bytes| && |r.value.headers| == 4 * |r.value.marks|
  {
    var count := LoadAt(bytes, 2, 2) + 1;
    var flags := (count + 7) / 8;
    var start := HeadSize(true, count);
    if |bytes| < start then None
    else Some(Layout(Unpack(bytes[4..4 + flags])[..count], bytes[4 + flags..4 + flags + 4 * count], start))
  }

  function Cardinality(headers: seq<byte>): (r: nat)
    requires |headers| >= 4
  {
    LoadLE(headers[2..4]) + 1
  }

  /** How far a container reaches, if it is all there. */
  function Extent(cardinality: nat, asRuns: bool, bytes: seq<byte>): (r: Option<nat>)
    ensures r.Some? ==> r.value <= |bytes|
  {
    if asRuns && |bytes| < 2 then None
    else
      var size := if asRuns then 2 + 4 * LoadLE(bytes[..2]) else if cardinality <= MAX_ARRAY then 2 * cardinality else SIZE;
      if size > |bytes| then None else Some(size)
  }

  /** How far the containers reach, if they are all there. */
  function PayloadExtent(headers: seq<byte>, marks: seq<bool>, bytes: seq<byte>): (r: Option<nat>)
    requires |headers| == 4 * |marks|
    ensures r.Some? ==> r.value <= |bytes|
    decreases |marks|
  {
    if marks == [] then Some(0)
    else
      var first := Extent(Cardinality(headers), marks[0], bytes);
      if first.None? then None
      else
        var rest := PayloadExtent(headers[4..], marks[1..], bytes[first.value..]);
        if rest.None? then None else Some(first.value + rest.value)
  }

  /** The size of the bitmap at the start of `bytes`, looking at no more than `maxBytes` of them; 0 when
      there is none. */
  function SerializedSize(bytes: seq<byte>, maxBytes: nat): (r: nat)
    requires maxBytes <= |bytes|
    ensures r <= maxBytes
  {
    SizeIn(bytes[..maxBytes])
  }

  function SizeIn(window: seq<byte>): (r: nat)
    ensures r <= |window|
  {
    var layout := LayoutOf(window);
    if layout.None? then 0
    else
      var extent := PayloadExtent(layout.value.headers, layout.value.marks, window[layout.value.start..]);
      if extent.None? then 0 else layout.value.start + extent.value
  }

  function ReadLows(bytes: seq<byte>): (r: seq<nat>)
    decreases |bytes|
  {
    if |bytes| < 2 then [] else [LoadLE(bytes[..2])] + ReadLows(bytes[2..])
  }

  function Consecutive(start: nat, more: nat): (r: seq<nat>)
    ensures |r| == more + 1
    decreases more
  {
    [start] + if more == 0 then [] else Consecutive(start + 1, more - 1)
  }

  function ReadRuns(bytes: seq<byte>): (r: seq<nat>)
    decreases |bytes|
  {
    if |bytes| < 4 then [] else Consecutive(LoadLE(bytes[..2]), LoadLE(bytes[2..4])) + ReadRuns(bytes[4..])
  }

  /** The values of a container, in all of `bytes`. The cardinality of a bit set or of runs is not consulted. */
  function ReadContainer(cardinality: nat, asRuns: bool, bytes: seq<byte>): (r: seq<nat>)
    requires Extent(cardinality, asRuns, bytes) == Some(|bytes|)
  {
    if asRuns then ReadRuns(bytes[2..])
    else if cardinality <= MAX_ARRAY then ReadLows(bytes)
    else ReadBits(bytes, 0)
  }

  function ReadContainers(headers: seq<byte>, marks: seq<bool>, bytes: seq<byte>): (r: Bitmap)
    requires |headers| == 4 * |marks| && PayloadExtent(headers, marks, bytes).Some?
    decreases |marks|
  {
    if marks == [] then []
    else
      var size := Extent(Cardinality(headers), marks[0], bytes).value;
      ExtentIsLocal(Cardinality(headers), marks[0], bytes, size);
      [Container(LoadLE(headers[..2]), ReadContainer(Cardinality(headers), marks[0], bytes[..size]))]
      + ReadContainers(headers[4..], marks[1..], bytes[size..])
  }

  /** The bitmap serialized in all of `bytes`. The offsets are not consulted. */
  function Decode(bytes: seq<byte>): (r: Bitmap)
    requires SerializedSize(bytes, |bytes|) == |bytes| > 0
  {
    assert bytes[..|bytes|] == bytes;
    var layout := LayoutOf(bytes).value;
    ReadContainers(layout.headers, layout.marks, bytes[layout.start..])
  }

  // ---- Reading within a window ----

  /** A container is measured by its own bytes alone. */
  lemma ExtentIsLocal(cardinality: nat, asRuns: bool, bytes: seq<byte>, window: nat)
    requires window <= |bytes| && Extent(cardinality, asRuns, bytes).Some?
    ensures Extent(cardinality, asRuns, bytes[..window]) ==
            if window >= Extent(cardinality, asRuns, bytes).value then Extent(cardinality, asRuns, bytes) else None
  {
    hide LoadLE;
    if asRuns && window >= 2 {
      assert bytes[..window][..2] == bytes[..2];
    }
  }

  lemma {:induction false} PayloadIsLocal(headers: seq<byte>, marks: seq<bool>, bytes: seq<byte>, window: nat)
    requires |headers| == 4 * |marks| && window <= |bytes| && PayloadExtent(headers, marks, bytes).Some?
    ensures PayloadExtent(headers, marks, bytes[..window]) ==
            if window >= PayloadExtent(headers, marks, bytes).value then PayloadExtent(headers, marks, bytes) else None
    decreases |marks|
  {
    hide Extent, Cardinality;
    if marks != [] {
      var size := Extent(Cardinality(headers), marks[0], bytes).value;
      ExtentIsLocal(Cardinality(headers), marks[0], bytes, window);
      if window >= size {
        PayloadIsLocal(headers[4..], marks[1..], bytes[size..], window - size);
        assert bytes[..window][size..] == bytes[size..][..window - size];
      }
    }
  }

  lemma LayoutIsLocal(bytes: seq<byte>, window: nat)
    requires window <= |bytes| && LayoutOf(bytes).Some?
    ensures LayoutOf(bytes[..window]) == if window >= LayoutOf(bytes).value.start then LayoutOf(bytes) else None
  {
    hide LoadAt, PlainLayout, RunLayout;
    if window >= 4 {
      LoadIsLocal(bytes, window, 0, 4);
      LoadIsLocal(bytes, window, 0, 2);
      if LoadAt(bytes, 0, 4) == COOKIE {
        PlainLayoutIsLocal(bytes, window);
      } else {
        RunLayoutIsLocal(bytes, window);
      }
    } else {
      StartsLate(bytes);
    }
  }

  lemma StartsLate(bytes: seq<byte>)
    requires LayoutOf(bytes).Some?
    ensures LayoutOf(bytes).value.start >= 4
  {
    hide LoadAt, Unpack;
  }

  lemma PlainLayoutIsLocal(bytes: seq<byte>, window: nat)
    requires window <= |bytes| && PlainLayout(bytes).Some?
    ensures PlainLayout(bytes[..window]) == if window >= PlainLayout(bytes).value.start then PlainLayout(bytes) else None
  {
    hide LoadAt;
    if window >= 8 {
      LoadIsLocal(bytes, window, 4, 4);
      var count := LoadAt(bytes, 4, 4);
      if window >= HeadSize(false, count) {
        SliceOfStart(bytes, window, 8, 8 + 4 * count);
      }
    }
  }

  lemma RunLayoutIsLocal(bytes: seq<byte>, window: nat)
    requires 4 <= window <= |bytes| && RunLayout(bytes).Some?
    ensures RunLayout(bytes[..window]) == if window >= RunLayout(bytes).value.start then RunLayout(bytes) else None
  {
    hide LoadAt, Unpack;
    LoadIsLocal(bytes, window, 2, 2);
    var count := LoadAt(bytes, 2, 2) + 1;
    var flags := (count + 7) / 8;
    if window >= HeadSize(true, count) {
      SliceOfStart(bytes, window, 4, 4 + flags);
      SliceOfStart(bytes, window, 4 + flags, 4 + flags + 4 * count);
    }
  }

  /** A bitmap that is found is found again in every window that holds all of it, and in no smaller one. */
  lemma SizeIsLocal(bytes: seq<byte>, window: nat)
    requires window <= |bytes| && SizeIn(bytes) > 0
    ensures SizeIn(bytes[..window]) == if window >= SizeIn(bytes) then SizeIn(bytes) else 0
  {
    hide LayoutOf, PayloadExtent;
    LayoutIsLocal(bytes, window);
    var layout := LayoutOf(bytes).value;
    if window >= layout.start {
      PayloadIsLocal(layout.headers, layout.marks, bytes[layout.start..], window - layout.start);
      assert bytes[..window][layout.start..] == bytes[layout.start..][..window - layout.start];
    }
  }

  /** Reading no further than the size found, the same size is found again. */
  lemma SizeIsSelfDelimiting(bytes: seq<byte>, maxBytes: nat)
    requires maxBytes <= |bytes| && SerializedSize(bytes, maxBytes) > 0
    ensures var n := SerializedSize(bytes, maxBytes); SerializedSize(bytes[..n], n) == n
  {
    hide SizeIn;
    var n := SerializedSize(bytes, maxBytes);
    SizeIsLocal(bytes[..maxBytes], n);
    assert bytes[..maxBytes][..n] == bytes[..n] && bytes[..n][..n] == bytes[..n];
  }

  // ---- Round trip: containers ----

  lemma {:induction false} ReadLowsOfLows(lows: seq<nat>)
    requires forall i :: 0 <= i < |lows| ==> lows[i] < 65536
    ensures ReadLows(Lows(lows)) == lows
  {
    hide LoadLE, StoreLE;
    if lows != [] {
      ReadLowsOfLows(lows[1..]);
      Powers256();
      LoadStoreLE(lows[0], 2);
      assert Lows(lows)[..2] == StoreLE(lows[0], 2) && Lows(lows)[2..] == Lows(lows[1..]);
    }
  }

  function Expand(runs: seq<Run>): (r: seq<nat>) {
    if runs == [] then [] else Consecutive(runs[0].start, runs[0].more) + Expand(runs[1..])
  }

  lemma ExpandOne(run: Run, rest: seq<Run>)
    ensures Expand([run] + rest) == Consecutive(run.start, run.more) + Expand(rest)
  {
    assert ([run] + rest)[1..] == rest;
  }

  lemma Earlier(start: nat, more: nat)
    ensures Consecutive(start, more + 1) == [start] + Consecutive(start + 1, more)
    ensures Consecutive(start, 0) == [start]
  {
  }

  /** The runs of any values are runs of those values. */
  lemma {:induction false} RunsAreLows(lows: seq<nat>)
    ensures Expand(RunsOf(lows)) == lows
  {
    hide Expand, Consecutive;
    if lows == [] {
      NoRun();
    } else {
      var rest := RunsOf(lows[1..]);
      RunsAreLows(lows[1..]);
      assert lows == [lows[0]] + lows[1..];
      Earlier(lows[0], 0);
      ExpandOne(Run(lows[0], 0), rest);
      if rest != [] && rest[0].start == lows[0] + 1 {
        RunExtended(lows[0], rest);
      }
    }
  }

  /** A run may take in the value just before it. */
  lemma RunExtended(low: nat, runs: seq<Run>)
    requires runs != [] && runs[0].start == low + 1
    ensures Expand([Run(low, runs[0].more + 1)] + runs[1..]) == [low] + Expand(runs)
  {
    hide Expand, Consecutive;
    Earlier(low, runs[0].more);
    ExpandOne(Run(low, runs[0].more + 1), runs[1..]);
    ExpandOne(runs[0], runs[1..]);
    assert runs == [runs[0]] + runs[1..];
  }

  lemma NoRun()
    ensures Expand([]) == []
  {
  }

  predicate SmallRuns(runs: seq<Run>) {
    forall i :: 0 <= i < |runs| ==> runs[i].start + runs[i].more < 65536
  }

  lemma {:induction false} RunsAreSmall(lows: seq<nat>)
    requires forall i :: 0 <= i < |lows| ==> lows[i] < 65536
    ensures SmallRuns(RunsOf(lows))
  {
    if lows != [] {
      RunsAreSmall(lows[1..]);
    }
  }

  /** Runs leave gaps between them, so there are at most half as many as there may be values. */
  lemma {:induction false} FewRuns(lows: seq<nat>)
    requires Increasing(lows) && forall i :: 0 <= i < |lows| ==> lows[i] < 65536
    ensures lows != [] ==> lows[0] + 2 * |RunsOf(lows)| <= 65537
    ensures |RunsOf(lows)| <= 32768
  {
    if |lows| > 1 {
      assert lows[0] < lows[1];
      assert lows[1..][0] == lows[1];
      FewRuns(lows[1..]);
    } else if |lows| == 1 {
      assert lows[1..] == [];
    }
  }

  lemma {:induction false} ReadRunsOfPairs(runs: seq<Run>)
    requires SmallRuns(runs)
    ensures ReadRuns(Pairs(runs)) == Expand(runs)
  {
    hide LoadLE, StoreLE, Consecutive;
    if runs != [] {
      ReadRunsOfPairs(runs[1..]);
      Powers256();
      LoadStoreLE(runs[0].start, 2);
      LoadStoreLE(runs[0].more, 2);
      var bytes := Pairs(runs);
      assert bytes[..2] == StoreLE(runs[0].start, 2) && bytes[2..4] == StoreLE(runs[0].more, 2);
      assert bytes[4..] == Pairs(runs[1..]);
    }
  }

  /** A container's bytes, whatever follows them, are measured right and give its values back. */
  lemma ContainerReadsBack(c: Container, asRuns: bool, rest: seq<byte>)
    requires ValidContainer(c, asRuns)
    ensures var bytes := ContainerBytes(c.lows, asRuns);
      && Extent(|c.lows|, asRuns, bytes + rest) == Extent(|c.lows|, asRuns, bytes) == Some(|bytes|)
      && ReadContainer(|c.lows|, asRuns, bytes) == c.lows
  {
    var bytes := ContainerBytes(c.lows, asRuns);
    if asRuns {
      RunsReadBack(c, rest);
    } else if |c.lows| <= MAX_ARRAY {
      ReadLowsOfLows(c.lows);
    } else {
      BitsReadBack(c.lows);
    }
  }

  lemma RunsReadBack(c: Container, rest: seq<byte>)
    requires ValidContainer(c, true)
    ensures var bytes := ContainerBytes(c.lows, true);
      && Extent(|c.lows|, true, bytes + rest) == Extent(|c.lows|, true, bytes) == Some(|bytes|)
      && ReadContainer(|c.lows|, true, bytes) == c.lows
  {
    hide LoadLE, StoreLE, RunsOf, ReadRuns, Pairs;
    var runs := RunsOf(c.lows);
    var bytes := ContainerBytes(c.lows, true);
    FewRuns(c.lows);
    RunsAreSmall(c.lows);
    RunsAreLows(c.lows);
    ReadRunsOfPairs(runs);
    Powers256();
    LoadStoreLE(|runs|, 2);
    assert bytes[..2] == StoreLE(|runs|, 2) && bytes[2..] == Pairs(runs);
    assert (bytes + rest)[..2] == StoreLE(|runs|, 2);
  }

  // ---- Round trip: the payload ----

  lemma FirstHeader(bitmap: Bitmap, marks: seq<bool>)
    requires bitmap != [] && ValidContainers(bitmap, marks)
    ensures LoadLE(Headers(bitmap)[..2]) == bitmap[0].key && Cardinality(Headers(bitmap)) == |bitmap[0].lows|
    ensures Headers(bitmap)[4..] == Headers(bitmap[1..])
  {
    hide LoadLE, StoreLE;
    var h := Headers(bitmap);
    assert ValidContainer(bitmap[0], marks[0]);
    Powers256();
    LoadStoreLE(bitmap[0].key, 2);
    LoadStoreLE(|bitmap[0].lows| - 1, 2);
    assert h[..2] == StoreLE(bitmap[0].key, 2);
    assert h[2..4] == StoreLE(|bitmap[0].lows| - 1, 2);
  }

  /** The first container, and the others. */
  lemma PayloadStep(headers: seq<byte>, marks: seq<bool>, first: seq<byte>, others: seq<byte>)
    requires marks != [] && |headers| == 4 * |marks|
    requires Extent(Cardinality(headers), marks[0], first + others) == Extent(Cardinality(headers), marks[0], first)
          == Some(|first|)
    requires PayloadExtent(headers[4..], marks[1..], others).Some?
    ensures PayloadExtent(headers, marks, first + others) ==
            Some(|first| + PayloadExtent(headers[4..], marks[1..], others).value)
    ensures ReadContainers(headers, marks, first + others) ==
            [Container(LoadLE(headers[..2]), ReadContainer(Cardinality(headers), marks[0], first))]
            + ReadContainers(headers[4..], marks[1..], others)
  {
    hide LoadLE, Cardinality, ReadContainer, Extent;
    assert (first + others)[..|first|] == first && (first + others)[|first|..] == others;
  }

  lemma {:induction false} HeadersDescribePayload(bitmap: Bitmap, marks: seq<bool>, rest: seq<byte>)
    requires ValidContainers(bitmap, marks)
    ensures PayloadExtent(Headers(bitmap), marks, Payload(bitmap, marks) + rest) == Some(|Payload(bitmap, marks)|)
    ensures ReadContainers(Headers(bitmap), marks, Payload(bitmap, marks) + rest) == bitmap
    decreases |bitmap|
  {
    hide LoadLE, StoreLE, Cardinality, ReadContainer, ContainerBytes, Extent, Headers, Payload, ReadContainers, PayloadExtent;
    if bitmap == [] {
      NoContainers(rest);
    } else {
      var first, others := ContainerBytes(bitmap[0].lows, marks[0]), Payload(bitmap[1..], marks[1..]);
      HeadersDescribePayload(bitmap[1..], marks[1..], rest);
      FirstHeader(bitmap, marks);
      ContainerReadsBack(bitmap[0], marks[0], others + rest);
      PayloadStep(Headers(bitmap), marks, first, others + rest);
      PayloadCons(bitmap, marks, rest);
    }
  }

  lemma NoContainers(rest: seq<byte>)
    ensures Payload([], []) == [] && PayloadExtent(Headers([]), [], [] + rest) == Some(0)
    ensures ReadContainers(Headers([]), [], [] + rest) == []
  {
  }

  lemma PayloadCons(bitmap: Bitmap, marks: seq<bool>, rest: seq<byte>)
    requires bitmap != [] && |marks| == |bitmap|
    ensures var first, others := ContainerBytes(bitmap[0].lows, marks[0]), Payload(bitmap[1..], marks[1..]);
      Payload(bitmap, marks) + rest == first + (others + rest) && |Payload(bitmap, marks)| == |first| + |others|
  {
    hide *;
    var first, others := ContainerBytes(bitmap[0].lows, marks[0]), Payload(bitmap[1..], marks[1..]);
    PayloadIs(bitmap, marks);
    assert (first + others) + rest == first + (others + rest);
  }

  lemma PayloadIs(bitmap: Bitmap, marks: seq<bool>)
    requires bitmap != [] && |marks| == |bitmap|
    ensures Payload(bitmap, marks) == ContainerBytes(bitmap[0].lows, marks[0]) + Payload(bitmap[1..], marks[1..])
  {
    hide ContainerBytes;
  }

  // ---- Round trip: the whole ----

  lemma {:induction false} FlagsReadBack(marks: seq<bool>)
    ensures Unpack(Flags(marks))[..|marks|] == marks
    decreases |marks|
  {
    if marks != [] {
      var first := if |marks| >= 8 then marks[..8] else marks + Zeros(8 - |marks|);
      var rest := if |marks| >= 8 then marks[8..] else [];
      FlagsReadBack(rest);
      BitsOfValue(first);
      hide BitsOf, ValueOf, Flags;
      var bytes := Flags(marks);
      assert bytes == [ByteOf(first)] + Flags(rest) by { FlagsStep(marks); }
      assert bytes[1..] == Flags(rest);
      assert BitsOf(bytes[0] as nat, 8) == first;
      assert Unpack(bytes) == first + Unpack(Flags(rest));
      assert marks == if |marks| >= 8 then first + rest else first[..|marks|];
    }
  }

  lemma FlagsStep(marks: seq<bool>)
    requires marks != []
    ensures var first := if |marks| >= 8 then marks[..8] else marks + Zeros(8 - |marks|);
      Flags(marks) == [ByteOf(first)] + Flags(if |marks| >= 8 then marks[8..] else [])
  {
  }

  lemma PlainPartsRead(bytes: seq<byte>, count: nat, headers: seq<byte>)
    requires count <= MAX_CONTAINERS && |headers| == 4 * count && |bytes| >= HeadSize(false, count)
    requires Holds(bytes, 0, StoreLE(COOKIE, 4)) && Holds(bytes, 4, StoreLE(count, 4)) && Holds(bytes, 8, headers)
    ensures LayoutOf(bytes) == Some(Layout(Zeros(count), headers, HeadSize(false, count)))
  {
    hide LoadAt, StoreLE, Power256;
    Powers256();
    StoredAt(bytes, 0, COOKIE, 4);
    StoredAt(bytes, 4, count, 4);
  }

  lemma LowByte(bytes: seq<byte>)
    requires bytes != []
    ensures LoadLE(bytes) % 256 == bytes[0] as nat
  {
  }

  /** The two cookies differ in their first byte. */
  lemma CookiesDiffer(bytes: seq<byte>)
    requires |bytes| >= 4 && LoadAt(bytes, 0, 2) == RUN_COOKIE
    ensures LoadAt(bytes, 0, 4) != COOKIE
  {
    hide LoadLE;
    LowByte(bytes[0..2]);
    LowByte(bytes[0..4]);
  }

  lemma RunFieldsRead(bytes: seq<byte>, marked: seq<bool>, headers: seq<byte>)
    requires marked != [] && |headers| == 4 * |marked| && |bytes| >= HeadSize(true, |marked|)
    requires |bytes| >= 4 && LoadAt(bytes, 2, 2) == |marked| - 1
    requires Holds(bytes, 4, Flags(marked)) && Holds(bytes, 4 + |Flags(marked)|, headers)
    ensures RunLayout(bytes) == Some(Layout(marked, headers, HeadSize(true, |marked|)))
  {
    hide LoadAt, Flags, Unpack, HeadSize;
    FlagsReadBack(marked);
    assert |Flags(marked)| == (|marked| + 7) / 8;
  }

  lemma RunPartsRead(bytes: seq<byte>, marked: seq<bool>, headers: seq<byte>)
    requires 0 < |marked| <= MAX_CONTAINERS && |headers| == 4 * |marked| && |bytes| >= HeadSize(true, |marked|)
    requires Holds(bytes, 0, StoreLE(RUN_COOKIE, 2)) && Holds(bytes, 2, StoreLE(|marked| - 1, 2))
    requires Holds(bytes, 4, Flags(marked)) && Holds(bytes, 4 + |Flags(marked)|, headers)
    ensures LayoutOf(bytes) == Some(Layout(marked, headers, HeadSize(true, |marked|)))
  {
    hide LoadAt, StoreLE, Power256, Flags, RunLayout;
    Powers256();
    StoredAt(bytes, 0, RUN_COOKIE, 2);
    StoredAt(bytes, 2, |marked| - 1, 2);
    CookiesDiffer(bytes);
    RunFieldsRead(bytes, marked, headers);
  }

  /** Two fields, then two more parts, at the start of some bytes. */
  lemma HeadParts(bytes: seq<byte>, a: seq<byte>, b: seq<byte>, c: seq<byte>, d: seq<byte>)
    requires Holds(bytes, 0, a + (b + (c + d)))
    ensures Holds(bytes, 0, a) && Holds(bytes, |a|, b) && Holds(bytes, |a| + |b|, c) && Holds(bytes, |a| + |b| + |c|, d)
  {
    hide Holds;
    HoldsParts(bytes, 0, a, b + (c + d));
    HoldsParts(bytes, |a|, b, c + d);
    HoldsParts(bytes, |a| + |b|, c, d);
  }

  lemma PlainHeadReads(bitmap: Bitmap, rest: seq<byte>)
    requires ValidBitmap(bitmap, NoRuns)
    ensures LayoutOf(Head(bitmap, NoRuns) + rest) ==
            Some(Layout(Zeros(|bitmap|), Headers(bitmap), |Head(bitmap, NoRuns)|))
  {
    hide Holds, StoreLE, Headers, Offsets, ValidContainers, LayoutOf;
    var n := |bitmap|;
    var bytes := Head(bitmap, NoRuns) + rest;
    HoldsStart(Head(bitmap, NoRuns), rest);
    HeadParts(bytes, StoreLE(COOKIE, 4), StoreLE(n, 4), Headers(bitmap), Offsets(bitmap, Zeros(n), HeadSize(false, n)));
    PlainPartsRead(bytes, n, Headers(bitmap));
  }

  lemma RunHeadParts(bitmap: Bitmap, marked: seq<bool>, bytes: seq<byte>)
    requires ValidBitmap(bitmap, WithRuns(marked)) && |marked| == |bitmap| > 0
    requires Holds(bytes, 0, Head(bitmap, WithRuns(marked)))
    ensures Holds(bytes, 0, StoreLE(RUN_COOKIE, 2)) && Holds(bytes, 2, StoreLE(|marked| - 1, 2))
    ensures Holds(bytes, 4, Flags(marked)) && Holds(bytes, 4 + |Flags(marked)|, Headers(bitmap))
  {
    hide Holds, StoreLE, Headers, RunOffsets, ValidContainers, Flags;
    var n := |bitmap|;
    var tail := Headers(bitmap) + RunOffsets(bitmap, marked);
    HeadParts(bytes, StoreLE(RUN_COOKIE, 2), StoreLE(n - 1, 2), Flags(marked), tail);
    HoldsParts(bytes, 4 + |Flags(marked)|, Headers(bitmap), RunOffsets(bitmap, marked));
  }

  lemma RunHeadReads(bitmap: Bitmap, marked: seq<bool>, rest: seq<byte>)
    requires ValidBitmap(bitmap, WithRuns(marked))
    ensures LayoutOf(Head(bitmap, WithRuns(marked)) + rest) ==
            Some(Layout(marked, Headers(bitmap), |Head(bitmap, WithRuns(marked))|))
  {
    hide Head, LayoutOf, Headers, Flags, StoreLE, ValidContainers, Holds;
    var bytes := Head(bitmap, WithRuns(marked)) + rest;
    HoldsStart(Head(bitmap, WithRuns(marked)), rest);
    MarksMatch(bitmap, WithRuns(marked));
    RunHeadParts(bitmap, marked, bytes);
    RunPartsRead(bytes, marked, Headers(bitmap));
  }

  lemma MarksMatch(bitmap: Bitmap, form: Form)
    requires ValidBitmap(bitmap, form)
    ensures |Marks(form, |bitmap|)| == |bitmap|
  {
  }

  lemma EncodingReads(bitmap: Bitmap, form: Form, rest: seq<byte>)
    requires ValidBitmap(bitmap, form)
    ensures var bytes := Encode(bitmap, form) + rest;
      && LayoutOf(bytes) == Some(Layout(Marks(form, |bitmap|), Headers(bitmap), |Head(bitmap, form)|))
      && bytes[|Head(bitmap, form)|..] == Payload(bitmap, Marks(form, |bitmap|)) + rest
  {
    hide Head, LayoutOf, Headers, Payload, ValidContainers;
    MarksMatch(bitmap, form);
    var head, payload := Head(bitmap, form), Payload(bitmap, Marks(form, |bitmap|));
    assert Encode(bitmap, form) + rest == head + (payload + rest);
    match form
    case NoRuns => PlainHeadReads(bitmap, payload + rest);
    case WithRuns(marked) => RunHeadReads(bitmap, marked, payload + rest);
  }

  /** The size of an encoding is found whatever follows it, exactly when the window holds all of it. */
  lemma SizeOfEncoding(bitmap: Bitmap, form: Form, rest: seq<byte>, maxBytes: nat)
    requires ValidBitmap(bitmap, form) && maxBytes <= |Encode(bitmap, form) + rest|
    ensures SerializedSize(Encode(bitmap, form) + rest, maxBytes) ==
            if maxBytes >= |Encode(bitmap, form)| then |Encode(bitmap, form)| else 0
  {
    var bytes := Encode(bitmap, form) + rest;
    EncodingReads(bitmap, form, rest);
    HeadersDescribePayload(bitmap, Marks(form, |bitmap|), rest);
    assert SizeIn(bytes) == |Encode(bitmap, form)|;
    hide SizeIn, Encode;
    SizeIsLocal(bytes, maxBytes);
  }

  /** An encoded bitmap decodes to itself, whichever of its containers were written as runs. */
  lemma DecodeOfEncode(bitmap: Bitmap, form: Form)
    requires ValidBitmap(bitmap, form)
    ensures SerializedSize(Encode(bitmap, form), |Encode(bitmap, form)|) == |Encode(bitmap, form)| > 0
    ensures Decode(Encode(bitmap, form)) == bitmap
  {
    var bytes := Encode(bitmap, form);
    assert bytes + [] == bytes;
    SizeOfEncoding(bitmap, form, [], |bytes|);
    EncodingReads(bitmap, form, []);
    HeadersDescribePayload(bitmap, Marks(form, |bitmap|), []);
  }

  // ---- Bounds ----

  /** Everything decoded is a set of 32-bit values. */
  lemma DecodeBounded(bytes: seq<byte>)
    requires SerializedSize(bytes, |bytes|) == |bytes| > 0
    ensures forall v :: v in Values(Decode(bytes)) ==> v < 0x1_0000_0000
  {
    hide Decode;
    var bitmap := Decode(bytes);
    forall v | v in Values(bitmap) ensures v < 0x1_0000_0000 {
      var i, j :| 0 <= i < |bitmap| && 0 <= j < |bitmap[i].lows| && v == ValueAt(bitmap[i].key, bitmap[i].lows[j]);
    }
  }
}
