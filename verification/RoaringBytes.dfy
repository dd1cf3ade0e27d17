// What the roaring reader makes of arbitrary bytes, written by anybody: which bytes it takes for a
// bitmap, where each container stands, and which values the containers hold.
module RoaringBytes {

  import opened Wrappers
  import opened Words
  import opened BitSets
  import opened Roaring

  // ---------- The head ----------

  predicate PlainHead(bytes: seq<byte>, count: nat) {
    && |bytes| >= 8 && LoadLE(bytes[0..4]) == 12346
    && LoadLE(bytes[4..8]) == count && count <= 65536 && 8 + 8 * count <= |bytes|
  }

  /** From four containers on there are offsets, as there are without runs. */
  predicate RunHead(bytes: seq<byte>, count: nat) {
    && |bytes| >= 4 && LoadLE(bytes[0..2]) == 12347
    && LoadLE(bytes[2..4]) + 1 == count && 4 + (count + 7) / 8 + (if count < 4 then 4 else 8) * count <= |bytes|
  }

  /** The i-th bit of some bytes, the lowest of each first. */
  predicate BitIsSet(bytes: seq<byte>, i: nat)
    requires i < 8 * |bytes|
  {
    bytes[i / 8] as int / Power2(i % 8) % 2 == 1
  }

  lemma {:induction false} BitOfValue(value: nat, n: nat, j: nat)
    requires j < n
    ensures BitsOf(value, n)[j] <==> value / Power2(j) % 2 == 1
  {
    hide Power2;
    Doubles(j);
    if j > 0 {
      BitOfValue(value / 2, n - 1, j - 1);
      HalfOf(value, Power2(j - 1));
      hide BitsOf;
      assert value / 2 / Power2(j - 1) == value / Power2(j);
    }
  }

  lemma Doubles(j: nat)
    ensures Power2(j) == if j == 0 then 1 else 2 * Power2(j - 1)
  {
  }

  lemma HalfOf(value: nat, divisor: nat)
    requires divisor > 0
    ensures value / 2 / divisor == value / (2 * divisor)
  {
    var q := value / (2 * divisor);
    assert q * divisor * 2 <= value < (q + 1) * divisor * 2;
    assert q * divisor <= value / 2 < (q + 1) * divisor;
    QuotientIs(value / 2, divisor, q);
  }

  lemma QuotientIs(value: nat, divisor: nat, q: nat)
    requires divisor > 0 && q * divisor <= value < (q + 1) * divisor
    ensures value / divisor == q
  {
    var d := value / divisor;
    assert d * divisor <= value < (d + 1) * divisor;
    Multiples(d + 1, q, divisor);
    Multiples(q + 1, d, divisor);
  }

  lemma Multiples(a: nat, b: nat, divisor: nat)
    ensures a <= b ==> a * divisor <= b * divisor
  {
  }

  lemma {:induction false} UnpackedBit(bytes: seq<byte>, i: nat)
    requires i < 8 * |bytes|
    ensures Unpack(bytes)[i] <==> BitIsSet(bytes, i)
    decreases |bytes|
  {
    hide BitsOf, Power2;
    if i < 8 {
      BitOfValue(bytes[0] as nat, 8, i);
    } else {
      UnpackedBit(bytes[1..], i - 8);
      assert bytes[1..][(i - 8) / 8] == bytes[i / 8];
    }
  }

  lemma PlainExactly(bytes: seq<byte>, count: nat)
    requires PlainHead(bytes, count)
    ensures LayoutOf(bytes) == Some(Layout(seq(count, _ => false), bytes[8..8 + 4 * count], 8 + 8 * count))
  {
    hide LoadLE;
  }

  lemma RunExactly(bytes: seq<byte>, count: nat)
    requires RunHead(bytes, count)
    ensures LayoutOf(bytes).Some?
    ensures var flags := (count + 7) / 8; var layout := LayoutOf(bytes).value;
            && |layout.marks| == count
            && (forall i :: 0 <= i < count ==> (layout.marks[i] <==> BitIsSet(bytes[4..4 + flags], i)))
            && layout.headers == bytes[4 + flags..4 + flags + 4 * count]
            && layout.start == 4 + flags + (if count < 4 then 4 else 8) * count
  {
    hide LoadLE, BitIsSet, Unpack;
    CookiesDiffer(bytes);
    var flags := bytes[4..4 + (count + 7) / 8];
    forall i | 0 <= i < count ensures Unpack(flags)[i] <==> BitIsSet(flags, i) {
      UnpackedBit(flags, i);
    }
  }

  /** Nothing else has a layout. */
  lemma HeadExactly(bytes: seq<byte>)
    requires LayoutOf(bytes).Some?
    ensures PlainHead(bytes, |LayoutOf(bytes).value.marks|) || RunHead(bytes, |LayoutOf(bytes).value.marks|)
  {
    hide LoadLE, Unpack;
  }

  // ---------- The containers ----------

  /** The i-th container stands from `start` to `end`: runs tell their number, others have their cardinality from the head. */
  predicate ContainerAt(headers: seq<byte>, marks: seq<bool>, bytes: seq<byte>, i: nat, start: nat, end: nat)
    requires i < |marks| && |headers| == 4 * |marks|
  {
    && start <= end <= |bytes|
    && if marks[i] then start + 2 <= |bytes| && end == start + 2 + 4 * LoadLE(bytes[start..start + 2])
       else
         var cardinality := LoadLE(headers[4 * i + 2..4 * i + 4]) + 1;
         end == start + if cardinality <= 4096 then 2 * cardinality else 8192
  }

  predicate ContainersAt(headers: seq<byte>, marks: seq<bool>, bytes: seq<byte>, ends: seq<nat>)
    requires |headers| == 4 * |marks|
  {
    && |ends| == |marks| + 1 && ends[0] == 0
    && forall i :: 0 <= i < |marks| ==> ContainerAt(headers, marks, bytes, i, ends[i], ends[i + 1])
  }

  lemma FirstContainer(headers: seq<byte>, marks: seq<bool>, bytes: seq<byte>, end: nat)
    requires marks != [] && |headers| == 4 * |marks|
    ensures ContainerAt(headers, marks, bytes, 0, 0, end) <==> Extent(Cardinality(headers), marks[0], bytes) == Some(end)
  {
    hide LoadLE;
    if |bytes| >= 2 {
      assert bytes[0..2] == bytes[..2];
    }
  }

  lemma LaterContainer(headers: seq<byte>, marks: seq<bool>, bytes: seq<byte>, first: nat, i: nat, start: nat, end: nat)
    requires 0 < i < |marks| && |headers| == 4 * |marks| && first <= |bytes| && first <= start && first <= end
    ensures ContainerAt(headers, marks, bytes, i, start, end) <==>
            ContainerAt(headers[4..], marks[1..], bytes[first..], i - 1, start - first, end - first)
  {
    hide LoadLE;
    assert headers[4..][4 * (i - 1) + 2..4 * (i - 1) + 4] == headers[4 * i + 2..4 * i + 4];
    if start + 2 <= |bytes| {
      assert bytes[first..][start - first..start - first + 2] == bytes[start..start + 2];
    }
  }

  function Less(ends: seq<nat>, first: nat): (r: seq<nat>)
    requires forall i :: 0 <= i < |ends| ==> first <= ends[i]
    ensures |r| == |ends|
  {
    seq(|ends|, i requires 0 <= i < |ends| => ends[i] - first)
  }

  lemma {:induction false} EndsRise(headers: seq<byte>, marks: seq<bool>, bytes: seq<byte>, ends: seq<nat>, i: nat)
    requires |headers| == 4 * |marks| && ContainersAt(headers, marks, bytes, ends) && 1 <= i <= |marks|
    ensures ends[1] <= ends[i] <= |bytes|
  {
    hide LoadLE;
    assert ContainerAt(headers, marks, bytes, i - 1, ends[i - 1], ends[i]);
    if i > 1 {
      EndsRise(headers, marks, bytes, ends, i - 1);
    }
  }

  lemma RestContainers(headers: seq<byte>, marks: seq<bool>, bytes: seq<byte>, ends: seq<nat>)
    requires marks != [] && |headers| == 4 * |marks| && ContainersAt(headers, marks, bytes, ends)
    ensures ends[1] <= |bytes| && forall i :: 0 <= i < |ends[1..]| ==> ends[1] <= ends[1..][i]
    ensures ContainersAt(headers[4..], marks[1..], bytes[ends[1]..], Less(ends[1..], ends[1]))
    ensures Extent(Cardinality(headers), marks[0], bytes) == Some(ends[1])
  {
    hide ContainerAt;
    forall i | 1 <= i <= |marks| ensures ends[1] <= ends[i] <= |bytes| {
      EndsRise(headers, marks, bytes, ends, i);
    }
    assert ContainerAt(headers, marks, bytes, 0, ends[0], ends[1]);
    FirstContainer(headers, marks, bytes, ends[1]);
    var less := Less(ends[1..], ends[1]);
    forall i | 0 <= i < |marks| - 1
      ensures ContainerAt(headers[4..], marks[1..], bytes[ends[1]..], i, less[i], less[i + 1])
    {
      assert ContainerAt(headers, marks, bytes, i + 1, ends[i + 1], ends[i + 2]);
      LaterContainer(headers, marks, bytes, ends[1], i + 1, ends[i + 1], ends[i + 2]);
    }
  }

  /** What is read of the i-th container: its key from the head, its values from its own bytes. */
  predicate ReadAt(c: Container, headers: seq<byte>, marks: seq<bool>, bytes: seq<byte>, i: nat, start: nat, end: nat)
    requires i < |marks| && |headers| == 4 * |marks|
  {
    && c.key == LoadLE(headers[4 * i..4 * i + 2])
    && start <= end <= |bytes|
    && var own := bytes[start..end]; var cardinality := LoadLE(headers[4 * i + 2..4 * i + 4]) + 1;
       && Extent(cardinality, marks[i], own) == Some(|own|)
       && c.lows == ReadContainer(cardinality, marks[i], own)
  }

  lemma FirstReadAt(headers: seq<byte>, marks: seq<bool>, bytes: seq<byte>)
    requires marks != [] && |headers| == 4 * |marks| && PayloadExtent(headers, marks, bytes).Some?
    ensures var size := Extent(Cardinality(headers), marks[0], bytes).value; var read := ReadContainers(headers, marks, bytes);
            && |read| > 0 && ReadAt(read[0], headers, marks, bytes, 0, 0, size)
            && PayloadExtent(headers[4..], marks[1..], bytes[size..]).Some?
            && read[1..] == ReadContainers(headers[4..], marks[1..], bytes[size..])
  {
    hide LoadLE, ReadContainer, Extent, Cardinality, ReadContainers, PayloadExtent;
    FirstFound(headers, marks, bytes);
    var size := Extent(Cardinality(headers), marks[0], bytes).value;
    ExtentIsLocal(Cardinality(headers), marks[0], bytes, size);
    FirstRead(headers, marks, bytes, size);
    CardinalityIs(headers);
    assert bytes[0..size] == bytes[..size] && headers[4 * 0..4 * 0 + 2] == headers[..2];
  }

  lemma FirstFound(headers: seq<byte>, marks: seq<bool>, bytes: seq<byte>)
    requires marks != [] && |headers| == 4 * |marks| && PayloadExtent(headers, marks, bytes).Some?
    ensures Extent(Cardinality(headers), marks[0], bytes).Some?
    ensures PayloadExtent(headers[4..], marks[1..], bytes[Extent(Cardinality(headers), marks[0], bytes).value..]).Some?
  {
    hide Extent, Cardinality;
  }

  lemma FirstRead(headers: seq<byte>, marks: seq<bool>, bytes: seq<byte>, size: nat)
    requires marks != [] && |headers| == 4 * |marks| && PayloadExtent(headers, marks, bytes).Some?
    requires Extent(Cardinality(headers), marks[0], bytes) == Some(size)
    requires Extent(Cardinality(headers), marks[0], bytes[..size]) == Some(size)
    requires PayloadExtent(headers[4..], marks[1..], bytes[size..]).Some?
    ensures var read := ReadContainers(headers, marks, bytes);
            && |read| > 0 && read[1..] == ReadContainers(headers[4..], marks[1..], bytes[size..])
            && read[0] == Container(LoadLE(headers[..2]), ReadContainer(Cardinality(headers), marks[0], bytes[..size]))
  {
    hide LoadLE, ReadContainer, Extent, Cardinality, PayloadExtent;
  }

  lemma CardinalityIs(headers: seq<byte>)
    requires |headers| >= 4
    ensures Cardinality(headers) == LoadLE(headers[4 * 0 + 2..4 * 0 + 4]) + 1
  {
    hide LoadLE;
  }

  lemma LaterReadAt(c: Container, headers: seq<byte>, marks: seq<bool>, bytes: seq<byte>, first: nat, i: nat, start: nat,
                    end: nat)
    requires 0 < i < |marks| && |headers| == 4 * |marks| && first <= start <= end <= |bytes|
    requires ReadAt(c, headers[4..], marks[1..], bytes[first..], i - 1, start - first, end - first)
    ensures ReadAt(c, headers, marks, bytes, i, start, end)
  {
    hide LoadLE, ReadContainer, Extent;
    assert headers[4..][4 * (i - 1)..4 * (i - 1) + 2] == headers[4 * i..4 * i + 2];
    assert headers[4..][4 * (i - 1) + 2..4 * (i - 1) + 4] == headers[4 * i + 2..4 * i + 4];
    assert bytes[first..][start - first..end - first] == bytes[start..end];
  }

  /** Containers that stand one after the other are measured as a whole, and each is read from its own bytes. */
  lemma {:induction false} ContainersAreRead(headers: seq<byte>, marks: seq<bool>, bytes: seq<byte>, ends: seq<nat>)
    requires |headers| == 4 * |marks| && ContainersAt(headers, marks, bytes, ends)
    ensures PayloadExtent(headers, marks, bytes) == Some(ends[|marks|])
    ensures var read := ReadContainers(headers, marks, bytes);
            && |read| == |marks|
            && forall i :: 0 <= i < |marks| ==> ReadAt(read[i], headers, marks, bytes, i, ends[i], ends[i + 1])
    decreases |marks|
  {
    hide ContainerAt, ContainersAt, ReadAt, Extent, Cardinality, ReadContainers;
    if marks == [] {
      NothingRead(headers, bytes, ends);
    } else {
      EndsHold(headers, marks, bytes, ends, 0);
      var first := ends[1];
      RestContainers(headers, marks, bytes, ends);
      var less := Less(ends[1..], first);
      ContainersAreRead(headers[4..], marks[1..], bytes[first..], less);
      FirstReadAt(headers, marks, bytes);
      var read := ReadContainers(headers, marks, bytes);
      forall i | 0 <= i < |marks| ensures ReadAt(read[i], headers, marks, bytes, i, ends[i], ends[i + 1]) {
        if i > 0 {
          assert read[i] == read[1..][i - 1];
          EndsRise(headers, marks, bytes, ends, i);
          EndsHold(headers, marks, bytes, ends, i);
          assert ReadAt(read[1..][i - 1], headers[4..], marks[1..], bytes[first..], i - 1, less[i - 1], less[i]);
          assert less[i - 1] == ends[i] - first && less[i] == ends[i + 1] - first;
          LaterReadAt(read[i], headers, marks, bytes, first, i, ends[i], ends[i + 1]);
        }
      }
    }
  }

  lemma NothingRead(headers: seq<byte>, bytes: seq<byte>, ends: seq<nat>)
    requires headers == [] && ContainersAt(headers, [], bytes, ends)
    ensures |ends| == 1 && ends[0] == 0
    ensures PayloadExtent(headers, [], bytes) == Some(0) && ReadContainers(headers, [], bytes) == []
  {
  }

  lemma EndsHold(headers: seq<byte>, marks: seq<bool>, bytes: seq<byte>, ends: seq<nat>, i: nat)
    requires |headers| == 4 * |marks| && ContainersAt(headers, marks, bytes, ends) && i < |marks|
    ensures |ends| == |marks| + 1 && ends[0] == 0 && ends[i] <= ends[i + 1] <= |bytes|
  {
    hide LoadLE;
    assert ContainerAt(headers, marks, bytes, i, ends[i], ends[i + 1]);
  }

  /** And only such containers are measured. */
  lemma {:induction false} MeasuredContainers(headers: seq<byte>, marks: seq<bool>, bytes: seq<byte>) returns (ends: seq<nat>)
    requires |headers| == 4 * |marks| && PayloadExtent(headers, marks, bytes).Some?
    ensures ContainersAt(headers, marks, bytes, ends)
    decreases |marks|
  {
    hide ContainerAt, Extent, Cardinality;
    if marks == [] {
      return [0];
    }
    var first := Extent(Cardinality(headers), marks[0], bytes).value;
    FirstContainer(headers, marks, bytes, first);
    var rest := MeasuredContainers(headers[4..], marks[1..], bytes[first..]);
    ends := [0] + seq(|rest|, i requires 0 <= i < |rest| => rest[i] + first);
    forall i | 0 <= i < |marks| ensures ContainerAt(headers, marks, bytes, i, ends[i], ends[i + 1]) {
      if i > 0 {
        assert ContainerAt(headers[4..], marks[1..], bytes[first..], i - 1, rest[i - 1], rest[i]);
        LaterContainer(headers, marks, bytes, first, i, ends[i], ends[i + 1]);
      }
    }
  }

  // ---------- The whole ----------

  /** A layout, and containers that stand one after the other behind the head, the last ending at `size`. */
  predicate IsBitmap(bytes: seq<byte>, layout: Layout, ends: seq<nat>, size: nat) {
    && LayoutOf(bytes) == Some(layout) && layout.start <= |bytes| && |layout.headers| == 4 * |layout.marks|
    && ContainersAt(layout.headers, layout.marks, bytes[layout.start..], ends)
    && size == layout.start + ends[|layout.marks|]
  }

  /** Any bytes are taken for a bitmap of `size` bytes exactly if they start with a head and its containers. */
  lemma SizeExactly(bytes: seq<byte>, size: nat)
    ensures SizeIn(bytes) == size && size > 0 <==> exists layout, ends :: IsBitmap(bytes, layout, ends, size)
  {
    hide LayoutOf, PayloadExtent, ContainersAt;
    if SizeIn(bytes) == size && size > 0 {
      var layout := LayoutOf(bytes).value;
      var ends := MeasuredContainers(layout.headers, layout.marks, bytes[layout.start..]);
      ContainersAreRead(layout.headers, layout.marks, bytes[layout.start..], ends);
      assert IsBitmap(bytes, layout, ends, size);
    }
    if layout, ends :| IsBitmap(bytes, layout, ends, size) {
      ContainersAreRead(layout.headers, layout.marks, bytes[layout.start..], ends);
    }
  }

  /** What is read from bytes that are a bitmap and nothing else: each container, from its own bytes. */
  lemma DecodeExactly(bytes: seq<byte>, layout: Layout, ends: seq<nat>)
    requires IsBitmap(bytes, layout, ends, |bytes|)
    ensures SerializedSize(bytes, |bytes|) == |bytes| > 0
    ensures |layout.headers| == 4 * |layout.marks| && |ends| == |layout.marks| + 1 && layout.start <= |bytes|
    ensures var read := Decode(bytes);
            && |read| == |layout.marks|
            && forall i :: 0 <= i < |read| ==>
                 ReadAt(read[i], layout.headers, layout.marks, bytes[layout.start..], i, ends[i], ends[i + 1])
  {
    hide LayoutOf, PayloadExtent, ContainerAt, ReadAt, ReadContainers;
    ContainersAreRead(layout.headers, layout.marks, bytes[layout.start..], ends);
    assert bytes[..|bytes|] == bytes;
  }

  // ---------- The values of a container ----------

  lemma {:induction false} LowsExactly(bytes: seq<byte>)
    ensures |ReadLows(bytes)| == |bytes| / 2
    ensures forall i :: 0 <= i < |bytes| / 2 ==> ReadLows(bytes)[i] == LoadLE(bytes[2 * i..2 * i + 2])
    decreases |bytes|
  {
    hide LoadLE;
    if |bytes| >= 2 {
      LowsExactly(bytes[2..]);
      assert bytes[..2] == bytes[0..2];
      forall i | 0 < i < |bytes| / 2 ensures ReadLows(bytes)[i] == LoadLE(bytes[2 * i..2 * i + 2]) {
        assert bytes[2..][2 * (i - 1)..2 * (i - 1) + 2] == bytes[2 * i..2 * i + 2];
      }
    }
  }

  lemma {:induction false} ConsecutiveExactly(start: nat, more: nat, v: nat)
    ensures v in Consecutive(start, more) <==> start <= v <= start + more
    decreases more
  {
    ConsecutiveIs(start, more);
    hide Consecutive;
    if more > 0 {
      ConsecutiveExactly(start + 1, more - 1, v);
    }
  }

  lemma ConsecutiveIs(start: nat, more: nat)
    ensures Consecutive(start, more) == [start] + if more == 0 then [] else Consecutive(start + 1, more - 1)
  {
  }

  /** The i-th run covers a value. */
  predicate RunCovers(bytes: seq<byte>, i: nat, v: nat)
    requires 4 * i + 4 <= |bytes|
  {
    var first := LoadLE(bytes[4 * i..4 * i + 2]);
    first <= v <= first + LoadLE(bytes[4 * i + 2..4 * i + 4])
  }

  lemma LaterRun(bytes: seq<byte>, i: nat, v: nat)
    requires i > 0 && 4 * i + 4 <= |bytes|
    ensures RunCovers(bytes[4..], i - 1, v) <==> RunCovers(bytes, i, v)
  {
    hide LoadLE;
    assert bytes[4..][4 * (i - 1)..4 * (i - 1) + 2] == bytes[4 * i..4 * i + 2];
    assert bytes[4..][4 * (i - 1) + 2..4 * (i - 1) + 4] == bytes[4 * i + 2..4 * i + 4];
  }

  lemma FirstRun(bytes: seq<byte>, v: nat)
    requires |bytes| >= 4
    ensures v in ReadRuns(bytes) <==> RunCovers(bytes, 0, v) || v in ReadRuns(bytes[4..])
  {
    hide LoadLE, Consecutive;
    ConsecutiveExactly(LoadLE(bytes[..2]), LoadLE(bytes[2..4]), v);
    assert bytes[..2] == bytes[0..2];
  }

  lemma {:induction false} RunsExactly(bytes: seq<byte>, v: nat)
    ensures v in ReadRuns(bytes) <==> exists i :: 0 <= i < |bytes| / 4 && RunCovers(bytes, i, v)
    decreases |bytes|
  {
    hide RunCovers;
    if |bytes| >= 4 {
      hide ReadRuns;
      var rest := bytes[4..];
      FirstRun(bytes, v);
      RunsExactly(rest, v);
      forall i | 0 < i < |bytes| / 4 ensures RunCovers(rest, i - 1, v) <==> RunCovers(bytes, i, v) {
        LaterRun(bytes, i, v);
      }
      if i :| 0 <= i < |rest| / 4 && RunCovers(rest, i, v) {
        assert RunCovers(bytes, i + 1, v);
      }
    }
  }

  lemma FirstEight(bytes: seq<byte>, start: nat, v: nat)
    requires bytes != []
    ensures v in ReadBits(bytes, start) <==>
            (start <= v < start + 8 && BitIsSet(bytes, v - start)) || v in ReadBits(bytes[1..], start + 8)
  {
    hide BitsOf, SetBits;
    var bits := BitsOf(bytes[0] as nat, 8);
    SetBitsExact(bits, start);
    if start <= v < start + 8 {
      BitOfValue(bytes[0] as nat, 8, v - start);
    }
  }

  lemma LaterBit(bytes: seq<byte>, i: nat)
    requires 8 <= i < 8 * |bytes|
    ensures BitIsSet(bytes[1..], i - 8) <==> BitIsSet(bytes, i)
  {
    assert bytes[1..][(i - 8) / 8] == bytes[i / 8];
  }

  lemma {:induction false} BitSetExactly(bytes: seq<byte>, start: nat, v: nat)
    ensures v in ReadBits(bytes, start) <==> start <= v < start + 8 * |bytes| && BitIsSet(bytes, v - start)
    decreases |bytes|
  {
    hide BitIsSet, SetBits;
    if bytes != [] {
      hide ReadBits;
      FirstEight(bytes, start, v);
      BitSetExactly(bytes[1..], start + 8, v);
      if start + 8 <= v < start + 8 * |bytes| {
        LaterBit(bytes, v - start);
      }
    }
  }

  /** The values of a container, whatever its bytes are: those its runs cover, its array lists, or its bits mark. */
  lemma ContainerExactly(cardinality: nat, asRuns: bool, bytes: seq<byte>, v: nat)
    requires Extent(cardinality, asRuns, bytes) == Some(|bytes|)
    ensures v in ReadContainer(cardinality, asRuns, bytes) <==>
            if asRuns then exists i :: 0 <= i < |bytes[2..]| / 4 && RunCovers(bytes[2..], i, v)
            else if cardinality <= 4096 then exists i :: 0 <= i < |bytes| / 2 && LoadLE(bytes[2 * i..2 * i + 2]) == v
            else v < 65536 && BitIsSet(bytes, v)
  {
    hide LoadLE, RunCovers, BitIsSet, ReadRuns, ReadLows, ReadBits;
    if asRuns {
      RunsExactly(bytes[2..], v);
    } else if cardinality <= 4096 {
      LowsExactly(bytes);
      var lows := ReadLows(bytes);
      if i :| 0 <= i < |lows| && lows[i] == v {
        assert LoadLE(bytes[2 * i..2 * i + 2]) == v;
      }
      if i :| 0 <= i < |bytes| / 2 && LoadLE(bytes[2 * i..2 * i + 2]) == v {
        assert lows[i] == v;
      }
    } else {
      BitSetExactly(bytes, 0, v);
    }
  }
}
