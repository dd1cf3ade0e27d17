/** A set of 16-bit values as 65536 bits, least significant first within each byte: the container that
    takes the place of an array when that would be longer. */
module BitSets {
  import opened Words

  const SIZE := 8192

  predicate Increasing(values: seq<nat>) {
    forall i, j :: 0 <= i < j < |values| ==> values[i] < values[j]
  }

  /** The positions of the bits that are set, in order, counting from `start`. */
  function SetBits(bits: Bits, start: nat): (r: seq<nat>)
    decreases |bits|
  {
    if bits == [] then [] else (if bits[0] then [start] else []) + SetBits(bits[1..], start + 1)
  }

  function ReadBits(bytes: seq<byte>, start: nat): (r: seq<nat>)
    decreases |bytes|
  {
    if bytes == [] then [] else SetBits(BitsOf(bytes[0] as nat, 8), start) + ReadBits(bytes[1..], start + 8)
  }

  /** Which of the eight values of a byte are there. */
  function BitsAt(values: seq<nat>, k: nat): (r: Bits)
    ensures |r| == 8
  {
    seq(8, j requires 0 <= j < 8 => 8 * k + j in values)
  }

  function ByteAt(values: seq<nat>, k: nat): (r: byte) {
    BitsOfValue(BitsAt(values, k));
    assert Power2(8) == 256 by { EightBits(); }
    ValueOf(BitsAt(values, k)) as byte
  }

  lemma EightBits()
    ensures Power2(8) == 256
  {
    assert Power2(4) == 16;
    assert Power2(6) == 4 * Power2(4);
    assert Power2(8) == 4 * Power2(6);
  }

  /** The bytes from the k-th to the last. */
  function WriteFrom(values: seq<nat>, k: nat): (r: seq<byte>)
    requires k <= SIZE
    ensures |r| == SIZE - k
    decreases SIZE - k
  {
    if k == SIZE then [] else [ByteAt(values, k)] + WriteFrom(values, k + 1)
  }

  function WriteBits(values: seq<nat>): (r: seq<byte>)
    ensures |r| == SIZE
  {
    WriteFrom(values, 0)
  }

  // ---- Reading back ----

  lemma IncreasingConcat(a: seq<nat>, b: seq<nat>, bound: nat)
    requires Increasing(a) && Increasing(b)
    requires forall v :: v in a ==> v < bound
    requires forall v :: v in b ==> bound <= v
    ensures Increasing(a + b)
  {
    var all := a + b;
    forall i, j | 0 <= i < j < |all| ensures all[i] < all[j] {
      if i < |a| <= j {
        assert all[i] in a && all[j] in b;
      }
    }
  }

  lemma {:induction false} SetBitsExact(bits: Bits, start: nat)
    ensures Increasing(SetBits(bits, start))
    ensures forall v :: v in SetBits(bits, start) <==> start <= v < start + |bits| && bits[v - start]
    decreases |bits|
  {
    if bits != [] {
      SetBitsExact(bits[1..], start + 1);
      var first: seq<nat> := if bits[0] then [start] else [];
      IncreasingConcat(first, SetBits(bits[1..], start + 1), start + 1);
    }
  }

  /** Everything read is within the bytes it is read from. */
  lemma {:induction false} ReadBitsBounded(bytes: seq<byte>, start: nat)
    ensures Increasing(ReadBits(bytes, start))
    ensures forall v :: v in ReadBits(bytes, start) ==> start <= v < start + 8 * |bytes|
    decreases |bytes|
  {
    if bytes != [] {
      var first := SetBits(BitsOf(bytes[0] as nat, 8), start);
      SetBitsExact(BitsOf(bytes[0] as nat, 8), start);
      ReadBitsBounded(bytes[1..], start + 8);
      hide SetBits, BitsOf;
      IncreasingConcat(first, ReadBits(bytes[1..], start + 8), start + 8);
    }
  }

  lemma ByteHoldsBits(values: seq<nat>, k: nat)
    ensures BitsOf(ByteAt(values, k) as nat, 8) == BitsAt(values, k)
  {
    hide BitsAt, BitsOf, ValueOf;
    BitsOfValue(BitsAt(values, k));
  }

  lemma ByteReadsBack(values: seq<nat>, k: nat, v: nat)
    ensures v in SetBits(BitsOf(ByteAt(values, k) as nat, 8), 8 * k) <==> 8 * k <= v < 8 * k + 8 && v in values
  {
    hide SetBits, BitsOf, ByteAt;
    ByteHoldsBits(values, k);
    SetBitsExact(BitsAt(values, k), 8 * k);
    if 8 * k <= v < 8 * k + 8 {
      assert BitsAt(values, k)[v - 8 * k] == (8 * k + (v - 8 * k) in values);
    }
  }

  lemma WrittenStep(values: seq<nat>, k: nat, v: nat)
    requires k < SIZE
    ensures v in ReadBits(WriteFrom(values, k), 8 * k) <==>
            v in SetBits(BitsOf(ByteAt(values, k) as nat, 8), 8 * k) || v in ReadBits(WriteFrom(values, k + 1), 8 * (k + 1))
  {
    var written := WriteFrom(values, k);
    assert written[0] == ByteAt(values, k) && written[1..] == WriteFrom(values, k + 1);
  }

  lemma {:induction false} WrittenReadsBack(values: seq<nat>, k: nat, v: nat)
    requires k <= SIZE
    ensures v in ReadBits(WriteFrom(values, k), 8 * k) <==> 8 * k <= v < 8 * SIZE && v in values
    decreases SIZE - k
  {
    if k < SIZE {
      ByteReadsBack(values, k, v);
      WrittenReadsBack(values, k + 1, v);
      WrittenStep(values, k, v);
    }
  }

  /** Increasing sequences with the same values are the same. */
  lemma {:induction false} IncreasingUnique(a: seq<nat>, b: seq<nat>)
    requires Increasing(a) && Increasing(b) && forall v :: v in a <==> v in b
    ensures a == b
  {
    if a == [] {
      if b != [] {
        NotEmpty(b, a);
      }
    } else {
      NotEmpty(a, b);
      assert a[0] in a && a[0] in b;
      assert b[0] in b && b[0] in a;
      assert a[0] == b[0];
      forall v ensures v in a[1..] <==> v in b[1..] {
        RestWithout(a, v);
        RestWithout(b, v);
      }
      IncreasingUnique(a[1..], b[1..]);
      assert a == [a[0]] + a[1..] && b == [b[0]] + b[1..];
    }
  }

  lemma NotEmpty(a: seq<nat>, b: seq<nat>)
    requires a != [] && forall v :: v in a ==> v in b
    ensures b != []
  {
    assert a[0] in a;
  }

  lemma RestWithout(a: seq<nat>, v: nat)
    requires Increasing(a) && a != []
    ensures v in a[1..] <==> v in a && v != a[0]
  {
    assert a == [a[0]] + a[1..];
  }

  lemma BitsReadBack(values: seq<nat>)
    requires Increasing(values) && forall i :: 0 <= i < |values| ==> values[i] < 65536
    ensures ReadBits(WriteBits(values), 0) == values
  {
    forall v: nat ensures v in ReadBits(WriteBits(values), 0) <==> v in values {
      WrittenReadsBack(values, 0, v);
    }
    ReadBitsBounded(WriteBits(values), 0);
    hide ReadBits, WriteBits;
    IncreasingUnique(ReadBits(WriteBits(values), 0), values);
  }
}
