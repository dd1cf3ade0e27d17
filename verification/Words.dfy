/** Bytes, and unsigned words as their bits, least significant first: what `>>`, `^`, `&` and the
    little- and big-endian loads of fixed-width integers mean. */
module Words {

  newtype byte = b: int | 0 <= b < 256
  type Bits = seq<bool>

  /** A 32-bit unsigned word. */
  type Word = w: seq<bool> | |w| == 32 witness seq(32, _ => false)

  function Zeros(n: nat): (r: Bits)
    ensures |r| == n
  {
    seq(n, _ => false)
  }

  function Xor(a: Word, b: Word): (r: Word) {
    seq(32, i requires 0 <= i < 32 => a[i] != b[i])
  }

  /** `w >> n`, for a shift by less than the width. */
  function ShiftRight(w: Word, n: nat): (r: Word)
    requires n <= 32
  {
    w[n..] + Zeros(n)
  }

  /** `w & 0xFF`. */
  function LowByte(w: Word): (r: Word) {
    w[..8] + Zeros(24)
  }

  function BitsOf(value: nat, n: nat): (r: Bits)
    ensures |r| == n
  {
    if n == 0 then [] else [value % 2 == 1] + BitsOf(value / 2, n - 1)
  }

  function ValueOf(bits: Bits): (r: nat)
    decreases |bits|
  {
    if bits == [] then 0 else (if bits[0] then 1 else 0) + 2 * ValueOf(bits[1..])
  }

  function WordOf(value: nat): (r: Word)
    requires value < 0x1_0000_0000
  {
    BitsOf(value, 32)
  }

  function Power2(n: nat): (r: nat)
    ensures r >= 1
  {
    if n == 0 then 1 else 2 * Power2(n - 1)
  }

  lemma {:induction false} BitsOfValue(bits: Bits)
    ensures BitsOf(ValueOf(bits), |bits|) == bits && ValueOf(bits) < Power2(|bits|)
    decreases |bits|
  {
    if bits != [] {
      BitsOfValue(bits[1..]);
    }
  }

  lemma {:induction false} ValueOfBits(value: nat, n: nat)
    requires value < Power2(n)
    ensures ValueOf(BitsOf(value, n)) == value
  {
    if n > 0 {
      ValueOfBits(value / 2, n - 1);
      assert BitsOf(value, n)[1..] == BitsOf(value / 2, n - 1);
    }
  }

  lemma {:induction false} ZerosValue(n: nat)
    ensures BitsOf(0, n) == Zeros(n)
  {
    if n > 0 {
      ZerosValue(n - 1);
    }
  }

  /** The highest bit of a value. */
  lemma {:induction false} HighestBit(value: nat, n: nat)
    requires n > 0 && value < Power2(n)
    ensures BitsOf(value, n)[n - 1] <==> value >= Power2(n - 1)
  {
    if n > 1 {
      HighestBit(value / 2, n - 1);
    }
  }

  /** Bits beyond those a value needs are zero. */
  lemma {:induction false} BitsOfSmall(value: nat, n: nat, extra: nat)
    requires value < Power2(n)
    ensures BitsOf(value, n + extra) == BitsOf(value, n) + Zeros(extra)
  {
    if n == 0 {
      ZerosValue(extra);
    } else {
      BitsOfSmall(value / 2, n - 1, extra);
      assert BitsOf(value, n + extra) == [value % 2 == 1] + (BitsOf(value / 2, n - 1) + Zeros(extra));
    }
  }

  lemma ByteFits(value: nat)
    requires value < 256
    ensures value < Power2(8)
  {
    assert Power2(4) == 16;
    assert Power2(6) == 4 * Power2(4);
    assert Power2(8) == 4 * Power2(6);
  }

  // ---- Stored integers ----

  /** Little-endian bytes of a value, modulo the width. */
  function StoreLE(value: nat, width: nat): (r: seq<byte>)
    ensures |r| == width
  {
    if width == 0 then [] else [(value % 256) as byte] + StoreLE(value / 256, width - 1)
  }

  function LoadLE(bytes: seq<byte>): (r: nat)
    decreases |bytes|
  {
    if bytes == [] then 0 else bytes[0] as int + 256 * LoadLE(bytes[1..])
  }

  function Power256(n: nat): (r: nat)
    ensures r >= 1
  {
    if n == 0 then 1 else 256 * Power256(n - 1)
  }

  lemma {:induction false} LoadStoreLE(value: nat, width: nat)
    requires value < Power256(width)
    ensures LoadLE(StoreLE(value, width)) == value
  {
    if width > 0 {
      LoadStoreLE(value / 256, width - 1);
      assert StoreLE(value, width)[1..] == StoreLE(value / 256, width - 1);
    }
  }

  lemma {:induction false} LoadBound(bytes: seq<byte>)
    ensures LoadLE(bytes) < Power256(|bytes|)
    decreases |bytes|
  {
    if bytes != [] {
      LoadBound(bytes[1..]);
    }
  }

  /** `part` stands in `bytes` from `pos` on. */
  predicate Holds(bytes: seq<byte>, pos: nat, part: seq<byte>) {
    pos + |part| <= |bytes| && bytes[pos..pos + |part|] == part
  }

  lemma HoldsParts(bytes: seq<byte>, pos: nat, a: seq<byte>, b: seq<byte>)
    requires Holds(bytes, pos, a + b)
    ensures Holds(bytes, pos, a) && Holds(bytes, pos + |a|, b)
  {
    var whole := bytes[pos..pos + |a + b|];
    assert bytes[pos..pos + |a|] == whole[..|a|];
    assert bytes[pos + |a|..pos + |a| + |b|] == whole[|a|..];
  }

  lemma HoldsStart(a: seq<byte>, b: seq<byte>)
    ensures Holds(a + b, 0, a)
  {
    assert (a + b)[0..|a|] == a;
  }

  /** Two and four bytes, least significant first or last. */
  lemma LoadsSpelledOut(a: byte, b: byte, c: byte, d: byte)
    ensures LoadLE([a, b]) == a as int + 0x100 * b as int
    ensures LoadLE([a, b, c, d]) == a as int + 0x100 * b as int + 0x1_0000 * c as int + 0x100_0000 * d as int
    ensures LoadBE([a, b, c, d]) == d as int + 0x100 * c as int + 0x1_0000 * b as int + 0x100_0000 * a as int
  {
    TwoBytes(a, b);
    FourBytes(a, b, c, d);
    FourBytes(d, c, b, a);
    assert Reverse([a, b, c, d]) == [d, c, b, a];
  }

  lemma TwoBytes(a: byte, b: byte)
    ensures LoadLE([a, b]) == a as int + 0x100 * b as int
  {
    assert LoadLE([]) == 0;
    OneByteMore(b, []);
    OneByteMore(a, [b]);
    assert [b] + [] == [b] && [a] + [b] == [a, b];
  }

  lemma FourBytes(a: byte, b: byte, c: byte, d: byte)
    ensures LoadLE([a, b, c, d]) == a as int + 0x100 * b as int + 0x1_0000 * c as int + 0x100_0000 * d as int
  {
    hide LoadLE;
    TwoBytes(c, d);
    OneByteMore(b, [c, d]);
    OneByteMore(a, [b, c, d]);
    assert [b] + [c, d] == [b, c, d] && [a] + [b, c, d] == [a, b, c, d];
  }

  lemma {:induction false} LoadIsInjective(a: seq<byte>, b: seq<byte>)
    requires |a| == |b| && LoadLE(a) == LoadLE(b)
    ensures a == b
    decreases |a|
  {
    if a != [] {
      assert LoadLE(a) % 256 == a[0] as int && LoadLE(b) % 256 == b[0] as int;
      LoadIsInjective(a[1..], b[1..]);
      assert a == [a[0]] + a[1..] && b == [b[0]] + b[1..];
    }
  }

  lemma LoadBEIsInjective(a: seq<byte>, b: seq<byte>)
    requires |a| == |b| && LoadBE(a) == LoadBE(b)
    ensures a == b
  {
    hide LoadLE;
    LoadIsInjective(Reverse(a), Reverse(b));
    assert Reverse(Reverse(a)) == a && Reverse(Reverse(b)) == b;
  }

  lemma OneByteMore(first: byte, rest: seq<byte>)
    ensures LoadLE([first] + rest) == first as int + 256 * LoadLE(rest)
  {
    assert ([first] + rest)[1..] == rest;
  }

  /** A little-endian load from the middle. */
  function LoadAt(bytes: seq<byte>, pos: nat, width: nat): (r: nat)
    requires pos + width <= |bytes|
  {
    LoadLE(bytes[pos..pos + width])
  }

  lemma StoredAt(bytes: seq<byte>, pos: nat, value: nat, width: nat)
    requires value < Power256(width) && Holds(bytes, pos, StoreLE(value, width))
    ensures LoadAt(bytes, pos, width) == value
  {
    hide LoadLE, StoreLE, Power256;
    LoadStoreLE(value, width);
  }

  lemma LoadIsLocal(bytes: seq<byte>, window: nat, pos: nat, width: nat)
    requires pos + width <= window <= |bytes|
    ensures LoadAt(bytes[..window], pos, width) == LoadAt(bytes, pos, width)
  {
    hide LoadLE;
    SliceOfStart(bytes, window, pos, pos + width);
  }

  lemma SliceOfStart(bytes: seq<byte>, window: nat, start: nat, end: nat)
    requires start <= end <= window <= |bytes|
    ensures bytes[..window][start..end] == bytes[start..end]
  {
  }

  function Reverse(bytes: seq<byte>): (r: seq<byte>)
    ensures |r| == |bytes| && forall i :: 0 <= i < |r| ==> r[i] == bytes[|bytes| - 1 - i]
  {
    seq(|bytes|, i requires 0 <= i < |bytes| => bytes[|bytes| - 1 - i])
  }

  /** A big-endian load: the byte-swapped little-endian one. */
  function LoadBE(bytes: seq<byte>): (r: nat) {
    LoadLE(Reverse(bytes))
  }

  function StoreBE(value: nat, width: nat): (r: seq<byte>)
    ensures |r| == width
  {
    Reverse(StoreLE(value, width))
  }

  lemma LoadStoreBE(value: nat, width: nat)
    requires value < Power256(width)
    ensures LoadBE(StoreBE(value, width)) == value
  {
    LoadStoreLE(value, width);
    assert Reverse(Reverse(StoreLE(value, width))) == StoreLE(value, width);
  }

  lemma Powers256()
    ensures Power256(2) == 0x1_0000 && Power256(4) == 0x1_0000_0000 && Power256(8) == 0x1_0000_0000_0000_0000
  {
    assert Power256(2) == 0x1_0000;
    assert Power256(4) == 0x1_0000 * Power256(2);
    assert Power256(6) == 0x1_0000 * Power256(4);
    assert Power256(8) == 0x1_0000 * Power256(6);
  }

  lemma {:induction false} Power2Is256(n: nat)
    ensures Power2(8 * n) == Power256(n)
  {
    if n > 0 {
      Power2Is256(n - 1);
      var p := Power2(8 * n - 8);
      assert Power2(8 * n - 6) == 4 * p;
      assert Power2(8 * n - 4) == 4 * Power2(8 * n - 6);
      assert Power2(8 * n - 2) == 4 * Power2(8 * n - 4);
      assert Power2(8 * n) == 4 * Power2(8 * n - 2);
    }
  }

  /** A 32-bit word has a value below 2^32 and is recovered from it. */
  lemma WordValue(w: Word)
    ensures ValueOf(w) < 0x1_0000_0000 && WordOf(ValueOf(w)) == w
  {
    BitsOfValue(w);
    Power2Is256(4);
    Powers256();
  }

  /** The two's-complement reading of a stored value of `bits` bits. */
  function Signed(value: nat, modulus: nat): (r: int)
    requires value < modulus
  {
    var v: int := value;
    if 2 * v >= modulus then v - modulus else v
  }

  function Unsigned(value: int, modulus: nat): (r: nat)
    requires 0 <= 2 * value + modulus && 2 * value < modulus
    ensures r < modulus && Signed(r, modulus) == value
  {
    if value < 0 then value + modulus else value
  }
}
