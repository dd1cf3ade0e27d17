/** The checksum of the deletion-vector decoder: the reflected CRC-32 of section 8 of RFC 1952,
    computed a byte at a time from a 256-entry table. */
module Crc32 {
  import opened Words

  function Polynomial(): (r: Word) {
    WordOf(0xEDB88320)
  }

  function Ones(): (r: Word) {
    seq(32, _ => true)
  }

  // ---- Reference: the register is shifted one message bit at a time, least significant bit first ----

  function FeedBit(register: Word, bit: bool): (r: Word) {
    if register[0] != bit then Xor(Polynomial(), ShiftRight(register, 1)) else ShiftRight(register, 1)
  }

  function FeedBits(register: Word, bits: Bits): (r: Word)
    decreases |bits|
  {
    if bits == [] then register else FeedBits(FeedBit(register, bits[0]), bits[1..])
  }

  function MessageBits(data: seq<byte>): (bits: Bits)
    decreases |data|
  {
    if data == [] then [] else BitsOf(data[0] as int, 8) + MessageBits(data[1..])
  }

  /** The checksum of `data`, from the definition: start with all ones, feed every bit, complement. */
  function Checksum(data: seq<byte>): (r: Word) {
    Xor(FeedBits(Ones(), MessageBits(data)), Ones())
  }

  lemma {:induction false} FeedBitsConcat(register: Word, a: Bits, b: Bits)
    ensures FeedBits(register, a + b) == FeedBits(FeedBits(register, a), b)
    decreases |a|
  {
    if a == [] {
      assert a + b == b;
    } else {
      assert (a + b)[0] == a[0] && (a + b)[1..] == a[1..] + b;
      FeedBitsConcat(FeedBit(register, a[0]), a[1..], b);
    }
  }

  lemma {:induction false} MessageBitsConcat(a: seq<byte>, b: seq<byte>)
    ensures MessageBits(a + b) == MessageBits(a) + MessageBits(b)
    decreases |a|
  {
    if a == [] {
      assert a + b == b;
    } else {
      assert (a + b)[0] == a[0] && (a + b)[1..] == a[1..] + b;
      MessageBitsConcat(a[1..], b);
    }
  }

  /** Updating with `a` and then `b` is updating with their concatenation. */
  lemma UpdateConcat(register: Word, a: seq<byte>, b: seq<byte>)
    ensures FeedBits(register, MessageBits(a + b)) == FeedBits(FeedBits(register, MessageBits(a)), MessageBits(b))
  {
    MessageBitsConcat(a, b);
    FeedBitsConcat(register, MessageBits(a), MessageBits(b));
  }

  // ---- The table ----

  function TableStep(c: Word): (r: Word) {
    if c[0] then Xor(Polynomial(), ShiftRight(c, 1)) else ShiftRight(c, 1)
  }

  function TableSteps(c: Word, n: nat): (r: Word) {
    if n == 0 then c else TableStep(TableSteps(c, n - 1))
  }

  function TableEntry(i: nat): (r: Word)
    requires i < 256
  {
    TableSteps(WordOf(i), 8)
  }

  // ---- Facts about words ----

  lemma ShiftOfXor(a: Word, b: Word, n: nat)
    requires n <= 32
    ensures ShiftRight(Xor(a, b), n) == Xor(ShiftRight(a, n), ShiftRight(b, n))
  {
  }

  lemma XorAssociates(a: Word, b: Word, c: Word)
    ensures Xor(a, Xor(b, c)) == Xor(Xor(a, b), c)
  {
  }

  lemma ShiftAgain(w: Word, n: nat)
    requires n < 32
    ensures ShiftRight(ShiftRight(w, n), 1) == ShiftRight(w, n + 1) && ShiftRight(w, n)[0] == w[n]
  {
  }

  lemma NoShift(w: Word)
    ensures ShiftRight(w, 0) == w
  {
  }

  lemma NoXor(w: Word)
    ensures Xor(w, Zeros(32)) == w
  {
  }

  lemma FirstOfXor(a: Word, b: Word)
    ensures Xor(a, b)[0] == (a[0] != b[0])
  {
  }

  // ---- One table lookup is eight bit steps ----

  /** Feeding the low bit of `rest` to the register, against stepping the two xored together. */
  lemma FeedIsStep(register: Word, rest: Word)
    ensures TableStep(Xor(register, rest)) == Xor(FeedBit(register, rest[0]), ShiftRight(rest, 1))
  {
    hide Xor, ShiftRight, Polynomial;
    FirstOfXor(register, rest);
    ShiftOfXor(register, rest, 1);
    XorAssociates(Polynomial(), ShiftRight(register, 1), ShiftRight(rest, 1));
  }

  lemma FeedOne(register: Word, bit: bool)
    ensures FeedBits(register, [bit]) == FeedBit(register, bit)
  {
    hide FeedBit;
    assert [bit][1..] == [];
  }

  lemma FeedSnoc(register: Word, bits: Bits, n: nat)
    requires n < |bits|
    ensures FeedBits(register, bits[..n + 1]) == FeedBit(FeedBits(register, bits[..n]), bits[n])
  {
    hide FeedBits, FeedBit;
    assert bits[..n + 1] == bits[..n] + [bits[n]];
    FeedBitsConcat(register, bits[..n], [bits[n]]);
    FeedOne(FeedBits(register, bits[..n]), bits[n]);
  }

  /** `n` steps of a register xored with `rest` feed the register the `n` low bits of `rest`. */
  lemma {:induction false} FeedIsSteps(register: Word, rest: Word, n: nat)
    requires n <= 32
    ensures TableSteps(Xor(register, rest), n) == Xor(FeedBits(register, rest[..n]), ShiftRight(rest, n))
  {
    hide Xor, ShiftRight, FeedBit, TableStep;
    if n == 0 {
      NoShift(rest);
      assert rest[..0] == [];
    } else {
      hide FeedBits;
      FeedIsSteps(register, rest, n - 1);
      FeedSnoc(register, rest, n - 1);
      ShiftAgain(rest, n - 1);
      FeedIsStep(FeedBits(register, rest[..n - 1]), ShiftRight(rest, n - 1));
    }
  }

  lemma ByteWord(b: nat)
    requires b < 256
    ensures WordOf(b) == BitsOf(b, 8) + Zeros(24)
  {
    hide Zeros;
    ByteFits(b);
    BitsOfSmall(b, 8, 24);
  }

  lemma ByteParts(b: nat)
    requires b < 256
    ensures WordOf(b)[..8] == BitsOf(b, 8) && ShiftRight(WordOf(b), 8) == Zeros(32)
  {
    hide BitsOf;
    ByteWord(b);
  }

  /** Feeding a byte's bits one at a time is xoring the byte in and taking eight steps. */
  lemma FeedByte(register: Word, b: byte)
    ensures FeedBits(register, BitsOf(b as int, 8)) == TableSteps(Xor(register, WordOf(b as int)), 8)
  {
    hide *;
    ByteParts(b as int);
    FeedIsSteps(register, WordOf(b as int), 8);
    NoXor(FeedBits(register, BitsOf(b as int, 8)));
  }

  /** Bits that are all zero in the eight lowest places only shift. */
  lemma {:induction false} ZeroBitsOnlyShift(low: Word, high: Word, n: nat)
    requires n <= 8 && forall k :: 0 <= k < 8 ==> !high[k]
    ensures TableSteps(Xor(low, high), n) == Xor(TableSteps(low, n), ShiftRight(high, n))
  {
    hide Xor, ShiftRight, Polynomial;
    if n == 0 {
      NoShift(high);
    } else {
      ZeroBitsOnlyShift(low, high, n - 1);
      ShiftAgain(high, n - 1);
      FeedIsStep(TableSteps(low, n - 1), ShiftRight(high, n - 1));
    }
  }

  lemma SplitWord(c: Word)
    ensures var high: Word := Zeros(8) + c[8..];
      Xor(LowByte(c), high) == c && ShiftRight(high, 8) == ShiftRight(c, 8)
  {
  }

  lemma IndexOfWord(c: Word)
    ensures ValueOf(c[..8]) < 256 && WordOf(ValueOf(c[..8])) == LowByte(c)
  {
    BitsOfValue(c[..8]);
    Power2Is256(1);
    ByteWord(ValueOf(c[..8]));
  }

  /** Eight steps of a register are the table entry of its low byte, xor the register shifted by a byte. */
  lemma EntryOfLowByte(c: Word)
    ensures ValueOf(c[..8]) < 256
    ensures TableSteps(c, 8) == Xor(TableEntry(ValueOf(c[..8])), ShiftRight(c, 8))
  {
    hide Xor, ShiftRight, LowByte, ValueOf, WordOf, TableSteps;
    var high: Word := Zeros(8) + c[8..];
    IndexOfWord(c);
    SplitWord(c);
    ZeroBitsOnlyShift(LowByte(c), high, 8);
  }

  /** One byte of the table-driven loop advances the register exactly as the eight bits do. */
  lemma TableByte(register: Word, b: byte)
    ensures ValueOf(Xor(register, WordOf(b as int))[..8]) < 256
    ensures Xor(TableEntry(ValueOf(Xor(register, WordOf(b as int))[..8])), ShiftRight(register, 8))
         == FeedBits(register, BitsOf(b as int, 8))
  {
    hide *;
    FeedByte(register, b);
    EntryOfLowByte(Xor(register, WordOf(b as int)));
    ByteParts(b as int);
    ShiftOfXor(register, WordOf(b as int), 8);
    NoXor(ShiftRight(register, 8));
  }

  lemma BitsOfEven(half: nat, n: nat)
    ensures BitsOf(2 * half, n + 1) == [false] + BitsOf(half, n)
  {
    hide BitsOf;
    BitsCons(2 * half, n);
  }

  lemma BitsCons(value: nat, n: nat)
    ensures BitsOf(value, n + 1) == [value % 2 == 1] + BitsOf(value / 2, n)
  {
  }

  lemma {:induction false} OnlyHighestBit(n: nat)
    ensures BitsOf(Power2(n), n + 1) == Zeros(n) + [true]
  {
    hide BitsOf;
    if n == 0 {
      NoBits(0);
      BitsOfOdd(0, 0);
    } else {
      OnlyHighestBit(n - 1);
      BitsOfEven(Power2(n - 1), n);
    }
  }

  lemma HighestBitOfByte()
    ensures BitsOf(0x80, 8) == Zeros(7) + [true]
  {
    hide BitsOf, Zeros;
    OnlyHighestBit(7);
    assert Power2(4) == 16;
    assert Power2(7) == 8 * Power2(4);
  }

  /** Nothing but shifts until the only bit set is shifted out. */
  lemma {:induction false} OnlyShifts(w: Word, n: nat)
    requires n <= 32 && forall k :: 0 <= k < n ==> !w[k]
    ensures TableSteps(w, n) == ShiftRight(w, n)
  {
    hide Xor, ShiftRight, Polynomial;
    if n == 0 {
      NoShift(w);
    } else {
      OnlyShifts(w, n - 1);
      ShiftAgain(w, n - 1);
    }
  }

  /** The entry of a byte with only its highest bit set is the polynomial itself. */
  lemma EntryOfHighestBit()
    ensures ValueOf(TableEntry(0x80)) == 0xEDB88320
  {
    hide BitsOf, ValueOf, Power2, Power256, TableSteps, Polynomial;
    HighestBitOfByte();
    ByteWord(0x80);
    var w := WordOf(0x80);
    assert w == Zeros(7) + [true] + Zeros(24);
    OnlyShifts(w, 7);
    ShiftAgain(w, 7);
    assert ShiftRight(w, 8) == Zeros(32);
    StepOnce(w, 7);
    NoXor(Polynomial());
    PolynomialValue();
  }

  lemma StepOnce(c: Word, n: nat)
    ensures TableSteps(c, n + 1) == TableStep(TableSteps(c, n))
  {
  }

  lemma PolynomialValue()
    ensures ValueOf(Polynomial()) == 0xEDB88320
  {
    hide BitsOf, ValueOf, Power2, Power256;
    Power2Is256(4);
    Powers256();
    ValueOfBits(0xEDB88320, 32);
  }

  // ---- A changed byte changes the checksum ----

  /** The highest bit of the polynomial is set, so a step can be undone: it tells the bit shifted out. */
  lemma PolynomialIsHigh()
    ensures Polynomial()[31]
  {
    hide BitsOf, Power256;
    Power2Is256(4);
    Powers256();
    assert Power2(32) == 2 * Power2(31);
    hide Power2;
    HighestBit(0xEDB88320, 32);
  }

  lemma StepIsInjective(a: Word, b: Word)
    requires TableStep(a) == TableStep(b)
    ensures a == b
  {
    hide Polynomial;
    PolynomialIsHigh();
    assert TableStep(a)[31] == a[0] && TableStep(b)[31] == b[0];
    forall k | 0 < k < 32 ensures a[k] == b[k] {
      assert TableStep(a)[k - 1] == TableStep(b)[k - 1];
    }
  }

  lemma {:induction false} StepsAreInjective(a: Word, b: Word, n: nat)
    requires TableSteps(a, n) == TableSteps(b, n)
    ensures a == b
  {
    hide TableStep;
    if n > 0 {
      StepIsInjective(TableSteps(a, n - 1), TableSteps(b, n - 1));
      StepsAreInjective(a, b, n - 1);
    }
  }

  /** After one byte two registers agree only if they did before, or it is the same register and byte. */
  lemma ByteIsInjective(a: Word, b: Word, x: byte, y: byte)
    requires FeedBits(a, BitsOf(x as int, 8)) == FeedBits(b, BitsOf(y as int, 8))
    ensures Xor(a, WordOf(x as int)) == Xor(b, WordOf(y as int))
  {
    hide *;
    FeedByte(a, x);
    FeedByte(b, y);
    StepsAreInjective(Xor(a, WordOf(x as int)), Xor(b, WordOf(y as int)), 8);
  }

  lemma XorCancels(a: Word, b: Word, c: Word)
    ensures Xor(a, c) == Xor(b, c) ==> a == b
    ensures Xor(c, a) == Xor(c, b) ==> a == b
  {
    if Xor(a, c) == Xor(b, c) || Xor(c, a) == Xor(c, b) {
      forall k | 0 <= k < 32 ensures a[k] == b[k] {
        assert Xor(a, c)[k] == (a[k] != c[k]) && Xor(b, c)[k] == (b[k] != c[k]);
        assert Xor(c, a)[k] == (c[k] != a[k]) && Xor(c, b)[k] == (c[k] != b[k]);
      }
    }
  }

  lemma ByteWordIsInjective(x: byte, y: byte)
    requires WordOf(x as int) == WordOf(y as int)
    ensures x == y
  {
    hide BitsOf, ValueOf;
    ByteParts(x as int);
    ByteParts(y as int);
    ByteFits(x as int);
    ByteFits(y as int);
    ValueOfBits(x as int, 8);
    ValueOfBits(y as int, 8);
  }

  lemma {:induction false} FeedIsInjective(a: Word, b: Word, data: seq<byte>)
    requires FeedBits(a, MessageBits(data)) == FeedBits(b, MessageBits(data))
    ensures a == b
    decreases |data|
  {
    hide FeedBits, MessageBits, Xor, WordOf;
    if data == [] {
      FeedNothing(a);
      FeedNothing(b);
    } else {
      FirstByte(a, data);
      FirstByte(b, data);
      FeedIsInjective(FeedBits(a, BitsOf(data[0] as int, 8)), FeedBits(b, BitsOf(data[0] as int, 8)), data[1..]);
      ByteIsInjective(a, b, data[0], data[0]);
      XorCancels(a, b, WordOf(data[0] as int));
    }
  }

  lemma FirstByte(register: Word, data: seq<byte>)
    requires data != []
    ensures FeedBits(register, MessageBits(data)) ==
            FeedBits(FeedBits(register, BitsOf(data[0] as int, 8)), MessageBits(data[1..]))
  {
    hide FeedBits, BitsOf;
    FeedBitsConcat(register, BitsOf(data[0] as int, 8), MessageBits(data[1..]));
  }

  /** Changing one byte of a byte string, in whatever bits, changes its checksum. */
  lemma ChangedByteIsDetected(data: seq<byte>, i: nat, b: byte)
    requires i < |data| && b != data[i]
    ensures Checksum(data[i := b]) != Checksum(data)
  {
    hide FeedBits, MessageBits, Xor, WordOf;
    if Checksum(data[i := b]) == Checksum(data) {
      var before, after := data[..i], data[i + 1..];
      var register := FeedBits(Ones(), MessageBits(before));
      SplitAt(data, i, Ones());
      SplitAt(data[i := b], i, Ones());
      assert data[i := b][..i] == before && data[i := b][i + 1..] == after;
      XorCancels(FeedBits(Ones(), MessageBits(data[i := b])), FeedBits(Ones(), MessageBits(data)), Ones());
      FeedIsInjective(FeedBits(register, BitsOf(b as int, 8)), FeedBits(register, BitsOf(data[i] as int, 8)), after);
      ByteIsInjective(register, register, b, data[i]);
      XorCancels(WordOf(b as int), WordOf(data[i] as int), register);
      ByteWordIsInjective(b, data[i]);
    }
  }

  lemma SplitAt(data: seq<byte>, i: nat, register: Word)
    requires i < |data|
    ensures FeedBits(register, MessageBits(data)) ==
            FeedBits(FeedBits(FeedBits(register, MessageBits(data[..i])), BitsOf(data[i] as int, 8)), MessageBits(data[i + 1..]))
  {
    hide FeedBits, MessageBits, BitsOf;
    assert data == data[..i] + data[i..] && data[i..][0] == data[i] && data[i..][1..] == data[i + 1..];
    UpdateConcat(register, data[..i], data[i..]);
    FirstByte(FeedBits(register, MessageBits(data[..i])), data[i..]);
  }

  class Crc {
    var crc: Word
    const table: array<Word>

    ghost predicate Valid()
      reads this, table
    {
      table.Length == 256 && forall i :: 0 <= i < 256 ==> table[i] == TableEntry(i)
    }

    constructor ()
      ensures Valid() && fresh(table) && crc == Ones()
    {
      hide Xor, ShiftRight, Polynomial, WordOf;
      crc := Ones();
      table := new Word[256](_ => Zeros(32));
      new;
      for i := 0 to 256
        invariant table.Length == 256 && crc == Ones()
        invariant forall k :: 0 <= k < i ==> table[k] == TableEntry(k)
      {
        var c := WordOf(i);
        for j := 0 to 8
          invariant c == TableSteps(WordOf(i), j)
        {
          c := if c[0] then Xor(Polynomial(), ShiftRight(c, 1)) else ShiftRight(c, 1);
        }
        table[i] := c;
      }
    }

    method Update(data: seq<byte>)
      requires Valid()
      modifies this`crc
      ensures crc == FeedBits(old(crc), MessageBits(data))
    {
      hide Xor, ShiftRight, WordOf, FeedBits, MessageBits, TableEntry, ValueOf;
      var i := 0;
      assert FeedBits(crc, MessageBits(data[..0])) == crc by {
        assert data[..0] == [];
        FeedNothing(crc);
      }
      while i < |data|
        invariant 0 <= i <= |data|
        invariant crc == FeedBits(old(crc), MessageBits(data[..i]))
      {
        TableByte(crc, data[i]);
        var index := ValueOf(Xor(crc, WordOf(data[i] as int))[..8]);
        assert data[..i + 1] == data[..i] + [data[i]];
        UpdateConcat(old(crc), data[..i], [data[i]]);
        OneByte(data[i]);
        crc := Xor(table[index], ShiftRight(crc, 8));
        i := i + 1;
      }
      assert data[..|data|] == data;
    }

    method GetValue() returns (value: Word)
      ensures value == Xor(crc, Ones())
    {
      value := Xor(crc, Ones());
    }
  }

  lemma FeedNothing(register: Word)
    ensures FeedBits(register, MessageBits([])) == register
  {
  }

  lemma OneByte(b: byte)
    ensures MessageBits([b]) == BitsOf(b as int, 8)
  {
    assert [b][1..] == [];
  }

  /** The checksum of a single byte 0xFF: the register starts with all ones and is complemented at the end. */
  lemma ChecksumOfOneByte()
    ensures Checksum([0xFF]) == Zeros(24) + seq(8, _ => true)
  {
    hide BitsOf, FeedBits, TableSteps, Polynomial;
    OneByte(0xFF);
    FeedByte(Ones(), 0xFF);
    ByteWord(0xFF);
    AllBitsOfByte();
    OnlyShifts(Xor(Ones(), WordOf(0xFF)), 8);
  }

  lemma {:induction false} AllBits(n: nat)
    ensures BitsOf(Power2(n) - 1, n) == seq(n, _ => true)
  {
    hide BitsOf;
    if n == 0 {
      NoBits(Power2(0) - 1);
    } else {
      AllBits(n - 1);
      var half := Power2(n - 1);
      assert Power2(n) == 2 * half;
      hide Power2;
      BitsOfOdd(half - 1, n - 1);
      assert [true] + seq(n - 1, _ => true) == seq(n, _ => true);
    }
  }

  lemma NoBits(value: nat)
    ensures BitsOf(value, 0) == []
  {
  }

  lemma BitsOfOdd(half: nat, n: nat)
    ensures BitsOf(2 * half + 1, n + 1) == [true] + BitsOf(half, n)
  {
    hide BitsOf;
    BitsCons(2 * half + 1, n);
  }

  lemma AllBitsOfByte()
    ensures BitsOf(0xFF, 8) == seq(8, _ => true)
  {
    hide BitsOf;
    AllBits(8);
    assert Power2(4) == 16;
    assert Power2(8) == 16 * Power2(4);
  }

  /** The value the decoder compares: the table-driven checksum of a byte string is RFC 1952's. */
  method ComputeChecksum(data: seq<byte>) returns (value: Word)
    ensures value == Checksum(data)
  {
    var crc := new Crc();
    crc.Update(data);
    value := crc.GetValue();
  }
}
