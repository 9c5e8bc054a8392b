/**
 The slot of a key: a table-driven CRC16 (polynomial 0x1021, nothing added before or after) of its hash tag.

 The reference is division on paper: feed the message's bits, and then sixteen zero bits, into a register that
 subtracts the polynomial whenever a one falls out of its top. The table takes eight such steps at once.
 */
module Crc16 {
  import opened Bytes

  type Byte = bv8
  type Word = bv16

  const SLOT_COUNT: nat := 16384

  // ----- words as polynomials over the two-element field

  function Add(a: Word, b: Word): Word {
    a ^ b
  }

  function TimesX(a: Word): Word {
    a << 1
  }

  predicate TopBit(a: Word) {
    a & 0x8000 != 0
  }

  /** What to subtract when the top bit falls out. */
  function Top(a: Word): Word {
    if TopBit(a) then 0x1021 else 0
  }

  function Bit(b: bool): Word {
    if b then 1 else 0
  }

  // ----- long division, one bit at a time

  /** One step of the division: the next bit of the message comes in at the bottom. */
  function Feed(r: Word, b: bool): Word {
    Add(Add(TimesX(r), Bit(b)), Top(r))
  }

  function Divide(r: Word, bits: seq<bool>): Word
    decreases |bits|
  {
    if bits == [] then r else Divide(Feed(r, bits[0]), bits[1..])
  }

  /** The bits of a byte, highest first. */
  function BitsOf(b: Byte): seq<bool> {
    [b & 0x80 != 0, b & 0x40 != 0, b & 0x20 != 0, b & 0x10 != 0, b & 8 != 0, b & 4 != 0, b & 2 != 0, b & 1 != 0]
  }

  function Bits(data: seq<Byte>): seq<bool> {
    if data == [] then [] else Bits(data[..|data| - 1]) + BitsOf(data[|data| - 1])
  }

  function Zeros(n: nat): seq<bool> {
    if n == 0 then [] else [false] + Zeros(n - 1)
  }

  /** The remainder of the message followed by sixteen zero bits. */
  function Remainder(data: seq<Byte>): Word {
    Divide(0, Bits(data) + Zeros(16))
  }

  lemma {:induction false} DivideAppend(r: Word, a: seq<bool>, b: seq<bool>)
    ensures Divide(r, a + b) == Divide(Divide(r, a), b)
    decreases |a|
  {
    hide Feed;
    if a == [] {
      assert a + b == b;
    } else {
      assert (a + b)[1..] == a[1..] + b;
      DivideAppend(Feed(r, a[0]), a[1..], b);
    }
  }

  // ----- steps without input are linear

  /** n steps with zero bits coming in. */
  function Shift(r: Word, n: nat): Word
    decreases n
  {
    if n == 0 then r else Shift(Feed(r, false), n - 1)
  }

  lemma AddComm(a: Word, b: Word)
    ensures Add(a, b) == Add(b, a)
  {
  }

  lemma AddAssoc(a: Word, b: Word, c: Word)
    ensures Add(Add(a, b), c) == Add(a, Add(b, c))
  {
  }

  lemma AddZero(a: Word)
    ensures Add(a, 0) == a
  {
  }

  /** Sums of sums may be paired up differently. */
  lemma AddSwap(a: Word, b: Word, c: Word, d: Word)
    ensures Add(Add(a, b), Add(c, d)) == Add(Add(a, c), Add(b, d))
  {
    hide Add;
    AddAssoc(a, b, Add(c, d));
    AddAssoc(b, c, d);
    AddComm(b, c);
    AddAssoc(c, b, d);
    AddAssoc(a, c, Add(b, d));
  }

  lemma TimesXLinear(a: Word, b: Word)
    ensures TimesX(Add(a, b)) == Add(TimesX(a), TimesX(b))
  {
  }

  lemma TopLinear(a: Word, b: Word)
    ensures Top(Add(a, b)) == Add(Top(a), Top(b))
  {
    hide TopBit;
    TopBitLinear(a, b);
  }

  lemma TopBitLinear(a: Word, b: Word)
    ensures TopBit(Add(a, b)) == (TopBit(a) != TopBit(b))
  {
  }

  /** Bits and registers may be added before or after a step. */
  lemma FeedLinear(x: Word, a: bool, y: Word, b: bool)
    ensures Feed(Add(x, y), a != b) == Add(Feed(x, a), Feed(y, b))
  {
    hide Top, Add, TimesX;
    TimesXLinear(x, y);
    TopLinear(x, y);
    BitLinear(a, b);
    AddSwap(TimesX(x), TimesX(y), Bit(a), Bit(b));
    AddSwap(Add(TimesX(x), Bit(a)), Add(TimesX(y), Bit(b)), Top(x), Top(y));
  }

  lemma BitLinear(a: bool, b: bool)
    ensures Bit(a != b) == Add(Bit(a), Bit(b))
  {
  }

  lemma {:induction false} ShiftLinear(x: Word, y: Word, n: nat)
    ensures Shift(Add(x, y), n) == Add(Shift(x, n), Shift(y, n))
    decreases n
  {
    hide Feed, Add;
    if n == 0 {
    } else {
      FeedLinear(x, false, y, false);
      ShiftLinear(Feed(x, false), Feed(y, false), n - 1);
    }
  }

  lemma {:induction false} ShiftTwice(r: Word, m: nat, n: nat)
    ensures Shift(Shift(r, m), n) == Shift(r, m + n)
    decreases m
  {
    hide Feed;
    if m == 0 {
    } else {
      ShiftTwice(Feed(r, false), m - 1, n);
    }
  }

  lemma {:induction false} DivideZeros(r: Word, n: nat)
    ensures Divide(r, Zeros(n)) == Shift(r, n)
    decreases n
  {
    hide Feed;
    if n == 0 {
    } else {
      assert Zeros(n)[1..] == Zeros(n - 1);
      DivideZeros(Feed(r, false), n - 1);
    }
  }

  // ----- a byte at a time

  function Low(b: Byte): Word {
    b as Word
  }

  function High(b: Byte): Word {
    b as Word << 8
  }

  /** Feeding a byte's bits to an empty register spells out the byte. */
  lemma ByteFromZero(b: Byte)
    ensures Divide(0, BitsOf(b)) == Low(b)
  {
    var s := BitsOf(b);
    hide Divide, Low;
    DivideEight(0, s);
    SpellByte(b);
  }

  /** Feeding it to any register adds the byte to what eight empty steps would give. */
  lemma {:induction false} DivideSplits(r: Word, bits: seq<bool>, z: Word)
    ensures Divide(Add(r, z), bits) == Add(Shift(r, |bits|), Divide(z, bits))
    decreases |bits|
  {
    hide Feed, Add;
    if bits == [] {
    } else {
      FeedLinear(r, false, z, bits[0]);
      DivideSplits(Feed(r, false), bits[1..], Feed(z, bits[0]));
    }
  }

  lemma DivideEight(r: Word, s: seq<bool>)
    requires |s| == 8
    ensures Divide(r, s)
      == Feed(Feed(Feed(Feed(Feed(Feed(Feed(Feed(r, s[0]), s[1]), s[2]), s[3]), s[4]), s[5]), s[6]), s[7])
  {
    hide Feed;
    hide Divide;
    DivideFour(r, s[..4]);
    DivideFour(Divide(r, s[..4]), s[4..]);
    DivideAppend(r, s[..4], s[4..]);
    assert s == s[..4] + s[4..];
  }

  lemma DivideFour(r: Word, s: seq<bool>)
    requires |s| == 4
    ensures Divide(r, s) == Feed(Feed(Feed(Feed(r, s[0]), s[1]), s[2]), s[3])
  {
    hide Feed;
    var s1, s2, s3 := [s[1], s[2], s[3]], [s[2], s[3]], [s[3]];
    assert s[1..] == s1 && s1[1..] == s2 && s2[1..] == s3 && s3[1..] == [];
    var r1 := Feed(r, s[0]);
    assert Divide(r, s) == Divide(r1, s1);
    var r2 := Feed(r1, s[1]);
    assert Divide(r1, s1) == Divide(r2, s2);
    var r3 := Feed(r2, s[2]);
    assert Divide(r2, s2) == Divide(r3, s3);
    var r4 := Feed(r3, s[3]);
    assert Divide(r3, s3) == Divide(r4, []) == r4;
  }

  lemma SpellByte(b: Byte)
    ensures
      var s := BitsOf(b);
      Feed(Feed(Feed(Feed(Feed(Feed(Feed(Feed(0, s[0]), s[1]), s[2]), s[3]), s[4]), s[5]), s[6]), s[7]) == Low(b)
  {
  }

  /** Eight steps just move a byte up. */
  lemma ByteMovesUp(b: Byte)
    ensures Shift(Low(b), 8) == High(b)
  {
    EightShifts(Low(b));
    hide Shift;
    SpellHigh(b);
  }

  lemma EightShifts(r: Word)
    ensures Shift(r, 8) == Feed(Feed(Feed(Feed(Feed(Feed(Feed(Feed(
      r, false), false), false), false), false), false), false), false)
  {
    hide Feed;
    var r4 := Feed(Feed(Feed(Feed(r, false), false), false), false);
    assert Shift(r, 4) == r4 && Shift(r4, 4) == Feed(Feed(Feed(Feed(r4, false), false), false), false);
    ShiftTwice(r, 4, 4);
  }

  lemma SpellHigh(b: Byte)
    ensures Feed(Feed(Feed(Feed(Feed(Feed(Feed(Feed(
      Low(b), false), false), false), false), false), false), false), false) == High(b)
  {
  }

  // ----- the table-driven form

  /** The register's upper and lower byte. */
  function Upper(r: Word): Byte {
    (r >> 8) as Byte
  }

  function Lower(r: Word): Byte {
    (r & 0xff) as Byte
  }

  lemma Halves(r: Word, b: Byte)
    ensures Add(r, High(b)) == Add(High(Upper(r) ^ b), Low(Lower(r)))
    ensures High(Lower(r)) == r << 8
  {
  }

  function Entry(b: Byte): Word {
    Shift(High(b), 8)
  }

  /** One round of the table-driven loop is eight steps of the division. */
  lemma RoundIsEightSteps(r: Word, b: Byte)
    ensures (r << 8) ^ Entry(Upper(r) ^ b) == Shift(Add(r, High(b)), 8)
  {
    hide Shift, High, Low, Upper, Lower, Add;
    Halves(r, b);
    ShiftLinear(High(Upper(r) ^ b), Low(Lower(r)), 8);
    ByteMovesUp(Lower(r));
    AddComm(r << 8, Entry(Upper(r) ^ b));
    AddIsXor(r << 8, Entry(Upper(r) ^ b));
  }

  lemma AddIsXor(a: Word, b: Word)
    ensures Add(a, b) == a ^ b
  {
  }

  /** Appending a byte to the message. */
  lemma RemainderStep(data: seq<Byte>, b: Byte)
    ensures Remainder(data + [b]) == Shift(Add(Remainder(data), High(b)), 8)
  {
    hide Shift, Divide, Add, High, Low, BitsOf, Zeros;
    var r := Divide(0, Bits(data));
    assert (data + [b])[..|data|] == data;
    DivideAppend(0, Bits(data), Zeros(16));
    DivideZeros(r, 16);
    DivideAppend(0, Bits(data) + BitsOf(b), Zeros(16));
    DivideAppend(0, Bits(data), BitsOf(b));
    DivideByte(r, b);
    var r2 := Add(Shift(r, 8), Low(b));
    DivideZeros(r2, 16);
    ShiftLinear(Shift(r, 8), Low(b), 16);
    ShiftTwice(r, 8, 16);
    ShiftTwice(r, 16, 8);
    ShiftTwice(Low(b), 8, 8);
    ByteMovesUp(b);
    ShiftLinear(Shift(r, 16), High(b), 8);
  }

  lemma DivideByte(r: Word, b: Byte)
    ensures Divide(r, BitsOf(b)) == Add(Shift(r, 8), Low(b))
  {
    hide Shift, Divide, Add, Low;
    DivideSplits(r, BitsOf(b), 0);
    ByteFromZero(b);
    AddZero(r);
  }

  /** The table's cell for each byte. */
  function Cell(i: nat): Word
    requires i < 256
  {
    Entry(i as Byte)
  }

  lemma CellOf(b: Byte)
    ensures (b as int) < 256 && Cell(b as int) == Entry(b)
  {
    hide Entry;
  }

  /** The lookup table, each entry computed by eight steps. */
  method MakeTable() returns (t: array<Word>)
    ensures fresh(t) && t.Length == 256
    ensures forall i :: 0 <= i < 256 ==> t[i] == Cell(i)
  {
    hide Cell, Shift, TopBit;
    t := new Word[256];
    for i: nat := 0 to 256
      invariant forall k :: 0 <= k < i ==> t[k] == Cell(k)
    {
      var c: Word := (i as Word) << 8;
      CellAsShift(i);
      for j := 0 to 8
        invariant Shift(c, 8 - j) == Cell(i)
        invariant forall k :: 0 <= k < i ==> t[k] == Cell(k)
      {
        ShiftStep(c, 8 - j);
        if TopBit(c) {
          c := (c << 1) ^ 0x1021;
        } else {
          c := c << 1;
        }
      }
      ShiftNone(c);
      t[i] := c;
    }
  }

  lemma CellAsShift(i: nat)
    requires i < 256
    ensures Shift((i as Word) << 8, 8) == Cell(i)
  {
    hide Shift;
  }

  lemma ShiftNone(c: Word)
    ensures Shift(c, 0) == c
  {
  }

  lemma ShiftStep(c: Word, n: nat)
    requires n > 0
    ensures Shift(c, n) == Shift(if TopBit(c) then (c << 1) ^ 0x1021 else c << 1, n - 1)
  {
    StepForm(c);
    hide Feed, TopBit;
  }

  lemma StepForm(c: Word)
    ensures Feed(c, false) == if TopBit(c) then (c << 1) ^ 0x1021 else c << 1
  {
    hide TopBit, Add;
    AddZero(c << 1);
    AddIsXor(c << 1, 0x1021);
  }

  /** The checksum: one table lookup per byte yields the remainder of the long division. */
  method Crc(table: array<Word>, data: seq<Byte>) returns (crc: Word)
    requires table.Length == 256 && forall i :: 0 <= i < 256 ==> table[i] == Cell(i)
    ensures crc == Remainder(data)
  {
    hide Remainder, Entry, Shift, Add, High, Cell;
    crc := 0;
    RemainderOfNothing();
    for k := 0 to |data|
      invariant crc == Remainder(data[..k])
    {
      var b := data[k];
      assert data[..k + 1] == data[..k] + [b];
      RemainderStep(data[..k], b);
      RoundIsEightSteps(crc, b);
      CellOf(Upper(crc) ^ b);
      crc := (crc << 8) ^ table[(Upper(crc) ^ b) as int];
    }
    assert data[..|data|] == data;
  }

  lemma RemainderOfNothing()
    ensures Remainder([]) == 0
  {
    hide Shift, Feed;
    assert Bits([]) + Zeros(16) == Zeros(16);
    DivideZeros(0, 16);
    ShiftOfZero(16);
  }

  lemma {:induction false} ShiftOfZero(n: nat)
    ensures Shift(0, n) == 0
    decreases n
  {
    if n == 0 {
    } else {
      StepForm(0);
      hide Feed;
      ShiftOfZero(n - 1);
    }
  }

  // ----- why it is called a remainder

  /** A polynomial over the two-element field, as the set of its exponents. */
  type Poly = set<nat>

  function Plus(a: Poly, b: Poly): Poly {
    (a - b) + (b - a)
  }

  function TimesVar(a: Poly): Poly {
    set k: nat | k in a :: k + 1
  }

  /** The sixteenth power, and 0x1021. */
  const GENERATOR: Poly := {16, 12, 5, 0}

  /** The polynomial with these coefficients, highest first. */
  function PolyOf(bits: seq<bool>): Poly {
    if bits == [] then {}
    else Plus(TimesVar(PolyOf(bits[..|bits| - 1])), if bits[|bits| - 1] then {0} else {})
  }

  /** The product of the generator with the polynomial with these coefficients. */
  function TimesGenerator(q: seq<bool>): Poly {
    if q == [] then {}
    else Plus(TimesVar(TimesGenerator(q[..|q| - 1])), if q[|q| - 1] then GENERATOR else {})
  }

  function MaskOf(k: nat): Word
    requires k < 16
  {
    if k < 8 then
      if k < 4 then if k < 2 then if k == 0 then 0x1 else 0x2 else if k == 2 then 0x4 else 0x8
      else if k < 6 then if k == 4 then 0x10 else 0x20 else if k == 6 then 0x40 else 0x80
    else
      if k < 12 then if k < 10 then if k == 8 then 0x100 else 0x200 else if k == 10 then 0x400 else 0x800
      else if k < 14 then if k == 12 then 0x1000 else 0x2000 else if k == 14 then 0x4000 else 0x8000
  }

  predicate BitAt(r: Word, k: nat)
    requires k < 16
  {
    r & MaskOf(k) != 0
  }

  /** The register's polynomial. */
  function PolyIn(r: Word): Poly {
    set k: nat | k < 16 && BitAt(r, k)
  }

  lemma BitOfSum(a: Word, b: Word, m: Word)
    requires m & (m - 1) == 0
    ensures (Add(a, b) & m != 0) == ((a & m != 0) != (b & m != 0))
  {
    MaskedSum(a, b, m);
    hide Add;
    MaskedBit(a, m);
    MaskedBit(b, m);
    AddZero(0);
    AddZero(m);
    AddSelf(m);
    AddComm(0, m);
  }

  lemma MaskedSum(a: Word, b: Word, m: Word)
    ensures Add(a, b) & m == Add(a & m, b & m)
  {
  }

  lemma MaskedBit(a: Word, m: Word)
    requires m & (m - 1) == 0
    ensures a & m == 0 || a & m == m
  {
  }

  lemma AddSelf(m: Word)
    ensures Add(m, m) == 0
  {
  }

  lemma BitOfMoved(a: Word, m: Word)
    ensures (TimesX(a) & (m << 1) != 0) == (a & m & 0x7fff != 0)
    ensures TimesX(a) & 1 == 0
  {
  }

  lemma MaskMoves(k: nat)
    requires k < 15
    ensures MaskOf(k + 1) == MaskOf(k) << 1 && MaskOf(k) & 0x7fff == MaskOf(k)
  {
  }

  lemma MaskIsSingle(k: nat)
    requires k < 16
    ensures MaskOf(k) & (MaskOf(k) - 1) == 0
  {
  }

  lemma BitsOfFew(b: bool, k: nat)
    requires k < 16
    ensures BitAt(Bit(b), k) == (k == 0 && b)
    ensures BitAt(0x1021, k) == (k in GENERATOR) && !BitAt(0, k)
  {
  }

  lemma SameMasked(a: Word, m: Word)
    requires m & 0x7fff == m
    ensures a & m & 0x7fff == a & m
  {
  }

  /** One step of the division, bit by bit. */
  lemma FeedBits(r: Word, b: bool, k: nat)
    requires k < 16
    ensures BitAt(Feed(r, b), k)
      == (((if k == 0 then b else BitAt(r, k - 1)) != (TopBit(r) && k in GENERATOR)))
  {
    hide Add, TimesX, TopBit, Bit, MaskOf;
    var m := MaskOf(k);
    MaskIsSingle(k);
    BitOfSum(Add(TimesX(r), Bit(b)), Top(r), m);
    BitOfSum(TimesX(r), Bit(b), m);
    BitsOfFew(b, k);
    MovedBits(r, k);
  }

  lemma MovedBits(r: Word, k: nat)
    requires k < 16
    ensures BitAt(TimesX(r), k) == (k > 0 && BitAt(r, k - 1))
  {
    hide TimesX;
    if k > 0 {
      hide MaskOf;
      MaskMoves(k - 1);
      BitOfMoved(r, MaskOf(k - 1));
      SameMasked(r, MaskOf(k - 1));
    } else {
      BitOfMoved(r, 1);
    }
  }

  lemma TopIsFifteen(r: Word)
    ensures BitAt(r, 15) == TopBit(r)
  {
  }

  /** A step multiplies by the variable, adds the bit, and takes the generator away if it went in. */
  lemma FeedDivides(r: Word, b: bool)
    ensures Plus(TimesVar(PolyIn(r)), if b then {0} else {})
      == Plus(if TopBit(r) then GENERATOR else {}, PolyIn(Feed(r, b)))
  {
    hide Feed, BitAt, TopBit;
    TopIsFifteen(r);
    var lhs := Plus(TimesVar(PolyIn(r)), if b then {0} else {});
    var rhs := Plus(if TopBit(r) then GENERATOR else {}, PolyIn(Feed(r, b)));
    forall k: nat ensures k in lhs <==> k in rhs {
      assert k in TimesVar(PolyIn(r)) <==> k > 0 && k - 1 in PolyIn(r);
      if k < 16 {
        FeedBits(r, b, k);
      }
    }
  }

  lemma PlusShifts(a: Poly, b: Poly)
    ensures TimesVar(Plus(a, b)) == Plus(TimesVar(a), TimesVar(b))
  {
    forall k: nat ensures k in TimesVar(Plus(a, b)) <==> k in Plus(TimesVar(a), TimesVar(b)) {
      if k > 0 {
        assert k in TimesVar(a) <==> k - 1 in a;
        assert k in TimesVar(b) <==> k - 1 in b;
      }
    }
  }

  lemma PlusAssoc(a: Poly, b: Poly, c: Poly)
    ensures Plus(Plus(a, b), c) == Plus(a, Plus(b, c))
  {
  }

  /** What has been fed in is a multiple of the generator plus what the register holds. */
  lemma {:induction false} DivisionHolds(bits: seq<bool>)
    ensures exists q: seq<bool> ::
      |q| == |bits| && PolyOf(bits) == Plus(TimesGenerator(q), PolyIn(Divide(0, bits)))
    decreases |bits|
  {
    hide Feed, PolyIn, Plus, TimesVar;
    if bits == [] {
      NothingFed();
      assert PolyOf(bits) == Plus(TimesGenerator([]), PolyIn(Divide(0, bits)));
    } else {
      var front, b := bits[..|bits| - 1], bits[|bits| - 1];
      DivisionHolds(front);
      var q: seq<bool> :| |q| == |front| && PolyOf(front) == Plus(TimesGenerator(q), PolyIn(Divide(0, front)));
      var r := Divide(0, front);
      var top := if TopBit(r) then GENERATOR else {};
      var q' := q + [TopBit(r)];
      assert bits == front + [b] && q'[..|q|] == q;
      DivideAppend(0, front, [b]);
      assert [b][1..] == [];
      FeedDivides(r, b);
      PlusShifts(TimesGenerator(q), PolyIn(r));
      PlusAssoc(TimesVar(TimesGenerator(q)), TimesVar(PolyIn(r)), if b then {0} else {});
      PlusAssoc(TimesVar(TimesGenerator(q)), top, PolyIn(Feed(r, b)));
      assert Divide(0, bits) == Feed(r, b);
      assert PolyOf(bits) == Plus(TimesGenerator(q'), PolyIn(Divide(0, bits)));
    }
  }

  lemma NothingFed()
    ensures Plus({}, PolyIn(0)) == {}
  {
    hide BitAt;
    forall k: nat | k < 16 ensures !BitAt(0, k) {
      BitsOfFew(false, k);
    }
  }

  /** The checksum is what is left of the message, moved up by sixteen places, after taking away a multiple. */
  lemma RemainderIsRemainder(data: seq<Byte>)
    ensures exists q: seq<bool> ::
      PolyOf(Bits(data) + Zeros(16)) == Plus(TimesGenerator(q), PolyIn(Remainder(data)))
    ensures forall k :: k in PolyIn(Remainder(data)) ==> k < 16
  {
    hide Divide, PolyOf, TimesGenerator, Plus, BitAt;
    DivisionHolds(Bits(data) + Zeros(16));
  }

  // ----- checksums of sums

  function XorBytes(a: seq<Byte>, b: seq<Byte>): (c: seq<Byte>)
    requires |a| == |b|
    ensures |c| == |a|
  {
    if a == [] then [] else XorBytes(a[..|a| - 1], b[..|b| - 1]) + [a[|a| - 1] ^ b[|b| - 1]]
  }

  /** The checksum of a bytewise sum is the sum of the checksums. */
  lemma {:induction false} ChecksumLinear(a: seq<Byte>, b: seq<Byte>)
    requires |a| == |b|
    ensures Remainder(XorBytes(a, b)) == Add(Remainder(a), Remainder(b))
    decreases |a|
  {
    hide Remainder, Shift, Add, High;
    if a == [] {
      RemainderOfNothing();
      AddZero(0);
      assert b == [];
    } else {
      var a0, x, b0, y := a[..|a| - 1], a[|a| - 1], b[..|b| - 1], b[|b| - 1];
      ChecksumLinear(a0, b0);
      assert a == a0 + [x] && b == b0 + [y];
      RemainderStep(a0, x);
      RemainderStep(b0, y);
      RemainderStep(XorBytes(a0, b0), x ^ y);
      HighLinear(x, y);
      AddSwap(Remainder(a0), Remainder(b0), High(x), High(y));
      ShiftLinear(Add(Remainder(a0), High(x)), Add(Remainder(b0), High(y)), 8);
    }
  }

  lemma HighLinear(x: Byte, y: Byte)
    ensures High(x ^ y) == Add(High(x), High(y))
  {
  }

  // ----- the slot of a key

  const OPEN_BRACE: byte := 123 // '{'
  const CLOSE_BRACE: byte := 125 // '}'

  /** The key splits as before, an opening brace, a tag, a closing brace and a rest, with the tag as short as can be. */
  ghost predicate Tagged(key: bytes, before: bytes, tag: bytes, rest: bytes) {
    && key == before + [OPEN_BRACE] + tag + [CLOSE_BRACE] + rest
    && OPEN_BRACE !in before && CLOSE_BRACE !in tag && tag != []
  }

  /** What is hashed for a key. */
  ghost predicate Hashed(key: bytes, h: bytes) {
    if exists before, tag, rest :: Tagged(key, before, tag, rest)
    then exists before, rest :: Tagged(key, before, h, rest)
    else h == key
  }

  function IndexFrom(s: bytes, x: byte, from: nat): (i: nat)
    requires from <= |s|
    ensures from <= i <= |s| && x !in s[from..i] && (i < |s| ==> s[i] == x)
    decreases |s| - from
  {
    if from == |s| || s[from] == x then from
    else
      var i := IndexFrom(s, x, from + 1);
      assert s[from..i] == [s[from]] + s[from + 1..i];
      i
  }

  lemma {:induction false} IndexIs(s: bytes, x: byte, from: nat, k: nat)
    requires from <= k < |s| && s[k] == x && forall m :: from <= m < k ==> s[m] != x
    ensures IndexFrom(s, x, from) == k
    decreases k - from
  {
    if from < k {
      IndexIs(s, x, from + 1, k);
    }
  }

  /** The tag, if there is one, lies between the first opening brace and the next closing one. */
  lemma TagIsAt(key: bytes, p: bytes, t: bytes, r: bytes)
    requires Tagged(key, p, t, r)
    ensures IndexFrom(key, OPEN_BRACE, 0) == |p| < |key|
    ensures IndexFrom(key, CLOSE_BRACE, |p| + 1) == |p| + 1 + |t| < |key|
  {
    assert key[|p|] == OPEN_BRACE && key[|p| + 1 + |t|] == CLOSE_BRACE;
    forall m | 0 <= m < |p| ensures key[m] != OPEN_BRACE {
      assert key[m] == p[m];
    }
    IndexIs(key, OPEN_BRACE, 0, |p|);
    forall m | |p| + 1 <= m < |p| + 1 + |t| ensures key[m] != CLOSE_BRACE {
      assert key[m] == t[m - |p| - 1];
    }
    IndexIs(key, CLOSE_BRACE, |p| + 1, |p| + 1 + |t|);
  }

  /** What is hashed: between the first opening brace and the next closing one, or else the whole key. */
  function HashedPart(key: bytes): bytes {
    var i := IndexFrom(key, OPEN_BRACE, 0);
    if i == |key| then key
    else
      var j := IndexFrom(key, CLOSE_BRACE, i + 1);
      if i + 1 < j < |key| then key[i + 1..j] else key
  }

  /** A key has at most one hash tag. */
  lemma TagUnique(key: bytes, p: bytes, t: bytes, r: bytes, q: bytes, u: bytes, s: bytes)
    requires Tagged(key, p, t, r) && Tagged(key, q, u, s)
    ensures p == q && t == u && r == s
  {
    hide IndexFrom;
    TagIsAt(key, p, t, r);
    TagIsAt(key, q, u, s);
    assert p == key[..|p|] == q;
    assert t == key[|p| + 1..|p| + 1 + |t|] == u;
    assert r == key[|p| + |t| + 2..] == s;
  }

  lemma PartIsTagged(key: bytes, i: nat, j: nat)
    requires i == IndexFrom(key, OPEN_BRACE, 0) < |key| && i + 1 < j == IndexFrom(key, CLOSE_BRACE, i + 1) < |key|
    ensures Tagged(key, key[..i], key[i + 1..j], key[j + 1..])
  {
    assert key[0..i] == key[..i];
  }

  lemma TaggedPart(key: bytes, p: bytes, t: bytes, r: bytes)
    requires Tagged(key, p, t, r)
    ensures HashedPart(key) == t
  {
    TagIsAt(key, p, t, r);
    assert key[|p| + 1..|p| + 1 + |t|] == t;
  }

  lemma HashedWithTag(key: bytes, p: bytes, t: bytes, r: bytes, h: bytes)
    requires Tagged(key, p, t, r)
    ensures Hashed(key, h) <==> h == HashedPart(key)
  {
    hide Tagged, HashedPart;
    TaggedPart(key, p, t, r);
    if Hashed(key, h) {
      var q, s :| Tagged(key, q, h, s);
      TaggedPart(key, q, h, s);
    }
  }

  lemma HashedWithoutTag(key: bytes)
    requires forall p, t, r :: !Tagged(key, p, t, r)
    ensures HashedPart(key) == key
  {
    hide Tagged;
    var i := IndexFrom(key, OPEN_BRACE, 0);
    if i < |key| && i + 1 < IndexFrom(key, CLOSE_BRACE, i + 1) < |key| {
      PartIsTagged(key, i, IndexFrom(key, CLOSE_BRACE, i + 1));
    }
  }

  /** Where the braces are decides exactly what the definition asks for. */
  lemma HashedPartIsTag(key: bytes, h: bytes)
    ensures Hashed(key, h) <==> h == HashedPart(key)
  {
    hide Tagged, HashedPart;
    if p, t, r :| Tagged(key, p, t, r) {
      HashedWithTag(key, p, t, r, h);
    } else {
      HashedWithoutTag(key);
    }
  }

  /** A byte string as the bit patterns the checksum works on. */
  function Octets(s: bytes): seq<Byte> {
    seq(|s|, i requires 0 <= i < |s| => s[i] as int as Byte)
  }

  function SlotOf(crc: Word): nat {
    (crc & 0x3fff) as nat
  }

  lemma SlotInRange(crc: Word)
    ensures SlotOf(crc) < SLOT_COUNT
  {
    Masked(crc);
  }

  lemma Masked(crc: Word)
    ensures crc & 0x3fff < 0x4000
  {
  }

  function Slot(key: bytes): (slot: nat)
    ensures slot < SLOT_COUNT
  {
    SlotInRange(Remainder(Octets(HashedPart(key))));
    SlotOf(Remainder(Octets(HashedPart(key))))
  }

  /** Keys with the same tag share a slot, and it is the slot of the tag itself. */
  lemma SameTagSameSlot(
    k1: bytes, p1: bytes, r1: bytes, k2: bytes, p2: bytes, r2: bytes, tag: bytes)
    requires Tagged(k1, p1, tag, r1) && Tagged(k2, p2, tag, r2)
    ensures Slot(k1) == Slot(k2) == Slot(tag)
  {
    hide HashedPart;
    assert Hashed(k1, tag) && Hashed(k2, tag);
    HashedPartIsTag(k1, tag);
    HashedPartIsTag(k2, tag);
    forall p, t, r ensures !Tagged(tag, p, t, r) {
      if Tagged(tag, p, t, r) {
        TagIsAt(tag, p, t, r);
      }
    }
    HashedPartIsTag(tag, tag);
  }

  /** The slot of a key; the loops look for the first opening brace and then for the next closing one. */
  method KeySlot(table: array<Word>, key: bytes) returns (slot: nat)
    requires table.Length == 256 && forall i :: 0 <= i < 256 ==> table[i] == Cell(i)
    ensures slot == Slot(key)
  {
    hide Remainder, SlotOf;
    var start: int := -1;
    var i: nat := 0;
    while i < |key|
      invariant i <= |key| && start == -1 && IndexFrom(key, OPEN_BRACE, 0) == IndexFrom(key, OPEN_BRACE, i)
    {
      if key[i] == OPEN_BRACE {
        start := i;
        break;
      }
      i := i + 1;
    }
    var hashed := key;
    if start >= 0 {
      ghost var next := IndexFrom(key, CLOSE_BRACE, start + 1);
      i := start + 1;
      while i < |key|
        invariant start < i <= |key| && hashed == key && next == IndexFrom(key, CLOSE_BRACE, i)
      {
        if key[i] == CLOSE_BRACE {
          if i - start > 1 {
            hashed := key[start + 1..i];
          }
          break;
        }
        i := i + 1;
      }
    }
    assert hashed == HashedPart(key);
    var crc := Crc(table, Octets(hashed));
    slot := SlotOf(crc);
  }

  // ----- in literal terms

  /** The slot is the checksum modulo the number of slots. */
  lemma SlotIsRemainder(crc: Word)
    ensures SlotOf(crc) == (crc % 16384) as nat
  {
    LowBits(crc);
  }

  lemma LowBits(crc: Word)
    ensures crc & 0x3fff == crc % 16384
  {
  }

  /** What stands between the first '{' and the next '}' decides, if it is not empty; else the whole key does. */
  lemma BracesDecide(key: bytes, p: bytes, tag: bytes, r: bytes)
    requires key == p + [123] + tag + [125] + r && 123 !in p && 125 !in tag && tag != []
    ensures HashedPart(key) == tag && Slot(key) == Slot(tag)
  {
    assert Tagged(key, p, tag, r);
    TaggedPart(key, p, tag, r);
    SameTagSameSlot(key, p, r, key, p, r, tag);
  }

  lemma NoBraces(key: bytes)
    requires 123 !in key || 125 !in key
    ensures HashedPart(key) == key && Slot(key) == (Remainder(Octets(key)) % 16384) as nat
  {
    forall p, t, r ensures Tagged(key, p, t, r) ==> 123 in key && 125 in key {
      if Tagged(key, p, t, r) {
        TagIsAt(key, p, t, r);
      }
    }
    HashedWithoutTag(key);
    SlotIsRemainder(Remainder(Octets(key)));
  }

  /** An empty tag is none. */
  lemma EmptyBraces(p: bytes, r: bytes)
    requires 123 !in p
    ensures HashedPart(p + [123, 125] + r) == p + [123, 125] + r
  {
    var key := p + [123, 125] + r;
    forall q, t, s ensures !Tagged(key, q, t, s) {
      if Tagged(key, q, t, s) {
        TagIsAt(key, q, t, s);
        forall m | 0 <= m < |p| ensures key[m] != OPEN_BRACE {
          assert key[m] == p[m];
        }
        IndexIs(key, OPEN_BRACE, 0, |p|);
        assert key[|p| + 1] == CLOSE_BRACE;
        IndexIs(key, CLOSE_BRACE, |p| + 1, |p| + 1);
      }
    }
    HashedWithoutTag(key);
  }

  // ----- known slots

  /** The remainder, a byte at a time. */
  function Fold(r: Word, data: seq<Byte>): Word
    decreases |data|
  {
    if data == [] then r else Fold(Shift(Add(r, High(data[0])), 8), data[1..])
  }

  lemma {:induction false} FoldGoesOn(done: seq<Byte>, data: seq<Byte>)
    ensures Fold(Remainder(done), data) == Remainder(done + data)
    decreases |data|
  {
    hide Remainder, Shift, Add, High;
    if data == [] {
      assert done + data == done;
    } else {
      RemainderStep(done, data[0]);
      FoldGoesOn(done + [data[0]], data[1..]);
      assert (done + [data[0]]) + data[1..] == done + data;
    }
  }

  lemma NothingRemains()
    ensures Remainder([]) == 0
  {
    assert Bits([]) == [] && [] + Zeros(16) == Zeros(16);
    ZerosVanish(16);
  }

  lemma {:induction false} ZerosVanish(n: nat)
    ensures Divide(0, Zeros(n)) == 0
    decreases n
  {
    if n > 0 {
      assert Zeros(n)[0] == false && Zeros(n)[1..] == Zeros(n - 1);
      assert Feed(0, false) == 0;
      ZerosVanish(n - 1);
    }
  }

  lemma PlainSlot(key: bytes, data: seq<Byte>, crc: Word)
    requires 123 !in key && Octets(key) == data && Fold(0, data) == crc
    ensures Slot(key) == (crc % 16384) as nat
  {
    hide Remainder, Slot, Fold;
    NoBraces(key);
    NothingRemains();
    FoldGoesOn([], data);
    assert [] + data == data;
  }

  /** Slots known from elsewhere. */
  lemma SlotOfFoo() // "foo"
    ensures Slot([102, 111, 111]) == 12182
  {
    hide Slot, Fold;
    ComputedFoo();
    PlainSlot([102, 111, 111], [102, 111, 111], 0xaf96);
  }

  lemma SlotOfBar() // "bar"
    ensures Slot([98, 97, 114]) == 5061
  {
    hide Slot, Fold;
    ComputedBar();
    PlainSlot([98, 97, 114], [98, 97, 114], 0x93c5);
  }

  lemma SlotOfHello() // "hello"
    ensures Slot([104, 101, 108, 108, 111]) == 866
  {
    hide Slot, Fold;
    ComputedHello();
    PlainSlot([104, 101, 108, 108, 111], [104, 101, 108, 108, 111], 0xc362);
  }

  lemma SlotOfDigits() // "123456789"
    ensures Slot([49, 50, 51, 52, 53, 54, 55, 56, 57]) == 12739
  {
    hide Slot, Fold;
    ComputedDigits();
    PlainSlot([49, 50, 51, 52, 53, 54, 55, 56, 57], [49, 50, 51, 52, 53, 54, 55, 56, 57], 0x31c3);
  }

  lemma ComputedFoo()
    ensures Fold(0, [102, 111, 111]) == 0xaf96
  {
  }

  lemma ComputedBar()
    ensures Fold(0, [98, 97, 114]) == 0x93c5
  {
  }

  lemma ComputedHello()
    ensures Fold(0, [104, 101, 108, 108, 111]) == 0xc362
  {
    assert Fold(0xbe80, [108, 108, 111]) == 0xc362;
  }

  lemma ComputedDigits()
    ensures Fold(0, [49, 50, 51, 52, 53, 54, 55, 56, 57]) == 0x31c3
  {
    assert Fold(0x20e4, [55, 56, 57]) == 0x31c3;
    assert Fold(0x9752, [52, 53, 54, 55, 56, 57]) == 0x31c3;
  }
}
