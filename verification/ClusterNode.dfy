/**
 A cluster node and its slot bitmap: single bits, the run-length form that nodes gossip and print, and the count.

 The bitmap is 2048 bytes inside the node; slot s is bit s % 8 of byte s / 8.
 */
module ClusterNode {
  import Crc16

  type Bitmap = b: seq<bv8> | |b| == 2048 witness seq(2048, _ => 0)

  const SLOT_COUNT: nat := Crc16.SLOT_COUNT

  // ----- bits of a byte

  function Mask(j: nat): bv8
    requires j < 8
  {
    (1 as bv8) << j
  }

  lemma MaskIs(j: nat)
    requires j < 8
    ensures Mask(j) == if j == 0 then 1 else if j == 1 then 2 else if j == 2 then 4 else if j == 3 then 8
      else if j == 4 then 16 else if j == 5 then 32 else if j == 6 then 64 else 128
  {
  }

  predicate BitSet(b: bv8, m: bv8) {
    b & m != 0
  }

  /** Masks are single bits: different ones do not overlap. */
  lemma MasksDisjoint(j: nat, k: nat)
    requires j < 8 && k < 8
    ensures Mask(j) != 0 && (j != k ==> Mask(j) & Mask(k) == 0)
  {
    hide Mask;
    MaskIs(j);
    MaskIs(k);
  }

  lemma SetOne(b: bv8, m: bv8, k: bv8)
    ensures m != 0 ==> BitSet(b | m, m)
    ensures m & k == 0 ==> BitSet(b | m, k) == BitSet(b, k)
  {
  }

  lemma ClearOne(b: bv8, m: bv8, k: bv8)
    ensures !BitSet(b & !m, m)
    ensures m & k == 0 ==> BitSet(b & !m, k) == BitSet(b, k)
  {
  }

  lemma EmptyByte(m: bv8)
    ensures !BitSet(0, m)
  {
  }

  // ----- bitmaps

  predicate HasBit(b: Bitmap, slot: int) {
    0 <= slot < SLOT_COUNT && BitSet(b[slot / 8], Mask(slot % 8))
  }

  lemma CellUnique(s: nat, t: nat)
    requires s != t
    ensures s / 8 != t / 8 || s % 8 != t % 8
  {
  }

  function WithBit(b: Bitmap, slot: nat): Bitmap
    requires slot < SLOT_COUNT
  {
    b[slot / 8 := b[slot / 8] | Mask(slot % 8)]
  }

  function WithoutBit(b: Bitmap, slot: nat): Bitmap
    requires slot < SLOT_COUNT
  {
    b[slot / 8 := b[slot / 8] & !Mask(slot % 8)]
  }

  /** Setting or clearing one bit of one byte changes that slot and no other. */
  lemma AfterSet(b: Bitmap, slot: nat, t: int)
    requires slot < SLOT_COUNT
    ensures HasBit(WithBit(b, slot), t) <==> HasBit(b, t) || t == slot
  {
    hide Mask, BitSet;
    if 0 <= t < SLOT_COUNT && t / 8 == slot / 8 {
      MasksDisjoint(slot % 8, t % 8);
      SetOne(b[slot / 8], Mask(slot % 8), Mask(t % 8));
      if t != slot {
        CellUnique(slot, t);
      }
    }
  }

  lemma AfterClear(b: Bitmap, slot: nat, t: int)
    requires slot < SLOT_COUNT
    ensures HasBit(WithoutBit(b, slot), t) <==> HasBit(b, t) && t != slot
  {
    hide Mask, BitSet;
    if 0 <= t < SLOT_COUNT && t / 8 == slot / 8 {
      MasksDisjoint(slot % 8, t % 8);
      ClearOne(b[slot / 8], Mask(slot % 8), Mask(t % 8));
      if t != slot {
        CellUnique(slot, t);
      }
    }
  }

  lemma BytesAgree(x: bv8, y: bv8)
    requires forall j: nat :: j < 8 ==> BitSet(x, Mask(j)) == BitSet(y, Mask(j))
    ensures x == y
  {
    assert BitSet(x, Mask(0)) == BitSet(y, Mask(0)) && BitSet(x, Mask(1)) == BitSet(y, Mask(1));
    assert BitSet(x, Mask(2)) == BitSet(y, Mask(2)) && BitSet(x, Mask(3)) == BitSet(y, Mask(3));
    assert BitSet(x, Mask(4)) == BitSet(y, Mask(4)) && BitSet(x, Mask(5)) == BitSet(y, Mask(5));
    assert BitSet(x, Mask(6)) == BitSet(y, Mask(6)) && BitSet(x, Mask(7)) == BitSet(y, Mask(7));
  }

  /** A bitmap is determined by its slots. */
  lemma BitmapsAgree(a: Bitmap, b: Bitmap)
    requires forall s :: HasBit(a, s) == HasBit(b, s)
    ensures a == b
  {
    forall i | 0 <= i < 2048 ensures a[i] == b[i] {
      forall j: nat | j < 8 ensures BitSet(a[i], Mask(j)) == BitSet(b[i], Mask(j)) {
        assert HasBit(a, 8 * i + j) == HasBit(b, 8 * i + j);
        assert (8 * i + j) / 8 == i && (8 * i + j) % 8 == j;
      }
      BytesAgree(a[i], b[i]);
    }
  }

  // ----- ranges

  type Range = (int, int)

  ghost predicate InRanges(rs: seq<Range>, s: int) {
    exists i :: 0 <= i < |rs| && rs[i].0 <= s <= rs[i].1
  }

  /** In order, none empty, and a gap of at least one slot between any two. */
  ghost predicate Separated(rs: seq<Range>) {
    && (forall i :: 0 <= i < |rs| ==> rs[i].0 <= rs[i].1)
    && (forall i, j :: 0 <= i < j < |rs| ==> rs[i].1 + 1 < rs[j].0)
  }

  lemma TailInRanges(rs: seq<Range>, s: int)
    requires rs != [] && Separated(rs)
    ensures InRanges(rs[1..], s) <==> InRanges(rs, s) && s > rs[0].1
    ensures InRanges(rs, s) <==> rs[0].0 <= s <= rs[0].1 || InRanges(rs[1..], s)
  {
    if InRanges(rs, s) {
      var i :| 0 <= i < |rs| && rs[i].0 <= s <= rs[i].1;
      if i > 0 {
        assert rs[1..][i - 1] == rs[i];
      }
    }
    if InRanges(rs[1..], s) {
      var i :| 0 <= i < |rs| - 1 && rs[1..][i].0 <= s <= rs[1..][i].1;
      assert rs[i + 1] == rs[1..][i];
    }
  }

  lemma FirstRange(xs: seq<Range>, ys: seq<Range>)
    requires Separated(xs) && Separated(ys) && xs != [] && ys != []
    requires forall s :: InRanges(xs, s) <==> InRanges(ys, s)
    ensures xs[0] == ys[0]
  {
    hide Separated, InRanges;
    StartsAt(xs);
    StartsAt(ys);
    assert InRanges(xs, xs[0].0) && InRanges(ys, ys[0].0);
    assert InRanges(ys, xs[0].1 + 1) == InRanges(xs, xs[0].1 + 1);
    assert InRanges(ys, ys[0].1 + 1) == InRanges(xs, ys[0].1 + 1);
  }

  /** Where the first range begins and ends can be seen from membership alone. */
  lemma StartsAt(rs: seq<Range>)
    requires Separated(rs) && rs != []
    ensures rs[0].0 <= rs[0].1
    ensures forall s :: rs[0].0 <= s <= rs[0].1 ==> InRanges(rs, s)
    ensures forall s :: s < rs[0].0 ==> !InRanges(rs, s)
    ensures !InRanges(rs, rs[0].1 + 1)
  {
  }

  lemma NothingInNone()
    ensures forall s :: !InRanges([], s)
  {
  }

  lemma HoldsSomething(rs: seq<Range>)
    requires Separated(rs) && rs != []
    ensures exists s :: InRanges(rs, s)
  {
    assert InRanges(rs, rs[0].0);
  }

  /** A set of slots has only one such form. */
  lemma {:induction false} RangesUnique(xs: seq<Range>, ys: seq<Range>)
    requires Separated(xs) && Separated(ys)
    requires forall s :: InRanges(xs, s) <==> InRanges(ys, s)
    ensures xs == ys
    decreases |xs|
  {
    hide InRanges;
    if xs == [] || ys == [] {
      NothingInNone();
      if xs != [] {
        HoldsSomething(xs);
      }
      if ys != [] {
        HoldsSomething(ys);
      }
    } else {
      FirstRange(xs, ys);
      forall s ensures InRanges(xs[1..], s) <==> InRanges(ys[1..], s) {
        TailInRanges(xs, s);
        TailInRanges(ys, s);
      }
      RangesUnique(xs[1..], ys[1..]);
      assert xs == [xs[0]] + xs[1..] && ys == [ys[0]] + ys[1..];
    }
  }

  // ----- counting

  function Bit(b: bv8, j: nat): nat
    requires j < 8
  {
    if BitSet(b, Mask(j)) then 1 else 0
  }

  /** How many bits of a byte are set. */
  function Ones(b: bv8): nat {
    Bit(b, 0) + Bit(b, 1) + Bit(b, 2) + Bit(b, 3) + Bit(b, 4) + Bit(b, 5) + Bit(b, 6) + Bit(b, 7)
  }

  /** The slots below a bound. */
  function SlotsBelow(b: Bitmap, n: nat): set<int> {
    set s: int | 0 <= s < n && HasBit(b, s)
  }

  lemma SlotsGrow(b: Bitmap, n: nat)
    requires n < SLOT_COUNT
    ensures |SlotsBelow(b, n + 1)| == |SlotsBelow(b, n)| + if HasBit(b, n) then 1 else 0
  {
    if HasBit(b, n) {
      assert SlotsBelow(b, n + 1) == SlotsBelow(b, n) + {n};
    } else {
      assert SlotsBelow(b, n + 1) == SlotsBelow(b, n);
    }
  }

  lemma SlotsGrowByBit(b: Bitmap, i: nat, j: nat)
    requires i < 2048 && j < 8
    ensures |SlotsBelow(b, 8 * i + j + 1)| == |SlotsBelow(b, 8 * i + j)| + Bit(b[i], j)
  {
    hide Mask, BitSet, SlotsBelow;
    SlotsGrow(b, 8 * i + j);
    assert (8 * i + j) / 8 == i && (8 * i + j) % 8 == j;
  }

  lemma SlotsGrowByByte(b: Bitmap, i: nat)
    requires i < 2048
    ensures |SlotsBelow(b, 8 * (i + 1))| == |SlotsBelow(b, 8 * i)| + Ones(b[i])
  {
    hide Bit, SlotsBelow;
    SlotsGrowByBit(b, i, 0);
    SlotsGrowByBit(b, i, 1);
    SlotsGrowByBit(b, i, 2);
    SlotsGrowByBit(b, i, 3);
    SlotsGrowByBit(b, i, 4);
    SlotsGrowByBit(b, i, 5);
    SlotsGrowByBit(b, i, 6);
    SlotsGrowByBit(b, i, 7);
  }

  /** The lowest bit that is set. */
  lemma LowestBit(b: bv8) returns (j: nat)
    requires b != 0
    ensures j < 8 && BitSet(b, Mask(j)) && forall k: nat :: k < j ==> !BitSet(b, Mask(k))
  {
    hide Mask, BitSet;
    if forall k: nat :: k < 8 ==> !BitSet(b, Mask(k)) {
      NoBits(b);
    }
    j := 0;
    while !BitSet(b, Mask(j))
      invariant j < 8 && forall k: nat :: k < j ==> !BitSet(b, Mask(k))
      invariant exists k: nat :: k < 8 && BitSet(b, Mask(k))
      decreases 8 - j
    {
      j := j + 1;
    }
  }

  lemma NoBits(b: bv8)
    requires forall k: nat :: k < 8 ==> !BitSet(b, Mask(k))
    ensures b == 0
  {
    ZeroHasNone();
    BytesAgree(b, 0);
  }

  lemma ZeroHasNone()
    ensures forall k: nat :: k < 8 ==> !BitSet(0, Mask(k))
    ensures Ones(0) == 0
  {
  }

  /** Subtracting one and masking clears exactly the lowest bit. */
  lemma ClearLowest(b: bv8)
    requires b != 0
    ensures Ones(b & (b - 1)) == Ones(b) - 1
  {
    hide Mask, BitSet, Ones;
    var j := LowestBit(b);
    LowerBits(b, j);
    MaskSingle(b, j);
    KernighanStep(b, Mask(j));
    var x := b & (b - 1);
    forall k: nat | k < 8 ensures BitSet(x, Mask(k)) == (k != j && BitSet(b, Mask(k))) {
      MasksDisjoint(j, k);
      ClearOne(b, Mask(j), Mask(k));
    }
    OneLess(x, b, j);
  }

  lemma OneLess(x: bv8, b: bv8, j: nat)
    requires j < 8 && BitSet(b, Mask(j))
    requires forall k: nat :: k < 8 ==> BitSet(x, Mask(k)) == (k != j && BitSet(b, Mask(k)))
    ensures Ones(x) == Ones(b) - 1
  {
    hide Mask, BitSet;
  }

  lemma MaskSingle(b: bv8, j: nat)
    requires j < 8 && BitSet(b, Mask(j))
    ensures b & Mask(j) == Mask(j) && Mask(j) & (Mask(j) - 1) == 0 && Mask(j) != 0
  {
    hide Mask;
    MaskIs(j);
    SingleBit(b, Mask(j));
  }

  lemma SingleBit(b: bv8, m: bv8)
    ensures m & (m - 1) == 0 && b & m != 0 ==> b & m == m
  {
  }

  /** No bit below j is set, said with one mask. */
  lemma LowerBits(b: bv8, j: nat)
    requires j < 8 && forall k: nat :: k < j ==> !BitSet(b, Mask(k))
    ensures b & (Mask(j) - 1) == 0
  {
    var k: nat := 0;
    hide Mask;
    MaskIs(0);
    while k < j
      invariant k <= j && b & (Mask(k) - 1) == 0
    {
      assert !BitSet(b, Mask(k));
      MaskIs(k);
      MaskIs(k + 1);
      OneMore(b, Mask(k), Mask(k + 1));
      k := k + 1;
    }
  }

  lemma OneMore(b: bv8, m: bv8, next: bv8)
    requires b & (m - 1) == 0 && b & m == 0 && next == m << 1
    requires m == 1 || m == 2 || m == 4 || m == 8 || m == 16 || m == 32 || m == 64
    ensures b & (next - 1) == 0
  {
  }

  lemma KernighanStep(b: bv8, m: bv8)
    requires b & m == m && m & (m - 1) == 0 && b & (m - 1) == 0 && m != 0
    ensures b & (b - 1) == b & !m
  {
  }

  // ----- the node

  datatype Role = Master | Replica

  class Node {
    var id: string
    var host: string
    var port: string
    var busPort: string
    var role: Role
    var slots: Bitmap

    /** A node starts out with no slots; an empty id is replaced by a minted one. */
    constructor (id: string, host: string, port: string, busPort: string, role: Role, minted: string)
      requires minted != ""
      ensures this.id == (if id == "" then minted else id) != ""
      ensures this.host == host && this.port == port && this.busPort == busPort && this.role == role
      ensures forall s :: !Has(s)
    {
      this.id := if id == "" then minted else id;
      this.host, this.port, this.busPort, this.role := host, port, busPort, role;
      slots := seq(2048, _ => 0);
      new;
      hide Mask, BitSet;
      forall t ensures !Has(t) {
        if 0 <= t < SLOT_COUNT {
          EmptyByte(Mask(t % 8));
        }
      }
    }

    predicate Has(slot: int)
      reads this`slots
    {
      HasBit(slots, slot)
    }

    function Addr(): string
      reads this
    {
      host + ":" + port
    }

    /** Take over the parts of another node's address that it gives. */
    method LearnAddress(n: Node)
      modifies this`host, this`port, this`busPort
      ensures host == old(if n.host != "" then n.host else host)
      ensures port == old(if n.port != "" then n.port else port)
      ensures busPort == old(if n.busPort != "" then n.busPort else busPort)
    {
      if n.host != "" {
        host := n.host;
      }
      if n.port != "" {
        port := n.port;
      }
      if n.busPort != "" {
        busPort := n.busPort;
      }
    }

    method HasSlot(slot: int) returns (has: bool)
      ensures has == Has(slot)
    {
      if slot < 0 || slot >= SLOT_COUNT {
        return false;
      }
      return BitSet(slots[slot / 8], Mask(slot % 8));
    }

    /** Set a slot's bit; says whether it was clear. */
    method AddSlot(slot: int) returns (changed: bool)
      modifies this`slots
      ensures changed <==> 0 <= slot < SLOT_COUNT && !old(Has(slot))
      ensures forall t :: Has(t) <==> old(Has(t)) || (t == slot && 0 <= slot < SLOT_COUNT)
    {
      hide WithBit, Mask, BitSet;
      if slot < 0 || slot >= SLOT_COUNT {
        return false;
      }
      if BitSet(slots[slot / 8], Mask(slot % 8)) {
        return false;
      }
      forall t {
        AfterSet(slots, slot, t);
      }
      slots := WithBit(slots, slot);
      return true;
    }

    /** Clear a slot's bit; says whether it was set. */
    method DelSlot(slot: int) returns (changed: bool)
      modifies this`slots
      ensures changed <==> old(Has(slot))
      ensures forall t :: Has(t) <==> old(Has(t)) && t != slot
    {
      hide WithoutBit, Mask, BitSet;
      if slot < 0 || slot >= SLOT_COUNT {
        return false;
      }
      if !BitSet(slots[slot / 8], Mask(slot % 8)) {
        return false;
      }
      forall t {
        AfterClear(slots, slot, t);
      }
      slots := WithoutBit(slots, slot);
      return true;
    }

    /** The slots as runs. */
    method SlotRanges() returns (out: seq<Range>)
      ensures Separated(out) && forall s :: InRanges(out, s) <==> Has(s)
    {
      hide Mask, BitSet, RangesUpTo, Separated, InRanges, HasBit;
      out := [];
      var start: int := -1;
      RangesStart(slots);
      for i: nat := 0 to SLOT_COUNT
        invariant RangesUpTo(slots, out, start, i)
      {
        var bit := BitSet(slots[i / 8], Mask(i % 8));
        RangesStep(slots, out, start, i);
        if bit && start < 0 {
          start := i;
        }
        if !bit && start >= 0 {
          out := out + [(start, i - 1)];
          start := -1;
        }
      }
      RangesEnd(slots, out, start);
      if start >= 0 {
        out := out + [(start, SLOT_COUNT - 1)];
      }
    }

    /** How many slots the node has, each byte counted by clearing its lowest bit until none is left. */
    method NumSlots() returns (c: nat)
      ensures c == |set s: int | 0 <= s < SLOT_COUNT && Has(s)|
    {
      hide Ones;
      c := 0;
      for i := 0 to 2048
        invariant c == |SlotsBelow(slots, 8 * i)|
      {
        SlotsGrowByByte(slots, i);
        ZeroHasNone();
        var b := slots[i];
        while b != 0
          invariant c + Ones(b) == |SlotsBelow(slots, 8 * (i + 1))|
          decreases Ones(b)
        {
          ClearLowest(b);
          c := c + 1;
          b := b & (b - 1);
        }
      }
      assert SlotsBelow(slots, SLOT_COUNT) == set s: int | 0 <= s < SLOT_COUNT && Has(s);
    }

    /** Take in the runs another node has sent; slots out of range are ignored. */
    method AddRanges(rs: seq<Range>)
      modifies this`slots
      ensures forall s :: Has(s) <==> old(Has(s)) || (0 <= s < SLOT_COUNT && InRanges(rs, s))
    {
      for i := 0 to |rs|
        invariant forall s :: Has(s) <==> old(Has(s)) || (0 <= s < SLOT_COUNT && InRanges(rs[..i], s))
      {
        label before:
        var s := rs[i].0;
        while s <= rs[i].1
          invariant rs[i].0 <= s && (s <= rs[i].1 + 1 || s == rs[i].0)
          invariant forall t :: Has(t) <==> old@before(Has(t)) || (0 <= t < SLOT_COUNT && rs[i].0 <= t < s)
        {
          var changed := AddSlot(s);
          s := s + 1;
        }
        forall t ensures InRanges(rs[..i + 1], t) <==> InRanges(rs[..i], t) || rs[i].0 <= t <= rs[i].1 {
          OneMoreRange(rs, i, t);
        }
      }
      assert rs[..|rs|] == rs;
    }
  }

  lemma OneMoreRange(rs: seq<Range>, i: nat, t: int)
    requires i < |rs|
    ensures InRanges(rs[..i + 1], t) <==> InRanges(rs[..i], t) || rs[i].0 <= t <= rs[i].1
  {
    if InRanges(rs[..i], t) {
      var k :| 0 <= k < i && rs[..i][k].0 <= t <= rs[..i][k].1;
      assert rs[..i + 1][k] == rs[..i][k];
    }
    if rs[i].0 <= t <= rs[i].1 {
      assert rs[..i + 1][i] == rs[i];
    }
  }

  lemma RangeAdded(rs: seq<Range>, r: Range, t: int)
    ensures InRanges(rs + [r], t) <==> InRanges(rs, t) || r.0 <= t <= r.1
  {
    OneMoreRange(rs + [r], |rs|, t);
    assert (rs + [r])[..|rs| + 1] == rs + [r] && (rs + [r])[..|rs|] == rs;
  }

  /** The runs found so far, and the one being read if start is not negative. */
  ghost predicate RangesUpTo(b: Bitmap, out: seq<Range>, start: int, n: int) {
    && Separated(out) && -1 <= start < n
    && (forall s :: (InRanges(out, s) || 0 <= start <= s < n) <==> (s < n && HasBit(b, s)))
    && (out != [] ==> out[|out| - 1].1 < (if start < 0 then n else start) - 1)
  }

  lemma RangesStart(b: Bitmap)
    ensures RangesUpTo(b, [], -1, 0)
  {
    hide BitSet, Mask;
  }

  /** Closing the run being read. */
  lemma CloseRun(b: Bitmap, out: seq<Range>, start: int, n: nat)
    requires RangesUpTo(b, out, start, n) && start >= 0
    ensures Separated(out + [(start, n - 1)])
    ensures forall s :: InRanges(out + [(start, n - 1)], s) <==> s < n && HasBit(b, s)
  {
    hide HasBit, InRanges;
    forall s ensures InRanges(out + [(start, n - 1)], s) <==> s < n && HasBit(b, s) {
      RangeAdded(out, (start, n - 1), s);
    }
  }

  lemma RangesStep(b: Bitmap, out: seq<Range>, start: int, i: nat)
    requires RangesUpTo(b, out, start, i) && i < SLOT_COUNT
    ensures BitSet(b[i / 8], Mask(i % 8)) ==> RangesUpTo(b, out, if start < 0 then i else start, i + 1)
    ensures !BitSet(b[i / 8], Mask(i % 8)) && start < 0 ==> RangesUpTo(b, out, -1, i + 1)
    ensures !BitSet(b[i / 8], Mask(i % 8)) && start >= 0 ==> RangesUpTo(b, out + [(start, i - 1)], -1, i + 1)
  {
    BitRead(b, i);
    hide HasBit, InRanges, Separated;
    if start >= 0 {
      CloseRun(b, out, start, i);
    }
  }

  lemma BitRead(b: Bitmap, i: nat)
    requires i < SLOT_COUNT
    ensures HasBit(b, i) <==> BitSet(b[i / 8], Mask(i % 8))
  {
    hide BitSet, Mask;
  }

  lemma RangesEnd(b: Bitmap, out: seq<Range>, start: int)
    requires RangesUpTo(b, out, start, SLOT_COUNT)
    ensures
      var all := if start >= 0 then out + [(start, SLOT_COUNT - 1)] else out;
      Separated(all) && forall s :: InRanges(all, s) <==> HasBit(b, s)
  {
    hide InRanges, Separated, BitSet, Mask;
    if start >= 0 {
      CloseRun(b, out, start, SLOT_COUNT);
    }
  }

  /** Sending a node's runs to a node without slots rebuilds the very same bitmap. */
  lemma RunsRebuildBitmap(sent: Bitmap, rs: seq<Range>, rebuilt: Bitmap)
    requires forall s :: InRanges(rs, s) <==> HasBit(sent, s)
    requires forall s :: HasBit(rebuilt, s) <==> 0 <= s < SLOT_COUNT && InRanges(rs, s)
    ensures rebuilt == sent
  {
    hide InRanges, BitSet, Mask;
    BitmapsAgree(rebuilt, sent);
  }
}
