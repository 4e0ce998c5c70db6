/** CAN frames (drivers/can.h, drivers/can.c): the mailbox registers of transmission and reception,
    and acceptance filters. The register masks are those of the STM32F4 bxCAN controller. */
module CanFrames {
  import opened Bits

  const IDE: nat := 4
  const RTR: nat := 2
  const TXRQ: nat := 1
  const DLC: nat := 15

  type Data = d: seq<byte> | |d| == 8 witness [0, 0, 0, 0, 0, 0, 0, 0]

  datatype Frame = Frame(id: u32, extended: bool, rtr: bool, dlc: byte, data: Data)

  /** The identifier, length and two data registers of a mailbox. */
  datatype Mailbox = Mailbox(ir: u32, dtr: u32, dlr: u32, dhr: u32)

  /** The identifier register as can_process_tx_interrupt composes it, transmit request included. */
  function IdRegister(f: Frame): nat {
    var rir := if f.extended then Shl32(f.id, 3) else Shl32(f.id, 21);
    var withIde := Or(rir, if f.extended then IDE else 0);
    Or(Or(withIde, if f.rtr then RTR else 0), TXRQ)
  }

  /** Four data bytes in one register. */
  function Pack(a: byte, b: byte, c: byte, d: byte): nat {
    Or(Or(Or(a, Shl32(b, 8)), Shl32(c, 16)), Shl32(d, 24))
  }

  function ByteOf(w: u32, k: nat): byte {
    Shr(w, k) % 256
  }

  /** What can_process_rx_interrupt makes of a mailbox. */
  function Decode(m: Mailbox): Frame {
    var extended := And(m.ir, IDE) != 0;
    Frame(if extended then Shr(m.ir, 3) else Shr(m.ir, 21), extended, And(m.ir, RTR) != 0, And(m.dtr, DLC) % 256,
          [ByteOf(m.dlr, 0), ByteOf(m.dlr, 8), ByteOf(m.dlr, 16), ByteOf(m.dlr, 24),
           ByteOf(m.dhr, 0), ByteOf(m.dhr, 8), ByteOf(m.dhr, 16), ByteOf(m.dhr, 24)])
  }

  // ---------------------------------------------------------------- shifts that lose bits

  lemma {:induction false} LowLow(x: nat, i: nat, j: nat)
    requires j <= i
    ensures Low(Low(x, i), j) == Low(x, j)
  {
    if j > 0 {
      DivModUnique(Low(x, i), 2, Low(x / 2, i - 1), x % 2);
      LowLow(x / 2, i - 1, j - 1);
    }
  }

  lemma {:induction false} LowDouble(x: nat, j: nat)
    ensures Low(2 * x, j + 1) == 2 * Low(x, j)
  {}

  lemma {:induction false} DoubleDropsTop(x: u32)
    requires Pow2(31) == 0x8000_0000
    ensures Add32(x, x) == 2 * Low(x, 31)
  {
    hide Low;
    LowIsMod(x, 31);
  }

  /** A left shift keeps the low bits that still fit the register. */
  lemma {:induction false} ShlKeepsLow(x: u32, k: nat)
    requires k <= 32 && Pow2(32) == U32 && Pow2(31) == 0x8000_0000
    ensures Low(x, 32 - k) * Pow2(k) < U32
    ensures Shl32(x, k) == Low(x, 32 - k) * Pow2(k)
    decreases k
  {
    if k == 0 {
      LowOfSmall(x, 32);
    } else {
      var y := Low(x, 31);
      DoubleDropsTop(x);
      ShlKeepsLow(2 * y, k - 1);
      LowDouble(y, 32 - k);
      LowLow(x, 31, 32 - k);
      ShiftFactor(Low(x, 32 - k), Pow2(k - 1));
    }
  }

  lemma {:induction false} Shifts()
    ensures Pow2(32) == U32 && Pow2(31) == 0x8000_0000 && Pow2(29) == 0x2000_0000 && Pow2(11) == 0x800
    ensures Pow2(21) == 0x20_0000 && Pow2(3) == 8 && Pow2(8) == 256 && Pow2(16) == U16 && Pow2(24) == 0x100_0000
  {
    Pow2Values();
    Pow2Sum(29, 2);
    Pow2Sum(8, 3);
  }

  lemma {:induction false} ShlOf(x: u32)
    ensures Shl32(x, 3) == (x % 0x2000_0000) * 8
    ensures Shl32(x, 21) == (x % 0x800) * 0x20_0000
  {
    hide Shl32, Low;
    Shifts();
    ShlKeepsLow(x, 3);
    ShlKeepsLow(x, 21);
    LowIsMod(x, 29);
    LowIsMod(x, 11);
  }

  // ---------------------------------------------------------------- the round trip

  function IdBits(extended: bool): nat {
    if extended then 0x2000_0000 else 0x800
  }

  /** The identifier in its place. */
  function Placed(id: u32, extended: bool): (p: nat)
    ensures p + 7 < U32
  {
    if extended then (id % 0x2000_0000) * 8 else (id % 0x800) * 0x20_0000
  }

  /** The identifier register as a sum of its fields; an identifier too long for its kind is cut. */
  lemma {:induction false} IdRegisterIs(f: Frame)
    ensures IdRegister(f) == Placed(f.id, f.extended) + (if f.extended then 4 else 0) + (if f.rtr then 2 else 0) + 1
    ensures IdRegister(f) < U32
  {
    hide Or, Shl32, Placed;
    var q := IdPlaced(f.id, f.extended);
    OrThree(q, f.extended, f.rtr);
  }

  lemma {:induction false} IdPlaced(id: u32, extended: bool) returns (q: nat)
    ensures Placed(id, extended) == if extended then Shl32(id, 3) else Shl32(id, 21)
    ensures Placed(id, extended) == 8 * q
  {
    hide Shl32;
    ShlOf(id);
    q := if extended then id % 0x2000_0000 else (id % 0x800) * 0x4_0000;
  }

  /** A field or'ed below the multiple of a power of two is added. */
  lemma {:induction false} OrBelowMultiple(q: nat, k: nat, field: nat)
    requires field < Pow2(k)
    ensures Or(q * Pow2(k), field) == q * Pow2(k) + field
  {
    hide Or, Pow2;
    MulMod(q, Pow2(k));
    OrIsPack(q * Pow2(k), field, k);
  }

  lemma {:induction false} OrThree(q: nat, ide: bool, rtr: bool)
    ensures Or(Or(Or(8 * q, if ide then IDE else 0), if rtr then RTR else 0), TXRQ)
      == 8 * q + (if ide then 4 else 0) + (if rtr then 2 else 0) + 1
  {
    hide Or, Pow2;
    SmallPowers();
    var a, b := if ide then 1 else 0, if rtr then 1 else 0;
    OrBelowMultiple(q, 3, 4 * a);
    OrBelowMultiple(2 * q + a, 2, 2 * b);
    OrBelowMultiple(4 * q + 2 * a + b, 1, 1);
  }

  lemma {:induction false} SmallPowers()
    ensures Pow2(0) == 1 && Pow2(1) == 2 && Pow2(2) == 4 && Pow2(3) == 8
  {}

  lemma {:induction false} MaskBits(x: u32)
    ensures And(x, IDE) != 0 <==> (x / 4) % 2 == 1
    ensures And(x, RTR) != 0 <==> (x / 2) % 2 == 1
    ensures And(x, DLC) == x % 16
    ensures Shr(x, 3) == x / 8 && Shr(x, 21) == x / 0x20_0000
  {
    hide And, Shr;
    Shifts();
    Pow2Values();
    AndSingleBit(x, 2);
    AndSingleBit(x, 1);
    BitIsDiv(x, 2);
    BitIsDiv(x, 1);
    AndIsLowBits(x, 4);
    ShrIsDiv(x, 3);
    ShrIsDiv(x, 21);
  }

  lemma {:induction false} PackIs(a: byte, b: byte, c: byte, d: byte)
    ensures Pack(a, b, c, d) == a + 0x100 * b + 0x1_0000 * c + 0x100_0000 * d < U32
  {
    hide Or, Shl32;
    Shifts();
    ShlIsMul(b, 8);
    ShlIsMul(c, 16);
    ShlIsMul(d, 24);
    OrCommutes(a, b * 0x100);
    OrIsPack(b * 0x100, a, 8);
    OrCommutes(a + b * 0x100, c * 0x1_0000);
    OrIsPack(c * 0x1_0000, a + b * 0x100, 16);
    OrCommutes(a + b * 0x100 + c * 0x1_0000, d * 0x100_0000);
    OrIsPack(d * 0x100_0000, a + b * 0x100 + c * 0x1_0000, 24);
  }

  lemma {:induction false} BytesOfPack(a: byte, b: byte, c: byte, d: byte)
    ensures var w := Pack(a, b, c, d);
      w < U32 && ByteOf(w, 0) == a && ByteOf(w, 8) == b && ByteOf(w, 16) == c && ByteOf(w, 24) == d
  {
    hide Pack, Shr;
    PackIs(a, b, c, d);
    Shifts();
    var w := Pack(a, b, c, d);
    ShrIsDiv(w, 0);
    ShrIsDiv(w, 8);
    ShrIsDiv(w, 16);
    ShrIsDiv(w, 24);
    Digits(a, b, c, d, w);
  }

  lemma {:induction false} Digits(a: byte, b: byte, c: byte, d: byte, w: u32)
    requires w == a + 0x100 * b + 0x1_0000 * c + 0x100_0000 * d
    ensures (w / 1) % 256 == a && (w / 0x100) % 256 == b && (w / 0x1_0000) % 256 == c && (w / 0x100_0000) % 256 == d
  {
    DivModUnique(w, 0x100, b + 0x100 * c + 0x1_0000 * d, a);
    DivModUnique(w, 0x1_0000, c + 0x100 * d, a + 0x100 * b);
    DivModUnique(w, 0x100_0000, d, a + 0x100 * b + 0x1_0000 * c);
    DivModUnique(b + 0x100 * c + 0x1_0000 * d, 0x100, c + 0x100 * d, b);
    DivModUnique(c + 0x100 * d, 0x100, d, c);
  }

  /** The mailbox the transmitter fills. */
  function Encode(f: Frame): (m: Mailbox)
  {
    IdRegisterIs(f);
    PackIs(f.data[0], f.data[1], f.data[2], f.data[3]);
    PackIs(f.data[4], f.data[5], f.data[6], f.data[7]);
    Mailbox(IdRegister(f), f.dlc, Pack(f.data[0], f.data[1], f.data[2], f.data[3]),
            Pack(f.data[4], f.data[5], f.data[6], f.data[7]))
  }

  /** The registers of a transmitted frame: length as it is, data bytes 0 to 3 in the low register and 4
      to 7 in the high one, the first of each lowest. */
  lemma {:induction false} EncodeLayout(f: Frame)
    ensures Encode(f).ir == Placed(f.id, f.extended) + (if f.extended then 4 else 0) + (if f.rtr then 2 else 0) + 1
    ensures Encode(f).dtr == f.dlc
    ensures Encode(f).dlr == Quad(f.data[0], f.data[1], f.data[2], f.data[3])
    ensures Encode(f).dhr == Quad(f.data[4], f.data[5], f.data[6], f.data[7])
  {
    hide Pack, IdRegister;
    IdRegisterIs(f);
    PackIs(f.data[0], f.data[1], f.data[2], f.data[3]);
    PackIs(f.data[4], f.data[5], f.data[6], f.data[7]);
  }

  function Quad(a: nat, b: nat, c: nat, d: nat): nat {
    a + 0x100 * b + 0x1_0000 * c + 0x100_0000 * d
  }

  /** A received frame, bit by bit of its registers. */
  lemma {:induction false} DecodeLayout(m: Mailbox)
    ensures Decode(m).extended <==> (m.ir / 4) % 2 == 1
    ensures Decode(m).rtr <==> (m.ir / 2) % 2 == 1
    ensures Decode(m).id == if (m.ir / 4) % 2 == 1 then m.ir / 8 else m.ir / 0x20_0000
    ensures Decode(m).dlc == m.dtr % 16
    ensures var d := Decode(m).data;
      && d[0] == m.dlr % 256 && d[1] == m.dlr / 0x100 % 256 && d[2] == m.dlr / 0x1_0000 % 256
      && d[3] == m.dlr / 0x100_0000 % 256
      && d[4] == m.dhr % 256 && d[5] == m.dhr / 0x100 % 256 && d[6] == m.dhr / 0x1_0000 % 256
      && d[7] == m.dhr / 0x100_0000 % 256
  {
    hide And, Shr;
    MaskBits(m.ir);
    MaskBits(m.dtr);
    BytesOfWord(m.dlr);
    BytesOfWord(m.dhr);
  }

  lemma {:induction false} BytesOfWord(w: u32)
    ensures ByteOf(w, 0) == w % 256 && ByteOf(w, 8) == w / 0x100 % 256
    ensures ByteOf(w, 16) == w / 0x1_0000 % 256 && ByteOf(w, 24) == w / 0x100_0000 % 256
  {
    hide Shr;
    Shifts();
    ShrIsDiv(w, 0);
    ShrIsDiv(w, 8);
    ShrIsDiv(w, 16);
    ShrIsDiv(w, 24);
  }

  /** What survives a trip through the mailbox: everything but identifier bits beyond 11 or 29 and
      length bits beyond four. */
  lemma {:induction false} DecodeEncode(f: Frame)
    ensures Decode(Encode(f)) == f.(id := f.id % IdBits(f.extended), dlc := f.dlc % 16)
  {
    hide IdRegister, Pack, And, Shr, ByteOf;
    IdRegisterIs(f);
    var ir := IdRegister(f);
    MaskBits(ir);
    MaskBits(f.dlc);
    IdFields(f.id, f.extended, f.rtr, ir);
    BytesOfPack(f.data[0], f.data[1], f.data[2], f.data[3]);
    BytesOfPack(f.data[4], f.data[5], f.data[6], f.data[7]);
    assert Decode(Encode(f)).data == f.data;
  }

  lemma {:induction false} IdFields(id: u32, extended: bool, rtr: bool, ir: u32)
    requires ir == Placed(id, extended) + (if extended then 4 else 0) + (if rtr then 2 else 0) + 1
    ensures ((ir / 4) % 2 == 1 <==> extended) && ((ir / 2) % 2 == 1 <==> rtr)
    ensures id % IdBits(extended) == if extended then ir / 8 else ir / 0x20_0000
  {
    var a, b := if extended then 1 else 0, if rtr then 1 else 0;
    if extended {
      DivModUnique(ir, 8, id % 0x2000_0000, 4 * a + 2 * b + 1);
      FlagsOf(ir, id % 0x2000_0000, a, b);
    } else {
      DivModUnique(ir, 0x20_0000, id % 0x800, 4 * a + 2 * b + 1);
      FlagsOf(ir, (id % 0x800) * 0x4_0000, a, b);
    }
  }

  lemma {:induction false} FlagsOf(x: nat, q: nat, a: nat, b: nat)
    requires x == 8 * q + 4 * a + 2 * b + 1 && a < 2 && b < 2
    ensures (x / 4) % 2 == a && (x / 2) % 2 == b
  {
    DivModUnique(x, 4, 2 * q + a, 2 * b + 1);
    DivModUnique(2 * q + a, 2, q, a);
    DivModUnique(x, 2, 4 * q + 2 * a + b, 1);
    DivModUnique(4 * q + 2 * a + b, 2, 2 * q + a, b);
  }

  /** A transmitted frame is received unchanged exactly when its identifier fits its kind (11 bits,
      or 29 when extended) and its length fits four bits; can_send_frame admits lengths up to 8. */
  lemma {:induction false} RoundTripExactly(f: Frame)
    ensures Decode(Encode(f)) == f <==> f.id < IdBits(f.extended) && f.dlc < 16
  {
    hide Decode, Encode;
    DecodeEncode(f);
  }

  // ---------------------------------------------------------------- filters

  datatype Filter = Filter(mask: u32, id: u32, extended: bool)

  /** can_frame_matches_filter. */
  predicate Matches(f: Frame, filter: Filter) {
    f.extended == filter.extended && And(f.id, filter.mask) == And(filter.id, filter.mask)
  }

  ghost predicate AgreesOn(x: u32, y: u32, mask: u32) {
    forall k: nat | Bit(mask, k) :: Bit(x, k) == Bit(y, k)
  }

  lemma {:induction false} MaskedEqual(x: u32, y: u32, mask: u32)
    ensures And(x, mask) == And(y, mask) <==> AgreesOn(x, y, mask)
  {
    hide And, AgreesOn;
    if And(x, mask) == And(y, mask) {
      EqualAgrees(x, y, mask);
    }
    if AgreesOn(x, y, mask) {
      AgreesEqual(x, y, mask);
    }
  }

  lemma {:induction false} EqualAgrees(x: u32, y: u32, mask: u32)
    requires And(x, mask) == And(y, mask)
    ensures AgreesOn(x, y, mask)
  {
    forall k: nat | Bit(mask, k)
      ensures Bit(x, k) == Bit(y, k)
    {
      BitOfAnd(x, mask, k);
      BitOfAnd(y, mask, k);
    }
  }

  lemma {:induction false} AgreesEqual(x: u32, y: u32, mask: u32)
    requires AgreesOn(x, y, mask)
    ensures And(x, mask) == And(y, mask)
  {
    forall k: nat
      ensures Bit(And(x, mask), k) == Bit(And(y, mask), k)
    {
      BitOfAnd(x, mask, k);
      BitOfAnd(y, mask, k);
    }
    SameBits(And(x, mask), And(y, mask));
  }

  /** A frame matches when it is of the filter's kind and agrees with it on every masked bit. */
  lemma {:induction false} MatchesExactly(f: Frame, filter: Filter)
    ensures Matches(f, filter) <==> f.extended == filter.extended && AgreesOn(f.id, filter.id, filter.mask)
  {
    hide And, AgreesOn;
    MaskedEqual(f.id, filter.id, filter.mask);
  }
}
