/** The SmartMedia error-correcting code over 256-byte blocks: 22 check bits
    that correct one wrong bit and detect two. */
module Ecc {
  import opened Flash

  /** The three check bytes; the two low bits of e2 are always set. */
  datatype Check = Check(e0: bv8, e1: bv8, e2: bv8)

  function XorByte(a: bv8, b: bv8): bv8 { a ^ b }

  function Xor(a: Check, b: Check): Check {
    Check(XorByte(a.e0, b.e0), XorByte(a.e1, b.e1), XorByte(a.e2, b.e2))
  }

  // ----- parities

  /** Column parities of a byte, and in the lowest bit the parity of the byte. */
  function Column(b: bv8): bv8 {
    (if b & 0x01 != 0 then 0x55 else 0) ^ (if b & 0x02 != 0 then 0x59 else 0)
    ^ (if b & 0x04 != 0 then 0x65 else 0) ^ (if b & 0x08 != 0 then 0x69 else 0)
    ^ (if b & 0x10 != 0 then 0x95 else 0) ^ (if b & 0x20 != 0 then 0x99 else 0)
    ^ (if b & 0x40 != 0 then 0xa5 else 0) ^ (if b & 0x80 != 0 then 0xa9 else 0)
  }

  /** column_parity_table, sixteen entries to a row. */
  const COLUMN_PARITY: seq<seq<bv8>> := [
    [0x00, 0x55, 0x59, 0x0c, 0x65, 0x30, 0x3c, 0x69, 0x69, 0x3c, 0x30, 0x65, 0x0c, 0x59, 0x55, 0x00],
    [0x95, 0xc0, 0xcc, 0x99, 0xf0, 0xa5, 0xa9, 0xfc, 0xfc, 0xa9, 0xa5, 0xf0, 0x99, 0xcc, 0xc0, 0x95],
    [0x99, 0xcc, 0xc0, 0x95, 0xfc, 0xa9, 0xa5, 0xf0, 0xf0, 0xa5, 0xa9, 0xfc, 0x95, 0xc0, 0xcc, 0x99],
    [0x0c, 0x59, 0x55, 0x00, 0x69, 0x3c, 0x30, 0x65, 0x65, 0x30, 0x3c, 0x69, 0x00, 0x55, 0x59, 0x0c],
    [0xa5, 0xf0, 0xfc, 0xa9, 0xc0, 0x95, 0x99, 0xcc, 0xcc, 0x99, 0x95, 0xc0, 0xa9, 0xfc, 0xf0, 0xa5],
    [0x30, 0x65, 0x69, 0x3c, 0x55, 0x00, 0x0c, 0x59, 0x59, 0x0c, 0x00, 0x55, 0x3c, 0x69, 0x65, 0x30],
    [0x3c, 0x69, 0x65, 0x30, 0x59, 0x0c, 0x00, 0x55, 0x55, 0x00, 0x0c, 0x59, 0x30, 0x65, 0x69, 0x3c],
    [0xa9, 0xfc, 0xf0, 0xa5, 0xcc, 0x99, 0x95, 0xc0, 0xc0, 0x95, 0x99, 0xcc, 0xa5, 0xf0, 0xfc, 0xa9],
    [0xa9, 0xfc, 0xf0, 0xa5, 0xcc, 0x99, 0x95, 0xc0, 0xc0, 0x95, 0x99, 0xcc, 0xa5, 0xf0, 0xfc, 0xa9],
    [0x3c, 0x69, 0x65, 0x30, 0x59, 0x0c, 0x00, 0x55, 0x55, 0x00, 0x0c, 0x59, 0x30, 0x65, 0x69, 0x3c],
    [0x30, 0x65, 0x69, 0x3c, 0x55, 0x00, 0x0c, 0x59, 0x59, 0x0c, 0x00, 0x55, 0x3c, 0x69, 0x65, 0x30],
    [0xa5, 0xf0, 0xfc, 0xa9, 0xc0, 0x95, 0x99, 0xcc, 0xcc, 0x99, 0x95, 0xc0, 0xa9, 0xfc, 0xf0, 0xa5],
    [0x0c, 0x59, 0x55, 0x00, 0x69, 0x3c, 0x30, 0x65, 0x65, 0x30, 0x3c, 0x69, 0x00, 0x55, 0x59, 0x0c],
    [0x99, 0xcc, 0xc0, 0x95, 0xfc, 0xa9, 0xa5, 0xf0, 0xf0, 0xa5, 0xa9, 0xfc, 0x95, 0xc0, 0xcc, 0x99],
    [0x95, 0xc0, 0xcc, 0x99, 0xf0, 0xa5, 0xa9, 0xfc, 0xfc, 0xa9, 0xa5, 0xf0, 0x99, 0xcc, 0xc0, 0x95],
    [0x00, 0x55, 0x59, 0x0c, 0x65, 0x30, 0x3c, 0x69, 0x69, 0x3c, 0x30, 0x65, 0x0c, 0x59, 0x55, 0x00]]

  function ColumnParity(b: bv8): (p: bv8)
    ensures p == Column(b)
  {
    COLUMN_PARITY[(b >> 4) as int][(b & 0x0f) as int]
  }

  // ----- the code of a block

  ghost function Fold<T>(op: (T, T) -> T, unit: T, xs: seq<T>): T {
    if xs == [] then unit else op(Fold(op, unit, xs[..|xs| - 1]), xs[|xs| - 1])
  }

  ghost function MapAt<S, T>(f: (nat, S) -> T, xs: seq<S>): seq<T> {
    seq(|xs|, i requires 0 <= i < |xs| => f(i, xs[i]))
  }

  ghost predicate Commutes<T(!new)>(op: (T, T) -> T) {
    && (forall a, b, c :: op(op(a, b), c) == op(op(a, c), b))
    && (forall a, b, c :: op(a, op(b, c)) == op(op(a, b), c))
  }

  /** Adding m to one element adds m to the total. */
  lemma {:induction false} FoldChange<T(!new)>(op: (T, T) -> T, unit: T, xs: seq<T>, i: nat, m: T)
    requires i < |xs| && Commutes(op)
    ensures Fold(op, unit, xs[i := op(xs[i], m)]) == op(Fold(op, unit, xs), m)
  {
    var n := |xs| - 1;
    var ys := xs[i := op(xs[i], m)];
    if i == n {
      assert ys[..n] == xs[..n];
    } else {
      FoldChange(op, unit, xs[..n], i, m);
      assert ys[..n] == xs[..n][i := op(xs[..n][i], m)] && ys[n] == xs[n];
    }
  }

  lemma MapChange<S, T(!new)>(f: (nat, S) -> T, op: (T, T) -> T, unit: T, xs: seq<S>, i: nat, x: S, m: T)
    requires i < |xs| && Commutes(op) && f(i, x) == op(f(i, xs[i]), m)
    ensures Fold(op, unit, MapAt(f, xs[i := x])) == op(Fold(op, unit, MapAt(f, xs)), m)
  {
    FoldChange(op, unit, MapAt(f, xs), i, m);
    assert MapAt(f, xs[i := x]) == MapAt(f, xs)[i := op(MapAt(f, xs)[i], m)];
  }

  lemma XorSwaps(a: bv8, b: bv8, c: bv8)
    ensures XorByte(XorByte(a, b), c) == XorByte(XorByte(a, c), b)
    ensures XorByte(a, XorByte(b, c)) == XorByte(XorByte(a, b), c)
  {
  }

  lemma XorCancels(a: bv8, b: bv8)
    ensures XorByte(a, b) == XorByte(b, a) && XorByte(a, 0) == a && XorByte(0, a) == a && XorByte(a, a) == 0
  {
  }

  lemma XorCommutes()
    ensures Commutes(XorByte)
  {
    hide XorByte;
    forall a, b, c {
      XorSwaps(a, b, c);
    }
  }

  /** The number of a byte, and its complement. */
  function Num(i: nat): bv8 { if i < 256 then i as bv8 else 0 }

  function Prime(i: nat): bv8 { !Num(i) }

  /** v if the byte has odd parity. */
  function Odd(b: bv8, v: bv8): bv8 {
    if Column(b) & 0x01 != 0 then v else 0
  }

  function ColumnAt(i: nat, b: bv8): bv8 { Column(b) }

  function LineAt(i: nat, b: bv8): bv8 { Odd(b, Num(i)) }

  function PrimeAt(i: nat, b: bv8): bv8 { Odd(b, Prime(i)) }

  ghost function Columns(data: seq<bv8>): bv8 { Fold(XorByte, 0, MapAt(ColumnAt, data)) }

  ghost function Lines(data: seq<bv8>): bv8 { Fold(XorByte, 0, MapAt(LineAt, data)) }

  ghost function Primes(data: seq<bv8>): bv8 { Fold(XorByte, 0, MapAt(PrimeAt, data)) }

  /** The upper and the lower half of the line parities, interleaved. */
  function Spread1(line: bv8, prime: bv8): bv8 {
    (line & 0x80) | ((prime & 0x80) >> 1) | ((line & 0x40) >> 1) | ((prime & 0x40) >> 2)
    | ((line & 0x20) >> 2) | ((prime & 0x20) >> 3) | ((line & 0x10) >> 3) | ((prime & 0x10) >> 4)
  }

  function Spread0(line: bv8, prime: bv8): bv8 {
    ((line & 0x08) << 4) | ((prime & 0x08) << 3) | ((line & 0x04) << 3) | ((prime & 0x04) << 2)
    | ((line & 0x02) << 2) | ((prime & 0x02) << 1) | ((line & 0x01) << 1) | (prime & 0x01)
  }

  function Pack(col: bv8, line: bv8, prime: bv8): Check {
    Check(!Spread0(line, prime), !Spread1(line, prime), !col | 0x03)
  }

  ghost function Code(data: seq<bv8>): Check {
    Pack(Columns(data), Lines(data), Primes(data))
  }

  // ----- wrong bits

  /** Bit k of a byte. */
  function Mask(k: nat): bv8
    requires k < 8
  {
    if k == 0 then 0x01 else if k == 1 then 0x02 else if k == 2 then 0x04 else if k == 3 then 0x08
    else if k == 4 then 0x10 else if k == 5 then 0x20 else if k == 6 then 0x40 else 0x80
  }

  function FlipBit(b: bv8, k: nat): bv8
    requires k < 8
  {
    XorByte(b, Mask(k))
  }

  function Flip(data: seq<bv8>, i: nat, k: nat): seq<bv8>
    requires k < 8
  {
    if i < |data| then data[i := FlipBit(data[i], k)] else data
  }

  /** How the check bytes change when the parities do. */
  function Delta(col: bv8, line: bv8, prime: bv8): Check {
    Check(Spread0(line, prime), Spread1(line, prime), col & 0xfc)
  }

  /** How the check bytes differ when bit k of byte l is wrong. */
  function Syndrome(l: bv8, k: nat): Check
    requires k < 8
  {
    Check(LowSign(l), HighSign(l), ColumnSign(k))
  }

  function LowSign(l: bv8): bv8 { Spread0(l, !l) }

  function HighSign(l: bv8): bv8 { Spread1(l, !l) }

  function ColumnSign(k: nat): bv8
    requires k < 8
  {
    Column(Mask(k)) & 0xfc
  }

  lemma LowFlip(b: bv8)
    ensures Column(XorByte(b, 0x01)) == XorByte(Column(b), 0x55) && Column(XorByte(b, 0x02)) == XorByte(Column(b), 0x59)
    ensures Column(XorByte(b, 0x04)) == XorByte(Column(b), 0x65) && Column(XorByte(b, 0x08)) == XorByte(Column(b), 0x69)
  {
  }

  lemma HighFlip(b: bv8)
    ensures Column(XorByte(b, 0x10)) == XorByte(Column(b), 0x95) && Column(XorByte(b, 0x20)) == XorByte(Column(b), 0x99)
    ensures Column(XorByte(b, 0x40)) == XorByte(Column(b), 0xa5) && Column(XorByte(b, 0x80)) == XorByte(Column(b), 0xa9)
  {
  }

  lemma ColumnMask(k: nat)
    requires k < 8
    ensures Column(Mask(k)) == [0x55, 0x59, 0x65, 0x69, 0x95, 0x99, 0xa5, 0xa9][k]
    ensures Column(Mask(k)) & 0x01 == 0x01
  {
  }

  /** One wrong bit changes the parities of a byte by its own. */
  lemma ColumnFlip(b: bv8, k: nat)
    requires k < 8
    ensures Column(FlipBit(b, k)) == XorByte(Column(b), Column(Mask(k))) && Column(Mask(k)) & 0x01 == 0x01
  {
    hide Column, XorByte;
    LowFlip(b);
    HighFlip(b);
    ColumnMask(k);
  }

  lemma OddFlip(b: bv8, k: nat, v: bv8)
    requires k < 8
    ensures Odd(FlipBit(b, k), v) == XorByte(Odd(b, v), v)
  {
    hide Column, Mask, FlipBit;
    ColumnFlip(b, k);
    LowBit(Column(b), Column(Mask(k)));
  }

  lemma LowBit(c: bv8, d: bv8)
    requires d & 0x01 == 0x01
    ensures XorByte(c, d) & 0x01 != 0 <==> c & 0x01 == 0
  {
  }

  lemma FlipParities(data: seq<bv8>, i: nat, k: nat)
    requires i < |data| && k < 8
    ensures Columns(Flip(data, i, k)) == XorByte(Columns(data), Column(Mask(k)))
    ensures Lines(Flip(data, i, k)) == XorByte(Lines(data), Num(i))
    ensures Primes(Flip(data, i, k)) == XorByte(Primes(data), Prime(i))
  {
    hide Column, Mask, FlipBit, Odd, Num, Prime, XorByte, Fold, MapAt, Commutes;
    XorCommutes();
    ColumnFlip(data[i], k);
    OddFlip(data[i], k, Num(i));
    OddFlip(data[i], k, Prime(i));
    MapChange(ColumnAt, XorByte, 0, data, i, FlipBit(data[i], k), Column(Mask(k)));
    MapChange(LineAt, XorByte, 0, data, i, FlipBit(data[i], k), Num(i));
    MapChange(PrimeAt, XorByte, 0, data, i, FlipBit(data[i], k), Prime(i));
  }

  lemma PackXor(col: bv8, line: bv8, prime: bv8, c: bv8, l: bv8, p: bv8)
    ensures Xor(Pack(XorByte(col, c), XorByte(line, l), XorByte(prime, p)), Pack(col, line, prime)) == Delta(c, l, p)
  {
  }

  /** A byte's number comes back when it is read as an index. */
  lemma NumIs(l: bv8)
    ensures Num(l as int) == l && Prime(l as int) == !l && l as int < 256
  {
  }

  /** One wrong bit changes the code by the syndrome of its position. */
  lemma OneFlip(data: seq<bv8>, l: bv8, k: nat)
    requires |data| == 256 && k < 8
    ensures Xor(Code(Flip(data, l as int, k)), Code(data)) == Syndrome(l, k)
  {
    hide Column, Mask, Columns, Lines, Primes, Num, Prime, Pack, Spread0, Spread1, Flip, Xor, XorByte;
    NumIs(l);
    FlipParities(data, l as int, k);
    PackXor(Columns(data), Lines(data), Primes(data), Column(Mask(k)), l, !l);
  }

  // ----- diagnosis

  /** What the difference of the read and the computed check bytes says. */
  datatype Verdict = Clean | DataBit(byte: bv8, bit: nat) | CheckBit | Bad

  const NONE := Check(0, 0, 0)

  /** In each of the four (three) pairs of bits the two bits differ. */
  predicate PairsDiffer(x: bv8, lows: bv8) {
    (x ^ (x >> 1)) & lows == lows
  }

  predicate AllPairsDiffer(d: Check) {
    PairsDiffer(d.e0, 0x55) && PairsDiffer(d.e1, 0x55) && PairsDiffer(d.e2, 0x54)
  }

  function Bit(x: bv8, mask: bv8): nat { if x & mask != 0 then 1 else 0 }

  /** The number of bits that are set. */
  function Ones(x: bv8): nat {
    Bit(x, 0x01) + Bit(x, 0x02) + Bit(x, 0x04) + Bit(x, 0x08)
    + Bit(x, 0x10) + Bit(x, 0x20) + Bit(x, 0x40) + Bit(x, 0x80)
  }

  function Weight(d: Check): nat { Ones(d.e0) + Ones(d.e1) + Ones(d.e2) }

  /** Every second bit of the line differences names the byte. */
  function ByteOf(d: Check): bv8 {
    (d.e1 & 0x80) | ((d.e1 & 0x20) << 1) | ((d.e1 & 0x08) << 2) | ((d.e1 & 0x02) << 3)
    | ((d.e0 & 0x80) >> 4) | ((d.e0 & 0x20) >> 3) | ((d.e0 & 0x08) >> 2) | ((d.e0 & 0x02) >> 1)
  }

  function BitOf(d: Check): (k: nat)
    ensures k < 8
  {
    4 * Bit(d.e2, 0x80) + 2 * Bit(d.e2, 0x20) + Bit(d.e2, 0x08)
  }

  function Diagnose(d: Check): (v: Verdict)
    ensures v.DataBit? ==> v.bit < 8
  {
    if d == NONE then Clean
    else if AllPairsDiffer(d) then DataBit(ByteOf(d), BitOf(d))
    else if Weight(d) == 1 then CheckBit
    else Bad
  }

  // ----- any pattern of wrong bits

  datatype Chunk = Chunk(data: seq<bv8>, check: Check)

  /** One wrong bit, of the data or of the stored check bytes. */
  datatype Wrong = InData(line: bv8, bit: nat) | InCheck(byte: nat, bit: nat)

  ghost predicate IsBit(w: Wrong) {
    w.bit < 8 && (w.InCheck? ==> w.byte < 3)
  }

  /** The two low bits of the last check byte carry nothing. */
  ghost predicate Used(w: Wrong) {
    IsBit(w) && (w.InCheck? && w.byte == 2 ==> w.bit >= 2)
  }

  function Unit(byte: nat, bit: nat): Check
    requires bit < 8
  {
    Check(if byte == 0 then Mask(bit) else 0, if byte == 1 then Mask(bit) else 0, if byte == 2 then Mask(bit) else 0)
  }

  ghost function Damage(c: Chunk, w: Wrong): Chunk
    requires |c.data| == 256 && IsBit(w)
  {
    if w.InData? then Chunk(Flip(c.data, w.line as int, w.bit), c.check)
    else Chunk(c.data, Xor(c.check, Unit(w.byte, w.bit)))
  }

  /** The difference that the decoder looks at. */
  ghost function Diff(c: Chunk): Check { Xor(c.check, Code(c.data)) }

  /** What a wrong bit adds to the difference. */
  function Sign(w: Wrong): Check
    requires w.bit < 8
  {
    if w.InData? then Syndrome(w.line, w.bit) else Unit(w.byte, w.bit)
  }

  lemma Regroup(a: Check, b: Check, c: Check)
    ensures Xor(Xor(a, b), c) == Xor(Xor(a, c), b)
    ensures Xor(a, Xor(b, c)) == Xor(Xor(a, b), c)
  {
    hide XorByte;
    XorSwaps(a.e0, b.e0, c.e0);
    XorSwaps(a.e1, b.e1, c.e1);
    XorSwaps(a.e2, b.e2, c.e2);
  }

  lemma Cancel(a: Check, b: Check)
    ensures Xor(a, b) == Xor(b, a) && Xor(a, NONE) == a && Xor(NONE, a) == a && Xor(a, a) == NONE
  {
    hide XorByte;
    XorCancels(a.e0, b.e0);
    XorCancels(a.e1, b.e1);
    XorCancels(a.e2, b.e2);
  }

  /** Wrong bits add up. */
  lemma DamageAdds(c: Chunk, w: Wrong)
    requires |c.data| == 256 && IsBit(w)
    ensures Diff(Damage(c, w)) == Xor(Diff(c), Sign(w)) && |Damage(c, w).data| == 256
  {
    hide Xor, Code, Syndrome, Unit;
    if w.InData? {
      var flipped, code := Code(Flip(c.data, w.line as int, w.bit)), Code(c.data);
      OneFlip(c.data, w.line, w.bit);
      Regroup(code, flipped, code);
      Cancel(code, flipped);
      Cancel(flipped, NONE);
      Regroup(c.check, code, Syndrome(w.line, w.bit));
    } else {
      Regroup(c.check, Unit(w.byte, w.bit), Code(c.data));
    }
  }

  lemma LineVerdict(l: bv8, e2: bv8)
    ensures var d := Check(LowSign(l), HighSign(l), e2);
            PairsDiffer(d.e0, 0x55) && PairsDiffer(d.e1, 0x55) && ByteOf(d) == l
  {
  }

  lemma ColumnVerdict(e0: bv8, e1: bv8, k: nat)
    requires k < 8
    ensures var d := Check(e0, e1, ColumnSign(k));
            PairsDiffer(d.e2, 0x54) && BitOf(d) == k && d != NONE
  {
    hide Column;
    ColumnMask(k);
  }

  lemma DataVerdict(l: bv8, k: nat)
    requires k < 8
    ensures Diagnose(Syndrome(l, k)) == DataBit(l, k)
  {
    hide LowSign, HighSign, ColumnSign, PairsDiffer, ByteOf, BitOf, Weight;
    var d := Syndrome(l, k);
    LineVerdict(l, d.e2);
    ColumnVerdict(d.e0, d.e1, k);
  }

  lemma CheckVerdict(byte: nat, bit: nat)
    requires byte < 3 && bit < 8
    ensures Diagnose(Unit(byte, bit)) == CheckBit
  {
  }

  /** Only the difference that one wrong data bit makes is taken for one. */
  lemma OnlyDataBits(d: Check)
    requires AllPairsDiffer(d) && d.e2 & 0x03 == 0
    ensures d == Delta(Column(Mask(BitOf(d))), ByteOf(d), !ByteOf(d))
  {
    hide Column, Mask;
    OnlyLines(d);
    ColumnMask(BitOf(d));
  }

  lemma OnlyLines(d: Check)
    requires AllPairsDiffer(d)
    ensures d.e0 == Spread0(ByteOf(d), !ByteOf(d)) && d.e1 == Spread1(ByteOf(d), !ByteOf(d))
  {
  }

  // ----- two wrong bits

  lemma XorNone(a: Check, b: Check)
    requires Xor(a, b) == NONE
    ensures a == b
  {
  }

  lemma TwoLows(l: bv8, p: bv8)
    ensures Ones(XorByte(LowSign(l), LowSign(p))) != 1 && !PairsDiffer(XorByte(LowSign(l), LowSign(p)), 0x55)
  {
  }

  lemma TwoHighs(l: bv8, p: bv8)
    ensures Ones(XorByte(HighSign(l), HighSign(p))) != 1
  {
  }

  lemma TwoColumns(k: nat, j: nat)
    requires k < 8 && j < 8
    ensures Ones(XorByte(ColumnSign(k), ColumnSign(j))) != 1
  {
    hide Column, Mask;
    ColumnMask(k);
    ColumnMask(j);
  }

  lemma TwoDataBits(a: Wrong, b: Wrong)
    requires IsBit(a) && IsBit(b) && a.InData? && b.InData? && a != b
    ensures Diagnose(Xor(Sign(a), Sign(b))) == Bad
  {
    hide LowSign, HighSign, ColumnSign, PairsDiffer, Ones, XorByte, Diagnose;
    TwoLows(a.line, b.line);
    TwoHighs(a.line, b.line);
    TwoColumns(a.bit, b.bit);
    Apart(a, b);
    BadWhen(Xor(Sign(a), Sign(b)));
  }

  lemma BadWhen(d: Check)
    requires d != NONE && !AllPairsDiffer(d) && Weight(d) != 1
    ensures Diagnose(d) == Bad
  {
  }

  /** Different wrong bits make different differences. */
  lemma Apart(a: Wrong, b: Wrong)
    requires IsBit(a) && IsBit(b) && a != b
    ensures Xor(Sign(a), Sign(b)) != NONE
  {
    hide Column, Mask, Num, Diagnose, Syndrome, Unit, Xor;
    if Xor(Sign(a), Sign(b)) == NONE {
      XorNone(Sign(a), Sign(b));
      match a
      case InData(i, k) =>
        DataVerdict(i, k);
        match b {
          case InData(j, m) => DataVerdict(j, m);
          case InCheck(j, m) => CheckVerdict(j, m);
        }
      case InCheck(i, k) =>
        CheckVerdict(i, k);
        match b {
          case InData(j, m) => DataVerdict(j, m);
          case InCheck(j, m) => UnitsApart(i, k, j, m);
        }
    }
  }

  lemma UnitsApart(i: nat, k: nat, j: nat, m: nat)
    requires i < 3 && j < 3 && k < 8 && m < 8 && Unit(i, k) == Unit(j, m)
    ensures i == j && k == m
  {
  }

  /** A wrong check bit in a byte whose pairs differ makes one pair equal. */
  lemma PairBreaks(x: bv8, bit: nat)
    requires bit < 8
    ensures PairsDiffer(x, 0x55) ==> !PairsDiffer(XorByte(x, Mask(bit)), 0x55)
    ensures PairsDiffer(x, 0x54) && bit >= 2 ==> !PairsDiffer(XorByte(x, Mask(bit)), 0x54)
  {
  }

  lemma PairsHold(x: bv8)
    requires PairsDiffer(x, 0x55)
    ensures Ones(x) == 4
  {
  }

  lemma CheckBreaks(d: Check, byte: nat, bit: nat)
    requires AllPairsDiffer(d) && byte < 3 && bit < 8 && (byte == 2 ==> bit >= 2)
    ensures !AllPairsDiffer(Xor(d, Unit(byte, bit))) && Weight(Xor(d, Unit(byte, bit))) >= 4
  {
    hide Mask, PairsDiffer, Ones, XorByte;
    PairBreaks(if byte == 0 then d.e0 else if byte == 1 then d.e1 else d.e2, bit);
    PairsHold(d.e0);
    PairsHold(d.e1);
    XorCancels(d.e0, 0);
    XorCancels(d.e1, 0);
    XorCancels(d.e2, 0);
  }

  lemma SyndromePairs(l: bv8, k: nat)
    requires k < 8
    ensures AllPairsDiffer(Syndrome(l, k))
  {
    hide LowSign, HighSign, ColumnSign, PairsDiffer, ByteOf, BitOf;
    var d := Syndrome(l, k);
    LineVerdict(l, d.e2);
    ColumnVerdict(d.e0, d.e1, k);
  }

  lemma DataAndCheck(a: Wrong, b: Wrong)
    requires IsBit(a) && Used(b) && a.InData? && b.InCheck?
    ensures Diagnose(Xor(Sign(a), Sign(b))) == Bad
  {
    hide AllPairsDiffer, Weight, Syndrome, Unit, Xor, Diagnose;
    SyndromePairs(a.line, a.bit);
    CheckBreaks(Sign(a), b.byte, b.bit);
    Apart(a, b);
    BadWhen(Xor(Sign(a), Sign(b)));
  }

  lemma MaskOnes(k: nat, j: nat)
    requires k < 8 && j < 8
    ensures Ones(Mask(k)) == 1 && (k != j ==> Ones(XorByte(Mask(k), Mask(j))) == 2)
  {
  }

  lemma NoPairs()
    ensures !PairsDiffer(0, 0x55) && !PairsDiffer(0, 0x54) && Ones(0) == 0
  {
  }

  lemma TwoCheckBits(a: Wrong, b: Wrong)
    requires IsBit(a) && IsBit(b) && a.InCheck? && b.InCheck? && a != b
    ensures Diagnose(Xor(Sign(a), Sign(b))) == Bad
  {
    hide Mask, PairsDiffer, Ones, XorByte, Diagnose;
    MaskOnes(a.bit, b.bit);
    MaskOnes(b.bit, a.bit);
    NoPairs();
    XorCancels(Mask(a.bit), 0);
    XorCancels(Mask(b.bit), 0);
    XorCancels(0, 0);
    Apart(a, b);
    BadWhen(Xor(Sign(a), Sign(b)));
  }

  lemma TwoBits(a: Wrong, b: Wrong)
    requires Used(a) && Used(b) && a != b
    ensures Diagnose(Xor(Sign(a), Sign(b))) == Bad
  {
    hide Diagnose, Xor, Sign;
    if a.InData? && b.InData? {
      TwoDataBits(a, b);
    } else if a.InData? {
      DataAndCheck(a, b);
    } else if b.InData? {
      DataAndCheck(b, a);
      Cancel(Sign(a), Sign(b));
    } else {
      TwoCheckBits(a, b);
    }
  }

  // ----- the decoder

  /** What the decoder makes of a chunk; None when it gives up. */
  ghost function Decode(c: Chunk): Option<Chunk>
    requires |c.data| == 256
  {
    match Diagnose(Diff(c))
    case Clean => Some(c)
    case DataBit(i, k) => Some(Chunk(Flip(c.data, i as int, k), c.check))
    case CheckBit => Some(Chunk(c.data, Code(c.data)))
    case Bad => None
  }

  ghost function Encode(data: seq<bv8>): Chunk { Chunk(data, Code(data)) }

  lemma DecodesClean(data: seq<bv8>)
    requires |data| == 256
    ensures Decode(Encode(data)) == Some(Encode(data))
  {
    hide Code, Xor;
    Cancel(Code(data), Code(data));
  }

  /** One wrong bit, in the data or in any check bit, never reaches the reader. */
  lemma CorrectsOne(data: seq<bv8>, w: Wrong)
    requires |data| == 256 && IsBit(w)
    ensures var r := Decode(Damage(Encode(data), w));
            r.Some? && r.value.data == data
  {
    hide Code, Xor, Diagnose, Syndrome, Unit, FlipBit, Num;
    DamageAdds(Encode(data), w);
    Cancel(Code(data), Code(data));
    Cancel(Sign(w), NONE);
    if w.InData? {
      DataVerdict(w.line, w.bit);
      FlipTwice(data[w.line as int], w.bit);
    } else {
      CheckVerdict(w.byte, w.bit);
    }
  }

  lemma FlipTwice(b: bv8, k: nat)
    requires k < 8
    ensures FlipBit(FlipBit(b, k), k) == b
  {
  }

  /** Any two wrong bits of the 2048 data and 22 used check bits are reported. */
  lemma DetectsTwo(data: seq<bv8>, a: Wrong, b: Wrong)
    requires |data| == 256 && Used(a) && Used(b) && a != b
    ensures |Damage(Encode(data), a).data| == 256
    ensures Decode(Damage(Damage(Encode(data), a), b)) == None
  {
    hide Code, Xor, Diagnose, Sign, Damage;
    DamageAdds(Encode(data), a);
    DamageAdds(Damage(Encode(data), a), b);
    Cancel(Code(data), Code(data));
    Cancel(Sign(a), NONE);
    TwoBits(a, b);
  }

  /** The two unused check bits are outside that promise: both of them wrong are reported although
      neither the data nor a used check bit is. */
  lemma UnusedBits(data: seq<bv8>)
    requires |data| == 256
    ensures Decode(Damage(Damage(Encode(data), InCheck(2, 0)), InCheck(2, 1))) == None
  {
    hide Code, Xor, Diagnose, Sign, Damage;
    var a, b := InCheck(2, 0), InCheck(2, 1);
    DamageAdds(Encode(data), a);
    DamageAdds(Damage(Encode(data), a), b);
    Cancel(Code(data), Code(data));
    Cancel(Sign(a), NONE);
    TwoCheckBits(a, b);
  }

  // ----- the algorithms

  lemma ShiftOnes(y: bv8)
    ensures Ones(y) == Ones(y >> 1) + (if y & 1 != 0 then 1 else 0) && (y != 0 ==> y >> 1 < y)
  {
  }

  method CountBits(x: bv8) returns (r: nat)
    ensures r == Ones(x)
  {
    var y := x;
    r := 0;
    while y != 0
      invariant r + Ones(y) == Ones(x)
      decreases y
    {
      ShiftOnes(y);
      if y & 1 != 0 {
        r := r + 1;
      }
      y := y >> 1;
    }
    NoPairs();
  }

  lemma OneMore(s: seq<bv8>, b: bv8)
    ensures Columns(s + [b]) == XorByte(Columns(s), Column(b))
    ensures Lines(s + [b]) == XorByte(Lines(s), Odd(b, Num(|s|)))
    ensures Primes(s + [b]) == XorByte(Primes(s), Odd(b, Prime(|s|)))
  {
    hide XorByte, Column, Odd, Num, Prime;
    MapMore(ColumnAt, s, b);
    MapMore(LineAt, s, b);
    MapMore(PrimeAt, s, b);
  }

  lemma MapMore<S, T>(f: (nat, S) -> T, s: seq<S>, b: S)
    ensures MapAt(f, s + [b]) == MapAt(f, s) + [f(|s|, b)]
    ensures MapAt(f, s + [b])[..|s|] == MapAt(f, s)
  {
  }

  lemma AddOdd(p: bv8, b: bv8, v: bv8)
    ensures XorByte(p, Odd(b, v)) == if Column(b) & 0x01 != 0 then XorByte(p, v) else p
  {
    hide Column, XorByte;
    XorCancels(p, 0);
  }

  lemma StepParities(s: seq<bv8>, b: bv8)
    ensures Columns(s + [b]) == XorByte(Columns(s), Column(b))
    ensures Lines(s + [b]) == if Column(b) & 0x01 != 0 then XorByte(Lines(s), Num(|s|)) else Lines(s)
    ensures Primes(s + [b]) == if Column(b) & 0x01 != 0 then XorByte(Primes(s), Prime(|s|)) else Primes(s)
  {
    hide Column, XorByte, Odd, Num, Prime, Columns, Lines, Primes;
    OneMore(s, b);
    AddOdd(Lines(s), b, Num(|s|));
    AddOdd(Primes(s), b, Prime(|s|));
  }

  /** The code of the 256 bytes from at. */
  method Calculate(buf: array<bv8>, at: nat) returns (c: Check)
    requires at + 256 <= buf.Length
    ensures c == Code(buf[at..at + 256]) && Checks(buf[at..at + 256], c)
  {
    var col, line, prime: bv8 := 0, 0, 0;
    var i := 0;
    while i < 256
      invariant i <= 256
      invariant col == Columns(buf[at..at + i])
      invariant line == Lines(buf[at..at + i])
      invariant prime == Primes(buf[at..at + i])
    {
      hide Columns, Lines, Primes, XorByte, Column, Num, Prime, ColumnParity;
      StepParities(buf[at..at + i], buf[at + i]);
      assert buf[at..at + i + 1] == buf[at..at + i] + [buf[at + i]];
      var b := ColumnParity(buf[at + i]);
      col := XorByte(col, b);
      if b & 0x01 != 0 {
        line := XorByte(line, Num(i));
        prime := XorByte(prime, Prime(i));
      }
      i := i + 1;
    }
    c := Pack(col, line, prime);
    CodeChecks(buf[at..at + 256], c);
  }

  // ----- what the code means

  /** A binary digit of the number of a byte in the block, or of a bit in its byte. */
  datatype Digit = ByteDigit(weight: nat, set_: bool) | BitDigit(weight: nat, set_: bool)

  predicate On(x: bv8, m: bv8) { x & m != 0 }

  predicate IsDigit(d: Digit) {
    d.weight < if d.ByteDigit? then 8 else 3
  }

  /** Bit k of byte i has the digit. */
  predicate Has(d: Digit, i: nat, k: nat)
    requires IsDigit(d) && i < 256 && k < 8
  {
    match d
    case ByteDigit(w, s) => On(i as bv8, Mask(w)) == s
    case BitDigit(w, s) => ((k / if w == 0 then 1 else if w == 1 then 2 else 4) % 2 == 1) == s
  }

  /** One if bit k is set and has the digit. */
  function Tally(b: bv8, d: Digit, i: nat, k: nat): nat
    requires IsDigit(d) && i < 256 && k < 8
  {
    if On(b, Mask(k)) && Has(d, i, k) then 1 else 0
  }

  function TallyByte(b: bv8, d: Digit, i: nat): nat
    requires IsDigit(d) && i < 256
  {
    Tally(b, d, i, 0) + Tally(b, d, i, 1) + Tally(b, d, i, 2) + Tally(b, d, i, 3)
    + Tally(b, d, i, 4) + Tally(b, d, i, 5) + Tally(b, d, i, 6) + Tally(b, d, i, 7)
  }

  /** How many of the bits that have the digit are set. */
  function Count(data: seq<bv8>, d: Digit): nat
    requires IsDigit(d) && |data| <= 256
  {
    if data == [] then 0 else Count(data[..|data| - 1], d) + TallyByte(data[|data| - 1], d, |data| - 1)
  }

  /** The mask of the check bit that stands for a digit: pairs from the highest digit down, in the
      first byte the low and in the second the high half of the byte number, in the third the bit
      number. */
  function PlaceOf(d: Digit): bv8
    requires IsDigit(d)
  {
    var w := if d.ByteDigit? then d.weight % 4 else d.weight + 1;
    if d.set_ then Mask(2 * w + 1) else Mask(2 * w)
  }

  function CheckOf(c: Check, d: Digit): bool
    requires IsDigit(d)
  {
    On(if d.BitDigit? then c.e2 else if d.weight >= 4 then c.e1 else c.e0, PlaceOf(d))
  }

  /** Every check bit is set exactly if an even number of the data bits that have its digit are, and
      the two unused ones are set. */
  ghost predicate Checks(data: seq<bv8>, c: Check)
    requires |data| == 256
  {
    c.e2 & 0x03 == 0x03 && forall d :: IsDigit(d) ==> (CheckOf(c, d) <==> Count(data, d) % 2 == 0)
  }

  /** What the three parities contribute to a digit. */
  function ParityOf(col: bv8, line: bv8, prime: bv8, d: Digit): bool
    requires IsDigit(d)
  {
    if d.BitDigit? then On(col, PlaceOf(d))
    else if d.set_ then On(line, Mask(d.weight))
    else On(prime, Mask(d.weight))
  }

  lemma LowPlaces(col: bv8, line: bv8, prime: bv8, w: nat)
    requires w < 4
    ensures var c := Pack(col, line, prime).e0;
      (On(c, Mask(2 * w + 1)) <==> !On(line, Mask(w))) && (On(c, Mask(2 * w)) <==> !On(prime, Mask(w)))
  {
    hide Spread1;
  }

  lemma HighPlaces(col: bv8, line: bv8, prime: bv8, w: nat)
    requires 4 <= w < 8
    ensures var c := Pack(col, line, prime).e1;
      (On(c, Mask(2 * (w % 4) + 1)) <==> !On(line, Mask(w))) && (On(c, Mask(2 * (w % 4))) <==> !On(prime, Mask(w)))
  {
    hide Spread0;
  }

  lemma ColumnPlaces(col: bv8, line: bv8, prime: bv8, k: nat)
    requires 2 <= k < 8
    ensures var c := Pack(col, line, prime).e2; (On(c, Mask(k)) <==> !On(col, Mask(k))) && c & 0x03 == 0x03
  {
    hide Spread0, Spread1;
  }

  lemma PackChecks(col: bv8, line: bv8, prime: bv8, d: Digit)
    requires IsDigit(d)
    ensures CheckOf(Pack(col, line, prime), d) <==> !ParityOf(col, line, prime, d)
  {
    hide Pack, Mask, On;
    if d.BitDigit? {
      ColumnPlaces(col, line, prime, 2 * d.weight + 2 + if d.set_ then 1 else 0);
    } else if d.weight < 4 {
      LowPlaces(col, line, prime, d.weight);
    } else {
      HighPlaces(col, line, prime, d.weight);
    }
  }

  lemma OddOnes(b: bv8)
    ensures Column(b) & 0x01 != 0 <==> Ones(b) % 2 == 1
  {
  }

  lemma LowColumn(b: bv8, s: bool, i: nat)
    requires i < 256
    ensures var d := BitDigit(0, s); On(Column(b), PlaceOf(d)) <==> TallyByte(b, d, i) % 2 == 1
  {
  }

  lemma MidColumn(b: bv8, s: bool, i: nat)
    requires i < 256
    ensures var d := BitDigit(1, s); On(Column(b), PlaceOf(d)) <==> TallyByte(b, d, i) % 2 == 1
  {
  }

  lemma HighColumn(b: bv8, s: bool, i: nat)
    requires i < 256
    ensures var d := BitDigit(2, s); On(Column(b), PlaceOf(d)) <==> TallyByte(b, d, i) % 2 == 1
  {
  }

  lemma ColumnTally(b: bv8, d: Digit, i: nat)
    requires IsDigit(d) && d.BitDigit? && i < 256
    ensures On(Column(b), PlaceOf(d)) <==> TallyByte(b, d, i) % 2 == 1
  {
    hide Column, PlaceOf, TallyByte;
    LowColumn(b, d.set_, i);
    MidColumn(b, d.set_, i);
    HighColumn(b, d.set_, i);
  }

  lemma LineTally(b: bv8, d: Digit, i: nat)
    requires IsDigit(d) && d.ByteDigit? && i < 256
    ensures TallyByte(b, d, i) == if Has(d, i, 0) then Ones(b) else 0
  {
  }

  lemma BitXor(a: bv8, b: bv8, m: bv8, k: nat)
    requires k < 8 && m == Mask(k)
    ensures On(XorByte(a, b), m) <==> (On(a, m)) != (On(b, m))
  {
  }

  lemma PlaceIsMask(d: Digit) returns (k: nat)
    requires IsDigit(d)
    ensures k < 8 && PlaceOf(d) == Mask(k)
  {
    k := 2 * (if d.ByteDigit? then d.weight % 4 else d.weight + 1) + if d.set_ then 1 else 0;
  }

  /** What one byte adds to a parity. */
  lemma ByteParity(b: bv8, d: Digit, i: nat)
    requires IsDigit(d) && i < 256
    ensures ParityOf(Column(b), Odd(b, Num(i)), Odd(b, Prime(i)), d) <==> TallyByte(b, d, i) % 2 == 1
  {
    if d.BitDigit? {
      hide Column, PlaceOf, TallyByte;
      ColumnTally(b, d, i);
    } else {
      hide Column, Mask, Ones, TallyByte;
      LineTally(b, d, i);
      OddOnes(b);
      Complement(i as bv8, d.weight);
      Nothing(Mask(d.weight));
    }
  }

  lemma Complement(x: bv8, k: nat)
    requires k < 8
    ensures On(!x, Mask(k)) <==> !On(x, Mask(k))
  {
  }

  lemma Nothing(m: bv8)
    ensures !On(0, m)
  {
  }

  lemma ParityXor(c: bv8, l: bv8, p: bv8, c2: bv8, l2: bv8, p2: bv8, d: Digit)
    requires IsDigit(d)
    ensures ParityOf(XorByte(c, c2), XorByte(l, l2), XorByte(p, p2), d) <==> ParityOf(c, l, p, d) != ParityOf(c2, l2, p2, d)
  {
    hide Mask, PlaceOf, XorByte, On;
    var k := PlaceIsMask(d);
    BitXor(c, c2, Mask(k), k);
    if d.ByteDigit? {
      BitXor(l, l2, Mask(d.weight), d.weight);
      BitXor(p, p2, Mask(d.weight), d.weight);
    }
  }

  /** The parities of the loop are those of the digits. */
  lemma {:induction false} Parities(data: seq<bv8>, d: Digit)
    requires IsDigit(d) && |data| <= 256
    ensures ParityOf(Columns(data), Lines(data), Primes(data), d) <==> Count(data, d) % 2 == 1
  {
    hide Column, Odd, Num, Prime, XorByte, TallyByte, Mask, PlaceOf, On;
    if data == [] {
      hide ParityOf;
      NoParity(d);
    } else {
      hide ParityOf, Columns, Lines, Primes;
      var s, b := data[..|data| - 1], data[|data| - 1];
      Parities(s, d);
      OneMore(s, b);
      assert data == s + [b];
      ByteParity(b, d, |s|);
      ParityXor(Columns(s), Lines(s), Primes(s), Column(b), Odd(b, Num(|s|)), Odd(b, Prime(|s|)), d);
    }
  }

  lemma NoParity(d: Digit)
    requires IsDigit(d)
    ensures !ParityOf(0, 0, 0, d)
  {
    hide Mask, PlaceOf, On;
    Nothing(PlaceOf(d));
    if d.ByteDigit? {
      Nothing(Mask(d.weight));
    }
  }

  /** The code says what its check bits stand for, and nothing else does. */
  lemma CodeChecks(data: seq<bv8>, c: Check)
    requires |data| == 256
    ensures Checks(data, c) <==> c == Code(data)
  {
    hide Pack, Columns, Lines, Primes, CheckOf, ParityOf, Count;
    forall d | IsDigit(d) ensures CheckOf(Code(data), d) <==> Count(data, d) % 2 == 0 {
      Parities(data, d);
      PackChecks(Columns(data), Lines(data), Primes(data), d);
    }
    ColumnPlaces(Columns(data), Lines(data), Primes(data), 2);
    if Checks(data, c) {
      forall d | IsDigit(d) ensures CheckOf(c, d) <==> CheckOf(Code(data), d) {}
      SameChecks(c, Code(data));
    }
  }

  lemma SameBits(x: bv8, y: bv8)
    requires forall k :: 0 <= k < 8 ==> (On(x, Mask(k)) <==> On(y, Mask(k)))
    ensures x == y
  {
    forall k | 0 <= k < 8 ensures x & Mask(k) == y & Mask(k) {
      OneBit(x, k);
      OneBit(y, k);
    }
    assert x & Mask(0) == y & Mask(0) && x & Mask(1) == y & Mask(1) && x & Mask(2) == y & Mask(2) && x & Mask(3) == y & Mask(3);
    assert x & Mask(4) == y & Mask(4) && x & Mask(5) == y & Mask(5) && x & Mask(6) == y & Mask(6) && x & Mask(7) == y & Mask(7);
  }

  lemma OneBit(x: bv8, k: nat)
    requires k < 8
    ensures !On(x, Mask(k)) || x & Mask(k) == Mask(k)
  {
  }

  lemma LowTwo(x: bv8)
    requires x & 0x03 == 0x03
    ensures On(x, Mask(0)) && On(x, Mask(1))
  {
  }

  /** The digit that bit k of a check byte stands for. */
  function DigitAt(byte: nat, k: nat): (d: Digit)
    requires byte < 3 && k < 8 && (byte == 2 ==> k >= 2)
    ensures IsDigit(d) && PlaceOf(d) == Mask(k)
  {
    if byte == 2 then BitDigit(k / 2 - 1, k % 2 == 1) else ByteDigit(k / 2 + if byte == 1 then 4 else 0, k % 2 == 1)
  }

  lemma SameChecks(c: Check, c2: Check)
    requires c.e2 & 0x03 == 0x03 == c2.e2 & 0x03 && forall d :: IsDigit(d) ==> (CheckOf(c, d) <==> CheckOf(c2, d))
    ensures c == c2
  {
    hide Mask, On, PlaceOf;
    forall k | 0 <= k < 8 ensures On(c.e0, Mask(k)) <==> On(c2.e0, Mask(k)) {
      assert CheckOf(c, DigitAt(0, k)) <==> CheckOf(c2, DigitAt(0, k));
    }
    forall k | 0 <= k < 8 ensures On(c.e1, Mask(k)) <==> On(c2.e1, Mask(k)) {
      assert CheckOf(c, DigitAt(1, k)) <==> CheckOf(c2, DigitAt(1, k));
    }
    forall k | 0 <= k < 8 ensures On(c.e2, Mask(k)) <==> On(c2.e2, Mask(k)) {
      if k >= 2 {
        assert CheckOf(c, DigitAt(2, k)) <==> CheckOf(c2, DigitAt(2, k));
      }
      LowTwo(c.e2);
      LowTwo(c2.e2);
    }
    SameBits(c.e0, c2.e0);
    SameBits(c.e1, c2.e1);
    SameBits(c.e2, c2.e2);
  }

  // ----- erased pages

  lemma WholeByte(b: bv8, d: Digit, i: nat)
    requires IsDigit(d) && i < 256 && (b == 0x00 || b == 0xff)
    ensures TallyByte(b, d, i) % 2 == 0
  {
    if b == 0xff {
      if d.BitDigit? {
        assert Has(d, i, 0) != Has(d, i, 1) || Has(d, i, 0) != Has(d, i, 2) || Has(d, i, 0) != Has(d, i, 4);
      } else {
        LineTally(b, d, i);
      }
    }
  }

  lemma {:induction false} WholeBytes(data: seq<bv8>, d: Digit)
    requires IsDigit(d) && |data| <= 256 && forall i :: 0 <= i < |data| ==> data[i] == 0x00 || data[i] == 0xff
    ensures Count(data, d) % 2 == 0
  {
    hide TallyByte;
    if data != [] {
      WholeBytes(data[..|data| - 1], d);
      WholeByte(data[|data| - 1], d, |data| - 1);
    }
  }

  /** Check bytes as erased flash shows them are the code of an erased block, and of one of zeros. */
  lemma ErasedCode(data: seq<bv8>)
    requires |data| == 256 && forall i :: 0 <= i < |data| ==> data[i] == 0x00 || data[i] == 0xff
    ensures Code(data) == Check(0xff, 0xff, 0xff)
  {
    hide Code, Count;
    forall d | IsDigit(d) ensures CheckOf(Check(0xff, 0xff, 0xff), d) <==> Count(data, d) % 2 == 0 {
      WholeBytes(data, d);
      AllSet(d);
    }
    CodeChecks(data, Check(0xff, 0xff, 0xff));
  }

  lemma AllSet(d: Digit)
    requires IsDigit(d)
    ensures CheckOf(Check(0xff, 0xff, 0xff), d)
  {
    var k := PlaceIsMask(d);
  }

  lemma FlipAgain(s: seq<bv8>, i: nat, k: nat)
    requires k < 8
    ensures |Flip(s, i, k)| == |s| && Flip(Flip(s, i, k), i, k) == s
  {
    hide FlipBit;
    if i < |s| {
      FlipTwice(s[i], k);
    }
  }

  /** A buffer, with a chunk from at, after a verdict about the chunk. */
  ghost function Fix(s: seq<bv8>, at: nat, v: Verdict): seq<bv8>
    requires v.DataBit? ==> v.bit < 8
  {
    if v.DataBit? then Flip(s, at + v.byte as int, v.bit) else s
  }

  lemma FixTwice(s: seq<bv8>, at: nat, v: Verdict)
    requires v.DataBit? ==> v.bit < 8
    ensures |Fix(s, at, v)| == |s| && Fix(Fix(s, at, v), at, v) == s
    ensures !v.DataBit? ==> Fix(s, at, v) == s
  {
    hide Flip;
    if v.DataBit? {
      FlipAgain(s, at + v.byte as int, v.bit);
    }
  }

  /** Compares the read with the computed check bytes of the 256 bytes from at, and flips
      the data bit or replaces the check bytes they accuse. */
  method Correct(buf: array<bv8>, at: nat, read: Check, test: Check) returns (fixed: Check, r: int)
    requires at + 256 <= buf.Length
    modifies buf
    ensures var v := Diagnose(Xor(read, test));
            && r == (if v == Clean then 0 else if v == Bad then -1 else 1)
            && fixed == (if v == CheckBit then test else read)
            && buf[..] == Fix(old(buf[..]), at, v)
  {
    hide XorByte, AllPairsDiffer, Ones, ByteOf, BitOf, Mask, FlipBit;
    fixed := read;
    var d := Xor(read, test);
    if d == NONE {
      return fixed, 0;
    }
    if AllPairsDiffer(d) {
      var i, k := ByteOf(d) as int, BitOf(d);
      buf[at + i] := FlipBit(buf[at + i], k);
      return fixed, 1;
    }
    var n0 := CountBits(d.e0);
    var n1 := CountBits(d.e1);
    var n2 := CountBits(d.e2);
    if n0 + n1 + n2 == 1 {
      return test, 1;
    }
    r := -1;
  }

  // ----- pages

  /** Byte j of the check bytes. */
  function At(c: Check, j: nat): bv8 {
    if j == 0 then c.e0 else if j == 1 then c.e1 else c.e2
  }

  /** A wrong data bit shows in all three check bytes, so that the bit is flipped three times. */
  lemma AllDiffer(r: Check, t: Check, j: nat)
    requires Diagnose(Xor(r, t)).DataBit?
    ensures At(r, j) != At(t, j)
  {
    hide PairsDiffer, ByteOf, BitOf, Weight, XorByte;
    NoPairs();
    XorCancels(At(t, j), 0);
  }

  lemma SameVerdict(r: Check, t: Check)
    ensures Diagnose(Xor(r, t)) == Clean <==> r == t
  {
    hide AllPairsDiffer, ByteOf, BitOf, Weight, XorByte;
    if Xor(r, t) == NONE {
      hide Xor;
      XorNone(r, t);
    }
    XorCancels(r.e0, 0);
    XorCancels(r.e1, 0);
    XorCancels(r.e2, 0);
  }

  lemma SameBytes(r: Check, t: Check)
    ensures (forall k :: 0 <= k < 3 ==> At(r, k) == At(t, k)) ==> r == t
  {
    if forall k :: 0 <= k < 3 ==> At(r, k) == At(t, k) {
      assert At(r, 0) == At(t, 0) && At(r, 1) == At(t, 1) && At(r, 2) == At(t, 2);
    }
  }

  /** The chunk whose data starts at at and whose check bytes start at flags. */
  ghost function ChunkAt(s: seq<bv8>, at: nat, flags: nat): (c: Chunk)
    requires at + 256 <= |s| && flags + 3 <= |s|
    ensures |c.data| == 256
  {
    Chunk(s[at..at + 256], Check(s[flags], s[flags + 1], s[flags + 2]))
  }

  /** After j of the three bytes: a wrong data bit has been flipped j times. */
  ghost predicate Round(s: seq<bv8>, at: nat, first: Check, test: Check, j: nat, now: seq<bv8>, read: Check) {
    var v := Diagnose(Xor(first, test));
    && now == (if j % 2 == 0 then s else Fix(s, at, v))
    && (read == first || (v == CheckBit && read == test))
    && (v == Bad ==> forall k :: 0 <= k < j ==> At(first, k) == At(test, k))
  }

  lemma RoundFirst(s: seq<bv8>, at: nat, first: Check, test: Check)
    ensures Round(s, at, first, test, 0, s, first)
  {
  }

  lemma RoundStep(s: seq<bv8>, at: nat, first: Check, test: Check, j: nat, now: seq<bv8>, read: Check)
    requires j < 3 && Round(s, at, first, test, j, now, read)
    ensures var v := Diagnose(Xor(first, test));
            var w := Diagnose(Xor(read, test));
            if At(test, j) == At(read, j) then Round(s, at, first, test, j + 1, now, read)
            else if w == Bad then v == Bad && Fix(now, at, w) == Fix(s, at, v)
            else Round(s, at, first, test, j + 1, Fix(now, at, w), if w == CheckBit then test else read)
  {
    hide Diagnose, Xor, Fix, At;
    var v := Diagnose(Xor(first, test));
    SameVerdict(read, test);
    FixTwice(s, at, v);
    if v.DataBit? {
      AllDiffer(first, test, j);
    }
  }

  lemma RoundLast(s: seq<bv8>, at: nat, first: Check, test: Check, now: seq<bv8>, read: Check)
    requires Round(s, at, first, test, 3, now, read)
    ensures var v := Diagnose(Xor(first, test));
            v != Bad && now == Fix(s, at, v)
  {
    hide Diagnose, Xor, Fix, At;
    SameVerdict(first, test);
    SameBytes(first, test);
  }

  /** Checks one chunk: for every byte in which computed and read check bytes differ, corrects. */
  method VerifyChunk(buf: array<bv8>, at: nat, flags: nat) returns (failed: bool)
    requires at + 256 <= buf.Length && flags + 3 <= buf.Length
    modifies buf
    ensures var v := Diagnose(Diff(ChunkAt(old(buf[..]), at, flags)));
            failed == (v == Bad) && buf[..] == Fix(old(buf[..]), at, v)
  {
    var test := Calculate(buf, at);
    var read := Check(buf[flags], buf[flags + 1], buf[flags + 2]);
    ghost var first, s := read, buf[..];
    ghost var v := Diagnose(Xor(first, test));
    assert v == Diagnose(Diff(ChunkAt(s, at, flags))) by { hide Diagnose, Xor, Code; }
    hide Diagnose, Diff, Xor, Code, Fix, At, ChunkAt, Round;
    assert Round(s, at, first, test, 0, s, read) by { hide *; RoundFirst(s, at, first, test); }
    var j := 0;
    while j < 3
      invariant j <= 3 && Round(s, at, first, test, j, buf[..], read)
    {
      RoundStep(s, at, first, test, j, buf[..], read);
      if At(test, j) != At(read, j) {
        var r: int;
        read, r := Correct(buf, at, read, test);
        if r == -1 {
          return true;
        }
      }
      j := j + 1;
    }
    RoundLast(s, at, first, test, buf[..], read);
    failed := false;
  }

  /** A page buffer: n chunks of data, and from loc in the flags behind them three check bytes for each. */
  datatype Layout = Layout(n: nat, loc: nat)

  ghost predicate Fits(s: seq<bv8>, p: Layout) {
    256 * p.n + p.loc + 3 * p.n <= |s|
  }

  ghost function Part(s: seq<bv8>, p: Layout, c: nat): (r: Chunk)
    requires Fits(s, p) && c < p.n
    ensures |r.data| == 256 && r.data == s[256 * c..256 * c + 256]
  {
    ChunkAt(s, 256 * c, 256 * p.n + p.loc + 3 * c)
  }

  /** The first c chunks carry their code, nothing else is changed. */
  ghost predicate Coded(was: seq<bv8>, now: seq<bv8>, p: Layout, c: nat)
    requires Fits(was, p) && c <= p.n
  {
    && |now| == |was|
    && now[..256 * p.n + p.loc] == was[..256 * p.n + p.loc]
    && now[256 * p.n + p.loc + 3 * c..] == was[256 * p.n + p.loc + 3 * c..]
    && forall d :: 0 <= d < c ==> Part(now, p, d) == Encode(was[256 * d..256 * d + 256])
  }

  lemma CodedFirst(s: seq<bv8>, p: Layout)
    requires Fits(s, p)
    ensures Coded(s, s, p, 0)
  {
  }

  /** now carries the code of chunk c of mid in its check bytes. */
  ghost predicate StoredAt(mid: seq<bv8>, now: seq<bv8>, p: Layout, c: nat)
    requires Fits(mid, p) && c < p.n
  {
    var f, k := 256 * p.n + p.loc + 3 * c, Code(mid[256 * c..256 * c + 256]);
    now == mid[f := k.e0][f + 1 := k.e1][f + 2 := k.e2]
  }

  lemma CodedStep(was: seq<bv8>, mid: seq<bv8>, now: seq<bv8>, p: Layout, c: nat)
    requires Fits(was, p) && c < p.n && Coded(was, mid, p, c) && StoredAt(mid, now, p, c)
    ensures Coded(was, now, p, c + 1)
  {
    hide Code, Part, Encode;
    var a := 256 * p.n + p.loc;
    assert now[..a] == mid[..a];
    forall d | 0 <= d < c + 1 ensures Part(now, p, d) == Encode(was[256 * d..256 * d + 256]) {
      CodedPart(was, mid, now, p, c, d);
    }
    Outer(now, mid, a + 3 * (c + 1), 0);
    Outer(mid, was, a + 3 * c, 3);
  }

  lemma CodedPart(was: seq<bv8>, mid: seq<bv8>, now: seq<bv8>, p: Layout, c: nat, d: nat)
    requires Fits(was, p) && d <= c < p.n && |mid| == |was| && StoredAt(mid, now, p, c)
    requires mid[..256 * p.n + p.loc] == was[..256 * p.n + p.loc]
    requires d < c ==> Part(mid, p, d) == Encode(was[256 * d..256 * d + 256])
    ensures Part(now, p, d) == Encode(was[256 * d..256 * d + 256])
  {
    hide Code;
    var a := 256 * p.n + p.loc;
    assert now[..a] == mid[..a];
    Inner(now, was, a, 256 * d);
    Inner(mid, was, a, 256 * d);
  }

  lemma Inner(s: seq<bv8>, t: seq<bv8>, a: nat, i: nat)
    requires i + 256 <= a <= |s| && a <= |t| && s[..a] == t[..a]
    ensures s[i..i + 256] == t[i..i + 256]
  {
    assert s[i..i + 256] == s[..a][i..i + 256];
    assert t[i..i + 256] == t[..a][i..i + 256];
  }

  lemma Outer(s: seq<bv8>, t: seq<bv8>, a: nat, i: nat)
    requires a + i <= |s| && |t| == |s| && s[a..] == t[a..]
    ensures s[a + i..] == t[a + i..]
  {
    assert s[a + i..] == s[a..][i..];
    assert t[a + i..] == t[a..][i..];
  }

  method Store(buf: array<bv8>, f: nat, k: Check)
    requires f + 3 <= buf.Length
    modifies buf
    ensures buf[..] == old(buf[..])[f := k.e0][f + 1 := k.e1][f + 2 := k.e2]
  {
    buf[f + 2] := k.e2;
    buf[f + 1] := k.e1;
    buf[f] := k.e0;
  }

  method SetEcc(buf: array<bv8>, p: Layout)
    requires Fits(buf[..], p)
    modifies buf
    ensures Coded(old(buf[..]), buf[..], p, p.n)
  {
    hide Code, Part, Encode, Coded;
    ghost var was := buf[..];
    CodedFirst(was, p);
    var i := 0;
    while i < p.n
      invariant i <= p.n && |buf[..]| == |was| && Coded(was, buf[..], p, i)
    {
      ghost var mid := buf[..];
      var k := Calculate(buf, 256 * i);
      Store(buf, 256 * p.n + p.loc + 3 * i, k);
      CodedStep(was, mid, buf[..], p, i);
      i := i + 1;
    }
  }

  /** The first c chunks decode, and are replaced by what they decode to; nothing else is changed. */
  ghost predicate Checked(was: seq<bv8>, now: seq<bv8>, p: Layout, c: nat)
    requires Fits(was, p) && c <= p.n
  {
    && |now| == |was|
    && now[256 * c..] == was[256 * c..]
    && forall d :: 0 <= d < c ==>
         && Decode(Part(was, p, d)).Some?
         && now[256 * d..256 * d + 256] == Decode(Part(was, p, d)).value.data
  }

  lemma SamePart(s: seq<bv8>, t: seq<bv8>, p: Layout, c: nat)
    requires Fits(s, p) && |t| == |s| && c < p.n && s[256 * c..] == t[256 * c..]
    ensures Part(s, p, c) == Part(t, p, c)
  {
    var f := 256 * p.n + p.loc + 3 * c;
    assert s[256 * c..256 * c + 256] == s[256 * c..][..256];
    assert t[256 * c..256 * c + 256] == t[256 * c..][..256];
    assert forall k :: f <= k < f + 3 ==> s[k] == s[256 * c..][k - 256 * c] && t[k] == t[256 * c..][k - 256 * c];
  }

  /** A flip inside a chunk is a flip of the chunk. */
  lemma FlipInside(s: seq<bv8>, at: nat, i: nat, k: nat)
    requires at + 256 <= |s| && i < 256 && k < 8
    ensures var t := Flip(s, at + i, k);
            |t| == |s| && t[..at] == s[..at] && t[at + 256..] == s[at + 256..] && t[at..at + 256] == Flip(s[at..at + 256], i, k)
  {
    hide FlipBit;
  }

  lemma CheckedFirst(s: seq<bv8>, p: Layout)
    requires Fits(s, p)
    ensures Checked(s, s, p, 0)
  {
  }

  lemma CheckedStep(was: seq<bv8>, mid: seq<bv8>, p: Layout, c: nat)
    requires Fits(was, p) && c < p.n && |mid| == |was| && Checked(was, mid, p, c)
    ensures var v := Diagnose(Diff(ChunkAt(mid, 256 * c, 256 * p.n + p.loc + 3 * c)));
            if v == Bad then Spoilt(was, p)
            else |Fix(mid, 256 * c, v)| == |was| && Checked(was, Fix(mid, 256 * c, v), p, c + 1)
  {
    hide Diagnose, Diff, Code, Flip, ChunkAt;
    var v := Diagnose(Diff(Part(mid, p, c)));
    SamePart(mid, was, p, c);
    var now := Fix(mid, 256 * c, v);
    if v.DataBit? {
      FlipInside(mid, 256 * c, v.byte as int, v.bit);
    }
    if v != Bad {
      Outer(mid, was, 256 * c, 256);
      forall d | 0 <= d < c + 1 ensures Decode(Part(was, p, d)).Some? && now[256 * d..256 * d + 256] == Decode(Part(was, p, d)).value.data {
        if d < c {
          Inner(now, mid, 256 * c, 256 * d);
        }
      }
    }
  }

  lemma NotSpoilt(was: seq<bv8>, now: seq<bv8>, p: Layout)
    requires Fits(was, p) && Checked(was, now, p, p.n)
    ensures !Spoilt(was, p)
  {
    hide Decode, Part;
  }

  /** Some chunk does not decode. */
  ghost predicate Spoilt(s: seq<bv8>, p: Layout)
    requires Fits(s, p)
  {
    exists c :: 0 <= c < p.n && Decode(Part(s, p, c)) == None
  }

  /** What an erased page reads as. */
  ghost predicate ErasedBuffer(s: seq<bv8>) {
    forall k :: 0 <= k < |s| ==> s[k] == 0xff
  }

  lemma ErasedPart(s: seq<bv8>, p: Layout, c: nat)
    requires Fits(s, p) && c < p.n && ErasedBuffer(s)
    ensures Part(s, p, c) == Encode(s[256 * c..256 * c + 256])
    ensures Decode(Part(s, p, c)) == Some(Part(s, p, c))
  {
    hide Decode, Code;
    ErasedCode(s[256 * c..256 * c + 256]);
    DecodesClean(s[256 * c..256 * c + 256]);
  }

  lemma ErasedAccepted(s: seq<bv8>, p: Layout)
    requires Fits(s, p) && ErasedBuffer(s)
    ensures !Spoilt(s, p)
  {
    hide Decode, Part;
    forall c | 0 <= c < p.n ensures Decode(Part(s, p, c)) != None {
      ErasedPart(s, p, c);
    }
  }

  lemma ErasedStays(s: seq<bv8>, now: seq<bv8>, p: Layout)
    requires Fits(s, p) && ErasedBuffer(s) && Checked(s, now, p, p.n)
    ensures now == s
  {
    hide Decode, Part;
    forall k | 0 <= k < |s| ensures now[k] == s[k] {
      if k < 256 * p.n {
        var c := k / 256;
        ErasedPart(s, p, c);
        assert now[k] == now[256 * c..256 * c + 256][k - 256 * c];
        assert s[k] == s[256 * c..256 * c + 256][k - 256 * c];
      } else {
        assert now[k] == now[256 * p.n..][k - 256 * p.n];
      }
    }
  }

  method VerifyEcc(buf: array<bv8>, p: Layout) returns (failed: bool)
    requires Fits(buf[..], p)
    modifies buf
    ensures failed == Spoilt(old(buf[..]), p)
    ensures !failed ==> Checked(old(buf[..]), buf[..], p, p.n)
    ensures ErasedBuffer(old(buf[..])) ==> !failed && buf[..] == old(buf[..])
  {
    hide Diagnose, Code, Decode, Fix, Checked, Spoilt, ChunkAt, Diff, Part, ErasedBuffer;
    ghost var was := buf[..];
    if ErasedBuffer(was) {
      ErasedAccepted(was, p);
    }
    CheckedFirst(was, p);
    var i := 0;
    while i < p.n
      invariant i <= p.n && |buf[..]| == |was| && Checked(was, buf[..], p, i)
    {
      CheckedStep(was, buf[..], p, i);
      failed := VerifyChunk(buf, 256 * i, 256 * p.n + p.loc + 3 * i);
      if failed {
        return;
      }
      i := i + 1;
    }
    NotSpoilt(was, buf[..], p);
    if ErasedBuffer(was) {
      ErasedStays(was, buf[..], p);
    }
    failed := false;
  }

  // ----- from writer to reader

  /** At most one wrong bit. */
  ghost predicate Nearly(c: Chunk, d: Chunk)
    requires |c.data| == 256
  {
    d == c || exists w :: IsBit(w) && d == Damage(c, w)
  }

  /** A page written with its code and read back with at most one wrong bit in every chunk is
      accepted, and its data area is what was written. */
  lemma PageSurvives(was: seq<bv8>, written: seq<bv8>, read: seq<bv8>, now: seq<bv8>, failed: bool, p: Layout)
    requires Fits(was, p) && |read| == |was| && Coded(was, written, p, p.n)
    requires forall c :: 0 <= c < p.n ==> Nearly(Part(written, p, c), Part(read, p, c))
    requires failed == Spoilt(read, p)
    requires !failed ==> Checked(read, now, p, p.n)
    ensures !failed && now[..256 * p.n] == was[..256 * p.n]
  {
    hide Decode, Encode, Damage, IsBit, Part;
    forall c | 0 <= c < p.n
      ensures Decode(Part(read, p, c)).Some? && Decode(Part(read, p, c)).value.data == was[256 * c..256 * c + 256]
    {
      NearlyDecodes(was[256 * c..256 * c + 256], Part(read, p, c));
    }
    forall k | 0 <= k < 256 * p.n ensures now[k] == was[k] {
      var c := k / 256;
      assert Decode(Part(read, p, c)).Some?;
      assert now[k] == now[256 * c..256 * c + 256][k - 256 * c];
      assert was[k] == was[256 * c..256 * c + 256][k - 256 * c];
    }
  }

  lemma NearlyDecodes(data: seq<bv8>, d: Chunk)
    requires |data| == 256 && Nearly(Encode(data), d)
    ensures |d.data| == 256 && Decode(d).Some? && Decode(d).value.data == data
  {
    hide Decode, Code, Flip, Unit, Xor;
    if d == Encode(data) {
      DecodesClean(data);
    } else {
      var w :| IsBit(w) && d == Damage(Encode(data), w);
      CorrectsOne(data, w);
      DamageAdds(Encode(data), w);
    }
  }
}
