/** The 32-byte bitmap of the 16x16 dot matrix and the order in which the
    refresh routine puts its bytes on the two column buses. */
module Display {
  import opened Grid

  /** `_BV(k)`: the byte with only bit k set. */
  function Mask(k: nat): bv8
    requires k < 8
  {
    match k
    case 0 => 1
    case 1 => 2
    case 2 => 4
    case 3 => 8
    case 4 => 16
    case 5 => 32
    case 6 => 64
    case _ => 128
  }

  predicate Bit(b: bv8, k: nat)
    requires k < 8
  {
    b & Mask(k) != 0
  }

  /** The byte built by OR-ing in `_BV(k)` for every k < n with bits[k] set,
      in increasing k. */
  function Pack(bits: seq<bool>, n: nat): (r: bv8)
    requires n <= |bits| && n <= 8
    ensures forall k :: n <= k < 8 ==> !Bit(r, k)
  {
    if n == 0 then 0 else
      var low, m := Pack(bits, n - 1), if bits[n - 1] then Mask(n - 1) else 0;
      assert forall k :: n <= k < 8 ==> !Bit(low, k) && !Bit(m, k);
      low | m
  }

  /** The byte an 8-dot column packs into. */
  function PackOctet(bits: seq<bool>): bv8
    requires |bits| == 8
  {
    Pack(bits, |bits|)
  }

  /** Bit k of a packed byte is set exactly when bits[k] was set and k was packed. */
  lemma {:induction false} PackBit(bits: seq<bool>, n: nat, k: nat)
    requires n <= |bits| && n <= 8 && k < 8
    ensures Bit(Pack(bits, n), k) <==> k < n && bits[k]
  {
    if n > 0 {
      PackBit(bits, n - 1, k);
    }
  }

  /** Whether the dot at column x, row y of the field is lit: it holds a
      body cell or the apple. */
  predicate Lit(body: seq<Cell>, apple: Cell, x: int, y: int)
    requires 0 <= x < Size && 0 <= y < Size
  {
    Cell(x, y) in body || Cell(x, y) == apple
  }

  /** Splitting an index into a multiple of 2 and a remainder. */
  lemma Join2(x: int, g: int)
    requires 0 <= g < 2
    ensures (2 * x + g) / 2 == x && (2 * x + g) % 2 == g
  {
  }

  /** Splitting an index into a multiple of 8 and a remainder. */
  lemma Join8(h: int, r: int)
    requires 0 <= r < 8
    ensures (8 * h + r) / 8 == h && (8 * h + r) % 8 == r
  {
  }

  /** Index of the byte holding column x, y-group g (rows 8g..8g+7): the
      bitmap is indexed by x first. */
  function ByteIndex(x: int, g: int): int {
    2 * x + g
  }

  /** The eight dots that go into the byte for column x, y-group g. */
  function Octet(body: seq<Cell>, apple: Cell, x: int, g: int): (bits: seq<bool>)
    requires 0 <= x < Size && 0 <= g < 2
    ensures |bits| == 8
  {
    seq(8, k requires 0 <= k < 8 => Lit(body, apple, x, 8 * g + k))
  }

  /** The bitmap prepareArray produces: byte b packs the dots of column
      b / 2, y-group b % 2. */
  function Bitmap(body: seq<Cell>, apple: Cell): (r: seq<bv8>)
    ensures |r| == 32
  {
    seq(32, b requires 0 <= b < 32 => PackOctet(Octet(body, apple, b / 2, b % 2)))
  }

  /** Bit k of byte 2x+g is set exactly when the dot at (x, 8g+k) is lit, and
      since every bit of every byte is covered, every other bit is clear. */
  lemma BitmapBit(body: seq<Cell>, apple: Cell, x: int, g: int, k: nat)
    requires 0 <= x < Size && 0 <= g < 2 && k < 8
    ensures 0 <= ByteIndex(x, g) < 32
    ensures Bit(Bitmap(body, apple)[ByteIndex(x, g)], k) <==> Lit(body, apple, x, 8 * g + k)
  {
    Join2(x, g);
    var bits := Octet(body, apple, x, g);
    assert Bitmap(body, apple)[ByteIndex(x, g)] == PackOctet(bits);
    PackBit(bits, |bits|, k);
  }

  /** The two column buses of the dot matrix. */
  datatype Bus = BusA | BusC

  /** The buffer byte drawPicture puts on a bus while physical row `row` is
      selected: row i shows y-group i / 8 of column i % 8 on bus A and of
      column i % 8 + 8 on bus C. */
  function ReadIndex(row: int, bus: Bus): (b: int)
    ensures 0 <= row < 16 ==> 0 <= b < 32
  {
    ByteIndex(row % 8 + (if bus == BusC then 8 else 0), row / 8)
  }

  /** The row and bus at which byte b of the buffer is shown. */
  function Slot(b: int): (int, Bus) {
    var x := b / 2;
    (8 * (b % 2) + x % 8, if x < 8 then BusA else BusC)
  }

  /** Every (row, bus) pair reads a byte of the 32-byte buffer, and Slot
      recovers the pair from that byte. */
  lemma ReadIndexInBuffer(row: int, bus: Bus)
    requires 0 <= row < 16
    ensures 0 <= ReadIndex(row, bus) < 32
    ensures Slot(ReadIndex(row, bus)) == (row, bus)
  {
    var g, r8 := if row < 8 then 0 else 1, if row < 8 then row else row - 8;
    Join8(g, r8);
    var x := r8 + (if bus == BusC then 8 else 0);
    Join2(x, g);
    assert ReadIndex(row, bus) == 2 * x + g;
    Join8(if x < 8 then 0 else 1, r8);
  }

  /** Every byte of the buffer is read at the row and bus Slot gives. */
  lemma SlotReadsByte(b: int)
    requires 0 <= b < 32
    ensures 0 <= Slot(b).0 < 16
    ensures ReadIndex(Slot(b).0, Slot(b).1) == b
  {
    var x, g := b / 2, b % 2;
    assert b == 2 * x + g;
    var h, x8 := if x < 8 then 0 else 1, if x < 8 then x else x - 8;
    Join8(h, x8);
    Join8(g, x8);
    Join2(x, g);
  }

  /** One refresh reads every buffer byte exactly once: no two (row, bus)
      pairs read the same byte, and every byte is read at the pair Slot gives. */
  lemma ReadsEachByteOnce()
    ensures forall r1, b1, r2, b2 ::
      (0 <= r1 < 16 && 0 <= r2 < 16 && ReadIndex(r1, b1) == ReadIndex(r2, b2)) ==> r1 == r2 && b1 == b2
    ensures forall b :: 0 <= b < 32 ==> 0 <= Slot(b).0 < 16 && ReadIndex(Slot(b).0, Slot(b).1) == b
  {
    forall r1, b1, r2, b2 | 0 <= r1 < 16 && 0 <= r2 < 16 && ReadIndex(r1, b1) == ReadIndex(r2, b2)
      ensures r1 == r2 && b1 == b2
    {
      ReadIndexInBuffer(r1, b1);
      ReadIndexInBuffer(r2, b2);
    }
    forall b | 0 <= b < 32
      ensures 0 <= Slot(b).0 < 16 && ReadIndex(Slot(b).0, Slot(b).1) == b
    {
      SlotReadsByte(b);
    }
  }

  /** What the dot matrix shows when it is driven from the bitmap: bit k on a
      bus while row `row` is selected is lit exactly when the field dot it
      stands for is. */
  lemma ShownDot(body: seq<Cell>, apple: Cell, row: int, bus: Bus, k: nat)
    requires 0 <= row < 16 && k < 8
    ensures 0 <= ReadIndex(row, bus) < 32
    ensures Bit(Bitmap(body, apple)[ReadIndex(row, bus)], k) <==>
      Lit(body, apple, row % 8 + (if bus == BusC then 8 else 0), 8 * (row / 8) + k)
  {
    BitmapBit(body, apple, row % 8 + (if bus == BusC then 8 else 0), row / 8, k);
  }

  /** What drives the matrix while one row is selected: the row number on the
      high nibble of port D, and a byte on each column bus. */
  datatype RowOutput = RowOutput(select: int, busA: bv8, busC: bv8)

  /** drawPicture: the 16 row selections of one refresh, in order; the port
      writes become the returned outputs and the hold delay is left out. */
  method DrawPicture(image: seq<bv8>) returns (rows: seq<RowOutput>)
    requires |image| == 32
    ensures |rows| == 16
    ensures forall i :: 0 <= i < 16 ==>
      0 <= ReadIndex(i, BusA) < 32 && 0 <= ReadIndex(i, BusC) < 32 &&
      rows[i] == RowOutput(i, image[ReadIndex(i, BusA)], image[ReadIndex(i, BusC)])
  {
    rows := [];
    for i := 0 to 16
      invariant |rows| == i
      invariant forall j :: 0 <= j < i ==>
        0 <= ReadIndex(j, BusA) < 32 && 0 <= ReadIndex(j, BusC) < 32 &&
        rows[j] == RowOutput(j, image[ReadIndex(j, BusA)], image[ReadIndex(j, BusC)])
    {
      var a, c;
      if i < 8 {
        a := image[2 * i];
        c := image[2 * i + 16];
      } else {
        a := image[2 * (i - 8) + 1];
        c := image[2 * (i - 8) + 17];
      }
      rows := rows + [RowOutput(i, a, c)];
    }
  }
}
