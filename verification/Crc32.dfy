/**
 The CRC-32 of a firmware image: a table whose entries fold in both inversions, a register that
 starts at zero, a lazily filled table and a chunked file reader. All of it is proved against the
 bit-serial shift register of section 8 of RFC 1952, and then the strength of that register is
 proved: any error burst of up to 32 bits changes the checksum.
 */
module Crc32 {
  import opened Ids

  // The word operations are named so that proofs open them only where a lemma needs the bits.

  function Xor(a: bv32, b: bv32): bv32 { a ^ b }

  function Not(a: bv32): bv32 { !a }

  function Half(a: bv32): bv32 { a >> 1 }

  predicate Even(a: bv32) { a & 1 == 0 }

  const POLYNOMIAL: bv32 := 0xEDB88320
  const TOP: bv32 := 0x8000_0000

  lemma HalfXor(a: bv32, b: bv32)
    ensures Half(Xor(a, b)) == Xor(Half(a), Half(b))
  {}

  lemma EvenXor(a: bv32, b: bv32)
    ensures Even(Xor(a, b)) <==> Even(a) == Even(b)
  {}

  lemma XorCommutes(a: bv32, b: bv32)
    ensures Xor(a, b) == Xor(b, a)
  {}

  lemma XorAssociates(a: bv32, b: bv32, c: bv32)
    ensures Xor(Xor(a, b), c) == Xor(a, Xor(b, c))
  {}

  lemma XorSwap(a: bv32, b: bv32, c: bv32)
    ensures Xor(Xor(a, b), c) == Xor(Xor(a, c), b)
  {
    XorAssociates(a, b, c);
    XorCommutes(b, c);
    XorAssociates(a, c, b);
  }

  lemma XorCancels(x: bv32, d: bv32)
    ensures Xor(Xor(x, d), d) == x
  {}

  lemma NotXor(x: bv32, y: bv32)
    ensures Not(Xor(x, y)) == Xor(Not(x), y)
  {}

  lemma HalfNot(x: bv32)
    ensures Even(Not(x)) <==> !Even(x)
    ensures Half(Not(x)) == Xor(Not(Half(x)), TOP)
  {}

  // ----- The standard, one bit at a time -----

  /** One division step of the reflected register. */
  function Shift(r: bv32): bv32 {
    if Even(r) then Half(r) else Xor(Half(r), POLYNOMIAL)
  }

  function Shifts(r: bv32, n: nat): bv32
    decreases n
  {
    if n == 0 then r else Shifts(Shift(r), n - 1)
  }

  function FeedByte(r: bv32, b: bv8): bv32 {
    Shifts(Xor(r, b as bv32), 8)
  }

  function Feed(r: bv32, data: seq<bv8>): bv32
    decreases |data|
  {
    if data == [] then r else Feed(FeedByte(r, data[0]), data[1..])
  }

  /** CRC-32: all-ones start, complemented result. */
  function Standard(data: seq<bv8>): bv32 {
    Not(Feed(Not(0), data))
  }

  lemma {:induction false} FeedAppend(r: bv32, a: seq<bv8>, b: seq<bv8>)
    ensures Feed(r, a + b) == Feed(Feed(r, a), b)
    decreases |a|
  {
    if a == [] {
      assert a + b == b;
    } else {
      assert (a + b)[1..] == a[1..] + b;
      FeedAppend(FeedByte(r, a[0]), a[1..], b);
    }
  }

  lemma StandardAppend(a: seq<bv8>, b: seq<bv8>)
    ensures Not(Feed(Not(Standard(a)), b)) == Standard(a + b)
  {
    FeedAppend(Not(0), a, b);
    NotCancels(Feed(Not(0), a));
  }

  // ----- Values of the standard -----

  /** Byte by byte from the all-ones start, each step worked out. */
  lemma {:induction false} FeedSteps(data: seq<bv8>, registers: seq<bv32>)
    requires |registers| == |data| + 1
    requires forall i :: 0 <= i < |data| ==> FeedByte(registers[i], data[i]) == registers[i + 1]
    ensures Feed(registers[0], data) == registers[|data|]
    decreases |data|
  {
    if data == [] {
    } else {
      FeedSteps(data[1..], registers[1..]);
    }
  }

  /** The empty message, one zero byte, and the check value of the standard, that of "123456789". */
  lemma CheckValues()
    ensures Standard([]) == 0
    ensures Standard([0]) == 0xD202_EF8D
    ensures Standard([0x31, 0x32, 0x33, 0x34, 0x35, 0x36, 0x37, 0x38, 0x39]) == 0xCBF4_3926
  {
    FirstByteOfZero();
    FeedSteps([0], [0xFFFF_FFFF, 0x2DFD_1072]);
    FeedDigits();
  }

  lemma FeedDigits()
    ensures Feed(0xFFFF_FFFF, [0x31, 0x32, 0x33, 0x34, 0x35, 0x36, 0x37, 0x38, 0x39]) == 0x340B_C6D9
  {
    CheckSteps();
    var digits := [0x31, 0x32, 0x33, 0x34, 0x35, 0x36, 0x37, 0x38, 0x39];
    var registers := [0xFFFF_FFFF, 0x7C23_1048, 0xB0AC_BB32, 0x77B7_9C2D, 0x641C_1F5C,
                      0x340A_C5E3, 0xF68D_2C9E, 0xAFFC_9660, 0x651F_2550, 0x340B_C6D9];
    FeedSteps(digits, registers);
  }

  lemma FirstByteOfZero()
    ensures FeedByte(0xFFFF_FFFF, 0) == 0x2DFD_1072
  {
    assert Shifts(0xFFFF_FFFF, 4) == Shifts(Shift(0xFFFF_FFFF), 3);
  }

  lemma CheckSteps()
    ensures FeedByte(0xFFFF_FFFF, 0x31) == 0x7C23_1048
    ensures FeedByte(0x7C23_1048, 0x32) == 0xB0AC_BB32
    ensures FeedByte(0xB0AC_BB32, 0x33) == 0x77B7_9C2D
    ensures FeedByte(0x77B7_9C2D, 0x34) == 0x641C_1F5C
    ensures FeedByte(0x641C_1F5C, 0x35) == 0x340A_C5E3
    ensures FeedByte(0x340A_C5E3, 0x36) == 0xF68D_2C9E
    ensures FeedByte(0xF68D_2C9E, 0x37) == 0xAFFC_9660
    ensures FeedByte(0xAFFC_9660, 0x38) == 0x651F_2550
    ensures FeedByte(0x651F_2550, 0x39) == 0x340B_C6D9
  {
  }

  // ----- The table form -----

  /** What a table entry must be: the complement of the register fed with the complement. */
  ghost function Entry(v: bv8): bv32 {
    Not(Shifts(Not(v as bv32), 8))
  }

  /** A one bit comes in at the top. */
  ghost function Lift(d: bv32): bv32 { Xor(Half(d), TOP) }

  /** `n` one bits from the top: what inverting the condition leaves behind after `n` steps. */
  ghost function Residue(n: nat): bv32 {
    if n == 0 then 0 else Lift(Residue(n - 1))
  }

  /** The source's step: it adds the polynomial when the low bit is clear, not when it is set. */
  function InvertedShift(x: bv32): bv32 {
    if Even(x) then Xor(Half(x), POLYNOMIAL) else Half(x)
  }

  lemma InvertedShiftStep(x: bv32, d: bv32)
    requires Even(d)
    ensures InvertedShift(Xor(Not(x), d)) == Xor(Not(Shift(x)), Lift(d))
  {
    var half := Not(Half(x));
    EvenXor(Not(x), d);
    HalfXor(Not(x), d);
    HalfNot(x);
    XorSwap(half, TOP, Half(d));
    XorAssociates(half, Half(d), TOP);
    XorSwap(half, Lift(d), POLYNOMIAL);
    NotXor(Half(x), POLYNOMIAL);
  }

  lemma ResidueValues(n: nat)
    requires n <= 8
    ensures n < 8 ==> Even(Residue(n))
    ensures n == 8 ==> Residue(n) == 0xFF00_0000
  {
    assert Residue(1) == 0x8000_0000;
    assert Residue(2) == 0xC000_0000;
    assert Residue(3) == 0xE000_0000;
    assert Residue(4) == 0xF000_0000;
    assert Residue(5) == 0xF800_0000;
    assert Residue(6) == 0xFC00_0000;
    assert Residue(7) == 0xFE00_0000;
  }

  lemma {:induction false} ShiftsLast(r: bv32, n: nat)
    ensures Shifts(r, n + 1) == Shift(Shifts(r, n))
    decreases n
  {
    if n == 0 {
    } else {
      ShiftsLast(Shift(r), n - 1);
    }
  }

  lemma NotCancels(x: bv32)
    ensures Not(Not(x)) == x && Xor(x, 0) == x
  {}

  method EntryForByte(value: bv8) returns (result: bv32)
    ensures result == Entry(value)
  {
    result := value as bv32;
    ghost var r := Not(result);
    NotCancels(result);
    for i := 0 to 8
      invariant result == Xor(Not(Shifts(r, i)), Residue(i))
    {
      ResidueValues(i);
      InvertedShiftStep(Shifts(r, i), Residue(i));
      ShiftsLast(r, i);
      if Even(result) {
        result := Xor(Half(result), POLYNOMIAL);
      } else {
        result := Half(result);
      }
    }
    ResidueValues(8);
    XorCancels(Not(Shifts(r, 8)), Residue(8));
    result := Xor(result, 0xFF00_0000);
  }

  ghost predicate LowClear(h: bv32, n: nat)
    decreases n
  {
    n == 0 || (Even(h) && LowClear(Half(h), n - 1))
  }

  ghost function Down(h: bv32, n: nat): bv32
    decreases n
  {
    if n == 0 then h else Down(Half(h), n - 1)
  }

  lemma ShiftSplit(a: bv32, h: bv32)
    requires Even(h)
    ensures Shift(Xor(a, h)) == Xor(Shift(a), Half(h))
  {
    EvenXor(a, h);
    HalfXor(a, h);
    XorSwap(Half(a), Half(h), POLYNOMIAL);
  }

  lemma {:induction false} ShiftsSplit(a: bv32, h: bv32, n: nat)
    requires LowClear(h, n)
    ensures Shifts(Xor(a, h), n) == Xor(Shifts(a, n), Down(h, n))
    decreases n
  {
    if n == 0 {
    } else {
      ShiftSplit(a, h);
      ShiftsSplit(Shift(a), Half(h), n - 1);
    }
  }

  /** The table slot for the next byte. */
  function Slot(crc: bv32, b: bv8): bv8 { b ^ ((crc & 0xFF) as bv8) }

  function Rest(crc: bv32): bv32 { crc >> 8 }

  ghost function HighBytes(crc: bv32): bv32 { crc & 0xFFFF_FF00 }

  lemma DownEight(h: bv32)
    ensures Down(h, 8) == h >> 8
  {
    HalfOfShifted(h);
    assert Down(h >> 4, 4) == h >> 8;
  }

  lemma HalfOfShifted(h: bv32)
    ensures Half(h) == h >> 1 && Half(h >> 1) == h >> 2 && Half(h >> 2) == h >> 3 && Half(h >> 3) == h >> 4
    ensures Half(h >> 4) == h >> 5 && Half(h >> 5) == h >> 6 && Half(h >> 6) == h >> 7 && Half(h >> 7) == h >> 8
  {}

  lemma ClearByteShiftsOut(h: bv32)
    requires h & 0xFF == 0
    ensures LowClear(h, 8) && Down(h, 8) == h >> 8
  {
    HalfOfShifted(h);
    DownEight(h);
    assert Even(h) && Even(h >> 1) && Even(h >> 2) && Even(h >> 3);
    assert Even(h >> 4) && Even(h >> 5) && Even(h >> 6) && Even(h >> 7);
    assert LowClear(h >> 4, 4);
  }

  lemma HighBytesBits(crc: bv32)
    ensures HighBytes(crc) & 0xFF == 0 && HighBytes(crc) >> 8 == Rest(crc)
  {}

  lemma SplitRegister(crc: bv32, b: bv8)
    ensures Xor(Not(crc), b as bv32) == Xor(Not(Slot(crc, b) as bv32), HighBytes(crc))
  {}

  /** The high bytes pass through a byte step untouched, so one table lookup does the step. */
  lemma ByteStep(crc: bv32, b: bv8)
    ensures Xor(Entry(Slot(crc, b)), Rest(crc)) == Not(FeedByte(Not(crc), b))
  {
    var low := Not(Slot(crc, b) as bv32);
    SplitRegister(crc, b);
    HighBytesBits(crc);
    ClearByteShiftsOut(HighBytes(crc));
    ShiftsSplit(low, HighBytes(crc), 8);
    NotXor(Shifts(low, 8), Rest(crc));
  }

  lemma LookupStep(crc: bv32, data: seq<bv8>, i: nat)
    requires i < |data|
    ensures var r := Not(Feed(Not(crc), data[..i]));
      Xor(Entry(Slot(r, data[i])), Rest(r)) == Not(Feed(Not(crc), data[..i + 1]))
  {
    var before := Feed(Not(crc), data[..i]);
    assert Feed(Not(crc), data[..i + 1]) == FeedByte(before, data[i]) by {
      assert data[..i + 1] == data[..i] + [data[i]];
      FeedAppend(Not(crc), data[..i], [data[i]]);
    }
    NotCancels(before);
    ByteStep(Not(before), data[i]);
  }

  /** Why testing the first entry is enough to know whether the table was filled. */
  lemma FirstEntryIsNonzero()
    ensures Entry(0) == 0xD202_EF8D
  {
    assert Shifts(0xFFFF_FFFF, 4) == Shifts(Shift(0xFFFF_FFFF), 3);
  }

  /** The lookup table, a function-local static in the original: all zeroes until first use. */
  class Table {
    const entries: array<bv32>

    constructor ()
      ensures Valid() && fresh(entries)
    {
      entries := new bv32[256](_ => 0);
    }

    /** A nonzero first entry means that the whole table is there. */
    ghost predicate Valid()
      reads entries
    {
      entries.Length == 256 && (entries[0] != 0 ==> Filled())
    }

    ghost predicate Filled()
      requires entries.Length == 256
      reads entries
    {
      forall v: bv8 :: entries[v] == Entry(v)
    }

    /** Advances the checksum in `crc` over `data`; the register is its complement. */
    method Update(crc: bv32, data: seq<bv8>) returns (r: bv32)
      requires Valid()
      modifies entries
      ensures Valid()
      ensures r == Not(Feed(Not(crc), data))
    {
      if entries[0] == 0 {
        Fill();
      }
      r := crc;
      NotCancels(crc);
      for i := 0 to |data|
        invariant Filled()
        invariant r == Not(Feed(Not(crc), data[..i]))
      {
        LookupStep(crc, data, i);
        r := Xor(entries[Slot(r, data[i])], Rest(r));
      }
      assert data[..|data|] == data;
    }

    method Fill()
      requires entries.Length == 256
      modifies entries
      ensures Filled() && entries[0] != 0
    {
      FirstEntryIsNonzero();
      var i: bv16 := 0;
      while i < 256
        invariant i <= 256
        invariant forall v: bv8 :: v as bv16 < i ==> entries[v] == Entry(v)
        decreases 256 - i
      {
        var e := EntryForByte(i as bv8);
        entries[i as bv8] := e;
        i := i + 1;
      }
    }
  }

  // ----- Reading and validating a firmware image -----

  /** An open file: reads return fewer bytes than asked for only at the end or at a failing spot. */
  class File {
    const content: seq<bv8>
    /** Where reading starts to fail, if it does before the end. */
    const failsAt: Option<nat>
    var position: nat
    var atEnd: bool
    var failed: bool

    constructor (content: seq<bv8>, failsAt: Option<nat>)
      ensures this.content == content && this.failsAt == failsAt
      ensures Valid() && position == 0 && !atEnd && !failed
    {
      this.content := content;
      this.failsAt := failsAt;
      position, atEnd, failed := 0, false, false;
    }

    predicate Breaks() {
      failsAt.Some? && failsAt.value < |content|
    }

    function Readable(): (n: nat)
      ensures n <= |content|
    {
      if Breaks() then failsAt.value else |content|
    }

    ghost predicate Valid()
      reads this
    {
      && position <= Readable()
      && (atEnd || failed ==> position == Readable())
      && (atEnd ==> !Breaks()) && (failed ==> Breaks())
    }

    method Read(size: nat) returns (bytes: seq<bv8>)
      requires Valid()
      modifies this
      ensures Valid()
      ensures |bytes| <= size && position == old(position) + |bytes|
      ensures bytes == content[old(position)..position]
      ensures |bytes| < size <==> old(position) + size > Readable()
      ensures |bytes| < size ==> atEnd || failed
      ensures |bytes| == size ==> atEnd == old(atEnd) && failed == old(failed)
    {
      var n := if position + size <= Readable() then size else Readable() - position;
      bytes := content[position..position + n];
      position := position + n;
      if n < size {
        if Breaks() {
          failed := true;
        } else {
          atEnd := true;
        }
      }
    }
  }

  const CHUNK: nat := 4096

  /** Succeeds exactly on readable files, and then the chunked checksum is the standard one. */
  method FileCrc(table: Table, file: File?) returns (result: int, crc: bv32)
    requires table.Valid()
    requires file != null ==> file.Valid() && file.position == 0 && !file.atEnd && !file.failed
    modifies table.entries, file
    ensures table.Valid()
    ensures result == OK <==> file != null && !file.Breaks()
    ensures result == OK ==> crc == Standard(file.content)
  {
    if file == null {
      return ERR, 0;
    }
    crc := 0;
    while !file.atEnd
      invariant table.Valid() && file.Valid()
      invariant crc == Standard(file.content[..file.position])
      decreases file.Readable() - file.position, !file.atEnd, !file.failed
    {
      ghost var before := file.position;
      var bytes := file.Read(CHUNK);
      if |bytes| == 0 && file.failed {
        return ERR, crc;
      }
      assert file.content[..file.position] == file.content[..before] + bytes;
      StandardAppend(file.content[..before], bytes);
      crc := table.Update(crc, bytes);
    }
    assert file.content[..file.position] == file.content;
    return OK, crc;
  }

  datatype Metadata = Metadata(magic: string, version: nat, crc: bv32, forceOutOfMemory: bool)

  datatype Verdict = Accepted | UnsupportedPackageType | IntegrityFailure | OutOfMemory

  const MAGIC := "ANJAY_FW"

  method ValidateFirmware(table: Table, meta: Metadata, file: File?) returns (v: Verdict)
    requires table.Valid()
    requires file != null ==> file.Valid() && file.position == 0 && !file.atEnd && !file.failed
    modifies table.entries, file
    ensures table.Valid()
    ensures v == UnsupportedPackageType <==> meta.magic != "ANJAY_FW" || meta.version != 1
    ensures v == Accepted || v == OutOfMemory <==>
      && meta.magic == "ANJAY_FW" && meta.version == 1
      && file != null && !file.Breaks() && meta.crc == Standard(file.content)
    ensures v == OutOfMemory ==> meta.forceOutOfMemory
    ensures v == Accepted ==> !meta.forceOutOfMemory
  {
    if meta.magic != MAGIC || meta.version != 1 {
      return UnsupportedPackageType;
    }
    var result, actual := FileCrc(table, file);
    if result != OK {
      return IntegrityFailure;
    }
    if meta.crc != actual {
      return IntegrityFailure;
    }
    if meta.forceOutOfMemory {
      return OutOfMemory;
    }
    return Accepted;
  }

  // ----- Error detection -----

  /** The lowest `n` bits of a word, lowest first. */
  function LowBits(w: bv32, n: nat): (bits: seq<bool>)
    ensures |bits| == n
    decreases n
  {
    if n == 0 then [] else [!Even(w)] + LowBits(Half(w), n - 1)
  }

  /** The bits of a message in transmission order: least significant bit of each byte first. */
  function ByteBits(b: bv8): seq<bool> {
    LowBits(b as bv32, 8)
  }

  function Bits(data: seq<bv8>): (bits: seq<bool>)
    ensures |bits| == 8 * |data|
  {
    if data == [] then [] else ByteBits(data[0]) + Bits(data[1..])
  }

  function BitWord(bit: bool): bv32 { if bit then 1 else 0 }

  function FeedBits(r: bv32, bits: seq<bool>): bv32
    decreases |bits|
  {
    if bits == [] then r else FeedBits(Shift(Xor(r, BitWord(bits[0]))), bits[1..])
  }

  /** The first bit is the lowest. */
  ghost function Word(bits: seq<bool>): bv32 {
    if bits == [] then 0 else Append(Word(bits[1..]), bits[0])
  }

  ghost function Append(t: bv32, bit: bool): bv32 { Xor(BitWord(bit), Double(t)) }

  ghost function Double(t: bv32): bv32 { t << 1 }

  predicate TopClear(t: bv32) { t < 0x8000_0000 }

  /** All but the lowest `n` bits. */
  ghost function HighMask(n: nat): bv32
    requires n <= 32
  {
    0xFFFF_FFFF << n
  }

  lemma HighMaskGrows(n: nat)
    requires n <= 31
    ensures HighMask(n + 1) == Double(HighMask(n))
  {}

  lemma HighMaskHasTop(n: nat)
    requires n <= 31
    ensures !TopClear(HighMask(n))
  {}

  ghost predicate Clear(t: bv32, mask: bv32) { t & mask == 0 }

  lemma ClearUnderTop(t: bv32, m: bv32)
    requires Clear(t, m) && !TopClear(m)
    ensures TopClear(t)
  {}

  lemma AppendFits(t: bv32, bit: bool, m: bv32)
    requires Clear(t, m)
    ensures Clear(Append(t, bit), Double(m))
  {}

  lemma {:induction false} WordFits(bits: seq<bool>)
    requires |bits| <= 32
    ensures Clear(Word(bits), HighMask(|bits|))
    ensures |bits| < 32 ==> TopClear(Word(bits))
  {
    if bits == [] {
    } else {
      WordFits(bits[1..]);
      AppendFits(Word(bits[1..]), bits[0], HighMask(|bits| - 1));
      HighMaskGrows(|bits| - 1);
    }
    if |bits| < 32 {
      HighMaskHasTop(|bits|);
      ClearUnderTop(Word(bits), HighMask(|bits|));
    }
  }

  lemma DoubleLosesNothing(t: bv32)
    ensures Even(Double(t))
    ensures TopClear(t) ==> Half(Double(t)) == t
  {}

  lemma BitWordIsLow(bit: bool)
    ensures Half(BitWord(bit)) == 0 && (Even(BitWord(bit)) <==> !bit)
  {}

  lemma AppendHalves(t: bv32, bit: bool)
    requires TopClear(t)
    ensures Half(Append(t, bit)) == t && (Even(Append(t, bit)) <==> !bit)
  {
    DoubleLosesNothing(t);
    BitWordIsLow(bit);
    HalfXor(BitWord(bit), Double(t));
    EvenXor(BitWord(bit), Double(t));
    XorCommutes(0, t);
    NotCancels(t);
  }

  /** Feeding up to 32 bits is adding them to the register and then shifting. */
  lemma {:induction false} FeedBitsIsShifts(r: bv32, bits: seq<bool>)
    requires |bits| <= 32
    ensures FeedBits(r, bits) == Shifts(Xor(r, Word(bits)), |bits|)
    decreases |bits|
  {
    if bits == [] {
      NotCancels(r);
    } else {
      var t, b := Word(bits[1..]), BitWord(bits[0]);
      WordFits(bits[1..]);
      DoubleLosesNothing(t);
      XorAssociates(r, b, Double(t));
      ShiftSplit(Xor(r, b), Double(t));
      FeedBitsIsShifts(Shift(Xor(r, b)), bits[1..]);
    }
  }

  lemma WordHalves(bits: seq<bool>)
    requires 0 < |bits| <= 32
    ensures Half(Word(bits)) == Word(bits[1..]) && (Even(Word(bits)) <==> !bits[0])
  {
    WordFits(bits[1..]);
    AppendHalves(Word(bits[1..]), bits[0]);
  }

  lemma {:induction false} WordIsInjective(a: seq<bool>, b: seq<bool>)
    requires |a| == |b| <= 32 && Word(a) == Word(b)
    ensures a == b
  {
    if a == [] {
    } else {
      WordHalves(a);
      WordHalves(b);
      assert a[1..] == b[1..] by {
        WordIsInjective(a[1..], b[1..]);
      }
      assert a == [a[0]] + a[1..] && b == [b[0]] + b[1..];
    }
  }

  /** The polynomial has its top bit set, so a step loses nothing. */
  lemma ShiftIsInjective(a: bv32, b: bv32)
    requires Shift(a) == Shift(b)
    ensures a == b
  {
    assert Even(a) <==> TopClear(Shift(a));
    assert Even(b) <==> TopClear(Shift(b));
    if !Even(a) {
      XorCancels(Half(a), POLYNOMIAL);
      XorCancels(Half(b), POLYNOMIAL);
    }
    HalfAndParity(a, b);
  }

  lemma HalfAndParity(a: bv32, b: bv32)
    requires Half(a) == Half(b) && (Even(a) <==> Even(b))
    ensures a == b
  {}

  lemma {:induction false} ShiftsIsInjective(a: bv32, b: bv32, n: nat)
    requires Shifts(a, n) == Shifts(b, n)
    ensures a == b
    decreases n
  {
    if n == 0 {
    } else {
      ShiftsIsInjective(Shift(a), Shift(b), n - 1);
      ShiftIsInjective(a, b);
    }
  }

  lemma {:induction false} FeedBitsIsInjective(r: bv32, s: bv32, bits: seq<bool>)
    requires FeedBits(r, bits) == FeedBits(s, bits)
    ensures r == s
    decreases |bits|
  {
    if bits == [] {
    } else {
      var b := BitWord(bits[0]);
      FeedBitsIsInjective(Shift(Xor(r, b)), Shift(Xor(s, b)), bits[1..]);
      ShiftIsInjective(Xor(r, b), Xor(s, b));
      XorCancels(r, b);
      XorCancels(s, b);
    }
  }

  lemma {:induction false} FeedBitsAppend(r: bv32, a: seq<bool>, b: seq<bool>)
    ensures FeedBits(r, a + b) == FeedBits(FeedBits(r, a), b)
    decreases |a|
  {
    if a == [] {
      assert a + b == b;
    } else {
      assert (a + b)[1..] == a[1..] + b;
      FeedBitsAppend(Shift(Xor(r, BitWord(a[0]))), a[1..], b);
    }
  }

  lemma SplitLowBit(w: bv32)
    ensures Append(Half(w), !Even(w)) == w
  {}

  lemma {:induction false} LowBitsWord(w: bv32, n: nat)
    requires Down(w, n) == 0
    ensures Word(LowBits(w, n)) == w
    decreases n
  {
    if n == 0 {
    } else {
      LowBitsWord(Half(w), n - 1);
      SplitLowBit(w);
    }
  }

  lemma ByteBitsWord(b: bv8)
    ensures Word(ByteBits(b)) == b as bv32
  {
    DownEight(b as bv32);
    LowBitsWord(b as bv32, 8);
  }

  /** The byte-wise register is the bit-wise one. */
  lemma {:induction false} FeedIsFeedBits(r: bv32, data: seq<bv8>)
    ensures Feed(r, data) == FeedBits(r, Bits(data))
    decreases |data|
  {
    if data == [] {
    } else {
      ByteBitsWord(data[0]);
      FeedBitsIsShifts(r, ByteBits(data[0]));
      FeedBitsAppend(r, ByteBits(data[0]), Bits(data[1..]));
      FeedIsFeedBits(FeedByte(r, data[0]), data[1..]);
    }
  }

  lemma FirstByte(data: seq<bv8>)
    requires data != []
    ensures Bits(data)[..8] == ByteBits(data[0]) && Bits(data)[8..] == Bits(data[1..])
    ensures Word(Bits(data)[..8]) == data[0] as bv32
  {
    ByteBitsWord(data[0]);
  }

  lemma {:induction false} BitsIsInjective(x: seq<bv8>, y: seq<bv8>)
    requires Bits(x) == Bits(y)
    ensures x == y
  {
    if x == [] {
    } else {
      FirstByte(x);
      FirstByte(y);
      SameByte(x[0], y[0]);
      BitsIsInjective(x[1..], y[1..]);
      assert x == [x[0]] + x[1..] && y == [y[0]] + y[1..];
    }
  }

  lemma SameByte(a: bv8, b: bv8)
    requires a as bv32 == b as bv32
    ensures a == b
  {}

  /** The two messages agree on every bit outside the 32 consecutive bits from `start` on. */
  ghost predicate DifferOnlyInBurst(x: seq<bv8>, y: seq<bv8>, start: nat)
  {
    && |x| == |y|
    && forall k :: 0 <= k < 8 * |x| && (k < start || k >= start + 32) ==> Bits(x)[k] == Bits(y)[k]
  }

  lemma ThreeParts<T>(s: seq<T>, i: nat, j: nat)
    requires i <= j <= |s|
    ensures s == s[..i] + (s[i..j] + s[j..])
  {}

  /** No error burst of up to 32 bits, at whatever bit offset, keeps the checksum. */
  lemma BurstChangesChecksum(x: seq<bv8>, y: seq<bv8>, start: nat)
    requires x != y && DifferOnlyInBurst(x, y, start)
    ensures Standard(x) != Standard(y)
  {
    var a, b := Bits(x), Bits(y);
    var i := if start < |a| then start else |a|;
    var j := if start + 32 < |a| then start + 32 else |a|;
    ThreeParts(a, i, j);
    ThreeParts(b, i, j);
    assert a[..i] == b[..i] && a[j..] == b[j..];
    FeedIsFeedBits(Not(0), x);
    FeedIsFeedBits(Not(0), y);
    if Standard(x) == Standard(y) {
      NotCancels(Feed(Not(0), x));
      NotCancels(Feed(Not(0), y));
      SameWindow(Not(0), a[..i], a[i..j], b[i..j], a[j..]);
      BitsIsInjective(x, y);
    }
  }

  lemma SameWindow(r: bv32, p: seq<bool>, a: seq<bool>, b: seq<bool>, s: seq<bool>)
    requires |a| == |b| <= 32
    requires FeedBits(r, p + (a + s)) == FeedBits(r, p + (b + s))
    ensures a == b
  {
    FeedBitsAppend(r, p, a + s);
    FeedBitsAppend(r, p, b + s);
    var q := FeedBits(r, p);
    FeedBitsAppend(q, a, s);
    FeedBitsAppend(q, b, s);
    FeedBitsIsInjective(FeedBits(q, a), FeedBits(q, b), s);
    FeedBitsIsShifts(q, a);
    FeedBitsIsShifts(q, b);
    ShiftsIsInjective(Xor(q, Word(a)), Xor(q, Word(b)), |a|);
    XorCommutes(q, Word(a));
    XorCommutes(q, Word(b));
    XorCancels(Word(a), q);
    XorCancels(Word(b), q);
    WordIsInjective(a, b);
  }

  lemma {:induction false} BitsOfByte(data: seq<bv8>, i: nat)
    requires i < |data|
    ensures Bits(data)[8 * i..8 * i + 8] == ByteBits(data[i])
  {
    if i == 0 {
    } else {
      BitsOfByte(data[1..], i - 1);
      SliceOfTail(ByteBits(data[0]), Bits(data[1..]), 8 * (i - 1));
    }
  }

  lemma SliceOfTail(head: seq<bool>, tail: seq<bool>, m: nat)
    requires m + 8 <= |tail|
    ensures (head + tail)[|head| + m..|head| + m + 8] == tail[m..m + 8]
  {}

  lemma SameBit(x: seq<bv8>, y: seq<bv8>, k: nat)
    requires k < 8 * |x| && |x| == |y| && x[k / 8] == y[k / 8]
    ensures Bits(x)[k] == Bits(y)[k]
  {
    var i := k / 8;
    BitsOfByte(x, i);
    BitsOfByte(y, i);
    assert Bits(x)[k] == Bits(x)[8 * i..8 * i + 8][k - 8 * i];
    assert Bits(y)[k] == Bits(y)[8 * i..8 * i + 8][k - 8 * i];
  }

  /** In particular every corruption confined to four consecutive bytes is detected. */
  lemma FourByteCorruptionChangesChecksum(x: seq<bv8>, y: seq<bv8>, start: nat)
    requires x != y && |x| == |y|
    requires forall i :: 0 <= i < |x| && (i < start || i >= start + 4) ==> x[i] == y[i]
    ensures Standard(x) != Standard(y)
  {
    forall k | 0 <= k < 8 * |x| && (k < 8 * start || k >= 8 * start + 32)
      ensures Bits(x)[k] == Bits(y)[k]
    {
      SameBit(x, y, k);
    }
    BurstChangesChecksum(x, y, 8 * start);
  }
}
