/**
 The checksum engine: the tables it generates and the loops that walk a buffer.

 Buffers are arrays with the address of their first byte, because the loops align the read pointer before
 they read whole words.  `x64` stands for the compile-time switch between the 64-bit and 32-bit code.
 */
module Checksum {
  import opened Words
  import opened CrcSpec
  import opened CrcAlgebra
  import opened Crc32Table

  const LONG_SHIFT: nat := 8192
  const SHORT_SHIFT: nat := 256

  // ---------------------------------------------------------------------------------------------
  // What the tables hold, and why looking up bytes one by one is enough
  // ---------------------------------------------------------------------------------------------

  /** Row `t` moves a byte over `t + 1` bytes. */
  ghost predicate SlicingTable(table: array2<word>)
    reads table
  {
    && table.Length0 == 16 && table.Length1 == 256
    && forall t: nat, i: byte :: t < 16 ==> table[t, i] == Steps(CASTAGNOLI, 8 * (t + 1), i)
  }

  /** Together the four rows move a word over `n` bytes. */
  ghost predicate ShiftTable(shifts: array2<word>, n: nat)
    reads shifts
  {
    && shifts.Length0 == 4 && shifts.Length1 == 256 && n >= 4
    && forall j: nat, i: byte :: j < 4 ==> shifts[j, i] == Steps(CASTAGNOLI, 8 * (n - j), i)
  }

  /** Column `i` of the slicing table. */
  function SlicingColumn(i: byte): (column: seq<word>)
    ensures |column| == 16
  {
    seq(16, t requires 0 <= t < 16 => Steps(CASTAGNOLI, 8 * (t + 1), i))
  }

  /** Column `i` of a zero-shift table over `n` bytes. */
  function ShiftColumn(n: nat, i: byte): (column: seq<word>)
    requires n >= 4
    ensures |column| == 4
  {
    seq(4, j requires 0 <= j < 4 => Steps(CASTAGNOLI, 8 * (n - j), i))
  }

  /** The exclusive or, left to right, of the lookups `table[|index| - 1 - k][index[k]]` for k < n. */
  function Lookups(table: array2<word>, index: seq<byte>, n: nat): word
    reads table
    requires n <= |index| <= table.Length0 && table.Length1 == 256
  {
    if n == 0 then 0
    else XorWord(Lookups(table, index, n - 1), table[|index| - n, index[n - 1]])
  }

  /** `shift_crc` */
  function ShiftCrc(shifts: array2<word>, crc: word): word
    reads shifts
    requires shifts.Length0 == 4 && shifts.Length1 == 256
  {
    XorWord(XorWord(XorWord(shifts[0, ByteAt(crc, 0)], shifts[1, ByteAt(crc, 1)]),
                    shifts[2, ByteAt(crc, 2)]), shifts[3, ByteAt(crc, 3)])
  }

  /** Applying the zeros operator is feeding `n` zero bytes. */
  lemma ShiftCrcFeedsZeros(shifts: array2<word>, n: nat, crc: word)
    requires ShiftTable(shifts, n)
    ensures ShiftCrc(shifts, crc) == Feed(CASTAGNOLI, crc, ZeroBytes(n))
  {
    hide Xor, Step, Steps;
    ZerosAreSteps(CASTAGNOLI, crc, n);
    BytesOf(crc);
    var c1, c2, c3: word := crc / 256, crc / 256 / 256, crc / 256 / 256 / 256;
    PeelByte(CASTAGNOLI, n, crc);
    PeelByte(CASTAGNOLI, n - 1, c1);
    PeelByte(CASTAGNOLI, n - 2, c2);
    var a, b, c, d := Steps(CASTAGNOLI, 8 * n, crc % 256), Steps(CASTAGNOLI, 8 * (n - 1), c1 % 256),
                      Steps(CASTAGNOLI, 8 * (n - 2), c2 % 256), Steps(CASTAGNOLI, 8 * (n - 3), c3);
    XorAssoc(XorWord(a, b), c, d);
    XorAssoc(a, b, XorWord(c, d));
  }

  lemma BytesOf(x: nat)
    ensures ByteAt(x, 0) == x % 256 && ByteAt(x, 1) == x / 256 % 256
    ensures ByteAt(x, 2) == x / 256 / 256 % 256 && ByteAt(x, 3) == x / 256 / 256 / 256 % 256
  {
    ShrOnce(x, 0);
    ShrOnce(x, 1);
    ShrOnce(x, 2);
  }

  /** The first `k` lookups account for the first `k` bytes of the block. */
  lemma {:induction false} LookupsFeed(table: array2<word>, c: word, s: seq<byte>, index: seq<byte>, k: nat)
    requires SlicingTable(table)
    requires k <= |s| == |index| <= 16
    requires forall j | 0 <= j < |s| :: index[j] == Xor(ByteAt(c, j), s[j])
    ensures Shr(c, k) <= c
    ensures Feed(CASTAGNOLI, c, s) == XorWord(Lookups(table, index, k), Feed(CASTAGNOLI, Shr(c, k), s[k..]))
  {
    hide Xor, Step, Steps;
    if k == 0 {
      assert s[0..] == s;
      XorZero(Feed(CASTAGNOLI, c, s));
    } else {
      LookupsFeed(table, c, s, index, k - 1);
      var d := Shr(c, k - 1);
      ShrOnce(c, k - 1);
      FeedPeel(CASTAGNOLI, d, s[k - 1..]);
      assert s[k - 1..][1..] == s[k..];
      XorByte(d, s[k - 1]);
      assert index[k - 1] == XorWord(d, s[k - 1]) % 256;
      XorAssoc(Lookups(table, index, k - 1), table[|index| - k, index[k - 1]], Feed(CASTAGNOLI, Shr(c, k), s[k..]));
    }
  }

  lemma {:induction false} ShrOnce(x: nat, k: nat)
    ensures Shr(x, k + 1) == Shr(x, k) / 256
    decreases k
  {
    if k > 0 { ShrOnce(x / 256, k - 1); }
  }

  /** Slicing: all lookups together are all bytes of the block. */
  lemma SlicingFeeds(table: array2<word>, c: word, s: seq<byte>, index: seq<byte>)
    requires SlicingTable(table)
    requires 4 <= |s| == |index| <= 16
    requires forall j | 0 <= j < |s| :: index[j] == Xor(ByteAt(c, j), s[j])
    ensures Lookups(table, index, |index|) == Feed(CASTAGNOLI, c, s)
  {
    hide Xor, Step, Steps;
    LookupsFeed(table, c, s, index, |s|);
    ShrGone(c, |s|);
    FeedNothing(CASTAGNOLI, 0);
    XorZero(Lookups(table, index, |index|));
  }

  lemma {:induction false} ShrGone(x: word, k: nat)
    requires k >= 4
    ensures Shr(x, k) == 0
  {
    if k == 4 {
      ShrOnce(x, 0);
      ShrOnce(x, 1);
      ShrOnce(x, 2);
      ShrOnce(x, 3);
    } else {
      ShrGone(x, k - 1);
      ShrOnce(x, k - 1);
    }
  }

  // ---------------------------------------------------------------------------------------------
  // Little-endian loads
  // ---------------------------------------------------------------------------------------------

  /** The number in `|s|` consecutive bytes of memory. */
  function Load(s: seq<byte>): nat {
    if s == [] then 0 else s[0] + 256 * Load(s[1..])
  }

  /** The low `n` bytes of a number, low byte first. */
  function LittleEndian(x: nat, n: nat): (s: seq<byte>)
    ensures |s| == n
  {
    seq(n, k requires 0 <= k < n => ByteAt(x, k))
  }

  lemma {:induction false} LoadByte(s: seq<byte>, k: nat)
    requires k < |s|
    ensures ByteAt(Load(s), k) == s[k]
    decreases k
  {
    if k > 0 { LoadByte(s[1..], k - 1); }
  }

  lemma LoadRoundTrip(s: seq<byte>)
    ensures LittleEndian(Load(s), |s|) == s
  {
    forall k: nat | k < |s|
      ensures ByteAt(Load(s), k) == s[k]
    {
      LoadByte(s, k);
    }
  }

  /**
   `_mm_crc32_u8`, `_mm_crc32_u32` and `_mm_crc32_u64` (n = 1, 4, 8), as documented: the instruction
   accumulates the bytes of its operand, low byte first, into a CRC-32C register.
   */
  function CrcInstruction(crc: word, operand: nat, n: nat): word {
    Feed(CASTAGNOLI, crc, LittleEndian(operand, n))
  }

  /** The index bytes of one 16-byte block (two 64-bit loads) or 12-byte block (three 32-bit loads). */
  function BlockIndex(x64: bool, c: word, s: seq<byte>): (index: seq<byte>)
    requires |s| == if x64 then 16 else 12
    ensures |index| == |s|
  {
    if x64 then
      LittleEndian(Xor(c, Load(s[..8])), 8) + LittleEndian(Load(s[8..]), 8)
    else
      LittleEndian(Xor(c, Load(s[..4])), 4) + LittleEndian(Load(s[4..8]), 4) + LittleEndian(Load(s[8..]), 4)
  }

  lemma BlockIndexBytes(x64: bool, c: word, s: seq<byte>)
    requires |s| == if x64 then 16 else 12
    ensures forall j | 0 <= j < |s| :: BlockIndex(x64, c, s)[j] == Xor(ByteAt(c, j), s[j])
  {
    hide Xor;
    var w := if x64 then 8 else 4;
    forall j | 0 <= j < |s|
      ensures BlockIndex(x64, c, s)[j] == Xor(ByteAt(c, j), s[j])
    {
      if j < w {
        XorByteAt(c, Load(s[..w]), j);
        LoadByte(s[..w], j);
      } else {
        ShrGone(c, j);
        XorZero(s[j]);
        if j < 2 * w { LoadByte(s[w..2 * w], j - w); } else { LoadByte(s[2 * w..], j - 2 * w); }
        assert x64 ==> s[w..2 * w] == s[8..];
      }
    }
  }

  // ---------------------------------------------------------------------------------------------
  // The engine
  // ---------------------------------------------------------------------------------------------

  /** The bytes a buffer pointer and a length designate; a null pointer designates none. */
  ghost function Bytes(buffer: array?<byte>, length: nat): seq<byte>
    reads buffer
    requires buffer != null ==> length <= buffer.Length
  {
    if buffer == null then [] else buffer[..length]
  }

  /** `crc32`: the byte loop over the literal table. */
  method Crc32(crc: word, buffer: array?<byte>, size: nat) returns (r: word)
    requires if buffer == null then size == 0 else size <= buffer.Length
    ensures r == Crc(IEEE, crc, Bytes(buffer, size))
  {
    hide Xor, Step, Steps, Crc32Tab, Feed;
    var c := XorWord(crc, ONES);
    var p := 0;
    FeedNothing(IEEE, c);
    while p < size
      invariant 0 <= p <= size
      invariant c == Feed(IEEE, XorWord(crc, ONES), Bytes(buffer, p))
    {
      FeedConcat(IEEE, XorWord(crc, ONES), buffer[..p], [buffer[p]]);
      assert buffer[..p + 1] == buffer[..p] + [buffer[p]];
      TableLaw(IEEE, c, buffer[p]);
      TableIsRight(XorWord(c, buffer[p]) % 256);
      c := XorWord(Crc32Tab(XorWord(c, buffer[p]) % 256), c / 256);
      p := p + 1;
    }
    r := XorWord(c, ONES);
  }

  datatype Routine = None | Hardware | Software

  class Engine {
    const table: array2<word>
    const shortShifts: array2<word>
    const longShifts: array2<word>
    var appendFunc: Routine

    ghost predicate Shape() {
      && table.Length0 == 16 && table.Length1 == 256
      && shortShifts.Length0 == 4 && shortShifts.Length1 == 256
      && longShifts.Length0 == 4 && longShifts.Length1 == 256
      && table != shortShifts && table != longShifts && shortShifts != longShifts
    }

    /** The tables that the chosen routine reads are complete. */
    ghost predicate Ready()
      reads this, table, shortShifts, longShifts
    {
      match appendFunc
      case None => true
      case Software => SlicingTable(table)
      case Hardware => ShiftTable(shortShifts, SHORT_SHIFT) && ShiftTable(longShifts, LONG_SHIFT)
    }

    constructor ()
      ensures Shape() && appendFunc == None
      ensures fresh(table) && fresh(shortShifts) && fresh(longShifts)
    {
      table := new word[16, 256]((i, j) => 0);
      shortShifts := new word[4, 256]((i, j) => 0);
      longShifts := new word[4, 256]((i, j) => 0);
      appendFunc := None;
    }

    /** `calculate_table` */
    method CalculateTable()
      requires Shape()
      modifies table
      ensures SlicingTable(table)
    {
      hide Steps;
      for i := 0 to 256
        invariant forall t: nat, b: byte :: t < 16 && b < i ==> table[t, b] == Steps(CASTAGNOLI, 8 * (t + 1), b)
      {
        FillSlicing(table, i);
        forall t: nat | t < 16 ensures table[t, i] == Steps(CASTAGNOLI, 8 * (t + 1), i) {
          assert table[t, i] == SlicingColumn(i)[t];
        }
      }
    }

    /** One pass of its outer loop: column `i`, top row first. */
    static method FillSlicing(table: array2<word>, i: byte)
      requires table.Length0 == 16 && table.Length1 == 256
      modifies table
      ensures forall t: nat :: t < 16 ==> table[t, i] == SlicingColumn(i)[t]
      ensures forall t: nat, b: byte :: t < 16 && b != i ==> table[t, b] == old(table[t, b])
    {
      hide Step, Xor;
      var res: word := i;
      for t := 0 to 16
        invariant res == Steps(CASTAGNOLI, 8 * t, i)
        invariant forall u: nat :: u < t ==> table[u, i] == SlicingColumn(i)[u]
        invariant forall u: nat, b: byte :: u < 16 && b != i ==> table[u, b] == old(table[u, b])
      {
        for k := 0 to 8
          invariant res == Steps(CASTAGNOLI, 8 * t + k, i)
        {
          res := Step(CASTAGNOLI, res);
        }
        table[t, i] := res;
      }
    }

    /** `calculate_table_hw` */
    method CalculateTableHw()
      requires Shape()
      modifies shortShifts, longShifts
      ensures ShiftTable(shortShifts, 256) && ShiftTable(longShifts, 8192)
    {
      hide Step, Xor;
      for i := 0 to 256
        invariant forall j: nat, b: byte :: j < 4 && b < i ==>
                    shortShifts[j, b] == Steps(CASTAGNOLI, 8 * (SHORT_SHIFT - j), b)
        invariant forall j: nat, b: byte :: j < 4 && b < i ==>
                    longShifts[j, b] == Steps(CASTAGNOLI, 8 * (LONG_SHIFT - j), b)
      {
        var res: word := i;
        res := Advance(res, 8 * (SHORT_SHIFT - 4));
        res := FillColumn(shortShifts, i, res, SHORT_SHIFT);
        StepsAdd(CASTAGNOLI, 8 * (LONG_SHIFT - 4 - SHORT_SHIFT), 8 * SHORT_SHIFT, i);
        res := Advance(res, 8 * (LONG_SHIFT - 4 - SHORT_SHIFT));
        res := FillColumn(longShifts, i, res, LONG_SHIFT);
      }
    }

    /** The loops of the generator that only advance `res`. */
    static method Advance(start: word, n: nat) returns (res: word)
      ensures res == Steps(CASTAGNOLI, n, start)
    {
      hide Step, Xor;
      res := start;
      for k := 0 to n
        invariant res == Steps(CASTAGNOLI, k, start)
      {
        res := Step(CASTAGNOLI, res);
      }
    }

    /** The loops of the generator that store column `i`, last row first. */
    static method FillColumn(shifts: array2<word>, i: byte, start: word, n: nat) returns (res: word)
      requires shifts.Length0 == 4 && shifts.Length1 == 256 && n >= 4
      requires start == Steps(CASTAGNOLI, 8 * (n - 4), i)
      modifies shifts
      ensures res == Steps(CASTAGNOLI, 8 * n, i)
      ensures forall j: nat :: j < 4 ==> shifts[j, i] == ShiftColumn(n, i)[j] == Steps(CASTAGNOLI, 8 * (n - j), i)
      ensures forall j: nat, b: byte :: j < 4 && b != i ==> shifts[j, b] == old(shifts[j, b])
    {
      hide Step, Xor;
      res := start;
      for t := 0 to 4
        invariant res == Steps(CASTAGNOLI, 8 * (n - 4 + t), i)
        invariant forall j: nat :: 4 - t <= j < 4 ==> shifts[j, i] == Steps(CASTAGNOLI, 8 * (n - j), i)
        invariant forall j: nat, b: byte :: j < 4 && b != i ==> shifts[j, b] == old(shifts[j, b])
      {
        for k := 0 to 8
          invariant res == Steps(CASTAGNOLI, 8 * (n - 4 + t) + k, i)
        {
          res := Step(CASTAGNOLI, res);
        }
        shifts[3 - t, i] := res;
      }
    }

    /** `crc32c_append_sw`: bytes up to an aligned address, blocks of 16 (12) bytes, the bytes left over. */
    method AppendSoftware(x64: bool, crc: word, address: nat, buffer: array?<byte>, length: nat) returns (r: word)
      requires SlicingTable(table)
      requires if buffer == null then length == 0 else length <= buffer.Length
      ensures r == Crc(CASTAGNOLI, crc, Bytes(buffer, length))
    {
      hide Xor, Step, Steps, Lookups, BlockIndex, Feed;
      var data := if buffer == null then [] else buffer[..length];
      var start := XorWord(crc, ONES);
      var c := start;
      var next: nat, len: nat := 0, length;
      var align, block := if x64 then 8 else 4, if x64 then 16 else 12;
      FeedNothing(CASTAGNOLI, c);
      while len > 0 && (address + next) % align != 0
        invariant next + len == length && c == Feed(CASTAGNOLI, start, data[..next])
      {
        c := LookUpByte(c, start, data, next);
        next, len := next + 1, len - 1;
      }
      while len >= block
        invariant next + len == length && c == Feed(CASTAGNOLI, start, data[..next])
      {
        c := LookUpBlock(x64, c, start, data, next);
        next, len := next + block, len - block;
      }
      while len > 0
        invariant next + len == length && c == Feed(CASTAGNOLI, start, data[..next])
      {
        c := LookUpByte(c, start, data, next);
        next, len := next + 1, len - 1;
      }
      assert data[..next] == data;
      r := XorWord(c, ONES);
    }

    /** `crc = table [0][(crc ^ *next) & 0xff] ^ (crc >> 8)` */
    method LookUpByte(c: word, ghost start: word, data: seq<byte>, next: nat) returns (r: word)
      requires SlicingTable(table) && next < |data|
      requires c == Feed(CASTAGNOLI, start, data[..next])
      ensures r == Feed(CASTAGNOLI, start, data[..next + 1])
    {
      hide Xor, Step, Steps, Feed;
      FeedMore(start, data, next, 1);
      assert data[next..next + 1] == [data[next]];
      TableLaw(CASTAGNOLI, c, data[next]);
      r := XorWord(table[0, XorWord(c, data[next]) % 256], c / 256);
    }

    /** The body of the slicing loop: every byte of the block is looked up in a row of its own. */
    method LookUpBlock(x64: bool, c: word, ghost start: word, data: seq<byte>, next: nat) returns (r: word)
      requires SlicingTable(table) && next + (if x64 then 16 else 12) <= |data|
      requires c == Feed(CASTAGNOLI, start, data[..next])
      ensures r == Feed(CASTAGNOLI, start, data[..next + (if x64 then 16 else 12)])
    {
      hide Xor, Step, Steps, Feed, Lookups, BlockIndex;
      var block := if x64 then 16 else 12;
      var s := data[next..next + block];
      FeedMore(start, data, next, block);
      BlockIndexBytes(x64, c, s);
      SlicingFeeds(table, c, s, BlockIndex(x64, c, s));
      r := Lookups(table, BlockIndex(x64, c, s), block);
    }

    /**
     `crc32c_append_hw`: bytes up to an 8-byte boundary, triples of LONG_SHIFT-byte lanes, triples of
     SHORT_SHIFT-byte lanes, whole words, and the bytes left over.
     */
    method AppendHardware(x64: bool, crc: word, address: nat, buffer: array?<byte>, length: nat) returns (r: word)
      requires ShiftTable(shortShifts, SHORT_SHIFT) && ShiftTable(longShifts, LONG_SHIFT)
      requires buffer != null ==> length <= buffer.Length
      ensures r == Crc(CASTAGNOLI, crc, Bytes(buffer, length))
    {
      hide Xor, XorWord, CrcInstruction, Feed, Load, ShiftTable;
      if buffer == null || length < 1 {
        EmptyCrc(crc);
        assert Bytes(buffer, length) == [];
        return crc;
      }
      var data := buffer[..length];
      var unit := if x64 then 8 else 4;
      ghost var start := XorWord(crc, ONES);
      var c := XorWord(crc, ONES);
      var next: nat, len: nat := 0, length;
      FeedNothing(CASTAGNOLI, c);
      while len > 0 && (address + next) % 8 != 0
        invariant next + len == length && c == Feed(CASTAGNOLI, start, data[..next])
      {
        UnitFeeds(c, start, data, next, 1);
        c := CrcInstruction(c, Load(data[next..next + 1]), 1);
        next, len := next + 1, len - 1;
      }
      c, next := Blocks(c, start, data, next, LONG_SHIFT, unit, longShifts);
      c, next := Blocks(c, start, data, next, SHORT_SHIFT, unit, shortShifts);
      len := length - next;
      c := Units(c, start, data, next, len - len % 8, unit);
      c := Units(c, start, data, next + (len - len % 8), len % 8, 1);
      assert data[..length] == data;
      r := XorWord(c, ONES);
    }

    /** The loops that feed the next `n` bytes to one register, `unit` bytes an instruction. */
    static method Units(c: word, ghost start: word, data: seq<byte>, from: nat, n: nat, unit: nat) returns (r: word)
      requires from + n <= |data| && c == Feed(CASTAGNOLI, start, data[..from])
      requires unit == 1 || ((unit == 4 || unit == 8) && n % 8 == 0)
      ensures r == Feed(CASTAGNOLI, start, data[..from + n])
    {
      hide *;
      r := c;
      var k: nat := 0;
      NoUnits(unit);
      while k < n
        invariant k <= n && r == Feed(CASTAGNOLI, start, data[..from + k])
        invariant Aligned(k, unit)
      {
        NextUnit(k, n, unit);
        UnitFeeds(r, start, data, from + k, unit);
        r := CrcInstruction(r, Load(data[from + k..from + k + unit]), unit);
        k := k + unit;
      }
    }

    /** The loop over blocks of three `shift`-byte lanes: all that fit in what is left. */
    static method Blocks(c: word, ghost start: word, data: seq<byte>, from: nat, shift: nat, unit: nat,
                         shifts: array2<word>)
      returns (r: word, next: nat)
      requires from <= |data| && c == Feed(CASTAGNOLI, start, data[..from])
      requires (unit == 4 || unit == 8) && shift > 0 && shift % 8 == 0
      requires ShiftTable(shifts, shift)
      ensures from <= next <= |data| && |data| - next < 3 * shift
      ensures r == Feed(CASTAGNOLI, start, data[..next])
    {
      hide *;
      r, next := c, from;
      var len: nat := |data| - from;
      while len >= 3 * shift
        invariant from <= next && next + len == |data| && r == Feed(CASTAGNOLI, start, data[..next])
      {
        FeedMore(start, data, next, 3 * shift);
        r := ThreeLanes(r, data[next..next + 3 * shift], shift, unit, shifts);
        next, len := next + 3 * shift, len - 3 * shift;
      }
    }

    /** Three registers over three adjacent lanes of `shift` bytes, merged with the zeros operator. */
    static method ThreeLanes(crc0: word, data: seq<byte>, shift: nat, unit: nat, shifts: array2<word>)
      returns (r: word)
      requires |data| == 3 * shift
      requires (unit == 4 || unit == 8) && shift % 8 == 0
      requires ShiftTable(shifts, shift)
      ensures r == Feed(CASTAGNOLI, crc0, data)
    {
      hide Xor, Step, Steps, Feed, ShiftCrc;
      var a, b, d := data[..shift], data[shift..2 * shift], data[2 * shift..];
      var c0, c1, c2 := Registers(crc0, a, b, d, unit);
      MergeLanes(shifts, shift, crc0, a, b);
      MergeLanes(shifts, shift, crc0, a + b, d);
      assert a + b + d == data;
      c0 := XorWord(ShiftCrc(shifts, c0), c1);
      r := XorWord(ShiftCrc(shifts, c0), c2);
    }

    /** The interleaved inner loop: one instruction for each lane in turn. */
    static method Registers(crc0: word, a: seq<byte>, b: seq<byte>, d: seq<byte>, unit: nat)
      returns (c0: word, c1: word, c2: word)
      requires |a| == |b| == |d|
      requires (unit == 4 || unit == 8) && |a| % 8 == 0
      ensures c0 == Feed(CASTAGNOLI, crc0, a)
      ensures c1 == Feed(CASTAGNOLI, 0, b)
      ensures c2 == Feed(CASTAGNOLI, 0, d)
    {
      hide *;
      c0, c1, c2 := crc0, 0, 0;
      var next := 0;
      FeedNothing(CASTAGNOLI, crc0);
      FeedNothing(CASTAGNOLI, 0);
      NoUnits(unit);
      while next < |a|
        invariant 0 <= next <= |a| && Aligned(next, unit)
        invariant c0 == Feed(CASTAGNOLI, crc0, a[..next])
        invariant c1 == Feed(CASTAGNOLI, 0, b[..next])
        invariant c2 == Feed(CASTAGNOLI, 0, d[..next])
      {
        NextUnit(next, |a|, unit);
        UnitFeeds(c0, crc0, a, next, unit);
        UnitFeeds(c1, 0, b, next, unit);
        UnitFeeds(c2, 0, d, next, unit);
        c0 := CrcInstruction(c0, Load(a[next..next + unit]), unit);
        c1 := CrcInstruction(c1, Load(b[next..next + unit]), unit);
        c2 := CrcInstruction(c2, Load(d[next..next + unit]), unit);
        next := next + unit;
      }
      assert a[..next] == a && b[..next] == b && d[..next] == d;
    }

    /** `__crc32_init` as the thread that wins the exchange runs it. */
    method Initialize(hardwareAvailable: bool)
      requires Shape()
      modifies this, table, shortShifts, longShifts
      ensures Ready()
      ensures appendFunc == if hardwareAvailable then Hardware else Software
    {
      var toSet := None;
      if hardwareAvailable {
        CalculateTableHw();
        toSet := Hardware;
      } else {
        CalculateTable();
        toSet := Software;
      }
      appendFunc := toSet;
    }

    /**
     `crc32c`, called by one thread: it initialises the engine on the first call.  Whichever routine the
     processor test picks, the value is the same.
     */
    method Crc32c(hardwareAvailable: bool, x64: bool, crc: word, address: nat, input: array?<byte>, length: nat)
      returns (r: word)
      requires Shape() && Ready()
      requires input != null ==> length <= input.Length
      modifies this, table, shortShifts, longShifts
      ensures Ready() && appendFunc != None
      ensures old(appendFunc) != None ==> appendFunc == old(appendFunc)
      ensures r == Crc(CASTAGNOLI, crc, Bytes(input, length))
    {
      if appendFunc == None {
        Initialize(hardwareAvailable);
      }
      if input != null && length > 0 && appendFunc != None {
        r := Dispatch(x64, crc, address, input, length);
      } else {
        EmptyCrc(crc);
        assert Bytes(input, length) == [];
        r := crc;
      }
    }

    /** The call through `append_func`. */
    method Dispatch(x64: bool, crc: word, address: nat, input: array<byte>, length: nat) returns (r: word)
      requires Ready() && appendFunc != None
      requires length <= input.Length
      ensures r == Crc(CASTAGNOLI, crc, input[..length])
    {
      if appendFunc == Hardware {
        r := AppendHardware(x64, crc, address, input, length);
      } else {
        r := AppendSoftware(x64, crc, address, input, length);
      }
    }
  }

  /** After any number of whole units. */
  predicate Aligned(k: nat, unit: nat) {
    (unit == 4 ==> k % 4 == 0) && (unit == 8 ==> k % 8 == 0)
  }

  lemma NoUnits(unit: nat)
    ensures Aligned(0, unit)
  {}

  /** A further unit fits. */
  lemma NextUnit(k: nat, n: nat, unit: nat)
    requires k < n && Aligned(k, unit)
    requires unit == 1 || ((unit == 4 || unit == 8) && n % 8 == 0)
    ensures k + unit <= n && Aligned(k + unit, unit)
  {
    var m := n / 8;
    assert unit != 1 ==> n == 8 * m;
    if unit == 4 {
      var q := k / 4;
      assert k == 4 * q && q < 2 * m;
      assert k + 4 == 4 * (q + 1);
    } else if unit == 8 {
      var q := k / 8;
      assert k == 8 * q && q < m;
      assert k + 8 == 8 * (q + 1);
    }
  }

  lemma FeedMore(start: word, data: seq<byte>, next: nat, n: nat)
    requires next + n <= |data|
    ensures Feed(CASTAGNOLI, start, data[..next + n])
         == Feed(CASTAGNOLI, Feed(CASTAGNOLI, start, data[..next]), data[next..next + n])
  {
    assert data[..next + n] == data[..next] + data[next..next + n];
    FeedConcat(CASTAGNOLI, start, data[..next], data[next..next + n]);
  }

  /** One CRC instruction on the `n` bytes at `next`. */
  lemma UnitFeeds(c: word, start: word, data: seq<byte>, next: nat, n: nat)
    requires next + n <= |data|
    requires c == Feed(CASTAGNOLI, start, data[..next])
    ensures CrcInstruction(c, Load(data[next..next + n]), n) == Feed(CASTAGNOLI, start, data[..next + n])
  {
    hide Xor, Step, Steps, Feed;
    FeedMore(start, data, next, n);
    LoadRoundTrip(data[next..next + n]);
  }

  lemma EmptyCrc(crc: word)
    ensures forall poly: word {:trigger Crc(poly, crc, [])} :: Crc(poly, crc, []) == crc
  {
    hide Xor;
    XorAssoc(crc, ONES, ONES);
    XorZero(crc);
    XorZero(ONES);
  }

  /** Merging a lane: move what precedes it over its length and add what it contributes on its own. */
  lemma MergeLanes(shifts: array2<word>, n: nat, c: word, a: seq<byte>, b: seq<byte>)
    requires ShiftTable(shifts, n) && |b| == n
    ensures XorWord(ShiftCrc(shifts, Feed(CASTAGNOLI, c, a)), Feed(CASTAGNOLI, 0, b)) == Feed(CASTAGNOLI, c, a + b)
  {
    hide Xor, Step, Steps, Feed, ShiftCrc;
    ShiftCrcFeedsZeros(shifts, n, Feed(CASTAGNOLI, c, a));
    ZerosAreSteps(CASTAGNOLI, Feed(CASTAGNOLI, c, a), n);
    Combine(CASTAGNOLI, c, a, b);
  }

  /** Checksums chain: the CRC of a concatenation continues from the CRC of its first part. */
  lemma CrcChains(poly: word, crc: word, a: seq<byte>, b: seq<byte>)
    ensures Crc(poly, Crc(poly, crc, a), b) == Crc(poly, crc, a + b)
  {
    hide Xor, Step, Steps;
    var x := Feed(poly, XorWord(crc, ONES), a);
    FeedConcat(poly, XorWord(crc, ONES), a, b);
    XorAssoc(x, ONES, ONES);
    XorZero(ONES);
    XorZero(x);
  }
}
