/** The CRC-32 of oss/crc/crc.c at its intended width of 32 bits, and the reflected form of section 8 of RFC 1952. */
module Crc {

  // ----- bit operations, named so that proofs can leave them closed -----

  function Double(x: bv32): bv32 { x << 1 }

  function Half(x: bv32): bv32 { x >> 1 }

  function Low(x: bv32): bv32 { x & 1 }

  function Or(x: bv32, y: bv32): bv32 { x | y }

  function Xor(x: bv32, y: bv32): bv32 { x ^ y }

  function Xor8(x: bv8, y: bv8): bv8 { x ^ y }

  lemma OrFacts(a: bv32, b: bv32, c: bv32)
    ensures Or(Or(a, b), c) == Or(a, Or(b, c)) && Or(a, 0) == a && Or(0, a) == a
  {
  }

  lemma DoubleFacts(x: bv32, y: bv32)
    ensures Double(Or(x, y)) == Or(Double(x), Double(y)) && Double(0) == 0
  {
  }

  // ----- shifts by a variable amount -----

  function Shl(x: bv32, k: nat): bv32
    decreases k
  {
    if k == 0 then x else Shl(Double(x), k - 1)
  }

  function Shr(x: bv32, k: nat): bv32
    decreases k
  {
    if k == 0 then x else Shr(Half(x), k - 1)
  }

  lemma {:induction false} ShlZero(k: nat)
    ensures Shl(0, k) == 0
  {
    if k > 0 { ShlZero(k - 1); }
  }

  lemma {:induction false} ShlOr(x: bv32, y: bv32, k: nat)
    ensures Shl(Or(x, y), k) == Or(Shl(x, k), Shl(y, k))
    decreases k
  {
    hide Double, Or;
    if k > 0 {
      DoubleFacts(x, y);
      ShlOr(Double(x), Double(y), k - 1);
    }
  }

  lemma {:induction false} ShlAdd(x: bv32, j: nat, k: nat)
    ensures Shl(Shl(x, j), k) == Shl(x, j + k)
    decreases j
  {
    hide Double;
    if j > 0 { ShlAdd(Double(x), j - 1, k); }
  }

  lemma {:induction false} ShrAdd(x: bv32, j: nat, k: nat)
    ensures Shr(Shr(x, j), k) == Shr(x, j + k)
    decreases j
  {
    hide Half;
    if j > 0 { ShrAdd(Half(x), j - 1, k); }
  }

  // ----- reflection -----

  /** The `n` low bits of `x` in reverse order. */
  function Reflected(x: bv32, n: nat): bv32
    decreases n
  {
    if n == 0 then 0 else Or(Shl(Low(x), n - 1), Reflected(Half(x), n - 1))
  }

  /** The loop of reflect. */
  method Reflect(data0: bv32, nBits: nat) returns (reflection: bv32)
    ensures reflection == Reflected(data0, nBits)
  {
    hide Double, Half, Low, Or, Shl;
    var data := data0;
    reflection := 0;
    OrFacts(Reflected(data0, nBits), 0, 0);
    for bit := 0 to nBits
      invariant Or(reflection, Reflected(data, nBits - bit)) == Reflected(data0, nBits)
    {
      ReflectBit(reflection, data, nBits - bit);
      if Low(data) == 1 {
        reflection := Or(reflection, Shl(1, nBits - 1 - bit));
      }
      data := Half(data);
    }
    OrFacts(reflection, 0, 0);
  }

  lemma ReflectBit(r: bv32, data: bv32, n: nat)
    requires n > 0
    ensures var r' := if Low(data) == 1 then Or(r, Shl(1, n - 1)) else r;
            Or(r', Reflected(Half(data), n - 1)) == Or(r, Reflected(data, n))
  {
    hide Double, Half, Low, Or, Shl;
    var rest := Reflected(Half(data), n - 1);
    LowBit(data);
    ShlZero(n - 1);
    OrFacts(r, Shl(1, n - 1), rest);
    OrFacts(rest, 0, 0);
  }

  lemma LowBit(x: bv32)
    ensures Low(x) == 1 || Low(x) == 0
  {
  }

  /** Reflecting piece by piece. */
  lemma {:induction false} ReflectSplit(x: bv32, n: nat, k: nat)
    ensures Reflected(x, n + k) == Or(Shl(Reflected(x, n), k), Reflected(Shr(x, n), k))
    decreases n
  {
    hide Double, Half, Low, Or, Shl;
    if n == 0 {
      ShlZero(k);
      OrFacts(Reflected(x, k), 0, 0);
    } else {
      var a, b, c := Shl(Low(x), n - 1), Reflected(Half(x), n - 1), Reflected(Shr(x, n), k);
      ReflectSplit(Half(x), n - 1, k);
      ShlOr(a, b, k);
      ShlAdd(Low(x), n - 1, k);
      OrFacts(Shl(a, k), Shl(b, k), c);
    }
  }

  // ----- reflection of 8 and of 32 bits, in closed form -----

  lemma Shift4(x: bv32)
    ensures Shl(x, 4) == x << 4 && Shr(x, 4) == x >> 4
  {
    hide Shl, Shr, Double, Half;
    Unroll4(x);
    FourTimes(x);
  }

  lemma FourTimes(x: bv32)
    ensures Double(Double(Double(Double(x)))) == x << 4 && Half(Half(Half(Half(x)))) == x >> 4
  {
  }

  lemma Unroll4(x: bv32)
    ensures Shl(x, 4) == Double(Double(Double(Double(x)))) && Shr(x, 4) == Half(Half(Half(Half(x))))
  {
    hide Double, Half;
    var a, b := Double(x), Half(x);
    assert Shl(x, 4) == Shl(a, 3) == Shl(Double(a), 2) == Shl(Double(Double(a)), 1);
    assert Shr(x, 4) == Shr(b, 3) == Shr(Half(b), 2) == Shr(Half(Half(b)), 1);
  }

  function Left4(x: bv32): bv32 { x << 4 }

  function Right4(x: bv32): bv32 { x >> 4 }

  function Left8(x: bv32): bv32 { x << 8 }

  function Right8(x: bv32): bv32 { x >> 8 }

  lemma Shift8(x: bv32)
    ensures Shl(x, 8) == Left8(x) && Shr(x, 8) == Right8(x)
  {
    ShiftNibble(x);
    ShiftNibble(Left4(x));
    ShiftNibble(Right4(x));
    Twice4(x);
    hide *;
    ShlAdd(x, 4, 4);
    ShrAdd(x, 4, 4);
  }

  lemma ShiftNibble(x: bv32)
    ensures Shl(x, 4) == Left4(x) && Shr(x, 4) == Right4(x)
  {
    hide Shl, Shr;
    Shift4(x);
  }

  lemma Twice4(x: bv32)
    ensures Left4(Left4(x)) == Left8(x) && Right4(Right4(x)) == Right8(x)
  {
  }

  lemma Shift16(x: bv32)
    ensures Shl(x, 16) == x << 16 && Shr(x, 16) == x >> 16
  {
    hide Shl, Shr, Left8, Right8;
    ShlAdd(x, 8, 8);
    ShrAdd(x, 8, 8);
    Shift8(x);
    Shift8(Left8(x));
    Shift8(Right8(x));
    Twice8(x);
  }

  lemma Twice8(x: bv32)
    ensures Left8(Left8(x)) == x << 16 && Right8(Right8(x)) == x >> 16
  {
  }

  function Rev4(x: bv32): bv32 {
    ((x & 1) << 3) | ((x & 2) << 1) | ((x & 4) >> 1) | ((x & 8) >> 3)
  }

  function Rev8(x: bv32): bv32 {
    Or(Rev4(x) << 4, Rev4(x >> 4))
  }

  function Rev16(x: bv32): bv32 {
    Or(Left8(Rev8(x)), Rev8(Right8(x)))
  }

  function Rev32(x: bv32): bv32 {
    Or(Rev16(x) << 16, Rev16(x >> 16))
  }

  lemma Reflected4(x: bv32)
    ensures Reflected(x, 4) == Rev4(x)
  {
    var a := Half(x);
    Unroll4Reflected(x);
    assert Or(Double(Double(Double(Low(x)))),
        Or(Double(Double(Low(a))), Or(Double(Low(Half(a))), Or(Low(Half(Half(a))), 0)))) == Rev4(x);
    hide Reflected, Shl;
  }

  lemma Unroll4Reflected(x: bv32)
    ensures var a := Half(x);
            Reflected(x, 4) ==
            Or(Double(Double(Double(Low(x)))),
                Or(Double(Double(Low(a))), Or(Double(Low(Half(a))), Or(Low(Half(Half(a))), 0))))
  {
    hide Double, Half, Low, Or, Reflected;
    Reflected3(Half(x));
    ReflectedCons(x, 4);
    ShlSmall(Low(x));
  }

  lemma Reflected3(a: bv32)
    ensures Reflected(a, 3) == Or(Double(Double(Low(a))), Or(Double(Low(Half(a))), Or(Low(Half(Half(a))), 0)))
  {
    hide Double, Half, Low, Or, Reflected;
    ReflectedCons(Half(Half(a)), 1);
    ReflectedCons(Half(a), 2);
    ReflectedCons(a, 3);
    ShlSmall(Low(a));
    ShlSmall(Low(Half(a)));
    ShlSmall(Low(Half(Half(a))));
  }

  lemma ReflectedCons(x: bv32, n: nat)
    requires n > 0
    ensures Reflected(x, n) == Or(Shl(Low(x), n - 1), Reflected(Half(x), n - 1)) && Reflected(x, 0) == 0
    ensures Reflected(Half(x), 0) == 0
  {
    hide Double, Half, Low, Or, Shl;
  }

  lemma ShlSmall(x: bv32)
    ensures Shl(x, 0) == x && Shl(x, 1) == Double(x) && Shl(x, 2) == Double(Double(x))
    ensures Shl(x, 3) == Double(Double(Double(x)))
  {
    hide Double;
    assert Shl(Double(x), 2) == Shl(Double(Double(x)), 1);
  }

  lemma Reflected8(x: bv32)
    ensures Reflected(x, 8) == Rev8(x)
  {
    hide Shl, Shr, Reflected, Rev4, Or;
    ReflectSplit(x, 4, 4);
    Shift4(x);
    Reflected4(x);
    Reflected4(x >> 4);
    Shift4(Rev4(x));
  }

  lemma Reflected16(x: bv32)
    ensures Reflected(x, 16) == Rev16(x)
  {
    hide Shl, Shr, Reflected, Rev8, Or, Left8, Right8;
    ReflectSplit(x, 8, 8);
    Shift8(x);
    Reflected8(x);
    Reflected8(Right8(x));
    Shift8(Rev8(x));
  }

  lemma Reflected32(x: bv32)
    ensures Reflected(x, 32) == Rev32(x)
  {
    hide Shl, Shr, Reflected, Rev16, Or;
    ReflectSplit(x, 16, 16);
    Shift16(x);
    Reflected16(x);
    Reflected16(x >> 16);
    Shift16(Rev16(x));
  }

  /** Reflecting twice changes nothing. */
  lemma ReflectTwice(x: bv32)
    ensures Reflected(Reflected(x, 32), 32) == x
  {
    hide Reflected, Rev32;
    Reflected32(x);
    Reflected32(Rev32(x));
    RevTwice(x);
  }

  lemma RevTwice(x: bv32)
    ensures Rev32(Rev32(x)) == x
  {
  }

  // ----- modulo-2 division -----

  predicate TopBit(x: bv32) { x & 0x80000000 != 0 }

  function Step(r: bv32): bv32 {
    if TopBit(r) then Xor(Double(r), 0x04C11DB7) else Double(r)
  }

  function Steps(r: bv32, k: nat): bv32
    decreases k
  {
    if k == 0 then r else Steps(Step(r), k - 1)
  }

  function Top(b: bv8): bv32 {
    (b as bv32) << 24
  }

  /** Dividing one byte in, bit by bit; the byte is already reflected. */
  function Divide(r: bv32, b: bv8): bv32 {
    Steps(Xor(r, Top(b)), 8)
  }

  function Entry(d: bv8): bv32 {
    Steps(Top(d), 8)
  }

  function High(r: bv32): bv8 {
    (r >> 24) as bv8
  }

  /** Division is linear. */
  lemma StepXor(x: bv32, y: bv32)
    ensures Step(Xor(x, y)) == Xor(Step(x), Step(y))
  {
    hide TopBit, Double, Xor;
    TopXor(x, y);
    DoubleXor(x, y);
    XorCancel(Double(x), Double(y), 0x04C11DB7);
    XorMove(Double(x), Double(y), 0x04C11DB7);
    XorAssoc(Double(x), Double(y), 0x04C11DB7);
  }

  lemma TopXor(x: bv32, y: bv32)
    ensures TopBit(Xor(x, y)) <==> TopBit(x) != TopBit(y)
  {
  }

  lemma DoubleXor(x: bv32, y: bv32)
    ensures Double(Xor(x, y)) == Xor(Double(x), Double(y)) && Half(Xor(x, y)) == Xor(Half(x), Half(y))
  {
  }

  lemma XorCancel(a: bv32, b: bv32, p: bv32)
    ensures Xor(Xor(a, p), Xor(b, p)) == Xor(a, b)
  {
    calc {
      Xor(Xor(a, p), Xor(b, p));
      (a ^ p) ^ (b ^ p);
      a ^ b;
    }
  }

  lemma XorMove(a: bv32, b: bv32, p: bv32)
    ensures Xor(Xor(a, p), b) == Xor(Xor(a, b), p)
  {
    calc {
      Xor(Xor(a, p), b);
      (a ^ p) ^ b;
      (a ^ b) ^ p;
    }
  }

  lemma XorAssoc(a: bv32, b: bv32, p: bv32)
    ensures Xor(a, Xor(b, p)) == Xor(Xor(a, b), p)
  {
  }

  lemma {:induction false} StepsXor(x: bv32, y: bv32, k: nat)
    ensures Steps(Xor(x, y), k) == Xor(Steps(x, k), Steps(y, k))
    decreases k
  {
    hide Step, Xor;
    if k > 0 {
      StepXor(x, y);
      StepsXor(Step(x), Step(y), k - 1);
    }
  }

  lemma {:induction false} StepsAdd(x: bv32, j: nat, k: nat)
    ensures Steps(x, j + k) == Steps(Steps(x, j), k)
    decreases j
  {
    hide Step;
    if j > 0 { StepsAdd(Step(x), j - 1, k); }
  }

  /** While the top bits are clear, a step is a shift. */
  lemma Steps8Low(x: bv32)
    requires x & 0xFF000000 == 0
    ensures Steps(x, 8) == x << 8
  {
    StepsAdd(x, 4, 4);
    FourSteps(x);
    FourSteps(x << 4);
    hide Steps;
    assert (x << 4) << 4 == x << 8 && (x << 4) & 0xF0000000 == 0 && x & 0xF0000000 == 0;
  }

  lemma FourSteps(x: bv32)
    ensures Steps(x, 4) == Step(Step(Step(Step(x))))
    ensures x & 0xF0000000 == 0 ==> Steps(x, 4) == x << 4
  {
    UnrollSteps(x);
    FourShifts(x);
    hide Steps, Step;
  }

  lemma UnrollSteps(x: bv32)
    ensures Steps(x, 4) == Step(Step(Step(Step(x))))
  {
    hide Step;
    assert Steps(x, 4) == Steps(Step(x), 3) == Steps(Step(Step(x)), 2) == Steps(Step(Step(Step(x))), 1);
  }

  lemma FourShifts(x: bv32)
    ensures x & 0xF0000000 == 0 ==> Step(Step(Step(Step(x)))) == x << 4
  {
    if x & 0xF0000000 == 0 {
      var a := Double(x);
      var b := Double(a);
      assert !TopBit(x) && !TopBit(a) && !TopBit(b) && !TopBit(Double(b)) by {
        assert (x << 1) & 0x80000000 == 0 && ((x << 1) << 1) & 0x80000000 == 0;
        assert (((x << 1) << 1) << 1) & 0x80000000 == 0;
      }
      FourTimes(x);
      hide TopBit, Double;
    }
  }

  /** The table lookup does what eight steps of division do. */
  lemma LookupDivides(r: bv32, b: bv8)
    ensures Divide(r, b) == Xor(Entry(Xor8(b, High(r))), Left8(r))
  {
    hide Steps, Xor, Xor8, Top, High;
    var low := r & 0x00FFFFFF;
    SplitWord(r, b);
    StepsXor(Top(Xor8(b, High(r))), low, 8);
    Steps8Low(low);
  }

  lemma SplitWord(r: bv32, b: bv8)
    ensures Xor(r, Top(b)) == Xor(Top(Xor8(b, High(r))), r & 0x00FFFFFF)
    ensures (r & 0x00FFFFFF) & 0xFF000000 == 0 && (r & 0x00FFFFFF) << 8 == r << 8
  {
  }

  // ----- the algorithms -----

  function Word(b: bv8): bv32 { b as bv32 }

  function Byte(x: bv32): bv8 { (x & 0xFF) as bv8 }

  function Reflect8(b: bv8): bv8 {
    Byte(Reflected(Word(b), 8))
  }

  /** The remainder after dividing the message in. */
  function Remainder(message: seq<bv8>): bv32 {
    if message == [] then 0xFFFFFFFF
    else Divide(Remainder(message[..|message|-1]), Reflect8(message[|message|-1]))
  }

  /** The inner loop of crcSlow and crcinit. */
  method DivideBits(r0: bv32) returns (r: bv32)
    ensures r == Steps(r0, 8)
  {
    hide TopBit, Double, Xor;
    r := r0;
    var bit := 8;
    while bit > 0
      invariant 0 <= bit <= 8 && Steps(r, bit) == Steps(r0, 8)
    {
      if TopBit(r) {
        r := Xor(Double(r), 0x04C11DB7);
      } else {
        r := Double(r);
      }
      bit := bit - 1;
    }
  }

  method CrcSlow(message: seq<bv8>) returns (crc: bv32)
    ensures crc == Xor(Reflected(Remainder(message), 32), 0xFFFFFFFF) == Rfc1952(message)
  {
    SlowIsRfc(message);
    hide Steps, Xor, Top, Reflected, Rfc1952, Word, Byte;
    var remainder: bv32 := 0xFFFFFFFF;
    for byte := 0 to |message|
      invariant remainder == Remainder(message[..byte])
    {
      var data := Reflect(Word(message[byte]), 8);
      remainder := DivideBits(Xor(remainder, Top(Byte(data))));
      assert message[..byte + 1][..byte] == message[..byte];
    }
    assert message[..|message|] == message;
    var r := Reflect(remainder, 32);
    crc := Xor(r, 0xFFFFFFFF);
  }

  ghost predicate TableOk(table: array<bv32>)
    reads table
  {
    table.Length == 256 && forall d: bv8 :: table[d as int] == Entry(d)
  }

  method CrcInit(table: array<bv32>)
    requires table.Length == 256
    modifies table
    ensures TableOk(table)
  {
    hide Steps, Top;
    for dividend := 0 to 256
      invariant forall d: bv8 :: d as int < dividend ==> table[d as int] == Entry(d)
    {
      var r := DivideBits(Top(dividend as bv8));
      table[dividend] := r;
      forall d: bv8 ensures d as int <= dividend ==> table[d as int] == Entry(d) {
        if d as int == dividend { SameByte(d, dividend); }
      }
    }
  }

  lemma Lookup(table: array<bv32>, d: bv8)
    requires TableOk(table)
    ensures 0 <= d as int < table.Length && table[d as int] == Entry(d)
  {
  }

  lemma SameByte(d: bv8, i: int)
    requires 0 <= i < 256 && d as int == i
    ensures d == i as bv8
  {
  }

  method CrcFast(message: seq<bv8>, table: array<bv32>) returns (crc: bv32)
    requires TableOk(table)
    ensures crc == Xor(Reflected(Remainder(message), 32), 0xFFFFFFFF) == Rfc1952(message)
  {
    SlowIsRfc(message);
    hide Steps, Xor, Xor8, Top, Reflected, High, Divide, Entry, Rfc1952, Word, Byte, Left8, TableOk;
    var remainder: bv32 := 0xFFFFFFFF;
    for byte := 0 to |message|
      invariant remainder == Remainder(message[..byte])
    {
      var d := Reflect(Word(message[byte]), 8);
      var data := Xor8(Byte(d), High(remainder));
      LookupDivides(remainder, Byte(d));
      Lookup(table, data);
      remainder := Xor(table[data as int], Left8(remainder));
      assert message[..byte + 1][..byte] == message[..byte];
    }
    assert message[..|message|] == message;
    var r := Reflect(remainder, 32);
    crc := Xor(r, 0xFFFFFFFF);
  }

  // ----- section 8 of RFC 1952 -----

  function RfcStep(c: bv32): bv32 {
    if Low(c) == 1 then Xor(0xEDB88320, Half(c)) else Half(c)
  }

  function RfcSteps(c: bv32, k: nat): bv32
    decreases k
  {
    if k == 0 then c else RfcSteps(RfcStep(c), k - 1)
  }

  function RfcUpdate(c: bv32, buf: seq<bv8>): bv32 {
    if buf == [] then c
    else RfcByte(RfcUpdate(c, buf[..|buf|-1]), buf[|buf|-1])
  }

  function RfcByte(c: bv32, b: bv8): bv32 {
    Xor(RfcSteps((c ^ (b as bv32)) & 0xFF, 8), Right8(c))
  }

  function Rfc1952(buf: seq<bv8>): bv32 {
    Xor(RfcUpdate(0xFFFFFFFF, buf), 0xFFFFFFFF)
  }

  /** Reflection turns a step of one division into a step of the other. */
  lemma RevStep(x: bv32)
    ensures Rev32(Step(x)) == RfcStep(Rev32(x))
  {
    hide TopBit, Double, Half, Low, Xor, Rev32;
    RevTop(x);
    RevDouble(x);
    RevXor(Double(x), 0x04C11DB7);
    RevPoly();
    LowBit(Rev32(x));
    XorComm(Half(Rev32(x)), 0xEDB88320);
  }

  /** The same permutation of bits as a network of swaps. */
  function Swap1(x: bv32): bv32 { ((x >> 1) & 0x55555555) | ((x & 0x55555555) << 1) }

  function Swap2(x: bv32): bv32 { ((x >> 2) & 0x33333333) | ((x & 0x33333333) << 2) }

  function Swap4(x: bv32): bv32 { ((x >> 4) & 0x0F0F0F0F) | ((x & 0x0F0F0F0F) << 4) }

  function Swap8(x: bv32): bv32 { ((x >> 8) & 0x00FF00FF) | ((x & 0x00FF00FF) << 8) }

  function Swap16(x: bv32): bv32 { (x >> 16) | (x << 16) }

  function Network(x: bv32): bv32 {
    Swap16(Swap8(Swap4(Swap2(Swap1(x)))))
  }

  lemma NetworkRev(x: bv32)
    ensures Rev32(x) == Network(x)
  {
  }

  function Network1(x: bv32): bv32 {
    var a := ((x >> 1) & 0x55555555) | ((x & 0x55555555) << 1);
    var b := ((a >> 2) & 0x33333333) | ((a & 0x33333333) << 2);
    var c := ((b >> 4) & 0x0F0F0F0F) | ((b & 0x0F0F0F0F) << 4);
    var d := ((c >> 8) & 0x00FF00FF) | ((c & 0x00FF00FF) << 8);
    (d >> 16) | (d << 16)
  }

  lemma NetworkSame(x: bv32)
    ensures Network(x) == Network1(x)
  {
  }

  lemma Network1Shift(x: bv32)
    ensures Network1(x << 1) == Network1(x) >> 1
  {
  }

  lemma NetworkShift(x: bv32)
    ensures Network(Double(x)) == Half(Network(x))
  {
    hide Network, Network1;
    NetworkSame(x);
    NetworkSame(Double(x));
    Network1Shift(x);
  }

  lemma Swap1Xor(x: bv32, y: bv32)
    ensures Swap1(Xor(x, y)) == Xor(Swap1(x), Swap1(y))
  {
  }

  lemma Swap2Xor(x: bv32, y: bv32)
    ensures Swap2(Xor(x, y)) == Xor(Swap2(x), Swap2(y))
  {
  }

  lemma Swap4Xor(x: bv32, y: bv32)
    ensures Swap4(Xor(x, y)) == Xor(Swap4(x), Swap4(y))
  {
  }

  lemma Swap8Xor(x: bv32, y: bv32)
    ensures Swap8(Xor(x, y)) == Xor(Swap8(x), Swap8(y))
  {
  }

  lemma Swap16Xor(x: bv32, y: bv32)
    ensures Swap16(Xor(x, y)) == Xor(Swap16(x), Swap16(y))
  {
  }

  lemma NetworkXor(x: bv32, y: bv32)
    ensures Network(Xor(x, y)) == Xor(Network(x), Network(y))
  {
    hide Swap1, Swap2, Swap4, Swap8, Swap16, Xor;
    var x1, y1 := Swap1(x), Swap1(y);
    var x2, y2 := Swap2(x1), Swap2(y1);
    var x3, y3 := Swap4(x2), Swap4(y2);
    Swap1Xor(x, y);
    Swap2Xor(x1, y1);
    Swap4Xor(x2, y2);
    Swap8Xor(x3, y3);
    Swap16Xor(Swap8(x3), Swap8(y3));
  }

  lemma RevTop(x: bv32)
    ensures TopBit(x) <==> Low(Rev32(x)) == 1
  {
  }

  lemma RevDouble(x: bv32)
    ensures Rev32(Double(x)) == Half(Rev32(x))
  {
    hide Rev32, Network, Double, Half;
    NetworkRev(x);
    NetworkRev(Double(x));
    NetworkShift(x);
  }

  lemma RevXor(x: bv32, y: bv32)
    ensures Rev32(Xor(x, y)) == Xor(Rev32(x), Rev32(y))
  {
    hide Rev32, Network, Xor;
    NetworkRev(x);
    NetworkRev(y);
    NetworkRev(Xor(x, y));
    NetworkXor(x, y);
  }

  lemma RevPoly()
    ensures Rev32(0x04C11DB7) == 0xEDB88320 && Rev32(0xFFFFFFFF) == 0xFFFFFFFF
  {
  }

  lemma XorComm(a: bv32, b: bv32)
    ensures Xor(a, b) == Xor(b, a)
  {
  }

  lemma {:induction false} RevSteps(x: bv32, k: nat)
    ensures Rev32(Steps(x, k)) == RfcSteps(Rev32(x), k)
    decreases k
  {
    hide Step, RfcStep, Rev32;
    if k > 0 {
      RevStep(x);
      RevSteps(Step(x), k - 1);
    }
  }

  lemma RfcStepXor(x: bv32, y: bv32)
    ensures RfcStep(Xor(x, y)) == Xor(RfcStep(x), RfcStep(y))
  {
    hide Low, Half, Xor;
    LowXor(x, y);
    DoubleXor(x, y);
    LowBit(x);
    LowBit(y);
    LowBit(Xor(x, y));
    var a, b, p: bv32 := Half(x), Half(y), 0xEDB88320;
    XorComm(a, p);
    XorComm(b, p);
    XorComm(Xor(a, b), p);
    XorCancel(a, b, p);
    XorMove(a, b, p);
    XorAssoc(a, b, p);
  }

  lemma LowXor(x: bv32, y: bv32)
    ensures Low(Xor(x, y)) == 1 <==> (Low(x) == 1) != (Low(y) == 1)
  {
  }

  lemma {:induction false} RfcStepsXor(x: bv32, y: bv32, k: nat)
    ensures RfcSteps(Xor(x, y), k) == Xor(RfcSteps(x, k), RfcSteps(y, k))
    decreases k
  {
    hide RfcStep, Xor;
    if k > 0 {
      RfcStepXor(x, y);
      RfcStepsXor(RfcStep(x), RfcStep(y), k - 1);
    }
  }

  /** The table form of RFC 1952 is eight steps on the whole register. */
  lemma RfcByteSteps(c: bv32, b: bv8)
    ensures RfcByte(c, b) == RfcSteps(Xor(c, b as bv32), 8)
  {
    hide RfcSteps, Xor, Right8;
    var low, high := (c ^ (b as bv32)) & 0xFF, c & 0xFFFFFF00;
    RfcSplit(c, b);
    RfcStepsXor(low, high, 8);
    RfcHigh(high);
  }

  lemma RfcSplit(c: bv32, b: bv8)
    ensures Xor(c, b as bv32) == Xor((c ^ (b as bv32)) & 0xFF, c & 0xFFFFFF00)
    ensures (c & 0xFFFFFF00) & 0xFF == 0 && Right8(c & 0xFFFFFF00) == Right8(c)
  {
  }

  lemma RfcHigh(x: bv32)
    requires x & 0xFF == 0
    ensures RfcSteps(x, 8) == Right8(x)
  {
    RfcFour(x);
    RfcFour(Right4(x));
    Twice4(x);
    assert x & 0xF == 0 && Right4(x) & 0xF == 0;
    hide *;
    RfcStepsAdd(x, 4, 4);
  }

  lemma {:induction false} RfcStepsAdd(x: bv32, j: nat, k: nat)
    ensures RfcSteps(x, j + k) == RfcSteps(RfcSteps(x, j), k)
    decreases j
  {
    hide RfcStep;
    if j > 0 { RfcStepsAdd(RfcStep(x), j - 1, k); }
  }

  lemma RfcFour(x: bv32)
    ensures x & 0xF == 0 ==> RfcSteps(x, 4) == Right4(x)
  {
    if x & 0xF == 0 {
      RfcShifts(x);
      hide RfcStep, Right4;
      assert RfcSteps(x, 4) == RfcSteps(RfcStep(x), 3) == RfcSteps(RfcStep(RfcStep(x)), 2) ==
          RfcSteps(RfcStep(RfcStep(RfcStep(x))), 1);
    }
  }

  lemma RfcShifts(x: bv32)
    requires x & 0xF == 0
    ensures RfcStep(RfcStep(RfcStep(RfcStep(x)))) == Right4(x)
  {
    var a := Half(x);
    var b := Half(a);
    assert Low(x) == 0 && Low(a) == 0 && Low(b) == 0 && Low(Half(b)) == 0 by {
      assert x & 1 == 0 && (x >> 1) & 1 == 0 && ((x >> 1) >> 1) & 1 == 0 && (((x >> 1) >> 1) >> 1) & 1 == 0;
    }
    FourTimes(x);
    hide Low, Half;
  }

  /** Dividing a reflected byte in is, seen in the mirror, the update of RFC 1952. */
  lemma RevDivide(r: bv32, b: bv8)
    ensures Rev32(Divide(r, Reflect8(b))) == RfcByte(Rev32(r), b)
  {
    hide Steps, RfcSteps, Xor, Top, Rev32, Reflect8, RfcByte;
    RevSteps(Xor(r, Top(Reflect8(b))), 8);
    RevXor(r, Top(Reflect8(b)));
    RevByte(b);
    RfcByteSteps(Rev32(r), b);
  }

  lemma RevByte(b: bv8)
    ensures Rev32(Top(Reflect8(b))) == b as bv32
  {
    hide Reflected, Rev32, Rev8, Top, Byte, Word;
    Reflected8(Word(b));
    RevRaw(b);
  }

  lemma RevRaw(b: bv8)
    ensures Rev32(Top(Byte(Rev8(Word(b))))) == b as bv32
  {
  }

  lemma {:induction false} RevRemainder(message: seq<bv8>)
    ensures Rev32(Remainder(message)) == RfcUpdate(0xFFFFFFFF, message)
  {
    hide Rev32, Divide, RfcByte, Reflect8;
    if message == [] {
      RevPoly();
    } else {
      RevRemainder(message[..|message|-1]);
      RevDivide(Remainder(message[..|message|-1]), message[|message|-1]);
    }
  }

  /** For every message, what crcSlow computes is the CRC-32 of RFC 1952. */
  lemma SlowIsRfc(message: seq<bv8>)
    ensures Xor(Reflected(Remainder(message), 32), 0xFFFFFFFF) == Rfc1952(message)
  {
    hide Rev32, Reflected, Xor, Remainder, RfcUpdate;
    Reflected32(Remainder(message));
    RevRemainder(message);
  }

  /** What the digits from 1 to 9 make of the register, one after the other. */
  lemma Digits()
    ensures RfcByte(0xFFFFFFFF, 0x31) == 0x7C231048
    ensures RfcByte(0x7C231048, 0x32) == 0xB0ACBB32
    ensures RfcByte(0xB0ACBB32, 0x33) == 0x77B79C2D
    ensures RfcByte(0x77B79C2D, 0x34) == 0x641C1F5C
    ensures RfcByte(0x641C1F5C, 0x35) == 0x340AC5E3
    ensures RfcByte(0x340AC5E3, 0x36) == 0xF68D2C9E
    ensures RfcByte(0xF68D2C9E, 0x37) == 0xAFFC9660
    ensures RfcByte(0xAFFC9660, 0x38) == 0x651F2550
    ensures RfcByte(0x651F2550, 0x39) == 0x340BC6D9
  {
  }

  lemma Append(buf: seq<bv8>, b: bv8)
    ensures RfcUpdate(0xFFFFFFFF, buf + [b]) == RfcByte(RfcUpdate(0xFFFFFFFF, buf), b)
  {
    hide RfcByte;
    assert (buf + [b])[..|buf|] == buf;
  }

  /** The check value given with the polynomial: the CRC of the digits from 1 to 9. */
  lemma CheckValue()
    ensures Rfc1952([0x31, 0x32, 0x33, 0x34, 0x35, 0x36, 0x37, 0x38, 0x39]) == 0xCBF43926
  {
    hide RfcByte, RfcUpdate;
    Digits();
    Nothing();
    var d: seq<bv8> := [];
    Append(d, 0x31);
    d := d + [0x31];
    Append(d, 0x32);
    d := d + [0x32];
    Append(d, 0x33);
    d := d + [0x33];
    Append(d, 0x34);
    d := d + [0x34];
    Append(d, 0x35);
    d := d + [0x35];
    Append(d, 0x36);
    d := d + [0x36];
    Append(d, 0x37);
    d := d + [0x37];
    Append(d, 0x38);
    d := d + [0x38];
    Append(d, 0x39);
    d := d + [0x39];
    assert d == [0x31, 0x32, 0x33, 0x34, 0x35, 0x36, 0x37, 0x38, 0x39];
  }

  lemma Nothing()
    ensures RfcUpdate(0xFFFFFFFF, []) == 0xFFFFFFFF
  {
  }
}
