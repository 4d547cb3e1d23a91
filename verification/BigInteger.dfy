/** internal/biginteger.h: unsigned integers of at most `CAPACITY` 64-bit words, changed in place. */
module BigInteger {
  import opened Bytes
  import opened Bits
  import opened Words

  /** `kBitCount / sizeof(Type)`. */
  const CAPACITY: nat := 416

  /** The number fits, with a word to spare for the shift to spill into. */
  predicate Fits(n: nat) {
    n < Pow(BASE, CAPACITY - 1)
  }

  lemma FitsBelow(m: nat, n: nat)
    requires m <= n && Fits(n)
    ensures Fits(m) && m < Pow(BASE, CAPACITY)
  {
  }

  /** A normalised number below `BASE^n` has at most `n` words. */
  lemma CountBound(d: seq<Word>, n: nat)
    requires Normalized(d) && n > 0 && Value(d) < Pow(BASE, n)
    ensures |d| <= n
  {
    if |d| > n {
      ValueAtLeast(d);
      PowGrows(BASE, n, |d| - 1);
    }
  }

  // ---------------------------------------------------------------------------------------
  // Half words
  // ---------------------------------------------------------------------------------------

  /** Unsigned 64-bit arithmetic wraps around. */
  function Wrap(n: nat): Word {
    n % BASE
  }

  function High(w: Word): nat {
    w / HALF
  }

  function Low(w: Word): nat {
    BitAnd(w, 0xFFFF_FFFF)
  }

  lemma WrapOnce(n: nat)
    requires n < 2 * BASE
    ensures Wrap(n) == if n < BASE then n else n - BASE
  {
  }

  lemma Halves(w: Word)
    ensures w == High(w) * HALF + Low(w) && High(w) < HALF && Low(w) < HALF
    ensures Wrap(w * HALF) == Low(w) * HALF
  {
    PowersOfTwo();
    AndMask(w, 32);
    SplitNumber(w, HALF, HALF);
  }

  /** The largest product of two halves. */
  const MAX_PRODUCT: nat := 0xFFFF_FFFE_0000_0001

  lemma HalvesProduct(x: nat, y: nat)
    requires x < HALF && y < HALF
    ensures x * y <= MAX_PRODUCT && Wrap(x * y) == x * y
  {
    hide Wrap;
    MoreTimes(x, HALF - 1, y);
    WrapOnce(x * y);
  }

  lemma FourProducts(a: nat, b: nat, a0: nat, a1: nat, b0: nat, b1: nat)
    requires a == a1 * HALF + a0 && b == b1 * HALF + b0
    ensures a * b == a1 * b1 * BASE + (a0 * b1 + a1 * b0) * HALF + a0 * b0
  {
    assert a * b == a1 * HALF * b + a0 * b;
    assert a0 * b == a0 * b1 * HALF + a0 * b0;
    assert a1 * HALF * b == a1 * HALF * (b1 * HALF) + a1 * HALF * b0;
    assert a1 * HALF * (b1 * HALF) == a1 * b1 * BASE;
    assert a1 * HALF * b0 == a1 * b0 * HALF;
  }

  lemma TotalFits(a: Word, b: Word, k: Word)
    ensures a * b + k < BASE * BASE
  {
    MoreTimes(a, BASE - 1, b);
    MoreTimes(b, BASE - 1, BASE - 1);
    assert (BASE - 1) * b == b * (BASE - 1);
  }

  /** The 128-bit product from four 32-bit halves: the low and the high word of `a * b + k`. */
  method MulAdd64(a: Word, b: Word, k: Word) returns (lo: Word, hi: Word)
    ensures lo + hi * BASE == a * b + k
  {
    Halves(a);
    Halves(b);
    var a0, a1 := Low(a), High(a);
    var b0, b1 := Low(b), High(b);
    FourProducts(a, b, a0, a1, b0, b1);
    TotalFits(a, b, k);
    HalvesProduct(a0, b0);
    HalvesProduct(a0, b1);
    HalvesProduct(a1, b0);
    HalvesProduct(a1, b1);
    lo, hi := AddProducts(Wrap(a0 * b0), Wrap(a0 * b1), Wrap(a1 * b0), Wrap(a1 * b1), k);
  }

  /** The two carries of the sum: out of the middle column, and out of the low word. */
  method AddProducts(x0: Word, y1: Word, x2: Word, y3: Word, k: Word) returns (lo: Word, hi: Word)
    requires x0 <= MAX_PRODUCT && y1 <= MAX_PRODUCT && x2 <= MAX_PRODUCT && y3 <= MAX_PRODUCT
    requires y3 * BASE + (y1 + x2) * HALF + x0 + k < BASE * BASE
    ensures lo + hi * BASE == y3 * BASE + (y1 + x2) * HALF + x0 + k
  {
    hide Wrap, High, Low;
    Halves(x0);
    WrapOnce(y1 + High(x0));
    var x1, x3 := Wrap(y1 + High(x0)), y3; // stays below 2^64
    WrapOnce(x1 + x2);
    x1 := Wrap(x1 + x2);
    WrapOnce(x3 + HALF);
    if x1 < x2 {
      x3 := Wrap(x3 + HALF);
    }
    Halves(x1);
    WrapOnce(Wrap(x1 * HALF) + Low(x0));
    lo := Wrap(Wrap(x1 * HALF) + Low(x0));
    WrapOnce(x3 + High(x1));
    hi := Wrap(x3 + High(x1));
    assert lo + hi * BASE == y3 * BASE + (y1 + x2) * HALF + x0;
    WrapOnce(lo + k);
    lo := Wrap(lo + k);
    if lo < k {
      WrapOnce(hi + 1);
      hi := Wrap(hi + 1);
    }
  }

  /** One word of the multiplication by a 32-bit number. */
  method MulAdd32(digit: Word, u: nat, k: Word) returns (low: Word, carry: Word)
    requires u < HALF && k < HALF
    ensures low + carry * BASE == digit * u + k && carry < HALF
  {
    var c, d := High(digit), Low(digit);
    Halves(digit);
    HalvesProduct(u, c);
    HalvesProduct(u, d);
    SplitProduct(digit, u, c, d);
    low, carry := AddHalves(Wrap(u * c), Wrap(u * d), k);
  }

  lemma SplitProduct(digit: nat, u: nat, c: nat, d: nat)
    requires digit == c * HALF + d
    ensures digit * u == (u * c) * HALF + u * d
  {
    assert digit * u == c * HALF * u + d * u;
    assert c * HALF * u == (u * c) * HALF;
  }

  method AddHalves(uc: Word, ud: Word, k: Word) returns (low: Word, carry: Word)
    requires uc <= MAX_PRODUCT && ud <= MAX_PRODUCT && k < HALF
    ensures low + carry * BASE == uc * HALF + ud + k && carry < HALF
  {
    hide Wrap, High, Low, BitOr;
    WrapOnce(ud + k);
    var p0 := Wrap(ud + k);
    Halves(p0);
    WrapOnce(uc + High(p0));
    var p1 := Wrap(uc + High(p0));
    Halves(p1);
    JoinHalves(p1, p0);
    low := BitOr(Low(p0), Wrap(p1 * HALF));
    carry := High(p1);
  }

  lemma JoinHalves(p1: Word, p0: Word)
    ensures BitOr(Low(p0), Wrap(p1 * HALF)) == Low(p1) * HALF + Low(p0) < BASE
  {
    Halves(p0);
    Halves(p1);
    PowersOfTwo();
    OrDisjoint(Low(p1), Low(p0), 32);
    OrCommutes(Low(p0), Low(p1) * HALF);
  }

  lemma {:induction false} OrCommutes(a: nat, b: nat)
    ensures BitOr(a, b) == BitOr(b, a)
    decreases a
  {
    if a > 0 && b > 0 {
      OrCommutes(a / 2, b / 2);
    }
  }

  // ---------------------------------------------------------------------------------------
  // Steps of the loops, on the numbers they compute
  // ---------------------------------------------------------------------------------------

  /** Adding to one word, and the carry out of it. */
  lemma AddStep(d: seq<Word>, i: nat, u: Word)
    requires i < |d|
    ensures Value(d[i := Wrap(d[i] + u)]) + (if Wrap(d[i] + u) < d[i] then Pow(BASE, i + 1) else 0)
         == Value(d) + u * Pow(BASE, i)
  {
    var w, p := Wrap(d[i] + u), Pow(BASE, i);
    WrapOnce(d[i] + u);
    ValueUpdate(d, i, w);
    hide Value, Wrap;
    assert w * p == if w < d[i] then d[i] * p + u * p - BASE * p else d[i] * p + u * p by {
      AddProduct(w, d[i], u, p);
    }
  }

  lemma AddProduct(w: nat, x: nat, u: nat, p: nat)
    ensures w == x + u ==> w * p == x * p + u * p
    ensures w == x + u - BASE ==> w * p == x * p + u * p - BASE * p
  {
    assert (x + u) * p == x * p + u * p;
    assert (x + u - BASE) * p == x * p + u * p - BASE * p;
  }

  /** Multiplying one more word by `u`. */
  lemma ScaleWord(v0: nat, v1: nat, x0: nat, x1: nat, w: nat, lo: nat, hi: nat, k: nat, u: nat, p0: nat, p1: nat)
    requires v0 + k * p0 == x0 * u && lo + hi * BASE == w * u + k
    requires v1 == v0 + lo * p0 && x1 == x0 + w * p0 && p1 == BASE * p0
    ensures v1 + hi * p1 == x1 * u
  {
    assert (lo + hi * BASE) * p0 == lo * p0 + (hi * BASE) * p0;
    assert (hi * BASE) * p0 == hi * p1;
    assert (w * u + k) * p0 == (w * u) * p0 + k * p0;
    assert (w * p0) * u == (w * u) * p0;
    assert x1 * u == x0 * u + (w * p0) * u;
  }

  /** The words multiplied so far, `low`, and the carry `k` account for the product by `u`. */
  ghost predicate Multiplied(before: seq<Word>, low: seq<Word>, u: nat, k: nat) {
    |low| <= |before| && Value(low) + k * Pow(BASE, |low|) == Value(before[..|low|]) * u
  }

  lemma MultiplyStart(before: seq<Word>, u: nat)
    ensures Multiplied(before, [], u, 0)
  {
  }

  lemma MultiplyStep(before: seq<Word>, low: seq<Word>, u: Word, k: Word, lo: Word, hi: Word)
    requires |low| < |before| && Multiplied(before, low, u, k)
    requires lo + hi * BASE == before[|low|] * u + k
    ensures Multiplied(before, low + [lo], u, hi)
  {
    var i := |low|;
    ValuePrefix(before, i);
    ValueSnoc(low, lo);
    ScaleWord(Value(low), Value(low + [lo]), Value(before[..i]), Value(before[..i + 1]), before[i],
              lo, hi, k, u, Pow(BASE, i), Pow(BASE, i + 1));
  }

  lemma MultiplyEnd(before: seq<Word>, low: seq<Word>, u: nat, k: Word)
    requires |low| == |before| <= CAPACITY && Multiplied(before, low, u, k)
    requires Value(before) * u < Pow(BASE, CAPACITY)
    ensures k == 0 ==> Value(low) == Value(before) * u
    ensures k > 0 ==> Value(low + [k]) == Value(before) * u && |low| < CAPACITY
  {
    hide Value, Pow;
    assert before[..|low|] == before;
    assert Value(low) + k * Pow(BASE, |low|) == Value(before) * u;
    if k > 0 {
      ValueSnoc(low, k);
      RoomForCarry(low, k, CAPACITY);
    }
  }

  /** The last word keeps the product normalised. */
  lemma TopOfProduct(low: nat, carry: nat, w: nat, u: nat, k: nat)
    requires low + carry * BASE == w * u + k && w > 0 && u > 0 && carry == 0
    ensures low > 0
  {
    AtLeastOnce(w, u);
  }

  /** What the last carry means: there is room for it exactly when the result fits. */
  lemma RoomForCarry(d: seq<Word>, k: nat, n: nat)
    requires k > 0 && |d| <= n && Value(d) + k * Pow(BASE, |d|) < Pow(BASE, n)
    ensures |d| < n
  {
    AtLeastOnce(k, Pow(BASE, |d|));
  }

  lemma TopOfShift(d: seq<Word>, s: nat)
    requires 0 < s < 64 && |d| > 0 && d[|d| - 1] != 0 && ShiftedWord(d, s, |d|) == 0
    ensures ShiftedWord(d, s, |d| - 1) != 0
  {
    var n := |d| - 1;
    OrOfShifts(0, d[n], s);
    SplitWord(d[n], s);
    AtLeastOnce(d[n], Pow(2, s));
    ShiftedWordSum(d, s, n);
  }

  lemma {:induction false} PowOfShift(words: nat, s: nat)
    ensures Pow(2, s) * Pow(BASE, words) == Pow(2, 64 * words + s)
    decreases words
  {
    if words == 0 {
      assert Pow(BASE, 0) == 1;
    } else {
      PowersOfTwo();
      PowOfShift(words - 1, s);
      PowSum(2, 64, 64 * (words - 1) + s);
      var p, q := Pow(2, s), Pow(BASE, words - 1);
      assert p * (BASE * q) == BASE * (p * q);
    }
  }

  /** Whole-word and bit shifts together. */
  lemma ShiftValue(d: seq<Word>, offset: nat, s: nat, shifted: seq<Word>)
    requires |d| > 0 && s < 64
    requires Value(shifted) == Value(d) * Pow(2, s)
    ensures Value(Zeros(offset) + shifted) == Value(d) * Pow(2, 64 * offset + s)
  {
    ValueShifted(shifted, offset);
    PowOfShift(offset, s);
    Associate(Value(d), Pow(2, s), Pow(BASE, offset));
  }

  lemma Associate(v: nat, p: nat, q: nat)
    ensures (v * p) * q == v * (p * q)
  {
  }

  // ---------------------------------------------------------------------------------------
  // Powers of five and ten
  // ---------------------------------------------------------------------------------------

  const POW5: seq<nat> := [5, 25, 125, 625, 3125, 15625, 78125, 390625, 1953125, 9765625, 48828125, 244140625]

  lemma TableOfPowers(e: nat)
    requires 1 <= e <= 12
    ensures POW5[e - 1] == Pow(5, e)
  {
  }

  lemma PowersOfFive()
    ensures Pow(5, 13) == 1220703125 && Pow(5, 27) == 0x6765_C793_FA10_079D
  {
  }

  lemma PowTen(e: nat)
    ensures Pow(5, e) * Pow(2, e) == Pow(10, e)
  {
    PowOfProduct(5, 2, e);
  }

  /** What is left to multiply by: `n * 5^e`. */
  function ScaledBy5(n: nat, e: nat): nat {
    n * Pow(5, e)
  }

  lemma ScaledNow(n: nat, e: nat)
    ensures ScaledBy5(n, e) == n * Pow(5, e)
  {
  }

  lemma ScaledStep(n: nat, e: nat, k: nat)
    requires k <= e
    ensures ScaledBy5(n * Pow(5, k), e - k) == ScaledBy5(n, e)
    ensures n * Pow(5, k) <= ScaledBy5(n, e)
  {
    PowSum(5, k, e - k);
    var p, q := Pow(5, k), Pow(5, e - k);
    Associate(n, p, q);
    AtLeastOnce(q, n * p);
    assert q * (n * p) == (n * p) * q;
  }

  predicate AllDigits(s: seq<Byte>) {
    forall c <- s :: IsDigit(c)
  }

  lemma {:induction false} DecimalConcat(a: seq<Byte>, b: seq<Byte>)
    requires AllDigits(a) && AllDigits(b)
    ensures Decimal(a) >= 0 && Decimal(b) >= 0
    ensures Decimal(a + b) == Decimal(a) * Pow(10, |b|) + Decimal(b)
    decreases |a| + |b|
  {
    if b == [] {
      assert a + b == a;
      DecimalIsNotNegative(a);
      assert Pow(10, 0) == 1;
    } else {
      var n := |b| - 1;
      assert (a + b)[..|a + b| - 1] == a + b[..n];
      assert IsDigit(b[n]);
      DecimalConcat(a, b[..n]);
      assert Decimal(a + b) == Decimal(a + b[..n]) * 10 + (b[n] as int - 48);
      assert Decimal(b) == Decimal(b[..n]) * 10 + (b[n] as int - 48);
      assert Pow(10, |b|) == 10 * Pow(10, n);
      hide Decimal, Pow;
      TimesTen(Decimal(a), Pow(10, n));
    }
  }

  lemma TimesTen(x: int, p: nat)
    ensures (x * p) * 10 == x * (10 * p)
  {
  }

  lemma {:induction false} DecimalIsNotNegative(a: seq<Byte>)
    requires AllDigits(a)
    ensures Decimal(a) >= 0
    decreases |a|
  {
    if a != [] {
      DecimalIsNotNegative(a[..|a| - 1]);
      assert IsDigit(a[|a| - 1]);
    }
  }

  lemma {:induction false} DecimalBound(s: seq<Byte>)
    requires AllDigits(s)
    ensures 0 <= Decimal(s) < Pow(10, |s|)
  {
    if s != [] {
      DecimalBound(s[..|s| - 1]);
      assert IsDigit(s[|s| - 1]);
    }
  }

  lemma NineteenDigitsFit()
    ensures Pow(10, 19) <= BASE
  {
    assert Pow(10, 9) == 1_000_000_000;
    assert Pow(10, 10) == 10_000_000_000;
    PowSum(10, 9, 10);
  }

  // ---------------------------------------------------------------------------------------
  // Where a shift writes
  // ---------------------------------------------------------------------------------------

  /** What `memmove` and `memset` write: `n` words from `from` on. */
  function Upwards(from: nat, n: nat): seq<nat> {
    seq(n, j requires 0 <= j < n => from + j)
  }

  /** What the loop of a bit shift writes, from the top word down. */
  function Downwards(i: nat, offset: nat): seq<nat> {
    if i == 0 then [] else [i + offset] + Downwards(i - 1, offset)
  }

  /** All the indices that a shift of a number of `count` words writes, in order. */
  function ShiftWrites(count: nat, shift: nat): seq<nat> {
    var offset := shift / 64;
    (if shift % 64 == 0 then Upwards(offset, count) else [count] + Downwards(count, offset) + [offset])
    + Upwards(0, offset)
  }

  predicate AllBelow(writes: seq<nat>, limit: nat) {
    forall w <- writes :: w < limit
  }

  /** Of `all` writes those before the first past the end were made: all of them when `ok`. */
  predicate AsFarAsFits(all: seq<nat>, made: seq<nat>, ok: bool) {
    && made <= all && AllBelow(made, CAPACITY)
    && if ok then made == all else |made| < |all| && all[|made|] >= CAPACITY
  }

  /** The loop of a bit shift has made the writes `made`, and is at word `i`. */
  predicate WritesLeft(all: seq<nat>, made: seq<nat>, i: nat, offset: nat) {
    all == made + (Downwards(i, offset) + [offset]) && AllBelow(made, CAPACITY)
  }

  lemma WritesBegin(count: nat, offset: nat)
    ensures var all := [count] + Downwards(count, offset) + [offset];
            if count < CAPACITY then WritesLeft(all, [count], count, offset) else AsFarAsFits(all, [], false)
  {
    assert [count] + Downwards(count, offset) + [offset] == [count] + (Downwards(count, offset) + [offset]);
  }

  lemma WritesNext(all: seq<nat>, made: seq<nat>, i: nat, offset: nat)
    requires i > 0 && WritesLeft(all, made, i, offset)
    ensures if i + offset < CAPACITY then WritesLeft(all, made + [i + offset], i - 1, offset)
            else AsFarAsFits(all, made, false)
  {
    assert all == made + [i + offset] + (Downwards(i - 1, offset) + [offset]);
  }

  lemma WritesEnd(all: seq<nat>, made: seq<nat>, offset: nat)
    requires offset < CAPACITY && WritesLeft(all, made, 0, offset)
    ensures AsFarAsFits(all, made + [offset], true)
  {
  }

  /** Whether there is room: a word more than the source's assertion asks for, unless whole words are shifted. */
  predicate RoomToShift(count: nat, shift: nat) {
    if shift % 64 == 0 then count + shift / 64 <= CAPACITY else count + shift / 64 < CAPACITY
  }

  lemma {:induction false} DownwardsBound(i: nat, offset: nat)
    ensures AllBelow(Downwards(i, offset), i + offset + 1)
    ensures i > 0 ==> i + offset in Downwards(i, offset)
  {
    if i > 0 {
      DownwardsBound(i - 1, offset);
    }
  }

  /** The highest index a shift writes, by the loop or by `memmove`. */
  lemma HighestShiftWrite(count: nat, shift: nat) returns (highest: nat)
    requires count > 0 && shift > 0
    ensures highest == count + shift / 64 - if shift % 64 == 0 then 1 else 0
    ensures highest in ShiftWrites(count, shift) && AllBelow(ShiftWrites(count, shift), highest + 1)
  {
    var offset := shift / 64;
    if shift % 64 == 0 {
      highest := count + offset - 1;
      assert Upwards(offset, count)[count - 1] == highest;
    } else {
      highest := count + offset;
      DownwardsBound(count, offset);
    }
  }

  lemma WholeWrites(count: nat, shift: nat)
    requires count > 0 && shift % 64 == 0 && count + shift / 64 <= CAPACITY
    ensures AsFarAsFits(ShiftWrites(count, shift), Upwards(shift / 64, count) + Upwards(0, shift / 64), true)
  {
  }

  lemma BitWrites(count: nat, shift: nat, loop: seq<nat>, ok: bool)
    requires shift % 64 != 0 && (ok ==> count + shift / 64 < CAPACITY)
    requires AsFarAsFits([count] + Downwards(count, shift / 64) + [shift / 64], loop, ok)
    ensures AsFarAsFits(ShiftWrites(count, shift), if ok then loop + Upwards(0, shift / 64) else loop, ok)
  {
    var all := [count] + Downwards(count, shift / 64) + [shift / 64];
    hide Downwards;
    assert ShiftWrites(count, shift) == all + Upwards(0, shift / 64);
    assert (all + Upwards(0, shift / 64))[..|all|] == all;
  }

  /** Every write is within the array exactly when there is room. */
  lemma ShiftIsInBoundsIff(count: nat, shift: nat)
    requires count > 0 && shift > 0
    ensures AllBelow(ShiftWrites(count, shift), CAPACITY) <==> RoomToShift(count, shift)
  {
    var highest := HighestShiftWrite(count, shift);
    hide ShiftWrites;
  }

  /** A number of all 416 words shifted by one bit: the assertion holds, and `digits_[416]` is written. */
  lemma ShiftOverrunExample()
    ensures 416 + 1 / 64 <= CAPACITY && 416 in ShiftWrites(416, 1) && !AllBelow(ShiftWrites(416, 1), CAPACITY)
  {
    var highest := HighestShiftWrite(416, 1);
    hide ShiftWrites;
  }

  // ---------------------------------------------------------------------------------------
  // The class
  // ---------------------------------------------------------------------------------------

  class BigInteger {
    const digits: array<Word>
    var count: nat

    ghost predicate Valid()
      reads this, digits
    {
      digits.Length == CAPACITY && 1 <= count <= CAPACITY && Normalized(digits[..count])
    }

    ghost function Number(): nat
      requires Valid()
      reads this, digits
    {
      Value(digits[..count])
    }

    constructor FromWord(u: Word)
      ensures Valid() && fresh(digits) && Number() == u
    {
      digits := new Word[CAPACITY];
      count := 1;
      new;
      digits[0] := u;
      ValueOne(u);
      assert digits[..1] == [u];
    }

    /** From decimals: nineteen digits at a time, then the rest. */
    constructor FromDecimals(s: seq<Byte>)
      requires |s| > 0 && AllDigits(s) && Decimal(s) >= 0 && Fits(Decimal(s))
      ensures Valid() && fresh(digits) && Number() == Decimal(s)
    {
      digits := new Word[CAPACITY];
      count := 1;
      new;
      hide Value, Fits, Pow;
      digits[0] := 0;
      ValueOne(0);
      assert digits[..1] == [0];
      var length, i := |s|, 0;
      assert Decimal(s[..0]) == 0;
      hide Decimal;
      while length >= 19
        invariant length + i == |s| && 0 <= i && 0 <= length
        invariant Valid() && fresh(digits) && Number() == Decimal(s[..i])
      {
        DecimalChunk(s, i, 19);
        AppendDecimal64(s[i..i + 19]);
        length := length - 19;
        i := i + 19;
      }
      assert s[..i + length] == s;
      if length > 0 {
        DecimalChunk(s, i, length);
        AppendDecimal64(s[i..i + length]);
      }
    }

    method AssignWord(u: Word)
      requires Valid()
      modifies this, digits
      ensures Valid() && Number() == u
    {
      digits[0] := u;
      count := 1;
      ValueOne(u);
      assert digits[..1] == [u];
    }

    method IsZero() returns (zero: bool)
      requires Valid()
      ensures zero <==> Number() == 0
    {
      zero := count == 1 && digits[0] == 0;
      if count == 1 {
        ValueOne(digits[0]);
        assert digits[..1] == [digits[0]];
      } else {
        ValueAtLeast(digits[..count]);
      }
    }

    /** `operator==(Type)`. */
    method IsWord(u: Word) returns (same: bool)
      requires Valid()
      ensures same <==> Number() == u
    {
      same := count == 1 && digits[0] == u;
      if count == 1 {
        ValueOne(digits[0]);
        assert digits[..1] == [digits[0]];
      } else {
        ValueAtLeast(digits[..count]);
        PowGrows(BASE, 1, count - 1);
        assert Pow(BASE, 1) == BASE;
      }
    }

    method PushBack(digit: Word)
      requires digits.Length == CAPACITY && count < CAPACITY
      modifies this, digits
      ensures count == old(count) + 1 && digits[..count] == old(digits[..count]) + [digit]
    {
      digits[count] := digit;
      count := count + 1;
    }

    /** `operator+=`. */
    method Add(u: Word)
      requires Valid() && Number() + u < Pow(BASE, CAPACITY)
      modifies this, digits
      ensures Valid() && Number() == old(Number()) + u
    {
      hide Value, Pow, Wrap;
      ghost var before := digits[..count];
      var backup := digits[0];
      AddStep(before, 0, u);
      PowZero();
      digits[0] := Wrap(digits[0] + u);
      assert digits[..count] == before[0 := Wrap(before[0] + u)];
      var i := 0;
      while i < count - 1
        invariant 0 <= i <= count - 1 && count == old(count)
        invariant backup == before[i]
        invariant forall j | i < j < count :: digits[j] == before[j]
        invariant Value(digits[..count]) + (if digits[i] < backup then Pow(BASE, i + 1) else 0) == Value(before) + u
      {
        if digits[i] >= backup {
          return; // the sum fitted its word
        }
        backup := digits[i + 1];
        ghost var now := digits[..count];
        AddStep(now, i + 1, 1);
        digits[i + 1] := Wrap(backup as nat + 1);
        assert digits[..count] == now[i + 1 := digits[i + 1]];
        i := i + 1;
      }
      // Out of the top word
      if digits[count - 1] < backup {
        ghost var now := digits[..count];
        RoomForCarry(now, 1, CAPACITY);
        ValueSnoc(now, 1);
        PushBack(1);
      }
    }

    /** `operator*=(uint64_t)`. */
    method Multiply64(u: Word)
      requires Valid() && Number() * u < Pow(BASE, CAPACITY)
      modifies this, digits
      ensures Valid() && Number() == old(Number()) * u
    {
      hide Value, Pow;
      if u == 0 {
        AssignWord(0);
        return;
      }
      if u == 1 {
        return;
      }
      var one := IsWord(1);
      if one {
        AssignWord(u);
        return;
      }
      hide Multiplied;
      ghost var before := digits[..count];
      MultiplyStart(before, u);
      var k: Word := 0;
      var i := 0;
      assert digits[..0] == [];
      while i < count
        invariant 0 <= i <= count == old(count)
        invariant forall j | i <= j < count :: digits[j] == before[j]
        invariant Multiplied(before, digits[..i], u, k)
        invariant i > 0 && before[i - 1] != 0 && k == 0 ==> digits[i - 1] != 0
      {
        var lo, hi := MulAdd64(digits[i], u, k);
        MultiplyStep(before, digits[..i], u, k, lo, hi);
        ghost var below := digits[..i];
        digits[i] := lo;
        assert digits[..i + 1] == below + [lo];
        if before[i] != 0 && hi == 0 {
          TopOfProduct(lo, hi, before[i], u, k);
        }
        k := hi;
        i := i + 1;
      }
      MultiplyEnd(before, digits[..count], u, k);
      if k > 0 {
        PushBack(k);
      }
    }

    /** `operator*=(uint32_t)`. */
    method Multiply32(u: nat)
      requires u < HALF && Valid() && Number() * u < Pow(BASE, CAPACITY)
      modifies this, digits
      ensures Valid() && Number() == old(Number()) * u
    {
      hide Value, Pow;
      if u == 0 {
        AssignWord(0);
        return;
      }
      if u == 1 {
        return;
      }
      var one := IsWord(1);
      if one {
        AssignWord(u);
        return;
      }
      hide Multiplied;
      ghost var before := digits[..count];
      MultiplyStart(before, u);
      var k: Word := 0;
      var i := 0;
      assert digits[..0] == [];
      while i < count
        invariant 0 <= i <= count == old(count) && k < HALF
        invariant forall j | i <= j < count :: digits[j] == before[j]
        invariant Multiplied(before, digits[..i], u, k)
        invariant i > 0 && before[i - 1] != 0 && k == 0 ==> digits[i - 1] != 0
      {
        var low, carry := MulAdd32(digits[i], u, k);
        MultiplyStep(before, digits[..i], u, k, low, carry);
        ghost var below := digits[..i];
        digits[i] := low;
        assert digits[..i + 1] == below + [low];
        if before[i] != 0 && carry == 0 {
          TopOfProduct(low, carry, before[i], u, k);
        }
        k := carry;
        i := i + 1;
      }
      MultiplyEnd(before, digits[..count], u, k);
      if k > 0 {
        PushBack(k);
      }
    }

    /** Writes one word; a write past the end of the array is refused, and is where the model stops. */
    method Store(i: nat, word: Word) returns (ok: bool)
      requires digits.Length == CAPACITY
      modifies digits
      ensures ok == (i < CAPACITY)
      ensures forall j | 0 <= j < CAPACITY :: digits[j] == if j == i then word else old(digits[j])
    {
      ok := i < digits.Length;
      if ok {
        digits[i] := word;
      }
    }

    /**
     `operator<<=`, on all that its assertion lets through; `written` are the indices written.  It
     stops at the first write past the end, and that happens exactly when there is no room.
     */
    method ShiftBy(shift: nat) returns (ok: bool, ghost written: seq<nat>)
      requires Valid()
      requires Number() > 0 && shift > 0 ==> count + shift / 64 <= CAPACITY
      modifies this, digits
      ensures Valid()
      ensures ok <==> old(Number()) == 0 || shift == 0 || RoomToShift(old(count), shift)
      ensures ok ==> Number() == old(Number()) * Pow(2, shift)
      ensures !ok ==> Number() == old(Number())
      ensures old(Number()) == 0 || shift == 0 ==> written == []
      ensures old(Number()) > 0 && shift > 0 ==> AsFarAsFits(ShiftWrites(old(count), shift), written, ok)
    {
      hide Value, Pow, Normalized, ShiftWrites, AsFarAsFits, Upwards, Downwards;
      var zero := IsZero();
      PowTwoZero();
      if zero || shift == 0 {
        return true, [];
      }
      var offset, interShift := shift / 64, shift % 64;
      ghost var before := digits[..count];
      NormalizedIsNotEmpty(before);
      if interShift == 0 {
        ShiftWhole(offset);
        written := Upwards(offset, |before|);
        WholeWrites(|before|, shift);
      } else {
        ok, written := ShiftBits(offset, interShift);
        BitWrites(|before|, shift, written, ok);
        if !ok {
          assert digits[..count] == before;
          return false, written;
        }
      }
      ok := true;
      ghost var shifted := digits[offset..count];
      forall i | 0 <= i < offset {
        digits[i] := 0;
      }
      written := written + Upwards(0, offset);
      ZerosThen(digits[..count], offset, shifted);
      TopIsNormalized(digits[..count]);
      ShiftValue(before, offset, interShift, shifted);
    }

    /** The `memmove` by whole words. */
    method ShiftWhole(offset: nat)
      requires Valid() && Number() > 0 && count + offset <= CAPACITY
      modifies this, digits
      ensures offset < count <= CAPACITY && digits[count - 1] != 0
      ensures Value(digits[offset..count]) == old(Number())
    {
      ghost var before := digits[..count];
      TopWordOfPositive(before);
      hide Value;
      forall i | 0 <= i < count {
        digits[i + offset] := digits[i];
      }
      assert forall j | 0 <= j < |before| :: digits[j + offset] == before[j];
      count := count + offset;
      forall j | 0 <= j < |before|
        ensures digits[offset + j] == before[j]
      {
        assert digits[j + offset] == before[j];
      }
      assert digits[offset..count] == before;
    }

    method ShiftBits(offset: nat, s: nat) returns (ok: bool, ghost written: seq<nat>)
      requires Valid() && Number() > 0 && 0 < s < 64
      modifies this, digits
      ensures ok <==> old(count) + offset < CAPACITY
      ensures AsFarAsFits([old(count)] + Downwards(old(count), offset) + [offset], written, ok)
      ensures !ok ==> count == old(count) && digits[..count] == old(digits[..count])
      ensures ok ==> offset < count <= CAPACITY && digits[count - 1] != 0
      ensures ok ==> Value(digits[offset..count]) == old(Number()) * Pow(2, s)
    {
      hide Value, Pow, AsFarAsFits, Downwards, ShiftedWord, Normalized;
      ghost var before, n := digits[..count], count;
      TopWordOfPositive(before);
      ok, written := ShiftWords(offset, s);
      if !ok {
        return;
      }
      ghost var shifted := ShiftedWords(before, s, n + 1);
      assert digits[offset + n] == digits[offset..offset + n + 1][n] == shifted[n];
      assert digits[offset + n - 1] == digits[offset..offset + n + 1][n - 1] == shifted[n - 1];
      ShiftedWordsExact(before, s);
      count := count + offset;
      if digits[count] != 0 {
        count := count + 1;
        assert digits[offset..count] == shifted;
      } else {
        TopOfShift(before, s);
        ValuePrefix(shifted, n);
        assert shifted[..n + 1] == shifted;
        assert digits[offset..count] == digits[offset..offset + n + 1][..n];
      }
    }

    /** The words shifted in place, from the top down. */
    method ShiftWords(offset: nat, s: nat) returns (ok: bool, ghost written: seq<nat>)
      requires Valid() && 0 < s < 64
      modifies digits
      ensures ok <==> count + offset < CAPACITY
      ensures AsFarAsFits([count] + Downwards(count, offset) + [offset], written, ok)
      ensures !ok ==> digits[..count] == old(digits[..count])
      ensures ok ==> digits[offset..offset + count + 1] == ShiftedWords(old(digits[..count]), s, count + 1)
    {
      hide ShiftLeft, ShiftRight, BitOr, Normalized, Downwards, AsFarAsFits, AllBelow;
      ghost var before, all := digits[..count], [count] + Downwards(count, offset) + [offset];
      written := [];
      NormalizedIsNotEmpty(before);
      ok := Store(count, 0);
      WritesBegin(count, offset);
      if !ok {
        return;
      }
      written := [count];
      var i := count;
      while i > 0
        invariant 0 <= i <= count && digits.Length == CAPACITY
        invariant i < count ==> count + offset < CAPACITY
        invariant WritesLeft(all, written, i, offset)
        invariant forall j | 0 <= j <= i && j < count :: digits[j] == before[j]
        invariant i == count ==> digits[count] == 0
        invariant forall j | i < j <= count :: digits[j + offset] == ShiftedWord(before, s, j)
      {
        OrOfShifts(digits[i], digits[i - 1], s);
        var word := BitOr(ShiftLeft(digits[i], s), ShiftRight(digits[i - 1], 64 - s));
        assert word == ShiftedWord(before, s, i);
        ok := Store(i + offset, word);
        WritesNext(all, written, i, offset);
        if !ok {
          assert digits[..count] == before;
          return;
        }
        written := written + [i + offset];
        i := i - 1;
      }
      ok := Store(offset, ShiftLeft(digits[0], s));
      WritesEnd(all, written, offset);
      written := written + [offset];
      forall j | 0 <= j <= count
        ensures digits[offset + j] == ShiftedWord(before, s, j)
      {
        assert digits[j + offset] == digits[offset + j];
      }
    }

    method MultiplyPow5(exp: nat)
      requires Valid() && Number() * Pow(5, exp) < Pow(BASE, CAPACITY)
      modifies this, digits
      ensures Valid() && Number() == old(Number()) * Pow(5, exp)
    {
      hide Value, Pow, ScaledBy5;
      ScaledNow(Number(), exp);
      if exp == 0 {
        ScaledNow(Number(), 0);
        PowFiveZero();
        return;
      }
      PowersOfFive();
      var e := exp;
      while e >= 27
        invariant 0 <= e <= exp && Valid() && ScaledBy5(Number(), e) == ScaledBy5(old(Number()), exp)
      {
        ScaledStep(Number(), e, 27);
        Multiply64(0x6765_C793_FA10_079D);
        e := e - 27;
      }
      while e >= 13
        invariant 0 <= e < 27 && Valid() && ScaledBy5(Number(), e) == ScaledBy5(old(Number()), exp)
      {
        ScaledStep(Number(), e, 13);
        Multiply32(1220703125);
        e := e - 13;
      }
      ScaledNow(Number(), e);
      if e > 0 {
        TableOfPowers(e);
        Multiply32(POW5[e - 1]);
      } else {
        PowFiveZero();
      }
    }

    method ParseUint64(chunk: seq<Byte>) returns (r: Word)
      requires |chunk| <= 19 && AllDigits(chunk)
      ensures r == Decimal(chunk)
    {
      r := 0;
      var p := 0;
      assert Decimal(chunk[..0]) == 0;
      hide Decimal;
      while p != |chunk|
        invariant 0 <= p <= |chunk| && r == Decimal(chunk[..p])
      {
        DecimalNext(chunk, p);
        WrapOnce(r * 10 + (chunk[p] - 48));
        r := Wrap(r * 10 + (chunk[p] - 48));
        p := p + 1;
      }
      assert chunk[..p] == chunk;
    }

    method AppendDecimal64(chunk: seq<Byte>)
      requires Valid() && 0 < |chunk| <= 19 && AllDigits(chunk) && Decimal(chunk) >= 0
      requires Fits(Number() * Pow(10, |chunk|) + Decimal(chunk))
      modifies this, digits
      ensures Valid() && Number() == old(Number()) * Pow(10, |chunk|) + Decimal(chunk)
    {
      hide Value, Decimal, Pow, Fits;
      var u := ParseUint64(chunk);
      var zero := IsZero();
      if zero {
        AssignWord(u);
      } else {
        var exp := |chunk|;
        ghost var n := Number();
        PowTen(exp);
        ProductGrows(n, Pow(5, exp), Pow(2, exp));
        FitsBelow(n * Pow(5, exp), n * Pow(10, exp) + u);
        FitsBelow(n * Pow(10, exp) + u, n * Pow(10, exp) + u);
        FitsIsBelow(n * Pow(5, exp));
        MultiplyPow5(exp);
        CountBound(digits[..count], CAPACITY - 1);
        var _, _ := ShiftBy(exp);
        Associate(n, Pow(5, exp), Pow(2, exp));
        Add(u);
      }
    }

    method Compare(rhs: BigInteger) returns (cmp: int)
      requires Valid() && rhs.Valid()
      ensures -1 <= cmp <= 1
      ensures cmp < 0 <==> Number() < rhs.Number()
      ensures cmp == 0 <==> Number() == rhs.Number()
    {
      hide Value;
      ghost var a, b := digits[..count], rhs.digits[..rhs.count];
      if count != rhs.count {
        if count < rhs.count {
          LongerIsLarger(a, b);
        } else {
          LongerIsLarger(b, a);
        }
        return if count < rhs.count then -1 else 1;
      }
      var i := count;
      while i > 0
        invariant 0 <= i <= count
        invariant forall j | i <= j < count :: digits[j] == rhs.digits[j]
      {
        i := i - 1;
        if digits[i] != rhs.digits[i] {
          assert a[i + 1..] == b[i + 1..];
          if digits[i] < rhs.digits[i] {
            HighestWordDecides(a, b, i);
          } else {
            HighestWordDecides(b, a, i);
          }
          return if digits[i] < rhs.digits[i] then -1 else 1;
        }
      }
      assert a == b;
      return 0;
    }

    /**
     `Difference`: whether `this` is the smaller, and in `out` the absolute difference, exactly
     when no borrow is due into a word of all ones.  Otherwise `out` holds too large a number.
     */
    method Difference(rhs: BigInteger, out: BigInteger) returns (ret: bool)
      requires Valid() && rhs.Valid() && Number() != rhs.Number()
      requires out.digits.Length == CAPACITY && out != this && out != rhs
      requires out.digits != digits && out.digits != rhs.digits
      modifies out, out.digits
      ensures out.Valid() && ret == (Number() < rhs.Number())
      ensures ret ==> out.Number() >= rhs.Number() - Number()
      ensures ret ==> (out.Number() == rhs.Number() - Number()
                       <==> KeepsBorrows(rhs.digits[..rhs.count], digits[..count]))
      ensures !ret ==> out.Number() >= Number() - rhs.Number()
      ensures !ret ==> (out.Number() == Number() - rhs.Number()
                        <==> KeepsBorrows(digits[..count], rhs.digits[..rhs.count]))
    {
      var cmp := Compare(rhs);
      if cmp < 0 {
        Subtract(rhs, this, out);
        ret := true;
      } else {
        Subtract(this, rhs, out);
        ret := false;
      }
    }

    /** One word of a difference, and the borrow that goes on. */
    static method DifferenceWord(a: BigInteger, b: BigInteger, i: nat, borrow: Word,
                                 ghost x: seq<Word>, ghost padded: seq<Word>)
      returns (d: Word, next: Word)
      requires a.Valid() && b.Valid() && i < a.count && b.count <= a.count
      requires x == a.digits[..a.count] && padded == b.digits[..b.count] + Zeros(a.count - b.count)
      requires borrow == Differences(x, padded, i).borrow
      ensures Differences(x, padded, i + 1) == Partial(Differences(x, padded, i).words + [d], next)
    {
      hide Value, Differences, DifferenceStep;
      DifferencesNext(x, padded, i);
      d := (a.digits[i] - borrow) % BASE;
      if i < b.count {
        d := (d - b.digits[i]) % BASE;
      } else {
        SubtractZero(d);
      }
      next := if d > a.digits[i] then 1 else 0;
    }

    /** The loop of `Difference`, once `a` is known to be the larger. */
    static method Subtract(a: BigInteger, b: BigInteger, out: BigInteger)
      requires a.Valid() && b.Valid() && a.Number() > b.Number()
      requires out.digits.Length == CAPACITY && out != a && out != b && out.digits != a.digits && out.digits != b.digits
      modifies out, out.digits
      ensures out.Valid() && out.Number() >= a.Number() - b.Number()
      ensures out.Number() == a.Number() - b.Number() <==> KeepsBorrows(a.digits[..a.count], b.digits[..b.count])
    {
      hide Value, KeepsBorrows, Differences, DifferenceStep;
      ghost var x, y := a.digits[..a.count], b.digits[..b.count];
      if a.count < b.count {
        LongerIsLarger(x, y);
        assert false;
      }
      ghost var padded := y + Zeros(|x| - |y|);
      ValuePadded(y, |x| - |y|);
      DifferencesStart(x, padded);
      var borrow: Word := 0;
      var i := 0;
      ghost var stored := false;
      while i < a.count
        invariant 0 <= i <= a.count
        invariant out.digits[..i] == Differences(x, padded, i).words && borrow == Differences(x, padded, i).borrow
        invariant !stored ==> forall j | 0 <= j < i :: out.digits[j] == 0
        invariant stored ==> 1 <= out.count <= i && out.digits[out.count - 1] != 0
        invariant stored ==> forall j | out.count <= j < i :: out.digits[j] == 0
      {
        ghost var words := out.digits[..i];
        var d: Word;
        d, borrow := DifferenceWord(a, b, i, borrow, x, padded);
        out.digits[i] := d;
        if d != 0 {
          out.count := i + 1;
          stored := true;
        }
        assert out.digits[..i + 1] == words + [d];
        i := i + 1;
      }
      SubtractedWords(x, y, out.digits[..i], if stored then out.count else 0);
      assert out.digits[..i][..out.count] == out.digits[..out.count];
    }
  }

  lemma DecimalChunk(s: seq<Byte>, i: nat, n: nat)
    requires i + n <= |s| && AllDigits(s) && Decimal(s) >= 0 && Fits(Decimal(s))
    ensures AllDigits(s[i..i + n]) && Decimal(s[i..i + n]) >= 0 && Decimal(s[..i]) >= 0
    ensures Decimal(s[..i + n]) == Decimal(s[..i]) * Pow(10, n) + Decimal(s[i..i + n])
    ensures Fits(Decimal(s[..i]) * Pow(10, n) + Decimal(s[i..i + n]))
  {
    hide Decimal, Pow, Fits;
    assert s[..i + n] == s[..i] + s[i..i + n];
    DecimalConcat(s[..i], s[i..i + n]);
    DecimalPrefix(s, i + n);
    FitsBelow(Decimal(s[..i + n]), Decimal(s));
  }

  lemma DecimalPrefix(s: seq<Byte>, k: nat)
    requires k <= |s| && AllDigits(s)
    ensures 0 <= Decimal(s[..k]) <= Decimal(s)
  {
    hide Decimal, Pow;
    assert s == s[..k] + s[k..];
    DecimalConcat(s[..k], s[k..]);
    var p, x := Pow(10, |s[k..]|), Decimal(s[..k]);
    AtLeastOnce(p, x);
    assert p * x == x * p;
  }

  lemma ProductGrows(n: nat, p: nat, q: nat)
    requires q > 0
    ensures n * p <= n * (p * q)
  {
    AtLeastOnce(q, n * p);
    assert q * (n * p) == n * (p * q);
  }

  lemma FitsIsBelow(n: nat)
    ensures Fits(n) <==> n < Pow(BASE, CAPACITY - 1)
  {
  }

  lemma PowZero()
    ensures Pow(BASE, 0) == 1
  {
  }

  lemma PowTwoZero()
    ensures Pow(2, 0) == 1
  {
  }

  lemma PowFiveZero()
    ensures Pow(5, 0) == 1
  {
  }

  lemma SubtractZero(d: Word)
    ensures (d - 0) % BASE == d
  {
  }

  lemma TopWordOfPositive(d: seq<Word>)
    requires Normalized(d) && Value(d) > 0
    ensures d[|d| - 1] != 0
  {
  }

  lemma DifferencesStart(a: seq<Word>, b: seq<Word>)
    requires |a| == |b|
    ensures Differences(a, b, 0) == Partial([], 0)
  {
  }

  lemma DifferencesNext(a: seq<Word>, b: seq<Word>, i: nat)
    requires i < |a| == |b|
    ensures var d := ((a[i] - Differences(a, b, i).borrow) % BASE - b[i]) % BASE;
            Differences(a, b, i + 1) == Partial(Differences(a, b, i).words + [d], if d > a[i] then 1 else 0)
  {
  }

  /** The words the loop stored, cut at its last word that is not zero. */
  lemma SubtractedWords(x: seq<Word>, y: seq<Word>, words: seq<Word>, m: nat)
    requires |y| <= |x| && Value(x) > Value(y) && words == Differences(x, y + Zeros(|x| - |y|), |x|).words
    requires m <= |words| && forall j | m <= j < |words| :: words[j] == 0
    ensures m > 0 && Value(words[..m]) >= Value(x) - Value(y)
    ensures Value(words[..m]) == Value(x) - Value(y) <==> KeepsBorrows(x, y)
  {
    hide Value, KeepsBorrows, Differences;
    ValuePadded(y, |x| - |y|);
    DifferencesExact(x, y + Zeros(|x| - |y|));
    KeepsBorrowsPadded(x, y);
    TrailingZeros(words, m);
    if m == 0 {
      ValueNone(words[..m]);
      assert false;
    }
  }

  lemma TrailingZeros(d: seq<Word>, m: nat)
    requires m <= |d| && forall j | m <= j < |d| :: d[j] == 0
    ensures Value(d) == Value(d[..m])
  {
    assert d == d[..m] + Zeros(|d| - m);
    ValuePadded(d[..m], |d| - m);
  }

  /** Nineteen digits never overflow 64 bits. */
  lemma DecimalNext(s: seq<Byte>, p: nat)
    requires p < |s| <= 19 && AllDigits(s)
    ensures IsDigit(s[p]) && 0 <= Decimal(s[..p])
    ensures Decimal(s[..p + 1]) == Decimal(s[..p]) * 10 + (s[p] as int - 48) < BASE
  {
    assert s[..p + 1][..p] == s[..p];
    DecimalBound(s[..p]);
    DecimalBound(s[..p + 1]);
    PowGrows(10, p + 1, 19);
    NineteenDigitsFit();
  }

  lemma TopIsNormalized(d: seq<Word>)
    requires |d| > 0 && d[|d| - 1] != 0
    ensures Normalized(d)
  {
  }

  lemma NormalizedIsNotEmpty(d: seq<Word>)
    requires Normalized(d)
    ensures |d| > 0
  {
  }

  lemma ZerosThen(d: seq<Word>, offset: nat, rest: seq<Word>)
    requires |d| == offset + |rest| && d[offset..] == rest && forall i | 0 <= i < offset :: d[i] == 0
    ensures d == Zeros(offset) + rest
  {
  }
}
