/** Numbers as little-endian strings of 64-bit words, and word arithmetic with wrap-around. */
module Words {
  import opened Bits

  const HALF: nat := 0x1_0000_0000
  const BASE: nat := 0x1_0000_0000_0000_0000

  type Word = w: nat | w < 0x1_0000_0000_0000_0000

  function Value(d: seq<Word>): nat {
    if d == [] then 0
    else Value(d[..|d| - 1]) + d[|d| - 1] * Pow(BASE, |d| - 1)
  }

  /** No leading zero word, as every number is kept. */
  predicate Normalized(d: seq<Word>) {
    |d| >= 1 && (|d| > 1 ==> d[|d| - 1] != 0)
  }

  lemma ValueSnoc(d: seq<Word>, w: Word)
    ensures Value(d + [w]) == Value(d) + w * Pow(BASE, |d|)
  {
  }

  lemma ValueOne(w: Word)
    ensures Value([w]) == w
  {
  }

  lemma {:induction false} ValueBound(d: seq<Word>)
    ensures Value(d) < Pow(BASE, |d|)
  {
    if d != [] {
      var n := |d| - 1;
      ValueBound(d[..n]);
      WordBound(d[n], Pow(BASE, n));
    }
  }

  lemma WordBound(w: Word, p: nat)
    ensures w * p + p <= BASE * p
  {
  }

  lemma AtLeastOnce(n: nat, p: nat)
    requires n > 0
    ensures n * p >= p
  {
  }

  lemma ValueAtLeast(d: seq<Word>)
    requires Normalized(d) && |d| > 1
    ensures Value(d) >= Pow(BASE, |d| - 1)
  {
    AtLeastOnce(d[|d| - 1], Pow(BASE, |d| - 1));
  }

  lemma {:induction false} ValueUpdate(d: seq<Word>, i: nat, w: Word)
    requires i < |d|
    ensures Value(d[i := w]) == Value(d) - d[i] * Pow(BASE, i) + w * Pow(BASE, i)
  {
    var n := |d| - 1;
    if i == n {
      assert d[i := w][..n] == d[..n];
    } else {
      assert d[i := w][..n] == d[..n][i := w];
      ValueUpdate(d[..n], i, w);
    }
  }

  function Zeros(n: nat): (z: seq<Word>)
    ensures |z| == n && forall k | 0 <= k < n :: z[k] == 0
  {
    seq(n, _ => 0)
  }

  lemma {:induction false} ValueZeros(n: nat)
    ensures Value(Zeros(n)) == 0
  {
    if n > 0 {
      ValueZeros(n - 1);
      assert Zeros(n)[..n - 1] == Zeros(n - 1);
    }
  }

  lemma {:induction false} ValueShifted(d: seq<Word>, k: nat)
    ensures Value(Zeros(k) + d) == Value(d) * Pow(BASE, k)
    decreases |d|
  {
    if d == [] {
      assert Zeros(k) + d == Zeros(k);
      ValueZeros(k);
    } else {
      var n := |d| - 1;
      assert Zeros(k) + d == (Zeros(k) + d[..n]) + [d[n]];
      ValueSnoc(Zeros(k) + d[..n], d[n]);
      ValueShifted(d[..n], k);
      PowSum(BASE, n, k);
      Spread(Value(d[..n]), d[n], Pow(BASE, n), Pow(BASE, k));
    }
  }

  lemma Spread(v: nat, w: nat, p: nat, q: nat)
    ensures v * q + w * (p * q) == (v + w * p) * q
  {
    assert w * (p * q) == (w * p) * q;
  }

  lemma {:induction false} ValuePadded(d: seq<Word>, k: nat)
    ensures Value(d + Zeros(k)) == Value(d)
    decreases k
  {
    if k == 0 {
      assert d + Zeros(k) == d;
    } else {
      ValuePadded(d, k - 1);
      assert d + Zeros(k) == (d + Zeros(k - 1)) + [0];
      ValueSnoc(d + Zeros(k - 1), 0);
    }
  }

  // ---------------------------------------------------------------------------------------
  // Products and shifts of one word
  // ---------------------------------------------------------------------------------------

  function ShiftLeft(w: Word, s: nat): Word {
    (w * Pow(2, s)) % BASE
  }

  function ShiftRight(w: Word, s: nat): Word {
    HalvesAreSmaller(w, Pow(2, s));
    w / Pow(2, s)
  }

  lemma HalvesAreSmaller(w: nat, p: nat)
    requires p > 0
    ensures w / p <= w
  {
    var q := w / p;
    assert w == q * p + w % p;
    AtLeastOnce(p, q);
    assert q * p == p * q;
  }

  lemma SplitNumber(w: nat, p: nat, q: nat)
    requires w < BASE == p * q && p > 0 && q > 0
    ensures (w * q) % BASE == w % p * q && w / p < q
    ensures w * q == w % p * q + w / p * BASE
  {
    var high, low := w / p, w % p;
    assert w == high * p + low;
    Spread(low, high, p, q);
    assert low * q < BASE by {
      TimesMore(low, p, q);
    }
    UniqueRemainder(w * q, BASE, high, low * q);
    if high >= q {
      MoreTimes(q, high, p);
    }
  }

  lemma SplitWord(w: Word, s: nat)
    requires 0 < s < 64
    ensures var low := w % Pow(2, 64 - s);
            ShiftLeft(w, s) == low * Pow(2, s) && low < Pow(2, 64 - s)
    ensures ShiftRight(w, 64 - s) < Pow(2, s)
    ensures w * Pow(2, s) == ShiftLeft(w, s) + ShiftRight(w, 64 - s) * BASE
  {
    PowersOfTwo();
    PowSum(2, 64 - s, s);
    assert 64 - s + s == 64;
    SplitNumber(w, Pow(2, 64 - s), Pow(2, s));
  }

  lemma MoreTimes(x: nat, y: nat, p: nat)
    requires x <= y
    ensures x * p <= y * p
  {
  }

  /** Word `j` of a number shifted left by `s < 64` bits. */
  function ShiftedWord(d: seq<Word>, s: nat, j: nat): Word
    requires 0 < s < 64 && j <= |d| && |d| > 0
  {
    if j == 0 then ShiftLeft(d[0], s)
    else
      var low := if j < |d| then d[j] else 0;
      OrOfShifts(low, d[j - 1], s);
      BitOr(ShiftLeft(low, s), ShiftRight(d[j - 1], 64 - s))
  }

  lemma OrOfShifts(x: Word, y: Word, s: nat)
    requires 0 < s < 64
    ensures BitOr(ShiftLeft(x, s), ShiftRight(y, 64 - s)) == ShiftLeft(x, s) + ShiftRight(y, 64 - s) < BASE
  {
    SplitWord(x, s);
    SplitWord(y, s);
    var low := x % Pow(2, 64 - s);
    OrDisjoint(low, ShiftRight(y, 64 - s), s);
    PowersOfTwo();
    PowSum(2, 64 - s, s);
    TimesMore(low, Pow(2, 64 - s), Pow(2, s));
  }

  function ShiftedWords(d: seq<Word>, s: nat, j: nat): (r: seq<Word>)
    requires 0 < s < 64 && j <= |d| + 1 && |d| > 0
    ensures |r| == j && forall k | 0 <= k < j :: r[k] == ShiftedWord(d, s, k)
  {
    seq(j, k requires 0 <= k < j => ShiftedWord(d, s, k))
  }

  lemma {:induction false} ShiftedWordsValue(d: seq<Word>, s: nat, j: nat)
    requires 0 < s < 64 && 0 < j <= |d|
    ensures Value(ShiftedWords(d, s, j)) + ShiftRight(d[j - 1], 64 - s) * Pow(BASE, j) == Value(d[..j]) * Pow(2, s)
  {
    if j > 1 {
      ShiftedWordsValue(d, s, j - 1);
    }
    ShiftedWordsStep(d, s, j - 1);
  }

  lemma ShiftedWordsStep(d: seq<Word>, s: nat, n: nat)
    requires 0 < s < 64 && n < |d|
    requires n > 0 ==>
               Value(ShiftedWords(d, s, n)) + ShiftRight(d[n - 1], 64 - s) * Pow(BASE, n) == Value(d[..n]) * Pow(2, s)
    ensures Value(ShiftedWords(d, s, n + 1)) + ShiftRight(d[n], 64 - s) * Pow(BASE, n + 1)
         == Value(d[..n + 1]) * Pow(2, s)
  {
    var below := if n == 0 then 0 else ShiftRight(d[n - 1], 64 - s);
    assert Pow(BASE, n + 1) == BASE * Pow(BASE, n);
    ShiftedWordSum(d, s, n);
    hide Value, ShiftLeft, ShiftRight, ShiftedWord, Pow;
    var before, after := ShiftedWords(d, s, n), ShiftedWords(d, s, n + 1);
    assert after == before + [ShiftedWord(d, s, n)];
    SplitWord(d[n], s);
    ValueSnoc(before, ShiftedWord(d, s, n));
    ValuePrefix(d, n);
    if n == 0 {
      ValueNone(before);
      ValueNone(d[..0]);
    }
    ShiftStep(Value(before), Value(after), Value(d[..n]), Value(d[..n + 1]), d[n], ShiftLeft(d[n], s),
              ShiftRight(d[n], 64 - s), below, after[n], Pow(BASE, n), Pow(BASE, n + 1), Pow(2, s));
  }

  lemma ShiftedWordSum(d: seq<Word>, s: nat, n: nat)
    requires 0 < s < 64 && n < |d|
    ensures ShiftedWord(d, s, n) == ShiftLeft(d[n], s) + if n == 0 then 0 else ShiftRight(d[n - 1], 64 - s)
  {
    if n > 0 {
      OrOfShifts(d[n], d[n - 1], s);
    }
  }

  lemma ValueNone(d: seq<Word>)
    requires d == []
    ensures Value(d) == 0
  {
  }

  lemma ShiftStep(v0: nat, v1: nat, x0: nat, x1: nat, w: nat, left: nat, right: nat, below: nat, word: nat,
                  p0: nat, p1: nat, q: nat)
    requires v0 + below * p0 == x0 * q && w * q == left + right * BASE
    requires v1 == v0 + word * p0 && x1 == x0 + w * p0 && word == left + below && p1 == BASE * p0
    ensures v1 + right * p1 == x1 * q
  {
    assert word * p0 == left * p0 + below * p0;
    assert (w * p0) * q == (w * q) * p0;
    assert (left + right * BASE) * p0 == left * p0 + (right * BASE) * p0;
    assert (right * BASE) * p0 == right * p1;
    assert x1 * q == x0 * q + (w * p0) * q;
  }

  /** All the words of the shifted number, the last holding what overflowed. */
  lemma ShiftedWordsExact(d: seq<Word>, s: nat)
    requires 0 < s < 64 && |d| > 0
    ensures Value(ShiftedWords(d, s, |d| + 1)) == Value(d) * Pow(2, s)
  {
    hide Value, ShiftLeft, ShiftRight, ShiftedWord, Pow;
    var n := |d|;
    ShiftedWordsValue(d, s, n);
    assert d[..n] == d;
    assert ShiftedWords(d, s, n + 1) == ShiftedWords(d, s, n) + [ShiftedWord(d, s, n)];
    ValueSnoc(ShiftedWords(d, s, n), ShiftedWord(d, s, n));
    ShiftedTop(d, s);
  }

  lemma ShiftedTop(d: seq<Word>, s: nat)
    requires 0 < s < 64 && |d| > 0
    ensures ShiftedWord(d, s, |d|) == ShiftRight(d[|d| - 1], 64 - s)
  {
    hide Pow, ShiftRight, BitOr;
    OrOfShifts(0, d[|d| - 1], s);
    assert ShiftLeft(0, s) == 0;
  }

  // ---------------------------------------------------------------------------------------
  // Comparison
  // ---------------------------------------------------------------------------------------

  /** The highest word where two numbers of one length differ decides. */
  lemma {:induction false} HighestWordDecides(a: seq<Word>, b: seq<Word>, i: nat)
    requires i < |a| == |b| && a[i] < b[i] && a[i + 1..] == b[i + 1..]
    ensures Value(a) < Value(b)
    decreases |a|
  {
    var n := |a| - 1;
    if i == n {
      ValueBound(a[..n]);
      TimesMore(a[n], b[n], Pow(BASE, n));
    } else {
      assert a[n] == a[i + 1..][n - i - 1] == b[n];
      assert a[..n][i + 1..] == a[i + 1..][..n - i - 1];
      assert b[..n][i + 1..] == b[i + 1..][..n - i - 1];
      HighestWordDecides(a[..n], b[..n], i);
    }
  }

  lemma TimesMore(x: nat, y: nat, p: nat)
    requires x < y
    ensures x * p + p <= y * p
  {
    AtLeastOnce(y - x, p);
    assert y * p == x * p + (y - x) * p;
  }

  lemma LongerIsLarger(a: seq<Word>, b: seq<Word>)
    requires Normalized(a) && Normalized(b) && |a| < |b|
    ensures Value(a) < Value(b)
  {
    ValueBound(a);
    ValueAtLeast(b);
    PowGrows(BASE, |a|, |b| - 1);
  }

  // ---------------------------------------------------------------------------------------
  // Subtraction
  // ---------------------------------------------------------------------------------------

  /** The loop of `Difference` after `i` words: what it stored, and the borrow it carries. */
  datatype Partial = Partial(words: seq<Word>, borrow: Word)

  function DifferenceStep(x: Word, y: Word, borrow: Word): (r: (Word, Word))
    requires borrow <= 1
    ensures r.1 <= 1
  {
    var d := ((x - borrow) % BASE - y) % BASE;
    (d, if d > x then 1 else 0)
  }

  function Differences(a: seq<Word>, b: seq<Word>, i: nat): (r: Partial)
    requires i <= |a| == |b|
    ensures |r.words| == i && r.borrow <= 1
  {
    if i == 0 then Partial([], 0)
    else
      var before := Differences(a, b, i - 1);
      var (d, borrow) := DifferenceStep(a[i - 1], b[i - 1], before.borrow);
      Partial(before.words + [d], borrow)
  }

  /** What one word subtraction leaves, and the one case in which its borrow is lost. */
  lemma DifferenceStepExact(x: Word, y: Word, borrow: Word)
    requires borrow <= 1
    ensures var (d, next) := DifferenceStep(x, y, borrow);
            d + y + borrow == x + next * BASE + (if y == BASE - 1 && borrow == 1 then BASE else 0)
  {
    if y == BASE - 1 && borrow == 1 {
      assert ((x - 1) % BASE - y) % BASE == x by {
        if x == 0 {
          assert (x - 1) % BASE == BASE - 1;
        }
      }
    } else {
      var t := x - borrow - y;
      if x < borrow {
        assert (x - borrow) % BASE == BASE - 1;
      } else {
        assert (x - borrow) % BASE == x - borrow;
      }
    }
  }

  /** What the lost borrows among the first `i` words add up to. */
  function Lost(a: seq<Word>, b: seq<Word>, i: nat): nat
    requires i <= |a| == |b|
  {
    if i == 0 then 0
    else Lost(a, b, i - 1) + LostAt(a, b, i - 1) * Pow(BASE, i)
  }

  function LostAt(a: seq<Word>, b: seq<Word>, i: nat): nat
    requires i < |a| == |b|
  {
    if b[i] == BASE - 1 && Differences(a, b, i).borrow == 1 then 1 else 0
  }

  lemma DifferencesUnfold(a: seq<Word>, b: seq<Word>, i: nat)
    requires i < |a| == |b|
    ensures Differences(a, b, i + 1).words[..i] == Differences(a, b, i).words
    ensures Differences(a, b, i + 1).words[i] + b[i] + Differences(a, b, i).borrow
         == a[i] + Differences(a, b, i + 1).borrow * BASE + LostAt(a, b, i) * BASE
  {
    DifferenceStepExact(a[i], b[i], Differences(a, b, i).borrow);
  }

  lemma ValuePrefix(d: seq<Word>, i: nat)
    requires i < |d|
    ensures Value(d[..i + 1]) == Value(d[..i]) + d[i] * Pow(BASE, i)
  {
    assert d[..i + 1] == d[..i] + [d[i]];
    ValueSnoc(d[..i], d[i]);
  }

  lemma {:induction false} DifferencesSum(a: seq<Word>, b: seq<Word>, i: nat)
    requires i <= |a| == |b|
    ensures Value(Differences(a, b, i).words) + Value(b[..i])
         == Value(a[..i]) + Differences(a, b, i).borrow * Pow(BASE, i) + Lost(a, b, i)
  {
    if i > 0 {
      var n := i - 1;
      DifferencesSum(a, b, n);
      DifferencesSumStep(a, b, n);
    }
  }

  lemma DifferencesSumStep(a: seq<Word>, b: seq<Word>, n: nat)
    requires n < |a| == |b|
    requires Value(Differences(a, b, n).words) + Value(b[..n])
          == Value(a[..n]) + Differences(a, b, n).borrow * Pow(BASE, n) + Lost(a, b, n)
    ensures Value(Differences(a, b, n + 1).words) + Value(b[..n + 1])
         == Value(a[..n + 1]) + Differences(a, b, n + 1).borrow * Pow(BASE, n + 1) + Lost(a, b, n + 1)
  {
    var p := Pow(BASE, n);
    var lost := LostAt(a, b, n);
    assert Lost(a, b, n + 1) == Lost(a, b, n) + lost * (BASE * p);
    hide Value, Differences, Lost, LostAt;
    var before, after := Differences(a, b, n), Differences(a, b, n + 1);
    DifferencesUnfold(a, b, n);
    ValuePrefix(a, n);
    ValuePrefix(b, n);
    ValuePrefix(after.words, n);
    assert after.words[..n + 1] == after.words;
    ScaleStep(after.words[n], b[n], before.borrow, a[n], after.borrow, lost, p);
  }

  lemma ScaleStep(d: nat, y: nat, borrow: nat, x: nat, next: nat, lost: nat, p: nat)
    requires d + y + borrow == x + next * BASE + lost * BASE
    ensures d * p + y * p + borrow * p == x * p + next * (BASE * p) + lost * (BASE * p)
  {
    assert (d + y + borrow) * p == d * p + y * p + borrow * p;
    assert (x + next * BASE + lost * BASE) * p == x * p + (next * BASE) * p + (lost * BASE) * p;
    assert (next * BASE) * p == next * (BASE * p);
    assert (lost * BASE) * p == lost * (BASE * p);
  }

  /**
   The borrow into word `i` is due when the words below it are the smaller.  It is lost on a word
   of all ones.
   */
  predicate KeepsBorrows(a: seq<Word>, b: seq<Word>) {
    forall i | 0 <= i < |b| && i <= |a| && b[i] == BASE - 1 :: Value(a[..i]) >= Value(b[..i])
  }

  lemma BorrowIsDue(a: seq<Word>, b: seq<Word>, i: nat)
    requires i <= |a| == |b| && Lost(a, b, i) == 0
    ensures Differences(a, b, i).borrow == 1 <==> Value(a[..i]) < Value(b[..i])
  {
    hide Value, Differences, Lost;
    DifferencesSum(a, b, i);
    ValueBound(Differences(a, b, i).words);
    ValueBound(b[..i]);
    var borrow := Differences(a, b, i).borrow;
    assert borrow == 0 || borrow == 1;
    assert borrow * Pow(BASE, i) == if borrow == 1 then Pow(BASE, i) else 0;
  }

  lemma {:induction false} NothingLost(a: seq<Word>, b: seq<Word>, i: nat)
    requires i <= |a| == |b|
    ensures Lost(a, b, i) == 0 <==> forall k | 0 <= k < i && b[k] == BASE - 1 :: Value(a[..k]) >= Value(b[..k])
  {
    hide Value, Differences;
    if i > 0 {
      NothingLost(a, b, i - 1);
      if Lost(a, b, i - 1) == 0 {
        BorrowIsDue(a, b, i - 1);
        var p := Pow(BASE, i);
        assert p > 0;
      }
    }
  }

  /** The words of the loop are those of the difference exactly when no borrow is lost. */
  lemma DifferencesExact(a: seq<Word>, b: seq<Word>)
    requires |a| == |b| && Value(a) > Value(b)
    ensures Value(Differences(a, b, |a|).words) >= Value(a) - Value(b)
    ensures Value(Differences(a, b, |a|).words) == Value(a) - Value(b) <==> KeepsBorrows(a, b)
  {
    var n := |a|;
    assert KeepsBorrows(a, b) <==> Lost(a, b, n) == 0 by {
      NothingLost(a, b, n);
    }
    hide Value, Differences, Lost, Pow, KeepsBorrows;
    assert a[..n] == a && b[..n] == b;
    DifferencesSum(a, b, n);
    if Lost(a, b, n) == 0 {
      BorrowIsDue(a, b, n);
    }
    Conclude(Value(Differences(a, b, n).words), Value(a), Value(b), Differences(a, b, n).borrow, Pow(BASE, n), Lost(a, b, n));
  }

  lemma Conclude(v: nat, x: nat, y: nat, borrow: nat, p: nat, lost: nat)
    requires v + y == x + borrow * p + lost && (lost == 0 ==> borrow == 0)
    ensures v >= x - y && (v == x - y <==> lost == 0)
  {
    if borrow > 0 {
      AtLeastOnce(borrow, p);
    }
  }

  lemma KeepsBorrowsPadded(a: seq<Word>, b: seq<Word>)
    requires |b| <= |a|
    ensures KeepsBorrows(a, b + Zeros(|a| - |b|)) <==> KeepsBorrows(a, b)
  {
    var padded := b + Zeros(|a| - |b|);
    forall i | 0 <= i < |b|
      ensures padded[i] == b[i] && padded[..i] == b[..i]
    {
    }
  }

  /** 2^128 less 2^128 - 2^64 + 1: the borrow into the word of all ones is lost. */
  lemma LostBorrowExample()
    ensures var a, b := [0, 0, 1], [1, BASE - 1, 0];
            Value(a) - Value(b) == BASE - 1 && Value(Differences(a, b, 3).words) == Pow(BASE, 2) + (BASE - 1)
  {
    var a: seq<Word>, b: seq<Word> := [0, 0, 1], [1, BASE - 1, 0];
    ThreeWords(0, 0, 1);
    ThreeWords(1, BASE - 1, 0);
    assert Differences(a, b, 0) == Partial([], 0);
    assert DifferenceStep(0, 1, 0) == (BASE - 1, 1) by {
      assert (0 - 0) % BASE == 0 && (0 - 1) % BASE == BASE - 1;
    }
    assert Differences(a, b, 1) == Partial([BASE - 1], 1);
    assert DifferenceStep(0, BASE - 1, 1) == (0, 0) by {
      assert (0 - 1) % BASE == BASE - 1;
    }
    assert Differences(a, b, 2) == Partial([BASE - 1, 0], 0);
    assert DifferenceStep(1, 0, 0) == (1, 0);
    assert Differences(a, b, 3) == Partial([BASE - 1, 0, 1], 0);
    ThreeWords(BASE - 1, 0, 1);
  }

  lemma ThreeWords(x: Word, y: Word, z: Word)
    ensures Value([x, y, z]) == x + y * BASE + z * Pow(BASE, 2)
  {
    assert [x, y, z] == [x, y] + [z] && [x, y] == [x] + [y];
    ValueSnoc([x, y], z);
    ValueSnoc([x], y);
    ValueOne(x);
    assert Pow(BASE, 1) == BASE * Pow(BASE, 0) == BASE;
  }
}
