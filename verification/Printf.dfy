/**
 Integer printing (src/common/cstdio/printf.cc): the digits go into a 65-byte buffer, most
 significant first, and reading them back gives the number.
 */
module Printf {
  import opened Bits

  const BUFFER_SIZE: nat := 65
  const WORD32: nat := 0x1_0000_0000
  const WORD64: nat := 0x1_0000_0000_0000_0000

  function DigitChar(digit: nat, upper: bool): char
    requires digit < 16
  {
    if digit < 10 then ('0' as int + digit) as char
    else ((if upper then 'A' else 'a') as int - 10 + digit) as char
  }

  function Atoi(c: char): int {
    if '0' <= c <= '9' then c as int - '0' as int
    else if 'a' <= c <= 'f' then c as int - 'a' as int + 10
    else if 'A' <= c <= 'F' then c as int - 'A' as int + 10
    else -1
  }

  lemma AtoiOfDigit(digit: nat, upper: bool)
    requires digit < 16
    ensures Atoi(DigitChar(digit, upper)) == digit
    ensures DigitChar(digit, upper) == (if upper then "0123456789ABCDEF" else "0123456789abcdef")[digit]
  {
  }

  /** The characters of a numeral, in the case asked for. */
  lemma DigitsAre(text: seq<char>, base: nat, upper: bool)
    requires IsDigits(text, base, upper) && base <= 16
    ensures forall i :: 0 <= i < |text| ==>
              text[i] in (if upper then "0123456789ABCDEF" else "0123456789abcdef")[..base]
  {
    forall i | 0 <= i < |text|
      ensures text[i] in (if upper then "0123456789ABCDEF" else "0123456789abcdef")[..base]
    {
      var d: nat :| d < base <= 16 && text[i] == DigitChar(d, upper);
      AtoiOfDigit(d, upper);
      assert (if upper then "0123456789ABCDEF" else "0123456789abcdef")[..base][d] == text[i];
    }
  }

  function Pow(base: nat, k: nat): (p: nat)
    ensures base > 0 ==> p > 0
  {
    if k == 0 then 1 else base * Pow(base, k - 1)
  }

  /** The number a text reads as, a digit at a time. */
  ghost function ReadBack(text: seq<char>, base: nat): int {
    if text == [] then 0 else ReadBack(text[..|text| - 1], base) * base + Atoi(text[|text| - 1])
  }

  ghost predicate IsDigits(text: seq<char>, base: nat, upper: bool) {
    forall i :: 0 <= i < |text| ==> exists d: nat :: d < base <= 16 && text[i] == DigitChar(d, upper)
  }

  /** The text is the number in that base, without leading zeros. */
  ghost predicate IsNumeral(text: seq<char>, value: nat, base: nat, upper: bool) {
    && IsDigits(text, base, upper) && ReadBack(text, base) == value
    && |text| > 0 && (|text| > 1 ==> text[0] != '0')
  }

  ghost predicate IsSigned(text: seq<char>, value: int, base: nat) {
    if value < 0 then |text| > 0 && text[0] == '-' && IsNumeral(text[1..], -value, base, false)
    else IsNumeral(text, value, base, false)
  }

  // Arithmetic.

  lemma {:induction false} PowGrows(base: nat, j: nat, k: nat)
    requires base >= 2 && j < k
    ensures base * Pow(base, j) <= Pow(base, k)
    decreases k
  {
    if j < k - 1 {
      PowGrows(base, j, k - 1);
      Enlarge(Pow(base, k - 1), base);
    }
  }

  lemma Enlarge(x: nat, base: nat)
    requires base >= 1
    ensures x <= base * x
  {
  }

  /** Every 64-bit number has at most 64 digits, every 32-bit number at most 32. */
  lemma {:induction false} WordFits(base: nat, k: nat)
    requires base >= 2
    ensures Pow(2, k) <= Pow(base, k)
  {
    if k > 0 {
      WordFits(base, k - 1);
      Products(2, base, Pow(2, k - 1), Pow(base, k - 1));
    }
  }

  lemma Products(a: nat, b: nat, c: nat, d: nat)
    requires a <= b && c <= d
    ensures a * c <= b * d
  {
    assert a * c <= b * c && b * c <= b * d;
  }

  lemma FirstPowers()
    ensures Pow(2, 4) == 16 && Pow(10, 5) == 100000
  {
    assert Pow(10, 3) == 1000;
  }

  lemma Words()
    ensures Pow(2, 32) == WORD32 && Pow(2, 64) == WORD64
  {
    hide Pow;
    FirstPowers();
    Split(2, 4, 4);
    Split(2, 8, 8);
    Split(2, 16, 16);
    Split(2, 32, 32);
  }

  lemma TwentyDecimals()
    ensures WORD64 < Pow(10, 20)
  {
    hide Pow;
    FirstPowers();
    Split(10, 5, 5);
    Split(10, 10, 10);
  }

  lemma {:induction false} Split(base: nat, j: nat, k: nat)
    ensures Pow(base, j + k) == Pow(base, j) * Pow(base, k)
  {
    if j > 0 {
      Split(base, j - 1, k);
      Associate(base, Pow(base, j - 1), Pow(base, k));
    }
  }

  lemma Associate(a: nat, b: nat, c: nat)
    ensures (a * b) * c == a * (b * c)
  {
  }

  /** Digits that suffice for every number of a word. */
  function Width(base: nat, word: nat): nat {
    if word == WORD32 then 32 else if base == 10 then 20 else 64
  }

  lemma WidthFits(value: nat, base: nat, word: nat)
    requires base >= 2 && value < word && (word == WORD32 || word == WORD64)
    ensures value < Pow(base, Width(base, word))
  {
    Words();
    TwentyDecimals();
    hide Pow;
    WordFits(base, 32);
    WordFits(base, 64);
  }

  /** The quotient tells whether one more digit is needed. */
  lemma OneMore(value: nat, v: nat, base: nat)
    requires v > 0
    ensures value / v >= base <==> base * v <= value
  {
    var q := value / v;
    Recompose(value, v);
    if q >= base {
      Products(base, q, v, v);
    } else {
      assert v * q + v <= v * base by { Products(q + 1, base, v, v); }
    }
  }

  /** Taking a digit off the front. */
  lemma TakeDigit(rem: nat, v: nat, base: nat)
    requires v > 0 && rem < base * v
    ensures rem / v < base && rem == rem / v * v + rem % v && rem % v < v
  {
    Recompose(rem, v);
    OneMore(rem, v, base);
  }

  lemma ShiftIn(read: nat, base: nat, v: nat, digit: nat, low: nat)
    ensures (read * base + digit) * v + low == read * (base * v) + (digit * v + low)
  {
    assert (read * base + digit) * v == read * base * v + digit * v;
    assert read * base * v == read * (base * v);
  }

  /** The state between two digits: text is written, rest is to be written with m digits. */
  ghost predicate Partial(text: seq<char>, rest: nat, base: nat, upper: bool, k: nat, m: nat, number: nat) {
    && m <= k + 1 && |text| == k + 1 - m && rest < Pow(base, m)
    && ReadBack(text, base) >= 0 && ReadBack(text, base) * Pow(base, m) + rest == number
    && IsDigits(text, base, upper) && (|text| > 0 && k > 0 ==> text[0] != '0')
  }

  lemma DigitStep(text: seq<char>, rest: nat, base: nat, upper: bool, k: nat, m: nat, number: nat, v: nat,
                  digit: nat, low: nat)
    requires 2 <= base <= 16 && Partial(text, rest, base, upper, k, m, number) && m > 0 && v == Pow(base, m - 1)
    requires k == 0 || Pow(base, k) <= number
    requires digit < base && low < v && rest == digit * v + low
    ensures |text| > 0 || digit > 0 || m == 1
    ensures Partial(text + [DigitChar(digit, upper)], low, base, upper, k, m - 1, number)
  {
    hide DigitChar, Atoi, IsDigits, ReadBack;
    ReadNothing(base);
    var read := ReadBack(text, base);
    if |text| == 0 {
      assert text == [] && read == 0;
      assert read * Pow(base, m) == 0;
      assert rest == number && m == k + 1;
    }
    ShiftIn(read, base, v, digit, low);
    assert Pow(base, m) == base * v;
    hide Pow;
    ReadMore(text, base, upper, digit);
    AddDigit(text, base, upper, digit);
    ZeroDigit(digit, upper);
  }

  lemma ReadNothing(base: nat)
    ensures ReadBack([], base) == 0
  {
  }

  lemma ReadMore(text: seq<char>, base: nat, upper: bool, digit: nat)
    requires digit < 16
    ensures ReadBack(text + [DigitChar(digit, upper)], base) == ReadBack(text, base) * base + digit
  {
    AtoiOfDigit(digit, upper);
    hide DigitChar, Atoi;
    var after := text + [DigitChar(digit, upper)];
    assert after[..|after| - 1] == text;
  }

  lemma AddDigit(text: seq<char>, base: nat, upper: bool, digit: nat)
    requires IsDigits(text, base, upper) && digit < base <= 16
    ensures IsDigits(text + [DigitChar(digit, upper)], base, upper)
  {
  }

  lemma ZeroDigit(digit: nat, upper: bool)
    requires digit < 16
    ensures DigitChar(digit, upper) == '0' <==> digit == 0
  {
  }

  lemma NextPower(base: nat, m: nat)
    requires base >= 2 && m > 0
    ensures Pow(base, m - 1) / base == if m == 1 then 0 else Pow(base, m - 2)
  {
    if m > 1 {
      Quotient(Pow(base, m - 1), base, Pow(base, m - 2), 0);
    }
  }

  // Printing.

  /** The digit in front, what is left, and the next power of the base. */
  method NextDigit(value: nat, v: nat, base: nat, ghost m: nat) returns (digit: nat, rest: nat, next: nat)
    requires base >= 2 && m > 0 && v == Pow(base, m - 1) && value < Pow(base, m)
    ensures digit < base && rest < v && value == digit * v + rest
    ensures next == if m == 1 then 0 else Pow(base, m - 2)
  {
    hide Pow;
    digit, rest, next := value / v, value % v, v / base;
    DigitParts(value, v, base, m, digit, rest, next);
  }

  lemma DigitParts(value: nat, v: nat, base: nat, m: nat, digit: nat, rest: nat, next: nat)
    requires base >= 2 && m > 0 && v == Pow(base, m - 1) && value < Pow(base, m)
    requires digit == value / v && rest == value % v && next == v / base
    ensures digit < base && rest < v && value == digit * v + rest
    ensures next == if m == 1 then 0 else Pow(base, m - 2)
  {
    hide Pow;
    PowStep(base, m - 1);
    TakeDigit(value, v, base);
    NextPower(base, m);
  }

  /** The second loop: one digit for every power of the base down to 1. */
  method PutDigits(number: nat, base: nat, upper: bool, top: nat, buf: array<char>, at: nat,
                   ghost k: nat) returns (str: nat)
    requires 2 <= base <= 16 && top == Pow(base, k) && number < base * top && (k == 0 || top <= number)
    requires at + k + 1 < buf.Length
    modifies buf
    ensures str == at + k + 1 && IsNumeral(buf[at..str], number, base, upper)
    ensures forall i :: 0 <= i < at ==> buf[i] == old(buf[i])
  {
    hide DigitChar, Atoi, Partial, ReadBack, IsDigits, Pow;
    var value: nat, v: nat, n: nat := number, top, 0;
    str := at;
    ghost var m: nat := k + 1;
    Begin(number, base, upper, k);
    PowStep(base, k);
    assert buf[at..str] == [];
    while v != 0
      invariant m <= k + 1 && v == (if m == 0 then 0 else Pow(base, m - 1)) && n == str - at == k + 1 - m
      invariant Partial(buf[at..str], value, base, upper, k, m, number) && value < Pow(base, m)
      invariant forall i :: 0 <= i < at ==> buf[i] == old(buf[i])
      decreases m
    {
      ghost var text := buf[at..str];
      ghost var rest, power := value, v;
      var digit;
      digit, value, v := NextDigit(value, v, base, m);
      DigitStep(text, rest, base, upper, k, m, number, power, digit, value);
      if n > 0 || digit > 0 || v == 0 {
        buf[str] := DigitChar(digit, upper);
        str := str + 1;
        n := n + 1;
      }
      m := m - 1;
      assert buf[at..str] == text + [DigitChar(digit, upper)];
    }
    Complete(buf[at..str], value, base, upper, k, number);
  }

  lemma Begin(number: nat, base: nat, upper: bool, k: nat)
    requires number < base * Pow(base, k)
    ensures Partial([], number, base, upper, k, k + 1, number)
  {
  }

  lemma Complete(text: seq<char>, rest: nat, base: nat, upper: bool, k: nat, number: nat)
    requires Partial(text, rest, base, upper, k, 0, number)
    ensures IsNumeral(text, number, base, upper)
  {
  }

  /**
   ulitoa, and uitoa with 32-bit words: the text of value at a place of the buffer, closed
   by a zero. No power of the base leaves the word.
   */
  method Ulitoa(value: nat, base: nat, upper: bool, buf: array<char>, at: nat, ghost word: nat) returns (ghost end: nat)
    requires 2 <= base <= 16 && value < word && (word == WORD32 || word == WORD64)
    requires at + Width(base, word) < buf.Length
    modifies buf
    ensures at < end < buf.Length && buf[end] == '\0'
    ensures IsNumeral(buf[at..end], value, base, upper)
    ensures forall c :: c in buf[at..end] ==> c in (if upper then "0123456789ABCDEF" else "0123456789abcdef")[..base]
    ensures forall i :: 0 <= i < at ==> buf[i] == old(buf[i])
  {
    hide IsNumeral, Pow;
    var v: nat := 1;
    ghost var k: nat := 0;
    PowStep(base, k);
    while value / v >= base
      invariant 0 < v == Pow(base, k) && (k == 0 || v <= value)
      invariant forall i :: 0 <= i < at ==> buf[i] == old(buf[i])
      decreases value - v
    {
      OneMore(value, v, base);
      PowStep(base, k);
      assert v * base < word;
      v := v * base;
      k := k + 1;
    }
    OneMore(value, v, base);
    WidthFits(value, base, word);
    Enough(base, Width(base, word), k, value);
    var str := PutDigits(value, base, upper, v, buf, at, k);
    ghost var text := buf[at..str];
    buf[str] := '\0';
    assert buf[at..str] == text;
    end := str;
    CharsOf(text, value, base, upper);
  }

  lemma CharsOf(text: seq<char>, value: nat, base: nat, upper: bool)
    requires IsNumeral(text, value, base, upper) && base <= 16
    ensures forall c :: c in text ==> c in (if upper then "0123456789ABCDEF" else "0123456789abcdef")[..base]
  {
    hide DigitChar, IsDigits;
    DigitsAre(text, base, upper);
  }

  /** litoa; the buffer is that of vfprintf. The most negative number has no negation of its own. */
  method Litoa(value: int, buf: array<char>) returns (ghost end: nat)
    requires -0x8000_0000_0000_0000 <= value < 0x8000_0000_0000_0000 && buf.Length == BUFFER_SIZE
    modifies buf
    ensures end < buf.Length && buf[end] == '\0' && IsSigned(buf[..end], value, 10)
  {
    var uvalue: nat;
    var at: nat := 0;
    if value < 0 {
      assert -(value + 1) < 0x8000_0000_0000_0000;
      uvalue := -(value + 1) + 1;
      buf[0] := '-';
      at := 1;
    } else {
      uvalue := value;
    }
    end := Ulitoa(uvalue, 10, false, buf, at, WORD64);
    assert buf[at..end] == buf[..end][at..];
  }

  /** itoa, for every base. */
  method Itoa(value: int, base: nat, buf: array<char>) returns (ghost end: nat)
    requires -0x8000_0000 <= value < 0x8000_0000 && 2 <= base <= 16 && buf.Length == BUFFER_SIZE
    modifies buf
    ensures end < buf.Length && buf[end] == '\0' && IsSigned(buf[..end], value, base)
  {
    var uvalue: nat;
    var at: nat := 0;
    if value < 0 {
      assert -(value + 1) < 0x8000_0000;
      uvalue := -(value + 1) + 1;
      buf[0] := '-';
      at := 1;
    } else {
      uvalue := value;
    }
    end := Ulitoa(uvalue, base, false, buf, at, WORD32);
    assert buf[at..end] == buf[..end][at..];
  }

  // A number has one text.

  /** A text of n digits is below base^n, and without a leading zero at least base^(n-1). */
  lemma {:induction false} ReadBounds(text: seq<char>, base: nat, upper: bool)
    requires base >= 2 && IsDigits(text, base, upper)
    ensures 0 <= ReadBack(text, base) < Pow(base, |text|)
    ensures |text| > 0 && text[0] != '0' ==> ReadBack(text, base) >= Pow(base, |text| - 1)
  {
    hide DigitChar, Atoi, Pow, ReadBack;
    PowStep(base, 0);
    ReadNothing(base);
    if text != [] {
      var rest := text[..|text| - 1];
      var d := LastDigit(text, base, upper);
      ReadBounds(rest, base, upper);
      var r := ReadBack(rest, base);
      hide IsDigits;
      PowStep(base, |rest|);
      Within(r, d, Pow(base, |rest|), base);
      if text[0] != '0' && |text| > 1 {
        PowStep(base, |rest| - 1);
        Products(Pow(base, |rest| - 1), r, base, base);
      }
    }
  }

  lemma LastDigit(text: seq<char>, base: nat, upper: bool) returns (d: nat)
    requires IsDigits(text, base, upper) && text != []
    ensures d < base <= 16 && ReadBack(text, base) == ReadBack(text[..|text| - 1], base) * base + d
    ensures IsDigits(text[..|text| - 1], base, upper) && (|text| == 1 && text[0] != '0' ==> d > 0)
  {
    hide DigitChar, Atoi;
    var last := text[|text| - 1];
    var e: nat :| e < base <= 16 && last == DigitChar(e, upper);
    d := e;
    AtoiOfDigit(d, upper);
    ZeroDigit(d, upper);
  }

  lemma Within(r: nat, d: nat, p: nat, base: nat)
    requires r < p && d < base
    ensures r * base + d < base * p
  {
    Products(r + 1, p, base, base);
  }

  lemma {:induction false} SameLength(a: seq<char>, b: seq<char>, base: nat, upper: bool)
    requires base >= 2 && IsDigits(a, base, upper) && IsDigits(b, base, upper)
    requires |a| == |b| && ReadBack(a, base) == ReadBack(b, base)
    ensures a == b
  {
    hide DigitChar, Atoi;
    if a != [] {
      var n := |a| - 1;
      var d: nat :| d < base <= 16 && a[n] == DigitChar(d, upper);
      var e: nat :| e < base <= 16 && b[n] == DigitChar(e, upper);
      AtoiOfDigit(d, upper);
      AtoiOfDigit(e, upper);
      ReadBounds(a[..n], base, upper);
      ReadBounds(b[..n], base, upper);
      SameParts(ReadBack(a[..n], base), d, ReadBack(b[..n], base), e, base);
      SameLength(a[..n], b[..n], base, upper);
      assert a == a[..n] + [a[n]] && b == b[..n] + [b[n]];
    }
  }

  lemma SameParts(q: nat, r: nat, q': nat, r': nat, base: nat)
    requires r < base && r' < base && q * base + r == q' * base + r'
    ensures q == q' && r == r'
  {
    if q < q' {
      Products(q + 1, q', base, base);
    } else if q' < q {
      Products(q' + 1, q, base, base);
    }
  }

  /** Two numerals of one number in one base and case are the same text. */
  lemma NumeralIsUnique(a: seq<char>, b: seq<char>, value: nat, base: nat, upper: bool)
    requires base >= 2 && IsNumeral(a, value, base, upper) && IsNumeral(b, value, base, upper)
    ensures a == b
  {
    NotShorter(a, b, value, base, upper);
    NotShorter(b, a, value, base, upper);
    SameLength(a, b, base, upper);
  }

  lemma NotShorter(a: seq<char>, b: seq<char>, value: nat, base: nat, upper: bool)
    requires base >= 2 && IsNumeral(a, value, base, upper) && IsNumeral(b, value, base, upper)
    ensures |a| >= |b|
  {
    hide ReadBack, DigitChar, Atoi;
    ReadBounds(a, base, upper);
    ReadBounds(b, base, upper);
    if |a| < |b| - 1 {
      PowGrows(base, |a|, |b| - 1);
      Enlarge(Pow(base, |a|), base);
    }
  }

  lemma PowStep(base: nat, k: nat)
    requires base >= 2
    ensures Pow(base, 0) == 1 && Pow(base, k + 1) == base * Pow(base, k) == Pow(base, k) * base > Pow(base, k)
  {
  }

  lemma Enough(base: nat, width: nat, k: nat, value: nat)
    requires base >= 2 && value < Pow(base, width) && (k == 0 || Pow(base, k) <= value) && width > 0
    ensures k < width
  {
    if width < k {
      PowGrows(base, width, k);
      Enlarge(Pow(base, width), base);
    }
  }
}
