/** Printing and reading numbers in ngx_string.c. */
module Numbers {

  type Char = c: int | 0 <= c < 256

  const ERROR := -1                     // NGX_ERROR
  const MAX_INT_T := 2147483647         // NGX_MAX_INT_T_VALUE with NGX_PTR_SIZE 4
  const MAX_SIZE_T := 9223372036854775807   // also the bound for off_t and time_t
  const INT64_LEN := 20                 // NGX_INT64_LEN
  const DOT: Char := 0x2E

  // ----- the text of a number

  predicate IsDigit(c: Char, base: nat) {
    || 0x30 <= c <= 0x39
    || (base == 16 && (0x61 <= c <= 0x66 || 0x41 <= c <= 0x46))
  }

  function DigitValue(c: Char): (v: nat)
    requires IsDigit(c, 16)
    ensures v < 16 && (0x30 <= c <= 0x39 ==> v == c - 0x30)
  {
    if c <= 0x39 then c - 0x30 else if c >= 0x61 then c - 0x61 + 10 else c - 0x41 + 10
  }

  function DigitChar(v: nat, upper: bool): (c: Char)
    requires v < 16
    ensures IsDigit(c, 16) && DigitValue(c) == v && (v < 10 ==> IsDigit(c, 10))
  {
    if v < 10 then 0x30 + v else if upper then 0x41 + v - 10 else 0x61 + v - 10
  }

  predicate AllDigits(s: seq<Char>, base: nat) {
    forall c <- s :: IsDigit(c, base)
  }

  // one more digit, and one digit less
  function Put(v: nat, base: nat, d: nat): nat { v * base + d }
  function Drop(n: nat, base: nat): nat requires base > 0 { n / base }
  function Low(n: nat, base: nat): nat requires base > 0 { n % base }

  /** The number that the digits of `s` stand for. */
  function Value(s: seq<Char>, base: nat): nat
    requires AllDigits(s, base)
  {
    if s == [] then 0 else assert s[|s| - 1] in s; Put(Value(s[..|s| - 1], base), base, DigitValue(s[|s| - 1]))
  }

  lemma DropLess(n: nat, base: nat)
    requires base >= 2
    ensures 0 <= Low(n, base) < base && (n >= base ==> Drop(n, base) < n)
  {
  }

  /** The usual text of a number, with no leading zeros. */
  function Text(n: nat, base: nat, upper: bool): seq<Char>
    requires 2 <= base <= 16
  {
    DropLess(n, base);
    (if n < base then [] else Text(Drop(n, base), base, upper)) + [DigitChar(Low(n, base), upper)]
  }

  function Pow(base: nat, k: nat): nat { if k == 0 then 1 else base * Pow(base, k - 1) }

  lemma ValueLast(s: seq<Char>, c: Char, base: nat)
    requires AllDigits(s, base) && IsDigit(c, base)
    ensures AllDigits(s + [c], base) && Value(s + [c], base) == Put(Value(s, base), base, DigitValue(c))
  {
    assert (s + [c])[..|s|] == s;
  }

  lemma Division(n: nat, base: nat)
    requires base == 10 || base == 16
    ensures Put(Drop(n, base), base, Low(n, base)) == n && 0 <= Low(n, base) < base && (n < base ==> Drop(n, base) == 0)
  {
  }

  /** The text of a number is digits that stand for it. */
  lemma {:induction false} TextValue(n: nat, base: nat, upper: bool)
    requires base == 10 || base == 16
    ensures AllDigits(Text(n, base, upper), base) && Value(Text(n, base, upper), base) == n
  {
    hide Value, DigitValue, AllDigits, IsDigit, Put, Drop, Low;
    Division(n, base);
    NoDigits(base);
    LastDigit(Low(n, base), base, upper);
    var c := DigitChar(Low(n, base), upper);
    if n >= base {
      DropLess(n, base);
      TextValue(Drop(n, base), base, upper);
      ValueLast(Text(Drop(n, base), base, upper), c, base);
    } else {
      ValueLast([], c, base);
      assert [] + [c] == [c];
    }
  }

  lemma NoDigits(base: nat)
    ensures AllDigits([], base) && Value([], base) == 0
  {
  }

  lemma LastDigit(v: nat, base: nat, upper: bool)
    requires (base == 10 || base == 16) && v < base
    ensures IsDigit(DigitChar(v, upper), base) && DigitValue(DigitChar(v, upper)) == v
  {
  }

  lemma QuotientBelow(n: nat, base: nat, p: nat)
    requires base > 0 && n < base * p
    ensures Drop(n, base) < p
  {
  }

  lemma TextStep(n: nat, base: nat, upper: bool)
    requires 2 <= base <= 16
    ensures |Text(n, base, upper)| == 1 + if n < base then 0 else |Text(Drop(n, base), base, upper)|
  {
  }

  lemma PowStep(base: nat, k: nat)
    ensures Pow(base, 0) == 1 && (k > 0 ==> Pow(base, k) == base * Pow(base, k - 1))
  {
  }

  /** A number below base^k has at most k digits. */
  lemma {:induction false} TextLength(n: nat, base: nat, upper: bool, k: nat)
    requires 2 <= base <= 16 && k > 0 && n < Pow(base, k)
    ensures 1 <= |Text(n, base, upper)| <= k
    decreases k
  {
    hide Pow, Text, Drop, Low;
    TextStep(n, base, upper);
    PowStep(base, k);
    if n >= base {
      QuotientBelow(n, base, Pow(base, k - 1));
      if k == 1 {
        assert false;
      }
      TextLength(Drop(n, base), base, upper, k - 1);
    }
  }

  /** Every 64-bit number fits the scratch buffer of ngx_sprintf_num, in both bases. */
  lemma TextFits(n: nat, upper: bool)
    requires n < 0x1_0000_0000_0000_0000
    ensures |Text(n, 10, upper)| <= INT64_LEN && |Text(n, 16, upper)| <= 16
  {
    assert Pow(10, 20) == 100000000000000000000 by { PowersOfTen(); }
    assert Pow(16, 16) == 0x1_0000_0000_0000_0000 by { PowersOfSixteen(); }
    TextLength(n, 10, upper, 20);
    TextLength(n, 16, upper, 16);
  }

  lemma PowersOfTen()
    ensures Pow(10, 20) == 100000000000000000000
  {
    assert Pow(10, 5) == 100000;
    assert Pow(10, 10) == 10000000000;
    assert Pow(10, 15) == 1000000000000000;
  }

  lemma PowersOfSixteen()
    ensures Pow(16, 16) == 0x1_0000_0000_0000_0000
  {
    assert Pow(16, 4) == 0x1_0000;
    assert Pow(16, 8) == 0x1_0000_0000;
    assert Pow(16, 12) == 0x1_0000_0000_0000;
  }

  // ----- reading

  /** What a parser with the given bound returns: the value, or an error when the text is empty, holds
      something else, or exceeds the bound. */
  function Parsed(s: seq<Char>, base: nat, limit: nat): int {
    if s == [] || !AllDigits(s, base) || Value(s, base) > limit then ERROR else Value(s, base)
  }

  /** Reading what was printed gives the number back exactly when it is within the bound. */
  lemma ParsesPrinted(n: nat, base: nat, upper: bool, limit: nat)
    requires base == 10 || base == 16
    ensures Parsed(Text(n, base, upper), base, limit) == if n <= limit then n else ERROR
  {
    TextValue(n, base, upper);
  }

  lemma {:induction false} ValueGrows(s: seq<Char>, k: nat, base: nat)
    requires base >= 1 && AllDigits(s, base) && k <= |s|
    ensures Value(s[..k], base) <= Value(s, base)
  {
    if k < |s| {
      var front := s[..|s| - 1];
      ValueGrows(front, k, base);
      assert front[..k] == s[..k];
      PutAtLeast(Value(front, base), base);
      assert s[|s| - 1] in s;
    } else {
      assert s[..k] == s;
    }
  }

  lemma PutAtLeast(v: nat, base: nat)
    requires base >= 1
    ensures forall d: nat :: v <= Put(v, base, d)
  {
    TimesAtLeast(v, base);
  }

  lemma TimesAtLeast(a: nat, b: nat)
    requires b >= 1
    ensures a <= a * b
  {
  }

  lemma {:induction false} ValueNext(s: seq<Char>, k: nat, base: nat)
    requires k < |s| && AllDigits(s[..k], base) && IsDigit(s[k], base)
    ensures AllDigits(s[..k + 1], base) && Value(s[..k + 1], base) == Put(Value(s[..k], base), base, DigitValue(s[k]))
  {
    assert s[..k + 1] == s[..k] + [s[k]];
    assert s[..k + 1][..k] == s[..k];
  }

  /** Once the value of a prefix is too large, so is the whole. */
  lemma TooLarge(s: seq<Char>, k: nat, base: nat, limit: nat)
    requires base >= 1 && 0 < k <= |s| && AllDigits(s[..k], base) && Value(s[..k], base) > limit
    ensures Parsed(s, base, limit) == ERROR
  {
    if AllDigits(s, base) {
      ValueGrows(s, k, base);
    }
  }

  /** ngx_atosz, ngx_atoof, ngx_atotm with MAX_SIZE_T and ngx_atoi with MAX_INT_T */
  method ReadDecimal(line: seq<Char>, limit: nat) returns (value: int)
    ensures value == Parsed(line, 10, limit)
  {
    if |line| == 0 {
      return ERROR;
    }
    var cutoff, cutlim := limit / 10, limit % 10;
    value := 0;
    var k := 0;
    while k < |line|
      invariant 0 <= k <= |line| && AllDigits(line[..k], 10) && value == Value(line[..k], 10) <= limit
    {
      var c := line[k];
      if c < 0x30 || c > 0x39 {
        assert c in line;
        return ERROR;
      }
      ValueNext(line, k, 10);
      if value >= cutoff && (value > cutoff || c - 0x30 > cutlim) {
        TooLarge(line, k + 1, 10, limit);
        return ERROR;
      }
      value := value * 10 + (c - 0x30);
      k := k + 1;
    }
    assert line[..k] == line;
  }

  /** `ch | 0x20` */
  function Lower(ch: Char): Char { if ch / 32 % 2 == 0 then ch + 32 else ch }

  lemma LowerHex(ch: Char)
    ensures 0x61 <= Lower(ch) <= 0x66 <==> 0x61 <= ch <= 0x66 || 0x41 <= ch <= 0x46
    ensures 0x61 <= Lower(ch) <= 0x66 ==> DigitValue(ch) == Lower(ch) - 0x61 + 10
  {
  }

  /** ngx_hextoi */
  method ReadHex(line: seq<Char>) returns (value: int)
    ensures value == Parsed(line, 16, MAX_INT_T)
  {
    if |line| == 0 {
      return ERROR;
    }
    var cutoff := MAX_INT_T / 16;
    value := 0;
    var k := 0;
    while k < |line|
      invariant 0 <= k <= |line| && AllDigits(line[..k], 16) && value == Value(line[..k], 16) <= MAX_INT_T
    {
      var ch := line[k];
      if value > cutoff {
        if IsDigit(ch, 16) {
          ValueNext(line, k, 16);
          TooLarge(line, k + 1, 16, MAX_INT_T);
        }
        return ERROR;
      }
      var c := Lower(ch);
      LowerHex(ch);
      if 0x30 <= ch && ch <= 0x39 {
        ValueNext(line, k, 16);
        value := value * 16 + (ch - 0x30);
      } else if 0x61 <= c && c <= 0x66 {
        ValueNext(line, k, 16);
        value := value * 16 + (c - 0x61 + 10);
      } else {
        assert ch in line;
        return ERROR;
      }
      k := k + 1;
    }
    assert line[..k] == line;
  }

  // ----- fixed point

  /** How many dots there are. */
  function Dots(s: seq<Char>): nat {
    if s == [] then 0 else Dots(s[..|s| - 1]) + if s[|s| - 1] == DOT then 1 else 0
  }

  /** How many digits follow a dot. */
  function Fraction(s: seq<Char>): nat {
    if s == [] then 0 else Fraction(s[..|s| - 1]) + if s[|s| - 1] != DOT && Dots(s[..|s| - 1]) > 0 then 1 else 0
  }

  predicate DigitsAndDots(s: seq<Char>) {
    forall k :: 0 <= k < |s| ==> s[k] == DOT || IsDigit(s[k], 10)
  }

  /** The number that all the digits stand for, dots left out. */
  function Whole(s: seq<Char>): nat
    requires DigitsAndDots(s)
  {
    if s == [] then 0
    else if s[|s| - 1] == DOT then Whole(s[..|s| - 1])
    else Whole(s[..|s| - 1]) * 10 + DigitValue(s[|s| - 1])
  }

  predicate WellFormed(s: seq<Char>, point: nat) {
    s != [] && point > 0 && DigitsAndDots(s) && Dots(s) <= 1 && Fraction(s) <= point
  }

  /** The value of the text, in units of one in 10^point. */
  function Scaled(s: seq<Char>, point: nat): nat
    requires WellFormed(s, point)
  {
    Whole(s) * Pow(10, point - Fraction(s))
  }

  lemma {:induction false} PlainWhole(a: seq<Char>)
    requires AllDigits(a, 10)
    ensures DigitsAndDots(a) && Dots(a) == 0 && Fraction(a) == 0 && Whole(a) == Value(a, 10)
  {
    if a != [] {
      assert a[|a| - 1] in a;
      PlainWhole(a[..|a| - 1]);
    }
  }

  /** `a.b` stands for the value of `a` and the value of `b` shifted below it. */
  lemma {:induction false} ScaledMeans(a: seq<Char>, b: seq<Char>, point: nat)
    requires AllDigits(a, 10) && AllDigits(b, 10) && |b| <= point && point > 0
    ensures WellFormed(a + [DOT] + b, point)
    ensures Scaled(a + [DOT] + b, point) == Value(a, 10) * Pow(10, point) + Value(b, 10) * Pow(10, point - |b|)
  {
    AfterDot(a, b);
    PowJoins(|b|, point - |b|);
    var w, p, q, r := Value(a, 10), Pow(10, |b|), Pow(10, point - |b|), Value(b, 10);
    Distributes(w, p, r, q);
  }

  lemma Distributes(w: nat, p: nat, r: nat, q: nat)
    ensures (w * p + r) * q == w * (p * q) + r * q
  {
  }

  lemma {:induction false} PowJoins(m: nat, n: nat)
    ensures Pow(10, m + n) == Pow(10, m) * Pow(10, n)
  {
    if m > 0 {
      PowJoins(m - 1, n);
    }
  }

  lemma Shifted(w: nat, p: nat, v: nat, d: nat)
    ensures (w * p + v) * 10 + d == w * (10 * p) + (v * 10 + d)
  {
  }

  lemma {:induction false} AfterDot(a: seq<Char>, b: seq<Char>)
    requires AllDigits(a, 10) && AllDigits(b, 10)
    ensures var s := a + [DOT] + b;
      && DigitsAndDots(s) && Dots(s) == 1 && Fraction(s) == |b|
      && Whole(s) == Value(a, 10) * Pow(10, |b|) + Value(b, 10)
  {
    var s := a + [DOT] + b;
    if b == [] {
      PlainWhole(a);
      assert s == a + [DOT] && s[..|s| - 1] == a;
    } else {
      var front := b[..|b| - 1];
      AfterDot(a, front);
      assert s[..|s| - 1] == a + [DOT] + front;
      assert b[|b| - 1] in b;
      Shifted(Value(a, 10), Pow(10, |b| - 1), Value(front, 10), DigitValue(b[|b| - 1]));
    }
  }

  lemma FixedNext(s: seq<Char>, k: nat)
    requires k < |s| && DigitsAndDots(s[..k])
    ensures Dots(s[..k + 1]) == Dots(s[..k]) + if s[k] == DOT then 1 else 0
    ensures Fraction(s[..k + 1]) == Fraction(s[..k]) + if s[k] != DOT && Dots(s[..k]) > 0 then 1 else 0
    ensures s[k] == DOT || IsDigit(s[k], 10) ==> DigitsAndDots(s[..k + 1])
    ensures s[k] == DOT ==> Whole(s[..k + 1]) == Whole(s[..k])
    ensures IsDigit(s[k], 10) ==> Whole(s[..k + 1]) == Whole(s[..k]) * 10 + DigitValue(s[k])
  {
    assert s[..k + 1][..k] == s[..k];
  }

  /** All three counts only grow along the text. */
  lemma {:induction false} FixedGrows(s: seq<Char>, k: nat)
    requires DigitsAndDots(s) && k <= |s|
    ensures Dots(s[..k]) <= Dots(s) && Fraction(s[..k]) <= Fraction(s) && Whole(s[..k]) <= Whole(s)
  {
    if k < |s| {
      var front := s[..|s| - 1];
      FixedGrows(front, k);
      assert front[..k] == s[..k];
    } else {
      assert s[..k] == s;
    }
  }

  /** What ngx_atofp returns. */
  function FixedParsed(s: seq<Char>, point: nat, limit: nat): int {
    if WellFormed(s, point) && Scaled(s, point) <= limit then Scaled(s, point) else ERROR
  }

  lemma {:induction false} FixedTooLarge(s: seq<Char>, k: nat, point: nat, limit: nat)
    requires k <= |s| && DigitsAndDots(s[..k]) && Whole(s[..k]) > limit
    ensures FixedParsed(s, point, limit) == ERROR
  {
    if WellFormed(s, point) {
      FixedGrows(s, k);
      PowPositive(point - Fraction(s));
      TimesAtLeast(Whole(s), Pow(10, point - Fraction(s)));
    }
  }

  lemma {:induction false} PowPositive(k: nat)
    ensures Pow(10, k) >= 1
  {
    if k > 0 { PowPositive(k - 1); }
  }

  /** Text that goes on once every allowed fraction digit has been read, or that has a second dot, is refused. */
  lemma {:induction false} FixedMalformed(s: seq<Char>, k: nat, point: nat, limit: nat)
    requires k < |s| && DigitsAndDots(s[..k])
    requires
      || (Fraction(s[..k]) == point && (point > 0 ==> Dots(s[..k]) == 1))
      || (s[k] == DOT && Dots(s[..k]) == 1)
      || !(s[k] == DOT || IsDigit(s[k], 10))
    ensures FixedParsed(s, point, limit) == ERROR
  {
    if WellFormed(s, point) {
      FixedNext(s, k);
      FixedGrows(s, k + 1);
    }
  }

  /** ngx_atofp */
  method ReadFixed(line: seq<Char>, places: nat) returns (value: int)
    ensures value == FixedParsed(line, places, MAX_INT_T)
  {
    hide WellFormed, Scaled, FixedParsed, Whole, Dots, Fraction;
    if |line| == 0 {
      NoText(places);
      return ERROR;
    }
    var cutoff, cutlim := MAX_INT_T / 10, MAX_INT_T % 10;
    var point, dot := places, 0;
    value := 0;
    var k := 0;
    NoText(places);
    assert line[..0] == [];
    while k < |line|
      invariant 0 <= k <= |line| && DigitsAndDots(line[..k]) && value == Whole(line[..k]) <= MAX_INT_T
      invariant dot == Dots(line[..k]) <= 1 && point == places - Fraction(line[..k]) && point >= 0
      invariant (point < places ==> dot == 1) && (k > 0 ==> places > 0)
    {
      var c := line[k];
      if point == 0 {
        FixedMalformed(line, k, places, MAX_INT_T);
        return ERROR;
      }
      FixedNext(line, k);
      if c == DOT {
        if dot != 0 {
          FixedMalformed(line, k, places, MAX_INT_T);
          return ERROR;
        }
        dot := 1;
      } else {
        if c < 0x30 || c > 0x39 {
          FixedMalformed(line, k, places, MAX_INT_T);
          return ERROR;
        }
        if value >= cutoff && (value > cutoff || c - 0x30 > cutlim) {
          FixedTooLarge(line, k + 1, places, MAX_INT_T);
          return ERROR;
        }
        value := value * 10 + (c - 0x30);
        point := point - dot;
      }
      k := k + 1;
    }
    assert line[..k] == line;
    value := Shift(line, places, value, point);
  }

  lemma NoText(places: nat)
    ensures FixedParsed([], places, MAX_INT_T) == ERROR
    ensures Dots([]) == 0 && Fraction([]) == 0 && Whole([]) == 0
  {
  }

  lemma OneMore(v: nat, p: nat, limit: nat)
    requires p >= 1
    ensures v * (10 * p) == v * 10 * p
    ensures v * 10 > limit ==> v * (10 * p) > limit
  {
    TimesAtLeast(v * 10, p);
  }

  /** The last loop of ngx_atofp: ten times over for every place not written out. */
  method Shift(ghost line: seq<Char>, ghost places: nat, whole: nat, unused: nat) returns (value: int)
    requires DigitsAndDots(line) && line != [] && Dots(line) <= 1 && places > 0 && whole == Whole(line) <= MAX_INT_T
    requires unused == places - Fraction(line)
    ensures value == FixedParsed(line, places, MAX_INT_T)
  {
    hide Pow, Whole, Dots, Fraction;
    var cutoff := MAX_INT_T / 10;
    var point := unused;
    value := whole;
    while point > 0
      invariant 0 <= point <= unused && 0 <= value <= MAX_INT_T
      invariant value * Pow(10, point) == whole * Pow(10, unused)
    {
      PowStep(10, point);
      PowPositive(point - 1);
      OneMore(value, Pow(10, point - 1), MAX_INT_T);
      if value > cutoff {
        return ERROR;
      }
      value := value * 10;
      point := point - 1;
    }
    PowStep(10, 0);
  }

  // ----- printing

  lemma TextShape(n: nat, base: nat, upper: bool)
    requires 2 <= base <= 16
    ensures Low(n, base) < base && |Text(n, base, upper)| >= 1
    ensures Text(n, base, upper) ==
      (if Drop(n, base) == 0 then [] else Text(Drop(n, base), base, upper)) + [DigitChar(Low(n, base), upper)]
  {
    DropZero(n, base);
  }

  lemma DropZero(n: nat, base: nat)
    requires base >= 2
    ensures (Drop(n, base) == 0 <==> n < base) && Low(n, base) < base
  {
  }

  /** The digits, written from the end of the scratch buffer backwards. */
  method PutDigits(temp: array<Char>, number: nat, base: nat, upper: bool) returns (p: nat)
    requires temp.Length > INT64_LEN && 2 <= base <= 16 && |Text(number, base, upper)| <= INT64_LEN
    modifies temp
    ensures p <= INT64_LEN && temp[p..INT64_LEN] == Text(number, base, upper)
  {
    hide Text, Drop, Low, DigitChar;
    p := INT64_LEN;
    var n := number;
    while true
      invariant p <= INT64_LEN && Text(number, base, upper) == Text(n, base, upper) + temp[p..INT64_LEN]
      decreases p
    {
      TextShape(n, base, upper);
      ghost var done := temp[p..INT64_LEN];
      p := p - 1;
      temp[p] := DigitChar(Low(n, base), upper);
      assert temp[p..INT64_LEN] == [DigitChar(Low(n, base), upper)] + done;
      n := Drop(n, base);
      if n == 0 {
        break;
      }
    }
  }

  function Padding(zero: Char, n: int): seq<Char> { if n <= 0 then [] else Padding(zero, n - 1) + [zero] }

  /** What is printed when there is room enough. */
  function Printed(number: nat, zero: Char, hexadecimal: nat, width: nat): seq<Char> {
    var t := Text(number, if hexadecimal == 0 then 10 else 16, hexadecimal > 1);
    Padding(zero, width - |t|) + t
  }

  lemma {:induction false} PaddingLength(zero: Char, n: int)
    ensures |Padding(zero, n)| == if n <= 0 then 0 else n
  {
    if n > 0 { PaddingLength(zero, n - 1); }
  }

  lemma {:induction false} PaddingPrefix(zero: Char, m: nat, n: int)
    requires m <= n
    ensures Padding(zero, m) <= Padding(zero, n)
  {
    if m < n { PaddingPrefix(zero, m, n - 1); }
  }

  /** The padding loop. */
  method Pad(buf: array<Char>, start: nat, last: nat, length: nat, zero: Char, width: nat) returns (end: nat)
    requires start <= last <= buf.Length
    modifies buf
    ensures start <= end <= last && (end == last || end - start == if width > length then width - length else 0)
    ensures buf[start..end] == Padding(zero, end - start) && (end > start ==> end - start <= width - length)
    ensures forall x :: 0 <= x < buf.Length && !(start <= x < end) ==> buf[x] == old(buf[x])
  {
    var len := length;
    end := start;
    while len < width && end < last
      invariant start <= end <= last && len == length + (end - start) && (end > start ==> len <= width)
      invariant buf[start..end] == Padding(zero, end - start)
      invariant forall x :: 0 <= x < buf.Length && !(start <= x < end) ==> buf[x] == old(buf[x])
    {
      buf[end] := zero;
      assert buf[start..end + 1] == buf[start..end] + [zero];
      len := len + 1;
      end := end + 1;
    }
  }

  /** ngx_cpymem of as much of `t` as fits. */
  method Copy(buf: array<Char>, ghost first: nat, start: nat, last: nat, t: seq<Char>) returns (end: nat)
    requires first <= start <= last <= buf.Length
    modifies buf
    ensures end == if start + |t| > last then last else start + |t|
    ensures buf[first..end] == old(buf[first..start]) + t[..end - start]
    ensures forall x :: 0 <= x < buf.Length && !(start <= x < end) ==> buf[x] == old(buf[x])
  {
    var len := |t|;
    if start + len > last {
      len := last - start;
    }
    end := start;
    while end < start + len
      invariant start <= end <= start + len
      invariant buf[first..end] == old(buf[first..start]) + t[..end - start]
      invariant forall x :: 0 <= x < buf.Length && !(start <= x < end) ==> buf[x] == old(buf[x])
    {
      buf[end] := t[end - start];
      assert buf[first..end + 1] == buf[first..end] + [t[end - start]];
      end := end + 1;
    }
  }

  /** The padding, and the number as far as it fits. */
  method PutPadded(buf: array<Char>, start: nat, last: nat, t: seq<Char>, zero: Char, width: nat) returns (end: nat)
    requires start <= last <= buf.Length
    modifies buf
    ensures start <= end <= last
    ensures buf[start..end] <= Padding(zero, width - |t|) + t
    ensures end == last || end - start == |Padding(zero, width - |t|) + t|
    ensures buf[..start] == old(buf[..start]) && buf[end..] == old(buf[end..])
  {
    hide Padding;
    PaddingLength(zero, width - |t|);
    var from := Pad(buf, start, last, |t|, zero, width);
    NoPadding(zero, from - start, width - |t|);
    end := Copy(buf, start, from, last, t);
  }

  lemma NoPadding(zero: Char, m: nat, n: int)
    requires m <= n || m == 0
    ensures Padding(zero, m) <= Padding(zero, n)
  {
    if m <= n { PaddingPrefix(zero, m, n); }
  }

  /** ngx_sprintf_num: as much as fits before `last` of the padded text of the number. */
  method SprintfNum(buf: array<Char>, start: nat, last: nat, ui64: nat, zero: Char, hexadecimal: nat, width: nat)
    returns (end: nat)
    requires start <= last <= buf.Length && ui64 < 0x1_0000_0000_0000_0000
    modifies buf
    ensures start <= end <= last
    ensures buf[start..end] <= Printed(ui64, zero, hexadecimal, width)
    ensures end == last || end - start == |Printed(ui64, zero, hexadecimal, width)|
    ensures buf[..start] == old(buf[..start]) && buf[end..] == old(buf[end..])
  {
    hide Text, Padding;
    var upper := hexadecimal > 1;
    TextFits(ui64, upper);
    var temp := new Char[INT64_LEN + 1];
    var p := PutDigits(temp, ui64, if hexadecimal == 0 then 10 else 16, upper);
    end := PutPadded(buf, start, last, temp[p..INT64_LEN], zero, width);
  }
}
