/** common.c: the decimal digit loops of printf; kernel.c: str_to_int. */
module Decimal {

  predicate IsDigit(c: char) {
    '0' <= c <= '9'
  }

  function DigitChar(d: nat): (c: char)
    requires d < 10
    ensures IsDigit(c) && DigitOf(c) == d
  {
    '0' + d as char
  }

  function DigitOf(c: char): (d: nat)
    requires IsDigit(c)
    ensures d < 10
  {
    (c - '0') as int
  }

  predicate AllDigits(s: string) {
    forall i :: 0 <= i < |s| ==> IsDigit(s[i])
  }

  /** The number that a string of digits denotes. */
  function Value(s: string): nat
    requires AllDigits(s)
  {
    if s == [] then 0 else 10 * Value(s[..|s| - 1]) + DigitOf(s[|s| - 1])
  }

  /** At least one digit, and no leading zero before another digit. */
  predicate Canonical(s: string) {
    s != [] && AllDigits(s) && (|s| > 1 ==> s[0] != '0')
  }

  /** The decimal notation of `n`. */
  function Digits(n: nat): string {
    if n < 10 then [DigitChar(n)] else Digits(n / 10) + [DigitChar(n % 10)]
  }

  /** The notation is canonical and denotes `n`. */
  lemma {:induction false} DigitsCanonical(n: nat)
    ensures Canonical(Digits(n)) && Value(Digits(n)) == n
    ensures n > 0 ==> Digits(n)[0] != '0'
  {
    if n < 10 {
      assert Digits(n)[..0] == [];
    } else {
      DigitsCanonical(n / 10);
      var s := Digits(n / 10);
      assert Digits(n)[..|s|] == s;
    }
  }

  lemma {:induction false} NextDigit(v: nat, d: nat)
    requires v > 0 && d < 10
    ensures Digits(10 * v + d) == Digits(v) + [DigitChar(d)]
  {
  }

  lemma {:induction false} CharBack(c: char)
    requires IsDigit(c)
    ensures DigitChar(DigitOf(c)) == c
  {
  }

  lemma {:induction false} ValueStep(p: string, c: char)
    requires AllDigits(p + [c])
    ensures AllDigits(p) && IsDigit(c) && Value(p + [c]) == 10 * Value(p) + DigitOf(c)
  {
    assert (p + [c])[|p|] == c && (p + [c])[..|p|] == p;
    forall i | 0 <= i < |p| ensures IsDigit(p[i]) {
      assert (p + [c])[i] == p[i];
    }
  }

  /** It is the only one. */
  lemma {:induction false} CanonicalUnique(s: string)
    requires Canonical(s)
    ensures s == Digits(Value(s)) && (s[0] != '0' ==> Value(s) > 0)
  {
    var p, c := s[..|s| - 1], s[|s| - 1];
    assert s == p + [c];
    ValueStep(p, c);
    CharBack(c);
    if p == [] {
      OneDigit(c);
    } else {
      assert p[0] == s[0];
      CanonicalUnique(p);
      hide Digits, Value, DigitChar, DigitOf;
      NextDigit(Value(p), DigitOf(c));
    }
  }

  lemma {:induction false} OneDigit(c: char)
    requires IsDigit(c)
    ensures Digits(DigitOf(c)) == [c] && (c != '0' ==> DigitOf(c) > 0) && Value([]) == 0
  {
  }

  // ---------------------------------------------------------------- the divisor loop

  function Pow10(k: nat): (p: nat)
    ensures p > 0
  {
    if k == 0 then 1 else 10 * Pow10(k - 1)
  }

  /** The last `k` digits of `v`. */
  function Fixed(v: nat, k: nat): string {
    if k == 0 then "" else Fixed(v / 10, k - 1) + [DigitChar(v % 10)]
  }

  lemma {:induction false} MulMono(a: int, b: int, d: nat)
    ensures a < b ==> a * d + d <= b * d
    decreases b - a
  {
    assert (b - 1) * d == b * d - d;
    if a < b - 1 {
      MulMono(a, b - 1, d);
    }
  }

  lemma {:induction false} DivUnique(n: int, d: nat, q: int, r: nat)
    requires n == q * d + r && r < d
    ensures n / d == q && n % d == r
  {
    MulMono(q, n / d, d);
    MulMono(n / d, q, d);
  }

  /** Splitting off the last digit commutes with splitting at a power of ten. */
  lemma {:induction false} SplitDigit(v: nat, p: nat)
    requires p > 0
    ensures var r := v % (10 * p);
      v % 10 == r % 10 && v / 10 / p == v / (10 * p) && v / 10 % p == r / 10
  {
    var q, r := v / (10 * p), v % (10 * p);
    var a, b := r / 10, r % 10;
    assert v == 10 * (q * p + a) + b by {
      assert v == q * (10 * p) + r;
      assert q * (10 * p) == 10 * (q * p);
    }
    DivUnique(v, 10, q * p + a, b);
    DivUnique(v / 10, p, q, a);
  }

  lemma {:induction false} FixedHead(v: nat, k: nat)
    requires v < Pow10(k + 1)
    ensures v / Pow10(k) < 10 && Fixed(v, k + 1) == [DigitChar(v / Pow10(k))] + Fixed(v % Pow10(k), k)
  {
    if k == 0 {
      DivUnique(v, 1, v, 0);
      assert Fixed(v, 1) == Fixed(v / 10, 0) + [DigitChar(v % 10)];
    } else {
      var r := v % Pow10(k);
      SplitDigit(v, Pow10(k - 1));
      FixedHead(v / 10, k - 1);
      assert Fixed(v, k + 1) == Fixed(v / 10, k) + [DigitChar(r % 10)];
      assert Fixed(r, k) == Fixed(r / 10, k - 1) + [DigitChar(r % 10)];
    }
  }

  lemma {:induction false} DigitsFixed(n: nat, k: nat)
    requires (k == 0 || Pow10(k) <= n) && n < Pow10(k + 1)
    ensures Digits(n) == Fixed(n, k + 1)
  {
    if k == 0 {
      assert Fixed(n, 1) == Fixed(n / 10, 0) + [DigitChar(n % 10)];
    } else {
      assert Pow10(k) == 10 * Pow10(k - 1) && Pow10(k + 1) == 10 * Pow10(k);
      DigitsFixed(n / 10, k - 1);
    }
  }

  /** The loops of %d, %u, %lu and %ld over unsigned words below `modulus`: the divisor is
      multiplied modulo the word size and still the exact notation comes out. */
  method PrintByDivisor(number: nat, modulus: nat) returns (out: string)
    requires number < modulus
    ensures out == Digits(number)
  {
    var divisor: nat := 1;
    ghost var k := 0;
    while number / divisor > 9
      invariant 0 < divisor == Pow10(k) && (k == 0 || divisor <= number)
      decreases number - divisor
    {
      Times10(number, divisor);
      DivUnique(divisor * 10, modulus, 0, divisor * 10);
      divisor := divisor * 10 % modulus;
      k := k + 1;
    }
    BelowTimes10(number, divisor);
    DigitsFixed(number, k);
    out := EmitFrom(number, divisor, k);
  }

  /** The second loop, from a divisor of `10^k` down. */
  method EmitFrom(number: nat, first: nat, ghost k: nat) returns (out: string)
    requires first == Pow10(k) && number < Pow10(k + 1)
    ensures out == Fixed(number, k + 1)
  {
    var value: nat, divisor: nat := number, first;
    ghost var left: nat := k + 1;
    out := "";
    while divisor > 0
      invariant divisor == (if left == 0 then 0 else Pow10(left - 1)) && value < Pow10(left)
      invariant out + Fixed(value, left) == Fixed(number, k + 1)
      decreases left
    {
      FixedHead(value, left - 1);
      Shorten(out, DigitChar(value / divisor), Fixed(value % divisor, left - 1));
      out := out + [DigitChar(value / divisor)];
      value := value % divisor;
      divisor := divisor / 10;
      left := left - 1;
    }
  }

  lemma {:induction false} Shorten(s: string, c: char, t: string)
    ensures s + ([c] + t) == s + [c] + t
  {
  }

  lemma {:induction false} Times10(v: nat, d: nat)
    requires d > 0 && v / d > 9
    ensures 10 * d <= v
  {
    MulMono(9, v / d, d);
  }

  lemma {:induction false} BelowTimes10(v: nat, d: nat)
    requires d > 0 && v / d <= 9
    ensures v < 10 * d
  {
    MulMono(v / d, 10, d);
  }

  /** A minus sign exactly for negative values, then the canonical notation of the magnitude. */
  predicate Denotes(s: string, value: int) {
    && s != [] && (s[0] == '-' <==> value < 0)
    && var digits := if value < 0 then s[1..] else s;
    Canonical(digits) && Value(digits) == if value < 0 then -value else value
  }

  lemma {:induction false} SignedDenotes(value: int, sign: string, digits: string)
    requires sign == (if value < 0 then "-" else "") && digits == Digits(if value < 0 then -value else value)
    ensures Denotes(sign + digits, value)
  {
    DigitsCanonical(if value < 0 then -value else value);
    if value < 0 {
      assert (sign + digits)[1..] == digits;
    } else {
      assert sign + digits == digits;
      assert IsDigit(digits[0]);
    }
  }

  /** Each value has one notation and each notation one value. */
  lemma {:induction false} DenotesUnique(s: string, a: int, t: string, b: int)
    requires Denotes(s, a) && Denotes(t, b)
    ensures s == t <==> a == b
  {
    if a == b { OneNotation(s, t, a); }
    if s == t { OneValue(s, a, b); }
  }

  lemma {:induction false} OneNotation(s: string, t: string, value: int)
    requires Denotes(s, value) && Denotes(t, value)
    ensures s == t
  {
    var x, y := if value < 0 then s[1..] else s, if value < 0 then t[1..] else t;
    CanonicalUnique(x);
    CanonicalUnique(y);
    hide Digits, Value, Canonical;
    assert x == y;
    if value < 0 {
      assert s == [s[0]] + x && t == [t[0]] + y;
    }
  }

  lemma {:induction false} OneValue(s: string, a: int, b: int)
    requires Denotes(s, a) && Denotes(s, b)
    ensures a == b
  {
    hide Value, Canonical;
  }

  /** The magnitude by unsigned negation in words of size `2 * half`, right also for the
      least value. */
  function Magnitude(value: int, half: int): (m: nat)
    requires -half <= value < half
    ensures m < 2 * half && m == if value < 0 then -value else value
  {
    var modulus: nat := 2 * half;
    if value < 0 then
      DivUnique(value, modulus, -1, value + modulus);
      DivUnique(-value, modulus, 0, -value);
      (modulus - value % modulus) % modulus
    else
      DivUnique(value, modulus, 0, value);
      value % modulus
  }

  /** %d, %ld. */
  method PrintSigned(value: int, half: int) returns (out: string)
    requires -half <= value < half
    ensures Denotes(out, value)
  {
    out := if value < 0 then "-" else "";
    var digits := PrintByDivisor(Magnitude(value, half), 2 * half);
    SignedDenotes(value, out, digits);
    out := out + digits;
  }

  // ---------------------------------------------------------------- the buffer loop

  function Reversed(s: string): string {
    if s == [] then "" else [s[|s| - 1]] + Reversed(s[..|s| - 1])
  }

  /** The loops of %llu: twenty digits always suffice, so the buffer of 32 never truncates. */
  method PrintByBuffer(number: nat) returns (out: string)
    requires number < 0x1_0000_0000_0000_0000
    ensures out == Digits(number)
  {
    if number == 0 {
      return "0";
    }
    var buf := new char[32];
    PowerOfTwenty();
    var pos := FillBuffer(number, buf, 20);
    out := EmitReversed(buf, pos);
  }

  /** The digits, least significant first. */
  method FillBuffer(number: nat, buf: array<char>, ghost digits: nat) returns (pos: nat)
    requires 0 < number < Pow10(digits) && digits < 31 && buf.Length == 32
    modifies buf
    ensures pos <= digits && Reversed(buf[..pos]) == Digits(number)
  {
    var value: nat := number;
    pos := 0;
    assert buf[..0] == "";
    assert Filling(number, value, "", digits);
    hide Filling;
    while value > 0 && pos < 31
      invariant pos <= digits && Filling(number, value, buf[..pos], digits)
      decreases value
    {
      ghost var front := buf[..pos];
      FillStep(number, value, front, digits);
      buf[pos] := DigitChar(value % 10);
      assert buf[..pos + 1] == front + [DigitChar(value % 10)];
      value := value / 10;
      pos := pos + 1;
    }
    FillDone(number, value, buf[..pos], digits);
  }

  /** What is left of the number and what is in the buffer make up its digits. */
  ghost predicate Filling(number: nat, value: nat, front: string, digits: nat) {
    && |front| <= digits && value < Pow10(digits - |front|)
    && Before(value) + Reversed(front) == Digits(number)
  }

  lemma {:induction false} FillStep(number: nat, value: nat, front: string, digits: nat)
    requires value > 0 && Filling(number, value, front, digits)
    ensures |front| < digits && Filling(number, value / 10, front + [DigitChar(value % 10)], digits)
  {
    hide Pow10, Digits, Reversed, Before, DigitChar;
    Room(value, digits - |front|);
    MoveDigit(value, front);
  }

  lemma {:induction false} FillDone(number: nat, value: nat, front: string, digits: nat)
    requires Filling(number, value, front, digits) && (value == 0 || |front| >= digits)
    ensures Reversed(front) == Digits(number)
  {
    hide Pow10, Digits, Reversed, Before;
    NoRoom(value, digits - |front|, Reversed(front));
  }

  /** The digits still to be stored. */
  function Before(value: nat): string {
    if value == 0 then "" else Digits(value)
  }

  lemma {:induction false} MoveDigit(value: nat, front: string)
    requires value > 0
    ensures Before(value) + Reversed(front) == Before(value / 10) + Reversed(front + [DigitChar(value % 10)])
  {
    var c := DigitChar(value % 10);
    assert (front + [c])[..|front|] == front;
    assert Before(value) == Before(value / 10) + [c];
    Shorten(Before(value / 10), c, Reversed(front));
  }

  /** Writing out the buffer backwards. */
  method EmitReversed(buf: array<char>, pos: nat) returns (out: string)
    requires pos <= buf.Length
    ensures out == Reversed(buf[..pos])
  {
    out := "";
    var i := pos - 1;
    while i >= 0
      invariant -1 <= i < pos
      invariant out + Reversed(buf[..i + 1]) == Reversed(buf[..pos])
    {
      assert buf[..i + 1][..i] == buf[..i];
      Shorten(out, buf[i], Reversed(buf[..i]));
      out := out + [buf[i]];
      i := i - 1;
    }
    assert Reversed(buf[..0]) == "";
  }

  lemma {:induction false} Room(value: nat, k: nat)
    requires 0 < value < Pow10(k)
    ensures k > 0 && value / 10 < Pow10(k - 1)
  {
  }

  /** A value with no digit to come is zero. */
  lemma {:induction false} NoRoom(value: nat, k: nat, s: string)
    requires value < Pow10(k)
    ensures k == 0 ==> value == 0
    ensures Before(0) + s == s
  {
  }

  lemma {:induction false} PowerOfTwenty()
    ensures Pow10(20) == 100000000000000000000
  {
    assert Pow10(5) == 100000;
    assert Pow10(10) == 10000000000;
    assert Pow10(15) == 1000000000000000;
  }

  /** %lld. */
  method PrintSignedByBuffer(value: int) returns (out: string)
    requires -0x8000_0000_0000_0000 <= value < 0x8000_0000_0000_0000
    ensures Denotes(out, value)
  {
    out := if value < 0 then "-" else "";
    var digits := PrintByBuffer(Magnitude(value, 0x8000_0000_0000_0000));
    SignedDenotes(value, out, digits);
    out := out + digits;
  }

  // ---------------------------------------------------------------- str_to_int

  /** The longest prefix of digits. */
  function Leading(s: string): (p: string)
    ensures AllDigits(p) && p <= s && (|p| < |s| ==> !IsDigit(s[|p|]))
  {
    if s == [] || !IsDigit(s[0]) then "" else [s[0]] + Leading(s[1..])
  }

  /** A prefix denotes no more than the whole. */
  lemma {:induction false} ValuePrefix(p: string, i: nat)
    requires AllDigits(p) && i <= |p|
    ensures Value(p[..i]) <= Value(p)
    decreases |p|
  {
    if i == |p| {
      assert p[..i] == p;
    } else {
      var q := p[..|p| - 1];
      assert q[..i] == p[..i];
      ValuePrefix(q, i);
    }
  }

  /** str_to_int on a string that ends at its last character. */
  method StrToInt(s: string) returns (result: nat)
    requires Value(Leading(s)) < 0x8000_0000
    ensures result == Value(Leading(s)) && result < 0x8000_0000
  {
    ReadAll(s);
    hide ReadSoFar, Leading, Value, DigitOf;
    result := 0;
    var i := 0;
    while i < |s| && IsDigit(s[i])
      invariant 0 <= i <= |Leading(s)| && result == ReadSoFar(s, i) && result < 0x8000_0000
    {
      ReadDigit(s, i);
      assert result * 10 + DigitOf(s[i]) < 0x8000_0000;
      result := result * 10 + DigitOf(s[i]);
      i := i + 1;
    }
  }

  /** The value of the first `i` leading digits. */
  function ReadSoFar(s: string, i: nat): nat
    requires i <= |Leading(s)|
  {
    Value(Leading(s)[..i])
  }

  lemma {:induction false} ReadAll(s: string)
    ensures ReadSoFar(s, 0) == 0 && ReadSoFar(s, |Leading(s)|) == Value(Leading(s))
  {
    assert Leading(s)[..|Leading(s)|] == Leading(s) && Leading(s)[..0] == [];
  }

  lemma {:induction false} ReadDigit(s: string, i: nat)
    requires i <= |Leading(s)| && i < |s| && IsDigit(s[i])
    ensures i < |Leading(s)| && ReadSoFar(s, i + 1) == ReadSoFar(s, i) * 10 + DigitOf(s[i])
    ensures ReadSoFar(s, i + 1) <= Value(Leading(s))
  {
    var p := Leading(s);
    assert p[..i + 1] == p[..i] + [p[i]];
    ValueStep(p[..i], p[i]);
    ValuePrefix(p, i + 1);
  }

  /** Reading back what was printed, whatever follows it, gives the number. */
  lemma {:induction false} ReadBack(n: nat, rest: string)
    requires rest == [] || !IsDigit(rest[0])
    ensures Leading(Digits(n) + rest) == Digits(n) && Value(Leading(Digits(n) + rest)) == n
  {
    DigitsCanonical(n);
    LeadingOf(Digits(n), rest);
  }

  lemma {:induction false} LeadingOf(s: string, rest: string)
    requires AllDigits(s) && (rest == [] || !IsDigit(rest[0]))
    ensures Leading(s + rest) == s
  {
    if s == [] {
      assert s + rest == rest;
    } else {
      assert (s + rest)[1..] == s[1..] + rest;
      LeadingOf(s[1..], rest);
    }
  }
}
