/** The two integer printers of the HAL: the logging printf, which divides by falling powers of the
    base, and the small printf, whose hexadecimal path masks nibbles. */
module Printing {
  import opened Words

  function Pow(base: nat, e: nat): nat {
    if e == 0 then 1 else base * Pow(base, e - 1)
  }

  /** The digits of a number, most significant first. */
  function Digits(v: nat, base: nat): (d: seq<nat>)
    requires base >= 2
    ensures d != [] && forall i :: 0 <= i < |d| ==> d[i] < base
    decreases v
  {
    if v < base then [v]
    else
      DivShrinks(v, base);
      Digits(v / base, base) + [v % base]
  }

  lemma DivShrinks(v: nat, base: nat)
    requires base >= 2 && v > 0
    ensures v / base < v
  {
    if v / base >= v {
      MulNonneg(v / base - v, base);
    }
  }

  function Value(d: seq<nat>, base: nat): nat {
    if d == [] then 0 else Value(d[..|d| - 1], base) * base + d[|d| - 1]
  }

  function DigitChar(d: nat, upper: bool): char
    requires d < 16
  {
    if d <= 9 then '0' + d as char
    else (if upper then 'A' else 'a') + (d - 10) as char
  }

  function Text(d: seq<nat>, upper: bool): (s: string)
    requires forall i :: 0 <= i < |d| ==> d[i] < 16
    ensures |s| == |d|
    ensures forall i :: 0 <= i < |d| ==> s[i] == DigitChar(d[i], upper)
  {
    seq(|d|, i requires 0 <= i < |d| => DigitChar(d[i], upper))
  }

  function Repeat(c: char, n: int): (s: string)
    ensures |s| == if n > 0 then n else 0
    ensures forall i :: 0 <= i < |s| ==> s[i] == c
  {
    if n <= 0 then "" else [c] + Repeat(c, n - 1)
  }

  // ----- powers and digits

  lemma {:induction false} PowPositive(base: nat, e: nat)
    requires base > 0
    ensures Pow(base, e) > 0
  {
    if e > 0 {
      PowPositive(base, e - 1);
      MulNonneg(base - 1, Pow(base, e - 1));
      assert base * Pow(base, e - 1) == (base - 1) * Pow(base, e - 1) + Pow(base, e - 1);
    }
  }

  lemma DivDiv(v: nat, a: nat, b: nat)
    requires a > 0 && b > 0
    ensures a * b > 0 && v / (a * b) == v / a / b
    ensures v % (a * b) == v % a + a * (v / a % b)
  {
    var q, r := v / a, v % a;
    var q', r' := q / b, q % b;
    assert v == q * a + r && q == q' * b + r';
    MulNonneg(a - 1, b - 1);
    assert (a - 1) * (b - 1) == a * b - a - b + 1;
    MulNonneg(a, r');
    MulNonneg(a, b - 1 - r');
    assert a * (b - 1 - r') == a * b - a - a * r';
    assert (q' * b + r') * a == q' * (a * b) + a * r' by {
      assert q' * b * a == q' * (a * b);
    }
    ModIsUnique(v, q', a * r' + r, a * b);
  }

  /** Digit `i` is found by dividing by a power of the base. */
  lemma {:induction false} DigitAt(v: nat, base: nat, i: nat)
    requires base >= 2 && i < |Digits(v, base)|
    ensures Pow(base, |Digits(v, base)| - 1 - i) > 0
    ensures Digits(v, base)[i] == v / Pow(base, |Digits(v, base)| - 1 - i) % base
    decreases v
  {
    var n := |Digits(v, base)|;
    PowPositive(base, n - 1 - i);
    if v < base {
      ModIsUnique(v, 0, v, base);
    } else if i < n - 1 {
      DivShrinks(v, base);
      DigitAt(v / base, base, i);
      DivDiv(v, base, Pow(base, n - 2 - i));
    }
  }

  lemma QuotientBounds(v: nat, base: nat, lo: nat, hi: nat)
    requires base > 0 && lo <= v / base < hi
    ensures base * lo <= v < base * hi
  {
    DivMod(v, base);
    var q := v / base;
    MulNonneg(q - lo, base);
    MulNonneg(hi - 1 - q, base);
    assert (q - lo) * base == q * base - base * lo;
    assert (hi - 1 - q) * base == base * hi - base - q * base;
  }

  /** The number lies between the powers its digit count names. */
  lemma {:induction false} DigitCount(v: nat, base: nat)
    requires base >= 2
    ensures v < Pow(base, |Digits(v, base)|)
    ensures v > 0 ==> Pow(base, |Digits(v, base)| - 1) <= v
    decreases v
  {
    if v < base {
      assert Pow(base, 0) == 1 && Pow(base, 1) == base * 1;
    } else {
      DivShrinks(v, base);
      DivMod(v, base);
      DigitCount(v / base, base);
      var n := |Digits(v / base, base)|;
      QuotientBounds(v, base, Pow(base, n - 1), Pow(base, n));
    }
  }

  lemma ValueSnoc(d: seq<nat>, x: nat, base: nat)
    ensures Value(d + [x], base) == Value(d, base) * base + x
  {
    assert (d + [x])[..|d|] == d;
  }

  lemma {:induction false} ValueOfDigits(v: nat, base: nat)
    requires base >= 2
    ensures Value(Digits(v, base), base) == v
    decreases v
  {
    if v < base {
      assert [v] == [] + [v];
      ValueSnoc([], v, base);
    } else {
      DivShrinks(v, base);
      ValueOfDigits(v / base, base);
      ValueSnoc(Digits(v / base, base), v % base, base);
      DivMod(v, base);
    }
  }

  /** No leading zero, except for zero itself. */
  lemma {:induction false} NoLeadingZero(v: nat, base: nat)
    requires base >= 2 && v > 0
    ensures Digits(v, base)[0] > 0
    decreases v
  {
    if v >= base {
      DivShrinks(v, base);
      DivMod(v, base);
      NoLeadingZero(v / base, base);
    }
  }

  // ----- the logging printf

  function Magnitude(v: u32, signed: bool): u32 {
    if signed && v >= 0x8000_0000 then U32 - v else v
  }

  /** The integer an argument word stands for. */
  function Meaning(v: u32, signed: bool): int {
    if signed && v >= 0x8000_0000 then v - U32 else v
  }

  /** What stands before the digits: a sign for negative numbers, behind blanks or in front of zeros that fill
      the rest of `width`. */
  function LeadText(negative: bool, leadingZero: bool, width: int): string {
    var sign := if negative then "-" else "";
    var fill := width - |sign|;
    if leadingZero then sign + Repeat('0', fill) else Repeat(' ', fill) + sign
  }

  /** What is printed for an integer conversion: `width` is the number before the decimal point, or a
      negative number if there is none. */
  function LogText(v: u32, base: nat, signed: bool, leadingZero: bool, width: int, upper: bool): string
    requires 2 <= base <= 16
  {
    var digits := Text(Digits(Magnitude(v, signed), base), upper);
    LeadText(Meaning(v, signed) < 0, leadingZero, width - |digits|) + digits
  }

  method RepChar(c: char, r: int) returns (out: string)
    ensures out == Repeat(c, r)
  {
    out := "";
    var n := r;
    while n > 0
      invariant n <= r || n == r
      invariant r > 0 ==> 0 <= n && out + Repeat(c, n) == Repeat(c, r)
      invariant r <= 0 ==> out == ""
      decreases n
    {
      Regroup(out, [c], Repeat(c, n - 1));
      out := out + [c];
      n := n - 1;
    }
  }

  lemma ProductFits(v: u32, p: nat, base: nat)
    requires p > 0 && base > 0 && v / p / base > 0
    ensures 0 < p * base <= v && p * base % U32 == p * base
  {
    DivDiv(v, p, base);
    assert v == (v / (p * base)) * (p * base) + v % (p * base);
    MulNonneg(v / (p * base) - 1, p * base);
  }

  lemma OneDigitMore(w: nat, base: nat)
    requires base >= 2 && w / base > 0
    ensures |Digits(w, base)| == |Digits(w / base, base)| + 1
  {
    if w < base {
      ModIsUnique(w, 0, w, base);
    }
  }

  lemma QuotientOfQuotient(v: nat, a: nat, b: nat)
    requires a > 0 && b > 0
    ensures a * b == b * a > 0 && v / (a * b) == v / a / b
  {
    DivDiv(v, a, b);
  }

  lemma CountStep(v: u32, p: nat, base: nat)
    requires p > 0 && 2 <= base && v / p / base > 0
    ensures 0 < p * base == p * base % U32 && v / (p * base) == v / p / base
    ensures |Digits(v / p, base)| == |Digits(v / (p * base), base)| + 1
    ensures base * p == p * base
  {
    ProductFits(v, p, base);
    QuotientOfQuotient(v, p, base);
    OneDigitMore(v / p, base);
  }

  /** The loop that counts digits and finds the largest power. No product exceeds 32 bits. */
  method CountDigits(v: u32, base: nat) returns (p: u32, digitCount: nat)
    requires 2 <= base <= 16
    ensures digitCount == |Digits(v, base)| && p == Pow(base, digitCount - 1)
  {
    p, digitCount := 1, 1;
    var vShrink := v / base;
    while vShrink > 0
      invariant digitCount >= 1 && p == Pow(base, digitCount - 1) && p > 0
      invariant vShrink == v / p / base
      invariant digitCount - 1 + |Digits(v / p, base)| == |Digits(v, base)|
      decreases vShrink
    {
      CountStep(v, p, base);
      digitCount := digitCount + 1;
      p := p * base % U32;
      DivShrinks(vShrink, base);
      vShrink := vShrink / base;
    }
  }

  /** The part of a number below q * base gives the digit at q, and leaves the part below q. */
  lemma DigitOfRest(v: nat, q: nat, base: nat)
    requires q > 0 && base > 0
    ensures q * base > 0 && v % (q * base) / q == v / q % base && v % (q * base) % q == v % q
  {
    DivDiv(v, q, base);
    ModIsUnique(v % (q * base), v / q % base, v % q, q);
  }

  /** With `k` digits to go, `p` is the weight of the next one and `rest` what is left to print. */
  predicate Left(v: nat, base: nat, k: int, p: int, rest: int) {
    k > 0 && p == Pow(base, k - 1) > 0 && Pow(base, k) > 0 && rest == v % Pow(base, k)
  }

  lemma PowerDown(base: nat, e: nat)
    requires base >= 2
    ensures Pow(base, e) > 0 && Pow(base, e + 1) == Pow(base, e) * base > 0
    ensures Pow(base, e) / base == if e == 0 then 0 else Pow(base, e - 1)
  {
    PowPositive(base, e);
    PowPositive(base, e + 1);
    if e == 0 {
      ModIsUnique(1, 0, 1, base);
    } else {
      ModIsUnique(Pow(base, e), Pow(base, e - 1), 0, base);
    }
  }

  lemma EmitStep(v: u32, base: nat, i: nat, p: int, rest: int)
    requires 2 <= base <= 16 && i < |Digits(v, base)|
    requires Left(v, base, |Digits(v, base)| - i, p, rest)
    ensures rest / p == Digits(v, base)[i]
    ensures i + 1 == |Digits(v, base)| ==> p / base == 0
    ensures i + 1 < |Digits(v, base)| ==> Left(v, base, |Digits(v, base)| - i - 1, p / base, rest % p)
  {
    var e := |Digits(v, base)| - 1 - i;
    DigitAt(v, base, i);
    PowerDown(base, e);
    DigitOfRest(v, p, base);
    if e > 0 {
      PowerDown(base, e - 1);
    }
  }

  /** The loop that prints the digits, by dividing by falling powers. */
  method EmitDigits(v: u32, base: nat, upper: bool, power: u32, count: nat) returns (out: string)
    requires 2 <= base <= 16 && count == |Digits(v, base)| && power == Pow(base, count - 1)
    ensures out == Text(Digits(v, base), upper)
  {
    ghost var d := Text(Digits(v, base), upper);
    out := "";
    var p, rest := power, v;
    ghost var i := 0;
    DigitCount(v, base);
    ModIsUnique(v, 0, v, Pow(base, count));
    while p > 0
      invariant 0 <= i <= count && out == d[..i]
      invariant i < count ==> Left(v, base, count - i, p, rest)
      invariant i == count ==> p == 0
      decreases count - i
    {
      EmitStep(v, base, i, p, rest);
      TakeOneMore(d, i);
      out := out + [DigitChar(rest / p, upper)];
      rest := rest % p;
      i := i + 1;
      p := p / base;
    }
    assert i == count;
  }

  /** The loops and tests that print blanks or zeros and the sign. */
  method Lead(sign: bool, leadingZero: bool, fill: int) returns (lead: string)
    ensures lead == LeadText(sign, leadingZero, fill)
  {
    var before := fill;
    lead := "";
    if leadingZero {
      if sign {
        lead := "-";
        before := before - 1;
      }
      var zeros := RepChar('0', before);
      lead := lead + zeros;
    } else {
      if sign {
        before := before - 1;
      }
      lead := RepChar(' ', before);
      if sign {
        lead := lead + "-";
      } else {
        assert lead + "" == lead;
      }
    }
  }

  lemma TwosComplement(v: u32)
    requires v > 0
    ensures (U32 - 1 - v + 1) % U32 == U32 - v
  {}

  /** The integer conversions of the logging printf. */
  method LogInteger(arg: u32, base: nat, signed: bool, leadingZero: bool, width: int, upper: bool)
    returns (out: string)
    requires 2 <= base <= 16
    ensures out == LogText(arg, base, signed, leadingZero, width, upper)
  {
    var v, sign := arg, false;
    if signed && v >= 0x8000_0000 {
      TwosComplement(v);
      v := (U32 - 1 - v + 1) % U32;
      sign := true;
    }
    var p, digitCount := CountDigits(v, base);
    var lead := Lead(sign, leadingZero, width - digitCount);
    var digits := EmitDigits(v, base, upper, p, digitCount);
    out := lead + digits;
  }

  /** Hexadecimal digit `j` of a number. */
  function Nibble(v: nat, j: nat): (n: nat)
    ensures n < 16
  {
    PowPositive(16, j);
    v / Pow(16, j) % 16
  }

  lemma NibbleMeansLarge(v: nat, j: nat)
    requires Nibble(v, j) != 0
    ensures v >= Pow(16, j) > 0
  {
    PowPositive(16, j);
    if v < Pow(16, j) {
      ModIsUnique(v, 0, v, Pow(16, j));
    }
  }

  // ----- machine words as bits

  function Bit(v: bv32): nat {
    if v & 1 == 1 then 1 else 0
  }

  /** The number the lowest `n` bits of a word stand for. */
  function Num(v: bv32, n: nat): nat {
    if n == 0 then 0 else Bit(v) + 2 * Num(v >> 1, n - 1)
  }

  lemma FourBits(v: bv32, n: nat)
    requires n >= 4
    ensures Num(v, n) == Bit(v) + 2 * Bit(v >> 1) + 4 * Bit(v >> 1 >> 1) + 8 * Bit(v >> 1 >> 1 >> 1)
                         + 16 * Num(v >> 1 >> 1 >> 1 >> 1, n - 4)
  {
    assert Num(v >> 1, n - 1) == Bit(v >> 1) + 2 * Num(v >> 1 >> 1, n - 2);
    assert Num(v >> 1 >> 1, n - 2) == Bit(v >> 1 >> 1) + 2 * Num(v >> 1 >> 1 >> 1, n - 3);
    assert Num(v >> 1 >> 1 >> 1, n - 3) == Bit(v >> 1 >> 1 >> 1) + 2 * Num(v >> 1 >> 1 >> 1 >> 1, n - 4);
  }

  lemma LowBits(v: bv32)
    ensures (v & 0xF) & 1 == v & 1
    ensures ((v & 0xF) >> 1) & 1 == (v >> 1) & 1
    ensures ((v & 0xF) >> 1 >> 1) & 1 == (v >> 1 >> 1) & 1
    ensures ((v & 0xF) >> 1 >> 1 >> 1) & 1 == (v >> 1 >> 1 >> 1) & 1
    ensures v >> 1 >> 1 >> 1 >> 1 == v >> 4
  {}

  /** The low nibble is the remainder by 16, the rest of the word the quotient. */
  lemma LowNibble(v: bv32, n: nat)
    requires n >= 4
    ensures Num(v & 0xF, 4) < 16
    ensures Num(v, n) == Num(v & 0xF, 4) + 16 * Num(v >> 4, n - 4)
  {
    LowBits(v);
    FourBits(v, n);
    FourBits(v & 0xF, 4);
  }

  lemma NibbleIsZeroIff(b: bv32)
    requires b <= 0xF
    ensures b == 0 <==> Num(b, 4) == 0
  {
    NoBitNoNibble(b);
    FourBits(b, 4);
  }

  lemma NoBitNoNibble(b: bv32)
    requires b <= 0xF
    ensures b == 0 <==> b & 1 != 1 && (b >> 1) & 1 != 1 && (b >> 1 >> 1) & 1 != 1 && (b >> 1 >> 1 >> 1) & 1 != 1
  {}

  /** What the small printf computes for one digit, written out for the eight shift amounts that occur. */
  function Masked(v: bv32, shift: nat): bv32
    requires shift % 4 == 0 && shift <= 28
  {
    match shift
    case 0 => (v & (0xF << 0)) >> 0
    case 4 => (v & (0xF << 4)) >> 4
    case 8 => (v & (0xF << 8)) >> 8
    case 12 => (v & (0xF << 12)) >> 12
    case 16 => (v & (0xF << 16)) >> 16
    case 20 => (v & (0xF << 20)) >> 20
    case 24 => (v & (0xF << 24)) >> 24
    case _ => (v & (0xF << 28)) >> 28
  }

  /** A digit further up is the next lower one of the word shifted by one nibble. */
  lemma MaskedStep(v: bv32, shift: nat)
    requires shift % 4 == 0 && 4 <= shift <= 28
    ensures Masked(v, shift) == Masked(v >> 4, shift - 4)
  {}

  lemma MaskedFirst(v: bv32)
    ensures Masked(v, 0) == v & 0xF <= 0xF
  {}

  lemma QuotientBy16(w: bv32, n: nat)
    requires n >= 4
    ensures Num(w, n) / 16 == Num(w >> 4, n - 4) && Num(w, n) % 16 == Num(w & 0xF, 4)
  {
    LowNibble(w, n);
    ModIsUnique(Num(w, n), Num(w >> 4, n - 4), Num(w & 0xF, 4), 16);
  }

  lemma {:induction false} NumBelow(v: bv32, n: nat, j: nat)
    requires n == 4 * j
    ensures Num(v, n) < Pow(16, j)
    decreases n
  {
    if n > 0 {
      LowNibble(v, n);
      NumBelow(v >> 4, n - 4, j - 1);
    }
  }

  lemma NibbleNext(v: nat, j: nat)
    requires j > 0
    ensures Nibble(v, j) == Nibble(v / 16, j - 1)
  {
    PowPositive(16, j - 1);
    DivDiv(v, 16, Pow(16, j - 1));
  }

  lemma {:induction false} MaskDivides(v: bv32, shift: nat, j: nat, n: nat)
    requires shift == 4 * j && shift <= 28 && n >= shift + 4
    ensures Num(Masked(v, shift), 4) == Nibble(Num(v, n), j) && Masked(v, shift) <= 0xF
    decreases j
  {
    QuotientBy16(v, n);
    if j == 0 {
      MaskedFirst(v);
    } else {
      MaskDivides(v >> 4, shift - 4, j - 1, n - 4);
      MaskedStep(v, shift);
      NibbleNext(Num(v, n), j);
    }
  }

  /** Masking with 0xF shifted by 4 * j and shifting back leaves hexadecimal digit j of the number. */
  lemma MaskIsNibble(v: bv32, shift: nat, j: nat)
    requires shift == 4 * j && j <= 7
    ensures Num(Masked(v, shift), 4) == Nibble(Num(v, 32), j)
    ensures Masked(v, shift) == 0 <==> Nibble(Num(v, 32), j) == 0
  {
    MaskDivides(v, shift, j, 32);
    NibbleIsZeroIff(Masked(v, shift));
  }

  lemma {:induction false} NoBits(n: nat)
    ensures Num(0, n) == 0
  {
    if n > 0 {
      NoBits(n - 1);
      assert (0 as bv32) >> 1 == 0;
    }
  }

  lemma NoNibblesNoWord(v: bv32)
    requires v != 0
    ensures Masked(v, 0) != 0 || Masked(v, 4) != 0 || Masked(v, 8) != 0 || Masked(v, 12) != 0
            || Masked(v, 16) != 0 || Masked(v, 20) != 0 || Masked(v, 24) != 0 || Masked(v, 28) != 0
  {}

  lemma SomeNibble(v: bv32) returns (shift: nat)
    requires v != 0
    ensures shift % 4 == 0 && shift <= 28 && Masked(v, shift) != 0
  {
    NoNibblesNoWord(v);
    shift := if Masked(v, 0) != 0 then 0 else if Masked(v, 4) != 0 then 4 else if Masked(v, 8) != 0 then 8
             else if Masked(v, 12) != 0 then 12 else if Masked(v, 16) != 0 then 16 else if Masked(v, 20) != 0 then 20
             else if Masked(v, 24) != 0 then 24 else 28;
  }

  lemma ZeroWordIff(v: bv32)
    ensures v == 0 <==> Num(v, 32) == 0
  {
    if v == 0 {
      NoBits(32);
    } else {
      var shift := SomeNibble(v);
      MaskIsNibble(v, shift, shift / 4);
      NibbleMeansLarge(Num(v, 32), shift / 4);
    }
  }

  // ----- the small printf

  lemma NibbleIsDigit(v: nat, i: nat, j: nat)
    requires i + j + 1 == |Digits(v, 16)|
    ensures Nibble(v, j) == Digits(v, 16)[i]
  {
    DigitAt(v, 16, i);
  }

  lemma MaskedIsDigit(v: bv32, shift: nat, i: nat, j: nat)
    requires shift == 4 * j && j <= 7 && i + j + 1 == |Digits(Num(v, 32), 16)|
    ensures Num(Masked(v, shift), 4) == Digits(Num(v, 32), 16)[i]
  {
    MaskIsNibble(v, shift, j);
    NibbleIsDigit(Num(v, 32), i, j);
  }

  lemma ZeroNibble(v: nat, j: nat)
    requires v > 0 && v < Pow(16, j + 1) && Nibble(v, j) == 0
    ensures v < Pow(16, j) && j > 0
  {
    var p := Pow(16, j);
    PowPositive(16, j);
    assert Pow(16, j + 1) == 16 * p;
    DivMod(v, p);
    if v / p >= 16 {
      MulNonneg(v / p - 16, p);
    }
    assert v / p == 0;
  }

  lemma {:induction false} PowMonotone(base: nat, a: nat, b: nat)
    requires base > 0 && a <= b
    ensures Pow(base, a) <= Pow(base, b)
    decreases b
  {
    if a < b {
      PowMonotone(base, a, b - 1);
      PowPositive(base, b - 1);
      MulNonneg(base - 1, Pow(base, b - 1));
      assert base * Pow(base, b - 1) == (base - 1) * Pow(base, b - 1) + Pow(base, b - 1);
    }
  }

  /** The first non-zero nibble is the leading digit. */
  lemma FirstNibble(v: nat, j: nat)
    requires v < Pow(16, j + 1) && Nibble(v, j) != 0
    ensures |Digits(v, 16)| == j + 1
  {
    var n := |Digits(v, 16)|;
    NibbleMeansLarge(v, j);
    DigitCount(v, 16);
    if n <= j {
      PowMonotone(16, n, j);
    } else if n > j + 1 {
      PowMonotone(16, j + 1, n - 1);
    }
  }

  /** The loop that looks for the first non-zero digit. */
  method FindDigit(v: bv32) returns (shift: int)
    requires v != 0
    ensures 0 <= shift <= 28 && shift % 4 == 0 && |Digits(Num(v, 32), 16)| == shift / 4 + 1
  {
    shift := 28;
    ghost var j := 7;
    NumBelow(v, 32, 8);
    ZeroWordIff(v);
    MaskIsNibble(v, 28, 7);
    while Masked(v, shift) == 0
      invariant 0 <= j <= 7 && shift == 4 * j
      invariant Num(v, 32) < Pow(16, j + 1)
      invariant Masked(v, shift) == 0 <==> Nibble(Num(v, 32), j) == 0
      decreases shift
    {
      ZeroNibble(Num(v, 32), j);
      shift, j := shift - 4, j - 1;
      MaskIsNibble(v, shift, j);
    }
    FirstNibble(Num(v, 32), j);
  }

  /** The hexadecimal conversion of the small printf. */
  method SmallHex(v: bv32) returns (out: string)
    ensures out == Text(Digits(Num(v, 32), 16), false)
  {
    ZeroWordIff(v);
    if v == 0 {
      return "0";
    }
    var shift := FindDigit(v);
    ghost var d, j := Text(Digits(Num(v, 32), 16), false), shift / 4;
    out := "";
    while shift >= 0
      invariant shift == 4 * j && -1 <= j <= 7 && |out| + j + 1 == |d|
      invariant out == d[..|out|]
      decreases shift
    {
      MaskedIsDigit(v, shift, |out|, j);
      var digit := Num(Masked(v, shift), 4);
      TakeOneMore(d, |out|);
      out := out + [DigitChar(digit, false)];
      shift, j := shift - 4, j - 1;
    }
  }

  // ----- what the printed text means

  function CharValue(c: char): int {
    if '0' <= c <= '9' then c as int - '0' as int
    else if 'a' <= c <= 'f' then c as int - 'a' as int + 10
    else if 'A' <= c <= 'F' then c as int - 'A' as int + 10
    else 0
  }

  function ReadDigits(s: string, base: nat): int {
    if s == "" then 0 else ReadDigits(s[..|s| - 1], base) * base + CharValue(s[|s| - 1])
  }

  /** Reading a number back: blanks, an optional sign, digits. */
  function Read(s: string, base: nat): int {
    if s == "" then 0
    else if s[0] == ' ' then Read(s[1..], base)
    else if s[0] == '-' then -ReadDigits(s[1..], base)
    else ReadDigits(s, base)
  }

  lemma {:induction false} ReadText(d: seq<nat>, base: nat, upper: bool)
    requires forall i :: 0 <= i < |d| ==> d[i] < 16
    ensures ReadDigits(Text(d, upper), base) == Value(d, base)
    decreases |d|
  {
    if d != [] {
      var n := |d| - 1;
      ReadText(d[..n], base, upper);
      assert Text(d, upper)[..n] == Text(d[..n], upper);
      assert CharValue(DigitChar(d[n], upper)) == d[n];
    }
  }

  lemma {:induction false} ReadZeros(n: int, s: string, base: nat)
    ensures ReadDigits(Repeat('0', n) + s, base) == ReadDigits(s, base)
    decreases |s|, n
  {
    if s == "" {
      assert Repeat('0', n) + s == Repeat('0', n);
      if n > 0 {
        ReadZeros(n - 1, "", base);
        assert Repeat('0', n)[..n - 1] == Repeat('0', n - 1);
        assert Repeat('0', n - 1) + "" == Repeat('0', n - 1);
      }
    } else {
      var k := |s| - 1;
      ReadZeros(n, s[..k], base);
      assert (Repeat('0', n) + s)[..|Repeat('0', n) + s| - 1] == Repeat('0', n) + s[..k];
    }
  }

  lemma {:induction false} ReadBlanks(n: int, s: string, base: nat)
    ensures Read(Repeat(' ', n) + s, base) == Read(s, base)
    decreases n
  {
    if n > 0 {
      ReadBlanks(n - 1, s, base);
      assert (Repeat(' ', n) + s)[1..] == Repeat(' ', n - 1) + s;
    } else {
      assert Repeat(' ', n) + s == s;
    }
  }

  lemma ReadBody(negative: bool, body: string, base: nat)
    requires body != "" && body[0] != ' ' && body[0] != '-'
    ensures Read((if negative then "-" else "") + body, base)
         == if negative then -ReadDigits(body, base) else ReadDigits(body, base)
  {
    if negative {
      assert ("-" + body)[1..] == body;
    } else {
      assert "" + body == body;
    }
  }

  lemma ZeroFilled(negative: bool, fill: int, digits: string, base: nat)
    requires digits != "" && digits[0] != ' ' && digits[0] != '-'
    ensures Read((if negative then "-" else "") + Repeat('0', fill) + digits, base)
         == if negative then -ReadDigits(digits, base) else ReadDigits(digits, base)
  {
    ReadZeros(fill, digits, base);
    ReadBody(negative, Repeat('0', fill) + digits, base);
    Regroup(if negative then "-" else "", Repeat('0', fill), digits);
  }

  lemma BlankFilled(negative: bool, fill: int, digits: string, base: nat)
    requires digits != "" && digits[0] != ' ' && digits[0] != '-'
    ensures Read(Repeat(' ', fill) + (if negative then "-" else "") + digits, base)
         == if negative then -ReadDigits(digits, base) else ReadDigits(digits, base)
  {
    ReadBody(negative, digits, base);
    Regroup(Repeat(' ', fill), if negative then "-" else "", digits);
    ReadBlanks(fill, (if negative then "-" else "") + digits, base);
  }

  lemma LeadReads(negative: bool, leadingZero: bool, width: int, digits: string, base: nat)
    requires digits != "" && digits[0] != ' ' && digits[0] != '-'
    ensures Read(LeadText(negative, leadingZero, width) + digits, base)
         == if negative then -ReadDigits(digits, base) else ReadDigits(digits, base)
  {
    var fill := width - |if negative then "-" else ""|;
    if leadingZero {
      ZeroFilled(negative, fill, digits, base);
    } else {
      BlankFilled(negative, fill, digits, base);
    }
  }

  lemma DigitTextReads(m: nat, base: nat, upper: bool)
    requires 2 <= base <= 16
    ensures var t := Text(Digits(m, base), upper);
            t != "" && t[0] != ' ' && t[0] != '-' && ReadDigits(t, base) == m
  {
    var d := Digits(m, base);
    ReadText(d, base, upper);
    ValueOfDigits(m, base);
    assert Text(d, upper)[0] == DigitChar(d[0], upper);
  }

  /** Reading the printed text gives the argument's value back, for every word (the most negative one
      included), base, width and fill. */
  lemma PrintedTextReadsBack(v: u32, base: nat, signed: bool, leadingZero: bool, width: int, upper: bool)
    requires 2 <= base <= 16
    ensures Read(LogText(v, base, signed, leadingZero, width, upper), base)
         == if signed && v >= 0x8000_0000 then v - 0x1_0000_0000 else v
  {
    DigitTextReads(Magnitude(v, signed), base, upper);
    LeadReads(Meaning(v, signed) < 0, leadingZero, width - |Digits(Magnitude(v, signed), base)|,
              Text(Digits(Magnitude(v, signed), base), upper), base);
  }

  /** The text is as long as the width asks for or the number needs. */
  lemma PrintedTextLength(v: u32, base: nat, signed: bool, leadingZero: bool, width: int, upper: bool)
    requires 2 <= base <= 16
    ensures var negative := signed && v >= 0x8000_0000;
            var count := |Digits(if negative then 0x1_0000_0000 - v else v, base)|;
            var natural := count + if negative then 1 else 0;
            |LogText(v, base, signed, leadingZero, width, upper)| == if width > natural then width else natural
  {}

  /** With zero fill the sign comes first and `fill` zeros follow; otherwise `fill` blanks come first, and the sign
      stands directly before the digits. */
  predicate Leads(out: string, negative: bool, leadingZero: bool, fill: nat)
    requires fill + (if negative then 1 else 0) <= |out|
  {
    if leadingZero then
      var sign := if negative then 1 else 0;
      (negative ==> out[0] == '-') && forall i :: sign <= i < sign + fill ==> out[i] == '0'
    else
      (negative ==> out[fill] == '-') && forall i :: 0 <= i < fill ==> out[i] == ' '
  }

  predicate IsDigit(c: char, upper: bool) {
    '0' <= c <= '9' || if upper then 'A' <= c <= 'F' else 'a' <= c <= 'f'
  }

  predicate EndsInDigits(out: string, count: nat, upper: bool)
    requires count <= |out|
  {
    forall i :: |out| - count <= i < |out| ==> IsDigit(out[i], upper)
  }

  /** What the text looks like, character by character: fill and sign as the flags ask for, and then the digits, with
      letters of the case asked for. */
  lemma PrintedCharacters(v: u32, base: nat, signed: bool, leadingZero: bool, width: int, upper: bool)
    requires 2 <= base <= 16
    ensures var out := LogText(v, base, signed, leadingZero, width, upper);
            var negative := signed && v >= 0x8000_0000;
            var count := |Digits(if negative then 0x1_0000_0000 - v else v, base)|;
            var fill := |out| - count - if negative then 1 else 0;
            && fill >= 0 && Leads(out, negative, leadingZero, fill) && EndsInDigits(out, count, upper)
  {
    var negative := signed && v >= 0x8000_0000;
    var number := if negative then 0x1_0000_0000 - v else v;
    var digits := Text(Digits(number, base), upper);
    var lead := LeadText(negative, leadingZero, width - |digits|);
    LeadCharacters(negative, leadingZero, width - |digits|);
    DigitCharacters(Digits(number, base), upper);
    Appended(lead, digits, negative, leadingZero, upper);
    assert LogText(v, base, signed, leadingZero, width, upper) == lead + digits;
  }

  lemma Appended(lead: string, digits: string, negative: bool, leadingZero: bool, upper: bool)
    requires negative ==> |lead| > 0
    requires Leads(lead, negative, leadingZero, |lead| - if negative then 1 else 0)
    requires EndsInDigits(digits, |digits|, upper)
    ensures Leads(lead + digits, negative, leadingZero, |lead| - if negative then 1 else 0)
    ensures EndsInDigits(lead + digits, |digits|, upper)
  {}

  lemma DigitCharacters(d: seq<nat>, upper: bool)
    requires forall i :: 0 <= i < |d| ==> d[i] < 16
    ensures EndsInDigits(Text(d, upper), |d|, upper)
  {}

  lemma LeadCharacters(negative: bool, leadingZero: bool, width: int)
    ensures var lead, sign := LeadText(negative, leadingZero, width), if negative then 1 else 0;
            |lead| >= sign && Leads(lead, negative, leadingZero, |lead| - sign)
  {}

  lemma NoFillIff(v: u32, leadingZero: bool, width: int)
    ensures LogText(v, 16, false, leadingZero, width, false) == Text(Digits(v, 16), false)
       <==> width <= |Digits(v, 16)|
  {
    var digits := Text(Digits(v, 16), false);
    PrintedTextLength(v, 16, false, leadingZero, width, false);
    if width <= |digits| {
      assert Repeat(if leadingZero then '0' else ' ', width - |digits|) == "";
      assert "" + "" + digits == digits;
    }
  }

  /** Both hexadecimal printers print the same characters for a word exactly when the width asks for no
      more than the digits. */
  lemma HexPrintersAgreeIff(v: bv32, leadingZero: bool, width: int)
    ensures Num(v, 32) < U32
    ensures LogText(Num(v, 32), 16, false, leadingZero, width, false) == Text(Digits(Num(v, 32), 16), false)
       <==> width <= |Digits(Num(v, 32), 16)|
  {
    NumBelow(v, 32, 8);
    assert Pow(16, 2) == 256 && Pow(16, 4) == 65536 && Pow(16, 6) == 16777216 && Pow(16, 8) == U32;
    NoFillIff(Num(v, 32), leadingZero, width);
  }
}
