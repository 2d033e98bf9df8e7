/** Integer output of the boot-time log printf. */
module LogPrintf {
  import opened Basics

  const SIGN_BIT := 0x8000_0000

  predicate IsBase(b: nat) { b == 8 || b == 10 || b == 16 }

  function Pow(b: nat, k: nat): nat { if k == 0 then 1 else b * Pow(b, k - 1) }

  // ---------- reading numbers back ----------

  predicate IsDigit(c: char) { '0' <= c <= '9' || 'a' <= c <= 'f' || 'A' <= c <= 'F' }

  function DigitValue(c: char): nat
    requires IsDigit(c)
  {
    if c <= '9' then (c - '0') as int
    else if c <= 'F' then (c - 'A') as int + 10
    else (c - 'a') as int + 10
  }

  predicate AllDigits(s: string) { forall i :: 0 <= i < |s| ==> IsDigit(s[i]) }

  function Value(s: string, b: nat): nat
    requires AllDigits(s)
  {
    if s == [] then 0 else Value(s[..|s| - 1], b) * b + DigitValue(s[|s| - 1])
  }

  /** An independent scanner: blanks, an optional minus sign, digits. */
  function Scan(s: string, b: nat): int
    requires Scannable(s)
  {
    if s == [] then 0
    else if s[0] == ' ' then Scan(s[1..], b)
    else if s[0] == '-' then 0 - Value(s[1..], b)
    else Value(s, b)
  }

  predicate Scannable(s: string) {
    s == [] || (if s[0] == ' ' then Scannable(s[1..]) else if s[0] == '-' then AllDigits(s[1..]) else AllDigits(s))
  }

  function Repeat(c: char, n: nat): string { seq(n, _ => c) }

  // ---------- what is printed ----------

  /** The value a conversion denotes: two's complement for the signed ones. */
  function Denotes(arg: U32, signed: bool): (v: int)
    ensures (v - arg) % 0x1_0000_0000 == 0 && if signed then -0x8000_0000 <= v < 0x8000_0000 else v == arg
  {
    if signed && arg >= SIGN_BIT then arg - TWO_32 else arg
  }

  function Magnitude(arg: U32, signed: bool): nat {
    if Denotes(arg, signed) < 0 then -Denotes(arg, signed) else Denotes(arg, signed)
  }

  function Sign(arg: U32, signed: bool): string { if Denotes(arg, signed) < 0 then "-" else "" }

  /** A digit below `b`, its letters in the requested case. */
  predicate InCase(c: char, b: nat, upper: bool) {
    IsDigit(c) && DigitValue(c) < b && if upper then c < 'a' else c <= '9' || c >= 'a'
  }

  /** The shortest numeral of `m`: digits of the base, no leading zero but for zero itself. */
  ghost predicate IsNumeral(s: string, m: nat, b: nat, upper: bool) {
    && |s| > 0 && AllDigits(s) && Value(s, b) == m
    && (forall i :: 0 <= i < |s| ==> InCase(s[i], b, upper))
    && (|s| > 1 ==> s[0] != '0')
  }

  function Padding(width: int, digits: nat, sign: nat): nat {
    if width - digits - sign > 0 then width - digits - sign else 0
  }

  // ---------- arithmetic ----------

  lemma DivMod(v: nat, d: nat)
    requires d > 0
    ensures v == (v / d) * d + v % d && v % d < d
  {
  }

  lemma Scale(a: nat, b: nat, c: nat)
    requires a <= b
    ensures a * c <= b * c
  {
  }

  /** One more digit stripped: `q` is still the quotient of `v` by the place value. */
  lemma StripDigit(v: nat, p: nat, b: nat, x: nat)
    requires b > 0 && x * p <= v < x * p + p
    ensures var y := x / b; y * (p * b) <= v < y * (p * b) + p * b
  {
    var y, t := x / b, x % b;
    DivMod(x, b);
    assert x * p == (y * b + t) * p == y * (p * b) + t * p;
    Scale(t, b - 1, p);
    assert (b - 1) * p + p == p * b;
  }

  lemma NextPlace(v: nat, p: nat, b: nat, x: nat)
    requires b > 0 && x * p <= v < x * p + p && x / b > 0
    ensures p * b <= v
  {
    StripDigit(v, p, b, x);
    Scale(1, x / b, p * b);
  }

  lemma PowZero(b: nat)
    ensures Pow(b, 0) == 1
  {
  }

  lemma PowStep(b: nat, k: nat)
    ensures Pow(b, k + 1) == Pow(b, k) * b
  {
  }

  /** A digit is below the base. */
  lemma DigitBound(v: nat, p: nat, b: nat)
    requires p > 0 && v < p * b
    ensures v / p < b
  {
    DivMod(v, p);
    if v / p >= b { Scale(b, v / p, p); }
  }

  lemma {:induction false} PowPositive(b: nat, k: nat)
    requires b > 0
    ensures Pow(b, k) > 0
  {
    if k > 0 { PowPositive(b, k - 1); }
  }

  lemma {:induction false} ValueSnoc(s: string, c: char, b: nat)
    requires AllDigits(s) && IsDigit(c)
    ensures AllDigits(s + [c]) && Value(s + [c], b) == Value(s, b) * b + DigitValue(c)
  {
    assert (s + [c])[..|s|] == s;
  }

  lemma {:induction false} LeadingZeros(n: nat, s: string, b: nat)
    requires AllDigits(s)
    ensures AllDigits(Repeat('0', n) + s) && Value(Repeat('0', n) + s, b) == Value(s, b)
    decreases n + |s|
  {
    var t := Repeat('0', n) + s;
    if s != [] {
      LeadingZeros(n, s[..|s| - 1], b);
      assert t[..|t| - 1] == Repeat('0', n) + s[..|s| - 1];
    } else if n > 0 {
      LeadingZeros(n - 1, [], b);
      assert t[..|t| - 1] == Repeat('0', n - 1) + [];
    }
  }

  lemma {:induction false} LeadingBlanks(n: nat, s: string, b: nat)
    requires Scannable(s)
    ensures Scannable(Repeat(' ', n) + s) && Scan(Repeat(' ', n) + s, b) == Scan(s, b)
  {
    var t := Repeat(' ', n) + s;
    if n > 0 {
      LeadingBlanks(n - 1, s, b);
      assert t[1..] == Repeat(' ', n - 1) + s;
    } else {
      assert t == s;
    }
  }

  // ---------- the program ----------

  /** alt_log_repchar. */
  method RepChar(c: char, r: int) returns (out: string)
    ensures out == Repeat(c, if r > 0 then r else 0)
  {
    out := [];
    var left := r;
    while left > 0
      invariant |out| == (if r > 0 then r else 0) - (if left > 0 then left else 0)
      invariant out == Repeat(c, |out|)
    {
      left := left - 1;
      out := out + [c];
    }
  }

  /** Count the digits and find the largest place value; `p` never overflows 32 bits. */
  method CountDigits(v: U32, base: nat) returns (p: U32, digitCount: nat)
    requires IsBase(base)
    ensures digitCount >= 1 && p == Pow(base, digitCount - 1)
    ensures v < Pow(base, digitCount) && (digitCount > 1 ==> p <= v)
  {
    hide Pow;
    PowZero(base);
    var vShrink: nat := v;
    p, digitCount := 1, 1;
    while vShrink / base > 0
      invariant digitCount >= 1 && p == Pow(base, digitCount - 1) && p > 0
      invariant vShrink * p <= v < vShrink * p + p && (digitCount > 1 ==> p <= v)
      decreases vShrink
    {
      StripDigit(v, p, base, vShrink);
      NextPlace(v, p, base, vShrink);
      PowStep(base, digitCount - 1);
      vShrink := vShrink / base;
      digitCount := digitCount + 1;
      p := p * base;
    }
    StripDigit(v, p, base, vShrink);
    PowStep(base, digitCount - 1);
    assert vShrink / base == 0;
  }

  /** The character for digit `d`: an unsigned char that is moved past '9' to the letters. */
  function DigitChar(d: nat, upper: bool): (c: char)
    requires d < 16
    ensures IsDigit(c) && DigitValue(c) == d
    ensures (upper ==> c < 'a') && (!upper ==> c <= '9' || c >= 'a') && (c == '0' <==> d == 0)
  {
    var x := d + '0' as int;
    if x > '9' as int then (x + (if upper then 'A' else 'a') as int - '0' as int - 10) as char else x as char
  }

  /** One digit printed. */
  lemma PrintStep(done: nat, v: nat, p: nat, b: nat, m: nat)
    requires p > 0 && b > 0 && done * (p * b) + v == m && v < p * b
    ensures v / p < b && v % p < p && (done * b + v / p) * p + v % p == m
  {
    DigitBound(v, p, b);
    DivMod(v, p);
    assert (done * b + v / p) * p == done * (p * b) + (v / p) * p;
  }

  lemma NextPower(b: nat, k: nat)
    requires IsBase(b)
    ensures k > 0 ==> Pow(b, k) / b == Pow(b, k - 1) && Pow(b, k) > 0
    ensures k == 0 ==> Pow(b, k) / b == 0
  {
    PowPositive(b, k);
    if k > 0 { assert Pow(b, k) == b * Pow(b, k - 1); }
  }

  /** `out` has been printed, `left` digits of `v` are to come, `p` is the place of the next one. */
  ghost predicate Remaining(out: string, v: nat, p: nat, left: nat, m: nat, b: nat) {
    && AllDigits(out)
    && if left == 0 then p == 0 && Value(out, b) == m
       else p == Pow(b, left - 1) && p > 0 && v < p * b && Value(out, b) * (p * b) + v == m
  }

  lemma NextDigit(out: string, v: nat, p: nat, left: nat, m: nat, b: nat, upper: bool)
    requires IsBase(b) && p > 0 && Remaining(out, v, p, left, m, b)
    ensures left > 0 && v / p < b
    ensures Remaining(out + [DigitChar(v / p, upper)], v % p, p / b, left - 1, m, b)
  {
    hide Value, Pow, DigitChar, DigitValue;
    PrintStep(Value(out, b), v, p, b, m);
    ValueSnoc(out, DigitChar(v / p, upper), b);
    NextPower(b, left - 1);
    if left == 1 { PowZero(b); } else { PowStep(b, left - 2); }
    PlaceShift(out + [DigitChar(v / p, upper)], v % p, p, p / b, left, m, b);
  }

  /** The digit is out; move on to the next place `q`. */
  lemma PlaceShift(out: string, r: nat, p: nat, q: nat, left: nat, m: nat, b: nat)
    requires AllDigits(out) && left > 0 && r < p && Value(out, b) * p + r == m
    requires if left == 1 then p == 1 && q == 0 else q > 0 && q == Pow(b, left - 2) && p == q * b
    ensures Remaining(out, r, q, left - 1, m, b)
  {
    hide Value, Pow;
  }

  lemma FirstDigit(v: nat, k: nat, b: nat)
    requires IsBase(b) && k >= 1 && v < Pow(b, k)
    ensures Remaining([], v, Pow(b, k - 1), k, v, b)
  {
    PowPositive(b, k - 1);
    PowStep(b, k - 1);
  }

  /** Split off the digit at place `p`. */
  method PrintDigit(ghost out: string, v: nat, p: nat, ghost left: nat, ghost m: nat, base: nat, upper: bool)
    returns (c: char, rest: nat, place: nat)
    requires IsBase(base) && p > 0 && Remaining(out, v, p, left, m, base)
    ensures left > 0 && Remaining(out + [c], rest, place, left - 1, m, base)
    ensures InCase(c, base, upper) && (p <= v ==> c != '0')
  {
    NextDigit(out, v, p, left, m, base, upper);
    hide Remaining;
    if p <= v { Scale1(v, p); }
    var d := v / p;
    c := DigitChar(d, upper);
    rest := v % p;
    place := p / base;
  }

  /** Print the digits of `value`, largest place first. */
  method PrintDigits(value: U32, place: U32, ghost digitCount: nat, base: nat, upper: bool) returns (out: string)
    requires IsBase(base) && digitCount >= 1 && place == Pow(base, digitCount - 1)
    requires value < Pow(base, digitCount) && (digitCount > 1 ==> place <= value)
    ensures IsNumeral(out, value, base, upper) && |out| == digitCount
  {
    FirstDigit(value, digitCount, base);
    hide Pow, Value, Remaining, InCase;
    out := [];
    var v: nat, p: nat := value, place;
    ghost var left: nat := digitCount;
    while p > 0
      invariant left + |out| == digitCount && Remaining(out, v, p, left, value, base)
      invariant forall i :: 0 <= i < |out| ==> InCase(out[i], base, upper)
      invariant out == [] ==> v == value && p == place
      invariant |out| > 0 && digitCount > 1 ==> out[0] != '0'
      decreases left
    {
      var c: char;
      c, v, p := PrintDigit(out, v, p, left, value, base, upper);
      out := out + [c];
      left := left - 1;
    }
    Printed(out, v, left, value, base);
  }

  lemma Printed(out: string, v: nat, left: nat, m: nat, b: nat)
    requires Remaining(out, v, 0, left, m, b)
    ensures left == 0 && AllDigits(out) && Value(out, b) == m
  {
  }

  lemma Scale1(v: nat, p: nat)
    requires 0 < p <= v
    ensures v / p > 0
  {
    DivMod(v, p);
  }

  lemma SignMagnitude(arg: U32, signed: bool)
    ensures var sign := signed && arg >= SIGN_BIT;
            && Magnitude(arg, signed) == (if sign then (TWO_32 - arg) % TWO_32 else arg)
            && Sign(arg, signed) == (if sign then "-" else "")
            && Denotes(arg, signed) == if sign then -(Magnitude(arg, signed) as int) else Magnitude(arg, signed)
  {
  }

  /** The integer conversion of alt_log_private_printf; `width` is the number before the decimal point,
      -1 if the format has none. */
  method PrintInteger(arg: U32, base: nat, signed: bool, upper: bool, leadingZero: bool, width: int)
    returns (out: string, digits: string)
    requires base == 8 || base == 10 || base == 16
    ensures IsNumeral(digits, Magnitude(arg, signed), base, upper)
    ensures |digits| == 1 || digits[0] != '0'
    ensures forall i :: 0 <= i < |digits| ==> digits[i] <= '9' || (if upper then digits[i] < 'a' else digits[i] >= 'a')
    // exactly the requested width, or as much as the number needs
    ensures var sign := Sign(arg, signed);
            var pad := Padding(width, |digits|, |sign|);
            && out == (if leadingZero then sign + Repeat('0', pad) + digits else Repeat(' ', pad) + sign + digits)
            && |out| == (if width > |digits| + |sign| then width else |digits| + |sign|)
    // reading it back gives the value: the argument itself, or the 32-bit two's complement number it stands for
    ensures Scannable(out) && Scan(out, base) == Denotes(arg, signed)
    ensures var v := Scan(out, base);
            (v - arg) % 0x1_0000_0000 == 0 && if signed then -0x8000_0000 <= v < 0x8000_0000 else v == arg
  {
    var v: U32, sign := arg, false;
    if signed && v >= SIGN_BIT {
      v := (TWO_32 - v) % TWO_32;
      sign := true;
    }
    SignMagnitude(arg, signed);
    hide IsBase, IsNumeral, Pow, Scan, Scannable, Value, Repeat, Sign, Magnitude, Denotes;
    var p, digitCount := CountDigits(v, base);
    digits := PrintDigits(v, p, digitCount, base, upper);
    var prefix := Prefix(sign, leadingZero, width - digitCount);
    out := prefix + digits;
    hide *;
    Layout(if sign then "-" else "", prefix, digits, leadingZero, width, v, base, upper);
  }

  /** The leading characters and the sign; `width` is what the digits leave of the field. */
  method Prefix(sign: bool, leadingZero: bool, width: int) returns (prefix: string)
    ensures var s := if sign then "-" else "";
            var pad := Padding(width, 0, |s|);
            prefix == if leadingZero then s + Repeat('0', pad) else Repeat(' ', pad) + s
  {
    var before := width;
    if leadingZero {
      prefix := [];
      if sign {
        prefix := "-";
        before := before - 1;
      }
      var zeros := RepChar('0', before);
      prefix := prefix + zeros;
    } else {
      if sign { before := before - 1; }
      prefix := RepChar(' ', before);
      if sign { prefix := prefix + "-"; }
    }
  }

  lemma Layout(sign: string, prefix: string, digits: string, leadingZero: bool, width: int, m: nat, b: nat,
               upper: bool)
    requires (sign == "" || sign == "-") && IsNumeral(digits, m, b, upper)
    requires var pad := Padding(width - |digits|, 0, |sign|);
             prefix == if leadingZero then sign + Repeat('0', pad) else Repeat(' ', pad) + sign
    ensures var out, pad := prefix + digits, Padding(width, |digits|, |sign|);
            && out == (if leadingZero then sign + Repeat('0', pad) + digits else Repeat(' ', pad) + sign + digits)
            && |out| == (if width > |digits| + |sign| then width else |digits| + |sign|)
            && Scannable(out) && Scan(out, b) == if sign == "-" then -(m as int) else m
  {
    hide IsNumeral, Scannable, Scan, Repeat;
    Assemble(sign, Padding(width, |digits|, |sign|), digits, leadingZero, m, b, upper);
  }

  lemma Assemble(sign: string, pad: nat, digits: string, leadingZero: bool, m: nat, b: nat, upper: bool)
    requires (sign == "" || sign == "-") && IsNumeral(digits, m, b, upper)
    ensures var out := if leadingZero then sign + Repeat('0', pad) + digits else Repeat(' ', pad) + sign + digits;
            && |out| == |sign| + pad + |digits|
            && Scannable(out) && Scan(out, b) == if sign == "-" then -(m as int) else m
  {
    if leadingZero { ScanZeros(sign, pad, digits, b); } else { ScanBlanks(sign, pad, digits, b); }
  }

  lemma ScanZeros(sign: string, pad: nat, digits: string, b: nat)
    requires (sign == "" || sign == "-") && |digits| > 0 && AllDigits(digits)
    ensures var out := sign + Repeat('0', pad) + digits;
            Scannable(out) && Scan(out, b) == if sign == "-" then -(Value(digits, b) as int) else Value(digits, b)
  {
    LeadingZeros(pad, digits, b);
    var t := Repeat('0', pad) + digits;
    var out := sign + Repeat('0', pad) + digits;
    assert t[0] != ' ' && t[0] != '-' by { assert IsDigit(t[0]); }
    if sign == "-" { assert out[1..] == t; } else { assert out == t; }
  }

  lemma ScanBlanks(sign: string, pad: nat, digits: string, b: nat)
    requires (sign == "" || sign == "-") && |digits| > 0 && AllDigits(digits)
    ensures var out := Repeat(' ', pad) + sign + digits;
            Scannable(out) && Scan(out, b) == if sign == "-" then -(Value(digits, b) as int) else Value(digits, b)
  {
    hide Scan, Scannable, Value, AllDigits;
    ScanSigned(sign, digits, b);
    LeadingBlanks(pad, sign + digits, b);
    assert Repeat(' ', pad) + sign + digits == Repeat(' ', pad) + (sign + digits);
  }

  lemma ScanSigned(sign: string, digits: string, b: nat)
    requires (sign == "" || sign == "-") && |digits| > 0 && AllDigits(digits)
    ensures var t := sign + digits;
            Scannable(t) && Scan(t, b) == if sign == "-" then -(Value(digits, b) as int) else Value(digits, b)
  {
    var t := sign + digits;
    assert IsDigit(digits[0]);
    if sign == "-" { assert t[1..] == digits; } else { assert t == digits; }
  }
}
