/** Reading an integer: the `strtol` of libs/kpathsea/strtol.c, for a `long` from
    -max-1 to max and an `unsigned long` up to 2*max+1. */
module Strtol {

  const Nul: char := 0 as char

  predicate IsSpace(c: char) {
    c == ' ' || 9 <= c as int <= 13
  }

  function ToUpper(c: char): char {
    if 'a' <= c <= 'z' then (c as int - 32) as char else c
  }

  /** The worth of a character as a digit; 36 for none. */
  function Digit(c: char): (d: nat)
    ensures d <= 36
  {
    if '0' <= c <= '9' then c as int - '0' as int
    else if 'A' <= ToUpper(c) <= 'Z' then ToUpper(c) as int - 'A' as int + 10
    else 36
  }

  function At(s: string, i: nat): char {
    if i < |s| then s[i] else Nul
  }

  // --------------------------------------------------------------- the meaning

  function SpacesEnd(s: string, i: nat): (j: nat)
    requires i <= |s|
    ensures i <= j <= |s| && (forall k | i <= k < j :: IsSpace(s[k])) && (j < |s| ==> !IsSpace(s[j]))
    decreases |s| - i
  {
    if i < |s| && IsSpace(s[i]) then SpacesEnd(s, i + 1) else i
  }

  function DigitsEnd(s: string, i: nat, base: nat): (j: nat)
    requires i <= |s|
    ensures i <= j <= |s| && (forall k | i <= k < j :: Digit(s[k]) < base) && (j < |s| ==> Digit(s[j]) >= base)
    decreases |s| - i
  {
    if i < |s| && Digit(s[i]) < base then DigitsEnd(s, i + 1, base) else i
  }

  /** The number some digits stand for. */
  function Value(digits: string, base: nat): nat
    decreases |digits|
  {
    if digits == "" then 0
    else Shift(Value(digits[..|digits| - 1], base), base, Digit(digits[|digits| - 1]))
  }

  /** One more digit. */
  function Shift(v: nat, base: nat, d: nat): nat {
    v * base + d
  }

  function EffectiveBase(base: int): (b: nat)
    ensures b == 0 || 2 <= b <= 36
  {
    if base < 0 || base == 1 || base > 36 then 10 else base
  }

  predicate HexPrefix(s: string, i: nat) {
    At(s, i) == '0' && ToUpper(At(s, i + 1)) == 'X'
  }

  /** The base that counts, and where the digits begin. */
  function DigitsStart(s: string, i: nat, base: int): (r: (nat, nat))
    requires i <= |s|
    ensures i <= r.0 <= |s| && 2 <= r.1 <= 36
  {
    var b := EffectiveBase(base);
    if (b == 16 || b == 0) && HexPrefix(s, i) then (i + 2, 16)
    else if b == 0 then (i, if At(s, i) == '0' then 8 else 10)
    else (i, b)
  }

  function Min(max: nat): int {
    -(max as int) - 1
  }

  function Clamp(x: int, max: nat): int {
    if x > max then max else if x < Min(max) then Min(max) else x
  }

  /** The value clamped to a range that has one more negative number is the nearest one. */
  lemma ClampIsNearest(x: int, max: nat)
    ensures -(max as int) - 1 <= Clamp(x, max) <= max
    ensures Clamp(x, max) == x <==> -(max as int) - 1 <= x <= max
    ensures x > max ==> Clamp(x, max) == max
    ensures x < -(max as int) - 1 ==> Clamp(x, max) == -(max as int) - 1
  {
  }

  datatype Reading = Reading(value: int, end: nat, erange: bool)

  /** What is read from s: an optional sign and digits from the given place on; the
      exact value if it fits, the nearest bound and a range error if not. */
  function Read(s: string, sign: nat, start: nat, base: nat, max: nat): Reading
    requires sign <= |s| && start <= |s|
  {
    var end := DigitsEnd(s, start, base);
    if end == start then Reading(0, 0, false)
    else
      var v := Value(s[start..end], base);
      var x := if At(s, sign) == '-' then -(v as int) else v;
      Reading(Clamp(x, max), end, Clamp(x, max) != x)
  }

  function AfterSign(s: string, i: nat): (j: nat)
    requires i <= |s|
    ensures i <= j <= |s|
  {
    if At(s, i) == '-' || At(s, i) == '+' then i + 1 else i
  }

  /** What the C code computes: the prefix 0x is taken with or without digits. */
  function Outcome(s: string, base: int, max: nat): Reading {
    var sign := SpacesEnd(s, 0);
    var (start, b) := DigitsStart(s, AfterSign(s, sign), base);
    Read(s, sign, start, b, max)
  }

  // ----------------------------------------------------------------- the C code

  /** The test before each step: multiplying and adding stays within range exactly
      when it passes. */
  lemma CutoffTest(i: nat, c: nat, base: nat, limit: nat)
    requires 0 < base && c < base
    ensures var cutoff, cutlim := limit / base, limit % base;
      i > cutoff || (i == cutoff && c > cutlim) <==> Shift(i, base, c) > limit
  {
    var cutoff, cutlim := limit / base, limit % base;
    assert limit == cutoff * base + cutlim;
    if i > cutoff {
      assert i * base >= (cutoff + 1) * base == cutoff * base + base;
    } else if i < cutoff {
      assert (i + 1) * base <= cutoff * base;
      assert (i + 1) * base == i * base + base;
    }
  }

  lemma ValueSnoc(s: string, start: nat, k: nat, base: nat)
    requires start <= k < |s|
    ensures Value(s[start..k + 1], base) == Shift(Value(s[start..k], base), base, Digit(s[k]))
  {
    var d := s[start..k + 1];
    assert d[..|d| - 1] == s[start..k];
  }

  lemma DigitsEndAt(s: string, start: nat, k: nat, base: nat)
    requires start <= k <= |s| && forall j | start <= j < k :: Digit(s[j]) < base
    ensures k == |s| || Digit(s[k]) >= base ==> DigitsEnd(s, start, base) == k
    decreases k - start
  {
    if start < k {
      DigitsEndAt(s, start + 1, k, base);
    }
  }

  /** The accumulator loop.  Once it has overflowed the value is too large, whatever
      the accumulator holds; it never exceeds the unsigned range. */
  method Accumulate(s: string, start: nat, base: nat, ulimit: nat) returns (end: nat, i: nat, overflow: bool)
    requires start <= |s| && 2 <= base <= 36
    ensures end == DigitsEnd(s, start, base) && i <= ulimit
    ensures var v := Value(s[start..end], base); overflow == (v > ulimit) && (!overflow ==> i == v)
  {
    hide Shift, DigitsEnd, Value;
    var cutoff, cutlim := ulimit / base, ulimit % base;
    overflow, i, end := false, 0, start;
    ValueNothing(s, start, base);
    while end < |s| && Digit(s[end]) < base
      invariant start <= end <= |s| && i <= ulimit
      invariant forall k | start <= k < end :: Digit(s[k]) < base
      invariant var v := Value(s[start..end], base); overflow == (v > ulimit) && (!overflow ==> i == v)
    {
      var c := Digit(s[end]);
      ValueSnoc(s, start, end, base);
      Grows(Value(s[start..end], base), base);
      CutoffTest(i, c, base, ulimit);
      if i > cutoff || (i == cutoff && c > cutlim) {
        overflow := true;
      } else {
        i := Multiply(i, base, c);
      }
      end := end + 1;
    }
    DigitsEndAt(s, start, end, base);
  }

  method Multiply(i0: nat, base: nat, c: nat) returns (i: nat)
    ensures i == Shift(i0, base, c)
  {
    i := i0 * base;
    i := i + c;
  }

  lemma ValueNothing(s: string, start: nat, base: nat)
    requires start <= |s|
    ensures Value(s[start..start], base) == 0
  {
  }

  lemma Grows(v: nat, base: nat)
    requires base > 0
    ensures forall d: nat :: v <= Shift(v, base, d)
  {
    assert v <= v * base;
  }

  method FindSign(nptr: string) returns (s: nat)
    ensures s == SpacesEnd(nptr, 0)
  {
    s := 0;
    while s < |nptr| && IsSpace(nptr[s])
      invariant s <= |nptr| && SpacesEnd(nptr, s) == SpacesEnd(nptr, 0)
    {
      s := s + 1;
    }
  }

  method FindDigits(nptr: string, base0: int, s0: nat) returns (s: nat, base: nat)
    requires Nul !in nptr && s0 <= |nptr|
    ensures (s, base) == DigitsStart(nptr, s0, base0)
  {
    s := s0;
    base := if base0 < 0 || base0 == 1 || base0 > 36 then 10 else base0;
    if base == 16 && At(nptr, s) == '0' && ToUpper(At(nptr, s + 1)) == 'X' {
      s := s + 2;
    }
    if base == 0 {
      if At(nptr, s) == '0' {
        if ToUpper(At(nptr, s + 1)) == 'X' {
          s := s + 2;
          base := 16;
        } else {
          base := 8;
        }
      } else {
        base := 10;
      }
    }
  }

  /** `strtol`; not converted: `end` is 0. */
  method Strtol(nptr: string, base0: int, max: nat) returns (r: Reading)
    requires Nul !in nptr
    ensures r == Outcome(nptr, base0, max)
  {
    hide DigitsStart, DigitsEnd, SpacesEnd, Value;
    var sign := FindSign(nptr);
    if sign == |nptr| {
      NoDigits(nptr, base0, max);
      return Reading(0, 0, false);
    }
    var negative := nptr[sign] == '-';
    var s := sign;
    if nptr[s] == '-' || nptr[s] == '+' {
      s := s + 1;
    }
    var save, base := FindDigits(nptr, base0, s);
    var end, i, overflow := Accumulate(nptr, save, base, 2 * max + 1);
    if end == save {
      return Reading(0, 0, false);
    }
    if i > (if negative then max + 1 else max) {
      overflow := true;
    }
    if overflow {
      return Reading(if negative then Min(max) else max, end, true);
    }
    return Reading(if negative then -(i as int) else i, end, false);
  }

  lemma NoDigits(s: string, base: int, max: nat)
    requires SpacesEnd(s, 0) == |s|
    ensures Outcome(s, base, max) == Reading(0, 0, false)
  {
  }

  // ---------------------------------------------------- the standard's own reading

  /** Section 7.20.1.4 of ISO/IEC 9899:1999: the prefix 0x belongs to the number only
      when a hexadecimal digit follows it; otherwise the 0 alone is the number. */
  function StandardStart(s: string, i: nat, base: int): (r: (nat, nat))
    requires i <= |s|
    ensures i <= r.0 <= |s| && 2 <= r.1 <= 36
  {
    var b := EffectiveBase(base);
    if (b == 16 || b == 0) && HexPrefix(s, i) && Digit(At(s, i + 2)) < 16 then (i + 2, 16)
    else if b == 0 then (i, if At(s, i) == '0' then 8 else 10)
    else (i, b)
  }

  function StandardOutcome(s: string, base: int, max: nat): Reading {
    var sign := SpacesEnd(s, 0);
    var (start, b) := StandardStart(s, AfterSign(s, sign), base);
    Read(s, sign, start, b, max)
  }

  /** A 0x with no hexadecimal digit behind it, where it would be taken for a prefix. */
  predicate BareHexPrefix(s: string, base: int) {
    var i := AfterSign(s, SpacesEnd(s, 0));
    (base == 16 || base == 0) && HexPrefix(s, i) && Digit(At(s, i + 2)) >= 16
  }

  /** The C code reads what the standard says exactly when there is no bare 0x. */
  lemma StandardIff(s: string, base: int, max: nat)
    ensures Outcome(s, base, max) == StandardOutcome(s, base, max) <==> !BareHexPrefix(s, base)
  {
    var i := AfterSign(s, SpacesEnd(s, 0));
    if BareHexPrefix(s, base) {
      assert DigitsEnd(s, i + 2, 16) == i + 2;
      assert Outcome(s, base, max).end == 0;
      assert DigitsEnd(s, i, StandardStart(s, i, base).1) == i + 1;
    }
  }

  /** In "0x" the standard reads the 0, the C code reads nothing. */
  lemma BareHexIsMisread(max: nat)
    ensures StandardOutcome("0x", 16, max) == Reading(0, 1, false)
    ensures Outcome("0x", 16, max) == Reading(0, 0, false)
  {
    hide DigitsEnd, Value;
    DigitsEndAt("0x", 0, 1, 16);
    DigitsEndAt("0x", 2, 2, 16);
    assert "0x"[0..1] == "0" && "0"[..0] == "";
    ValueSnoc("0x", 0, 0, 16);
    ValueNothing("0x", 0, 16);
  }

  // ------------------------------------------------------------------ round trip

  function DigitChar(d: nat): char
    requires d < 36
  {
    if d < 10 then ('0' as int + d) as char else ('a' as int + d - 10) as char
  }

  function Digits(n: nat, base: nat): (s: string)
    requires 2 <= base <= 36
    ensures s != ""
    decreases n
  {
    if n < base then [DigitChar(n)] else
      Shrinks(n, base);
      Digits(n / base, base) + [DigitChar(n % base)]
  }

  lemma Shrinks(n: nat, base: nat)
    requires base >= 2 && n >= base
    ensures n / base < n
  {
    assert n == n / base * base + n % base;
    Halves(n / base, base, n);
  }

  lemma Halves(q: nat, base: nat, n: nat)
    requires base >= 2 && q * base <= n && n > 0
    ensures q < n
  {
    assert q * base >= q * 2;
  }

  lemma DivMod(n: nat, base: nat)
    requires base > 0
    ensures Shift(n / base, base, n % base) == n
  {
  }

  lemma DigitOfChar(d: nat)
    requires d < 36
    ensures Digit(DigitChar(d)) == d
  {
  }

  function Written(x: int, base: nat): string
    requires 2 <= base <= 36
  {
    if x < 0 then "-" + Digits(-x, base) else Digits(x, base)
  }

  /** The digits of n are those of n / base and one more. */
  lemma DigitsSplit(n: nat, base: nat)
    requires 2 <= base <= 36
    ensures n < base ==> Digits(n, base) == "" + [DigitChar(n)]
    ensures n >= base ==> Digits(n, base) == Digits(n / base, base) + [DigitChar(n % base)]
  {
    hide DigitChar;
  }

  lemma Below(n: nat, base: nat)
    requires n < base
    ensures n / base == 0 && n % base == n
  {
  }

  lemma ValuePush(s: string, c: char, base: nat)
    ensures Value(s + [c], base) == Shift(Value(s, base), base, Digit(c))
    ensures Value("", base) == 0
  {
    hide Shift, Digit;
    assert (s + [c])[..|s|] == s;
  }

  lemma {:induction false} DigitsValue(n: nat, base: nat)
    requires 2 <= base <= 36
    ensures Value(Digits(n, base), base) == n
    ensures forall k | 0 <= k < |Digits(n, base)| :: Digit(Digits(n, base)[k]) < base
    decreases n
  {
    hide Shift, Digit, DigitChar, Digits, Value;
    DigitOfChar(n % base);
    DivMod(n, base);
    DigitsSplit(n, base);
    if n < base {
      Below(n, base);
      ValuePush("", DigitChar(n), base);
    } else {
      Shrinks(n, base);
      DigitsValue(n / base, base);
      ValuePush(Digits(n / base, base), DigitChar(n % base), base);
    }
  }

  /** A written number reads back, in every base; out of range it reads as the nearest
      bound, with a range error. */
  lemma RoundTrip(x: int, base: nat, max: nat)
    requires 2 <= base <= 36
    ensures Outcome(Written(x, base), base, max) == Reading(Clamp(x, max), |Written(x, base)|, Clamp(x, max) != x)
  {
    hide Value, Digits, Digit, DigitsEnd, SpacesEnd;
    var n := if x < 0 then -x else x;
    var s, d := Written(x, base), Digits(n, base);
    DigitsValue(n, base);
    var start := if x < 0 then 1 else 0;
    assert s[start..] == d;
    assert forall k | start <= k < |s| :: s[k] == d[k - start] && Digit(s[k]) < base;
    assert s[0] == if x < 0 then '-' else d[0];
    AllDigits(s, start, base);
    assert s[start..|s|] == d;
    NoPrefix(s, start, base);
  }

  lemma NoPrefix(s: string, start: nat, base: nat)
    requires 2 <= base <= 36 && start < |s| && forall k | start <= k < |s| :: Digit(s[k]) < base
    requires start == 0 || (start == 1 && s[0] == '-')
    ensures SpacesEnd(s, 0) == 0 && DigitsStart(s, start, base) == (start, base)
      && (start == 0 ==> AfterSign(s, 0) == 0)
  {
    assert Digit(s[start]) < base;
    assert |s| > start + 1 ==> Digit(s[start + 1]) < base;
  }

  lemma {:induction false} AllDigits(s: string, i: nat, base: nat)
    requires i <= |s| && forall k | i <= k < |s| :: Digit(s[k]) < base
    ensures DigitsEnd(s, i, base) == |s|
    decreases |s| - i
  {
    if i < |s| {
      AllDigits(s, i + 1, base);
    }
  }

  // ------------------------------------------------------------- numbers as people write

  /** The same digits, with capital letters for some of the small ones. */
  predicate SameButCase(d: string, e: string) {
    && |d| == |e|
    && forall k | 0 <= k < |d| :: d[k] == e[k] || ('a' <= e[k] <= 'z' && d[k] as int == e[k] as int - 32)
  }

  lemma CaseOfDigits(d: string, e: string)
    requires SameButCase(d, e)
    ensures forall k | 0 <= k < |d| :: Digit(d[k]) == Digit(e[k])
  {
  }

  lemma {:induction false} ValueOfSame(d: string, e: string, base: nat)
    requires |d| == |e| && forall k | 0 <= k < |d| :: Digit(d[k]) == Digit(e[k])
    ensures Value(d, base) == Value(e, base)
    decreases |d|
  {
    hide Shift, Digit;
    if d != "" {
      ValueOfSame(d[..|d| - 1], e[..|e| - 1], base);
    }
  }

  /** The prefix and the base that is asked for, and the base they stand for.  Without
      both, a leading zero stands for base 8. */
  predicate Prefixes(prefix: string, base: int, zero: bool, b: nat) {
    || (prefix == "" && base == b && 2 <= b <= 36)
    || (prefix == "" && (base < 0 || base == 1 || base > 36) && b == 10)
    || (prefix == "" && base == 0 && b == if zero then 8 else 10)
    || ((prefix == "0x" || prefix == "0X") && (base == 0 || base == 16) && b == 16)
  }

  predicate Zeros(z: string) {
    forall i | 0 <= i < |z| :: z[i] == '0'
  }

  lemma {:induction false} SpacesEndIs(s: string, i: nat, j: nat)
    requires i <= j <= |s| && (forall k | i <= k < j :: IsSpace(s[k])) && (j < |s| ==> !IsSpace(s[j]))
    ensures SpacesEnd(s, i) == j
    decreases j - i
  {
    if i < j {
      SpacesEndIs(s, i + 1, j);
    }
  }

  lemma {:induction false} ZerosValue(z: string, d: string, base: nat)
    requires Zeros(z)
    ensures Value(z + d, base) == Value(d, base)
    decreases |z| + |d|
  {
    hide Digit;
    var s := z + d;
    if d != "" {
      assert s[..|s| - 1] == z + d[..|d| - 1];
      ZerosValue(z, d[..|d| - 1], base);
    } else if z != "" {
      assert s[..|s| - 1] == z[..|z| - 1] + d;
      ZerosValue(z[..|z| - 1], d, base);
      assert Digit('0') == 0 by { ZeroDigit(); }
    }
  }

  lemma ZeroDigit()
    ensures Digit('0') == 0
  {
  }

  lemma DigitsOf(n: nat, b: nat, d: string)
    requires 2 <= b <= 36 && SameButCase(d, Digits(n, b))
    ensures d != "" && Value(d, b) == n && forall k | 0 <= k < |d| :: Digit(d[k]) < b
    ensures d[0] == '0' <==> n == 0
  {
    hide Value, Digit, Digits;
    var e := Digits(n, b);
    DigitsValue(n, b);
    CaseOfDigits(d, e);
    ValueOfSame(d, e, b);
    if n > 0 {
      NoLeadingZero(n, b);
    } else {
      DigitsSplit(0, b);
    }
  }

  lemma {:induction false} NoLeadingZero(n: nat, base: nat)
    requires 2 <= base <= 36 && n > 0
    ensures Digits(n, base)[0] != '0'
    decreases n
  {
    hide Digits;
    DigitsSplit(n, base);
    if n >= base {
      Shrinks(n, base);
      AtLeastOne(n, base);
      NoLeadingZero(n / base, base);
    } else {
      Below(n, base);
    }
  }

  lemma AtLeastOne(n: nat, base: nat)
    requires 0 < base <= n
    ensures n / base > 0
  {
    assert n == n / base * base + n % base;
  }

  /** Where the sign ends. */
  lemma SignAt(s: string, i: nat, j: nat)
    requires i <= j < |s| && (forall h | 0 <= h < i :: IsSpace(s[h]))
    requires s[i..j] == "" || s[i..j] == "+" || s[i..j] == "-"
    requires Digit(s[j]) < 36
    ensures SpacesEnd(s, 0) == i && AfterSign(s, i) == j && (At(s, i) == '-' <==> s[i..j] == "-")
  {
    var sign := s[i..j];
    assert i < j ==> sign[0] == s[i];
    SpacesEndIs(s, 0, i);
  }

  /** Where the digits begin. */
  lemma PrefixAt(s: string, j: nat, k: nat, base: int, b: nat)
    requires j <= k < |s| && 2 <= b <= 36 && Digit(s[k]) < b && Prefixes(s[j..k], base, s[k] == '0', b)
    requires j == k && (base == 16 || base == 0) && s[k] == '0' ==> At(s, k + 1) != 'x' && At(s, k + 1) != 'X'
    ensures DigitsStart(s, j, base) == (k, b) && Digit(s[j]) < 36
  {
    var prefix := s[j..k];
    assert j < k ==> prefix[0] == s[j];
    assert j + 1 < k ==> prefix[1] == s[j + 1];
    NoX(At(s, k));
    NoX(At(s, k + 1));
    if prefix == "0x" || prefix == "0X" {
      assert k == j + 2 && HexPrefix(s, j);
    } else {
      assert k == j;
    }
  }

  lemma NoX(c: char)
    ensures c == 'x' || c == 'X' <==> ToUpper(c) == 'X'
    ensures c == 'x' || c == 'X' ==> Digit(c) == 33
  {
  }

  /** What is read when the parts of the text are known. */
  lemma PartsAreRead(s: string, i: nat, j: nat, k: nat, e: nat, base: int, b: nat, max: nat)
    requires i <= j <= k < e <= |s| && 2 <= b <= 36
    requires (forall h | 0 <= h < i :: IsSpace(s[h])) && (s[i..j] == "" || s[i..j] == "+" || s[i..j] == "-")
    requires Prefixes(s[j..k], base, s[k] == '0', b)
    requires (forall h | k <= h < e :: Digit(s[h]) < b) && (e < |s| ==> Digit(s[e]) >= b)
    requires j == k && (base == 16 || base == 0) && s[k] == '0' ==> At(s, k + 1) != 'x' && At(s, k + 1) != 'X'
    ensures var v := Value(s[k..e], b);
      var x := if s[i..j] == "-" then -(v as int) else v as int;
      Outcome(s, base, max) == Reading(Clamp(x, max), e, Clamp(x, max) != x)
  {
    hide Value, Digit, SpacesEnd, DigitsEnd, DigitsStart, Prefixes, AfterSign;
    PrefixAt(s, j, k, base, b);
    SignAt(s, i, j);
    DigitsEndAt(s, k, e, b);
  }

  /** White space, a sign, a prefix, digits in either case with any zeros in front, and
      whatever follows that is no digit: the number is read, clamped, and reading stops
      behind it.  A lone zero must not look like a prefix with what follows. */
  lemma NumberIsRead(space: string, sign: string, prefix: string, z: string, n: nat, d: string, u: string,
                     base: int, b: nat, max: nat)
    requires forall k | 0 <= k < |space| :: space[k] == ' ' || 9 <= space[k] as int <= 13
    requires sign == "" || sign == "+" || sign == "-"
    requires 2 <= b <= 36 && Prefixes(prefix, base, z != "" || n == 0, b)
    requires Zeros(z) && SameButCase(d, Digits(n, b)) && (u != "" ==> Digit(u[0]) >= b)
    requires z + d == "0" && u != "" ==> u[0] != 'x' && u[0] != 'X'
    ensures var text, x := space + sign + prefix + (z + d), if sign == "-" then -(n as int) else n as int;
      Outcome(text + u, base, max) == Reading(Clamp(x, max), |text|, Clamp(x, max) != x)
  {
    hide Value, Digit, Digits, SameButCase, Prefixes, Zeros, Outcome;
    var s, i, j := space + sign + prefix + (z + d) + u, |space|, |space| + |sign|;
    var k := j + |prefix|;
    DigitsOf(n, b, d);
    ZerosValue(z, d, b);
    ZerosAndDigits(z, d, b);
    Parts(space, sign, prefix, z + d, u);
    NoPrefixInside(s, k, z + d, u, b);
    if prefix == "" && (base == 16 || base == 0) {
      PrefixBase(prefix, base, z != "" || n == 0, b);
    }
    PartsAreRead(s, i, j, k, k + |z + d|, base, b, max);
  }

  lemma PrefixBase(prefix: string, base: int, zero: bool, b: nat)
    requires Prefixes(prefix, base, zero, b) && prefix == "" && (base == 16 || base == 0)
    ensures b <= 16
  {
  }

  lemma Parts(space: string, sign: string, prefix: string, zd: string, u: string)
    requires zd != ""
    ensures var s, i, j := space + sign + prefix + zd + u, |space|, |space| + |sign|;
      var k := j + |prefix|;
      var e := k + |zd|;
      && e <= |s| && (forall h | 0 <= h < i :: s[h] == space[h])
      && s[i..j] == sign && s[j..k] == prefix && s[k..e] == zd && s[k..] == zd + u
      && s[k] == zd[0] && (forall h | k <= h < e :: s[h] == zd[h - k])
      && (e < |s| ==> u != "" && s[e] == u[0])
  {
  }

  lemma ZerosAndDigits(z: string, d: string, b: nat)
    requires Zeros(z) && d != "" && 0 < b && forall k | 0 <= k < |d| :: Digit(d[k]) < b
    ensures forall k | 0 <= k < |z + d| :: Digit((z + d)[k]) < b
    ensures (z + d)[0] == '0' <==> z != "" || d[0] == '0'
  {
    ZeroDigit();
  }

  lemma NoPrefixInside(s: string, k: nat, zd: string, u: string, b: nat)
    requires k <= |s| && s[k..] == zd + u && zd != "" && forall h | 0 <= h < |zd| :: Digit(zd[h]) < b
    requires zd == "0" && u != "" ==> u[0] != 'x' && u[0] != 'X'
    ensures b <= 16 && s[k] == '0' ==> At(s, k + 1) != 'x' && At(s, k + 1) != 'X'
  {
    assert s[k] == s[k..][0] && (k + 1 < |s| ==> s[k + 1] == s[k..][1]);
    NoX(At(s, k + 1));
    if |zd| == 1 && s[k] == '0' {
      assert zd == "0";
    }
  }
}
