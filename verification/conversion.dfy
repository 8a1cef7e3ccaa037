// itoa.c, atoi.c and reverse.c: integers to text and back.
module Conversion {
  import opened Bits
  import opened Common

  const INT_MIN: int := -0x8000_0000
  const INT_MAX: int := 0x7fff_ffff

  // ----- Digits -----

  const LETTERS: string := "abcdefghijklmnopqrstuvwxyz"
  const LETTERS_DOWN: string := "zyxwvutsrqponmlkjihgfedcba"

  /** The table of itoa.c, centred at index 35 so that remainders of either sign find their digit. */
  const DIGITS: string := LETTERS_DOWN + "987654321" + "0123456789" + LETTERS

  /** 0-9, then a-z */
  function Digit(d: nat): (c: char)
    requires d < 36
  {
    (if d < 10 then 48 + d else 97 + (d - 10)) as char
  }

  lemma Letter(k: nat)
    requires k < 26
    ensures |LETTERS| == 26 && LETTERS[k] as int == 97 + k
  {
  }

  lemma LetterDown(k: nat)
    requires k < 26
    ensures |LETTERS_DOWN| == 26 && LETTERS_DOWN[25 - k] as int == 97 + k
  {
  }

  lemma TableEntry(d: nat)
    requires d < 36
    ensures |DIGITS| == 71 && DIGITS[35 + d] == Digit(d) && DIGITS[35 - d] == Digit(d)
  {
    if d >= 10 {
      Letter(d - 10);
      LetterDown(d - 10);
    } else {
      assert "0123456789"[d] as int == 48 + d;
      assert d > 0 ==> "987654321"[9 - d] as int == 48 + d;
    }
  }

  // ----- Numbers and texts -----

  lemma DivMod(v: nat, base: nat)
    requires base >= 2
    ensures v == base * (v / base) + v % base && 0 <= v % base < base && 0 <= v / base <= v && (v > 0 ==> v / base < v)
    ensures v / base == 0 <==> v < base
  {
    var q := v / base;
    assert q >= 1 ==> base * q >= 2 * q by {
      if q >= 1 {
        assert base * q == 2 * q + (base - 2) * q;
      }
    }
  }

  /** v in a base from 2 to 36, most significant digit first. */
  function Text(v: nat, base: nat): (t: string)
    requires 2 <= base <= 36
    ensures t != ""
  {
    DivMod(v, base);
    if v / base == 0 then [Digit(v % base)] else Text(v / base, base) + [Digit(v % base)]
  }

  /** The value of a digit character. */
  function DigitValue(c: char): int { if c as int < 58 then c as int - 48 else c as int - 87 }

  lemma ValueOfDigit(d: nat)
    requires d < 36
    ensures DigitValue(Digit(d)) == d && Digit(d) != '\0'
  {
  }

  /** What a text denotes in a base. */
  function Denotes(t: string, base: nat): int {
    if t == "" then 0 else Denotes(t[..|t| - 1], base) * base + DigitValue(t[|t| - 1])
  }

  lemma DenotesNext(p: string, c: char, base: nat)
    ensures Denotes(p + [c], base) == Denotes(p, base) * base + DigitValue(c)
  {
    assert (p + [c])[..|p|] == p;
  }

  lemma ZeroDigit(d: nat)
    requires d < 36
    ensures Digit(d) == '0' <==> d == 0
  {
  }

  /** The text of v denotes v and has no leading zero. */
  lemma {:induction false} TextDenotes(v: nat, base: nat)
    requires 2 <= base <= 36
    ensures Denotes(Text(v, base), base) == v
    ensures Text(v, base)[0] == '0' ==> Text(v, base) == "0" && v == 0
  {
    hide Digit, DigitValue, Denotes;
    DivMod(v, base);
    var q, r := v / base, v % base;
    ValueOfDigit(r);
    ZeroDigit(r);
    DenotesNext(if q == 0 then "" else Text(q, base), Digit(r), base);
    assert "" + [Digit(r)] == [Digit(r)];
    assert Denotes("", base) == 0 by { DenotesNothing(base); }
    if q > 0 {
      TextDenotes(q, base);
    }
  }

  lemma DenotesNothing(base: nat)
    ensures Denotes("", base) == 0
  {
  }

  /** Every prefix of it denotes at most v, so that reading it does not overflow. */
  lemma {:induction false} PrefixAtMost(v: nat, base: nat, k: nat)
    requires 2 <= base <= 36 && k <= |Text(v, base)|
    ensures 0 <= Denotes(Text(v, base)[..k], base) <= v
  {
    DivMod(v, base);
    var t, q := Text(v, base), v / base;
    if k == |t| {
      assert t[..k] == t;
      TextDenotes(v, base);
    } else if q > 0 {
      assert t[..k] == Text(q, base)[..k];
      PrefixAtMost(q, base, k);
    } else {
      assert t[..k] == "";
    }
  }

  /** A text of at most n digits for v below base^n; 32 digits are enough for 32 bits. */
  lemma {:induction false} TextLength(v: nat, base: nat, n: nat)
    requires 2 <= base <= 36 && v < Pow2(n) && n > 0
    ensures |Text(v, base)| <= n
  {
    DivMod(v, base);
    if v / base > 0 {
      QuotientBelow(v, base, v / base, v % base, Pow2(n - 1));
      TextLength(v / base, base, n - 1);
    }
  }

  lemma QuotientBelow(v: nat, base: nat, q: nat, r: nat, p: nat)
    requires v == base * q + r && base >= 2 && v < 2 * p
    ensures q < p
  {
    assert base * q == 2 * q + (base - 2) * q;
  }

  lemma {:induction false} Pow2Sum(a: nat, b: nat)
    ensures Pow2(a + b) == Pow2(a) * Pow2(b)
  {
    if a > 0 {
      Pow2Sum(a - 1, b);
      assert Pow2(a) * Pow2(b) == 2 * (Pow2(a - 1) * Pow2(b));
    }
  }

  lemma Pow2Of32()
    ensures Pow2(32) == TWO_32
  {
    Pow2Of5();
    assert Pow2(6) == 64 && Pow2(7) == 128 && Pow2(8) == 256;
    Squared(8, 256);
    Squared(16, 0x1_0000);
  }

  lemma Squared(a: nat, p: nat)
    requires Pow2(a) == p
    ensures Pow2(2 * a) == p * p
  {
    Pow2Sum(a, a);
  }

  /** A buffer of 34 characters is large enough for any value in any base. */
  lemma ItoaFits(value: int, base: int)
    requires INT_MIN <= value <= INT_MAX
    ensures |ItoaText(value, base)| <= 33
  {
    hide Pow2, Text;
    Pow2Of32();
    if 2 <= base <= 36 {
      if value < 0 && base == 10 {
        TextLength(-value, 10, 32);
      } else {
        TextLength(value % TWO_32, base, 32);
      }
    }
  }

  // ----- reverse -----

  function Reversed(s: string): (r: string)
    ensures |r| == |s| && forall k {:trigger r[k]} | 0 <= k < |s| :: r[k] == s[|s| - 1 - k]
  {
    seq(|s|, k requires 0 <= k < |s| => s[|s| - 1 - k])
  }

  /** A NUL-terminated string of length n at the start of the array. */
  ghost predicate Terminated(a: array<char>, n: nat)
    reads a
  {
    n < a.Length && a[n] == '\0' && forall k | 0 <= k < n :: a[k] != '\0'
  }

  method StrLen(a: array<char>, ghost n: nat) returns (len: int)
    requires Terminated(a, n)
    ensures len == n
  {
    len := 0;
    while a[len] != '\0'
      invariant 0 <= len <= n
      decreases n - len
    {
      len := len + 1;
    }
  }

  method Reverse(a: array<char>, ghost n: nat)
    requires Terminated(a, n)
    modifies a
    ensures a[..n] == Reversed(old(a[..n])) && Terminated(a, n)
    ensures a[n..] == old(a[n..])
  {
    var len := StrLen(a, n);
    var i, x := 0, len - 1;
    while i < x
      invariant 0 <= i <= n && x == n - 1 - i && i <= x + 2
      invariant forall k {:trigger a[k]} | 0 <= k < a.Length ::
        a[k] == if k < n && (k < i || x < k) then old(a[n - 1 - k]) else old(a[k])
    {
      a[i], a[x] := a[x], a[i];
      i, x := i + 1, x - 1;
    }
  }

  // ----- itoa -----

  /** The result of itoa: nothing for a bad base; a sign only in base 10; otherwise the value as an unsigned word. */
  function ItoaText(value: int, base: int): string
    requires INT_MIN <= value <= INT_MAX
  {
    if base < 2 || base > 36 then ""
    else if value < 0 && base == 10 then "-" + Text(-value, 10)
    else Text(value % TWO_32, base)
  }

  /** The digits come out last first: what is in the buffer, reversed, before what is left of the number. */
  ghost predicate Emitted(buf: string, rest: nat, v: nat, base: nat)
    requires 2 <= base <= 36
  {
    Text(v, base) == (if rest == 0 && buf != "" then "" else Text(rest, base)) + Reversed(buf)
  }

  lemma EmitStart(v: nat, base: nat)
    requires 2 <= base <= 36
    ensures Emitted("", v, v, base)
  {
    assert Reversed("") == "";
  }

  lemma EmitOne(buf: string, rest: nat, v: nat, base: nat)
    requires 2 <= base <= 36 && Emitted(buf, rest, v, base) && (buf == "" || rest > 0)
    ensures Emitted(buf + [Digit(rest % base)], rest / base, v, base)
  {
    DivMod(rest, base);
    var c := Digit(rest % base);
    assert Reversed(buf + [c]) == [c] + Reversed(buf);
  }

  lemma EmitEnd(buf: string, v: nat, base: nat)
    requires 2 <= base <= 36 && Emitted(buf, 0, v, base) && buf != ""
    ensures Text(v, base) == Reversed(buf)
  {
  }

  lemma EmitFits(buf: string, rest: nat, v: nat, base: nat)
    requires 2 <= base <= 36 && Emitted(buf, rest, v, base)
    ensures |buf| <= |Text(v, base)| && (rest > 0 ==> |buf| < |Text(v, base)|)
  {
  }

  /** *ctmp++ = c */
  method PutChar(buff: array<char>, n: nat, c: char)
    requires n < buff.Length && c != '\0' && forall k | 0 <= k < n :: buff[k] != '\0'
    modifies buff
    ensures buff[..n + 1] == old(buff[..n]) + [c] && forall k | 0 <= k <= n :: buff[k] != '\0'
  {
    buff[n] := c;
  }

  /** The loop for a negative value in base 10, where quotient and remainder are not positive. */
  method EmitNegative(value: int, buff: array<char>) returns (n: nat)
    requires INT_MIN <= value < 0 && |Text(-value, 10)| < buff.Length
    modifies buff
    ensures n == |Text(-value, 10)| && Text(-value, 10) == Reversed(buff[..n]) && forall k | 0 <= k < n :: buff[k] != '\0'
  {
    hide Text, Emitted, Digit, Reversed, DIGITS;
    var rest := value;
    n := 0;
    assert buff[..0] == "";
    EmitStart(-value, 10);
    while true
      invariant (n == 0 || rest < 0) && n < |Text(-value, 10)| && rest <= 0
      invariant Emitted(buff[..n], -rest, -value, 10) && forall k | 0 <= k < n :: buff[k] != '\0'
      decreases -rest
    {
      var tmp := rest;
      rest := -((-tmp) / 10);
      ghost var d := (-tmp) % 10;
      TableEntry(d);
      ValueOfDigit(d);
      assert tmp - rest * 10 == -d;
      EmitOne(buff[..n], -tmp, -value, 10);
      EmitFits(buff[..n] + [Digit(d)], -rest, -value, 10);
      PutChar(buff, n, DIGITS[35 + (tmp - rest * 10)]);
      n := n + 1;
      if rest == 0 {
        break;
      }
    }
    EmitEnd(buff[..n], -value, 10);
  }

  /** The loop for all other values. */
  method EmitUnsigned(value: nat, buff: array<char>, base: nat) returns (n: nat)
    requires 2 <= base <= 36 && |Text(value, base)| < buff.Length
    modifies buff
    ensures n == |Text(value, base)| && Text(value, base) == Reversed(buff[..n]) && forall k | 0 <= k < n :: buff[k] != '\0'
  {
    hide Text, Emitted, Digit, Reversed, DIGITS;
    var rest := value;
    n := 0;
    assert buff[..0] == "";
    EmitStart(value, base);
    while true
      invariant (n == 0 || rest > 0) && n < |Text(value, base)| && rest >= 0
      invariant Emitted(buff[..n], rest, value, base) && forall k | 0 <= k < n :: buff[k] != '\0'
      decreases rest
    {
      var tmp := rest;
      rest := tmp / base;
      DivMod(tmp, base);
      ghost var d := tmp % base;
      TableEntry(d);
      ValueOfDigit(d);
      assert tmp - rest * base == d;
      EmitOne(buff[..n], tmp, value, base);
      EmitFits(buff[..n] + [Digit(d)], rest, value, base);
      PutChar(buff, n, DIGITS[35 + (tmp - rest * base)]);
      n := n + 1;
      if rest == 0 {
        break;
      }
    }
    EmitEnd(buff[..n], value, base);
  }

  /** itoa */
  method Itoa(value: int, buff: array<char>, base: int)
    requires INT_MIN <= value <= INT_MAX && |ItoaText(value, base)| < buff.Length
    modifies buff
    ensures Terminated(buff, |ItoaText(value, base)|) && buff[..|ItoaText(value, base)|] == ItoaText(value, base)
  {
    hide Text, Reversed;
    if base < 2 || base > 36 {
      buff[0] := '\0';
      return;
    }
    var n;
    ghost var digits;
    if value < 0 && base == 10 {
      n := EmitNegative(value, buff);
      digits := buff[..n];
      buff[n] := '-';
      assert buff[..n + 1] == digits + "-";
      ReversedSign(digits);
      n := n + 1;
    } else {
      n := EmitUnsigned(value % TWO_32, buff, base);
    }
    ghost var before := buff[..n];
    buff[n] := '\0';
    assert buff[..n] == before;
    ReversedSize(before);
    Reverse(buff, n);
  }

  lemma ReversedSign(digits: string)
    ensures Reversed(digits + "-") == "-" + Reversed(digits)
  {
  }

  lemma ReversedSize(s: string)
    ensures |Reversed(s)| == |s|
  {
  }

  // ----- atoi -----

  /** The character at index i of a C string. */
  function CharAt(s: string, i: nat): char { if i < |s| then s[i] else '\0' }

  predicate IsSpace(c: char) { c as int == 32 || 9 <= c as int <= 13 }

  predicate IsLower(c: char) { 0x60 < c as int < 0x7b }

  /** isalnum; isdigit accepts the codes 0x30 to 0x3f. */
  predicate IsAlnum(c: char) { 0x40 < c as int < 0x5b || IsLower(c) || 0x2f < c as int < 0x40 }

  /** How many characters at the start satisfy the test. */
  function Leading(s: string, test: char -> bool): (n: nat)
    ensures n <= |s| && forall k | 0 <= k < n :: test(s[k])
    ensures n < |s| ==> !test(s[n])
  {
    if s == "" || !test(s[0]) then 0 else 1 + Leading(s[1..], test)
  }

  lemma {:induction false} LeadingIs(s: string, test: char -> bool, n: nat)
    requires n <= |s| && (forall k | 0 <= k < n :: test(s[k])) && (n < |s| ==> !test(s[n]))
    ensures Leading(s, test) == n
  {
    if n > 0 {
      assert forall k | 0 <= k < n - 1 :: s[1..][k] == s[k + 1];
      LeadingIs(s[1..], test, n - 1);
    }
  }

  /** What atoi takes a character for; above base 10 it subtracts 7 from a decimal digit too. */
  function Taken(c: char, base: int): int {
    var tmp := c as int - 48;
    if base <= 10 then tmp else if IsLower(c) then tmp - 0x27 else tmp - 0x7
  }

  datatype Parsed = Refused | Value(v: int)

  /** The value accumulated over alphanumeric characters; one that is too large for the base makes atoi return 0. */
  ghost function Fold(t: string, base: int): Parsed {
    if t == "" then Value(0)
    else
      var c := t[|t| - 1];
      match Fold(t[..|t| - 1], base)
      case Refused => Refused
      case Value(v) => if Taken(c, base) >= base then Refused else Value(v * base + Taken(c, base))
  }

  /** Sign or base prefix: how many characters it takes, and whether the text is refused for it. */
  function PrefixLength(s: string, base: int): int {
    var c := CharAt(s, 0);
    if c == '+' || c == '-' then if base == 10 then 1 else -1
    else if c == '0' && (CharAt(s, 1) == 'b' || CharAt(s, 1) == 'B') then if base == 2 then 2 else -1
    else if c == '0' && CharAt(s, 1) == 'x' then if base == 16 then 2 else -1
    else 0
  }

  ghost function AtoiValue(str: string, base: int): int { AfterBlanks(str[Leading(str, IsSpace)..], base) }

  ghost function AfterBlanks(s: string, base: int): int {
    var p := PrefixLength(s, base);
    if base > 36 || base < 2 || p < 0 then 0
    else
      assert p <= |s| by { PrefixInside(s, base); }
      var t := s[p..];
      match Fold(t[..Leading(t, IsAlnum)], base)
      case Refused => 0
      case Value(v) => if base == 10 && CharAt(s, 0) == '-' then -v else v
  }

  lemma PrefixInside(s: string, base: int)
    ensures PrefixLength(s, base) <= |s|
  {
  }

  lemma {:induction false} FoldRefused(t: string, k: nat, base: int)
    requires k <= |t| && Fold(t[..k], base) == Refused
    ensures Fold(t, base) == Refused
  {
    if k < |t| {
      assert t[..|t| - 1][..k] == t[..k];
      FoldRefused(t[..|t| - 1], k, base);
    } else {
      assert t[..k] == t;
    }
  }

  /** The first loop of atoi: white space is skipped. */
  method SkipSpace(str: string) returns (index: nat)
    ensures index == Leading(str, IsSpace)
  {
    index := 0;
    while IsSpace(CharAt(str, index))
      invariant 0 <= index <= |str| && forall k | 0 <= k < index :: IsSpace(str[k])
      decreases |str| - index
    {
      index := index + 1;
    }
    LeadingIs(str, IsSpace, index);
  }

  /** The sign and prefix tests; base 8 with a leading 0 never gets its own branch, because '0' was tested for before. */
  method SkipPrefix(str: string, from: nat, base: int) returns (ok: bool, index: nat, sign: int)
    requires from <= |str|
    ensures var s := str[from..];
      if PrefixLength(s, base) < 0 then !ok
      else ok && index == from + PrefixLength(s, base) <= |str| && sign == (if base == 10 && CharAt(s, 0) == '-' then -1 else 1)
  {
    ghost var s := str[from..];
    assert CharAt(str, from) == CharAt(s, 0) && CharAt(str, from + 1) == CharAt(s, 1);
    PrefixInside(s, base);
    ok, index, sign := true, from, 1;
    if CharAt(str, index) == '+' || CharAt(str, index) == '-' {
      if base != 10 {
        return false, index, sign;
      }
      sign := if CharAt(str, index) == '-' then -1 else 1;
      index := index + 1;
    } else if CharAt(str, index) == '0' {
      if CharAt(str, index + 1) == 'b' || CharAt(str, index + 1) == 'B' {
        if base != 2 {
          return false, index, sign;
        }
        index := index + 2;
      } else if CharAt(str, index + 1) == 'x' {
        if base != 16 {
          return false, index, sign;
        }
        index := index + 2;
      }
    }
  }

  lemma Signed(sign: int, val: int)
    ensures (sign == 1 ==> sign * val == val) && (sign == -1 ==> sign * val == -val)
  {
  }

  /** atoi; the accumulated value is an exact integer here, while overflow is undefined in C. */
  method Atoi(str: string, base: int) returns (r: int)
    ensures r == AtoiValue(str, base)
  {
    hide Fold, Taken, IsSpace, IsAlnum, PrefixLength, Leading, CharAt;
    if base > 36 || base < 2 {
      return 0;
    }
    var start := SkipSpace(str);
    var ok, index, sign := SkipPrefix(str, start, base);
    if !ok {
      return 0;
    }
    assert str[start..][index - start..] == str[index..];
    var accepted, val := Accumulate(str, index, base);
    Signed(sign, val);
    r := if !accepted then 0 else if base == 10 then sign * val else val;
  }

  /** The accumulating loop */
  method Accumulate(str: string, from: nat, base: int) returns (ok: bool, val: int)
    requires from <= |str|
    ensures var t := str[from..];
      Fold(t[..Leading(t, IsAlnum)], base) == if ok then Value(val) else Refused
  {
    hide Fold;
    ghost var t := str[from..];
    var index := from;
    val := 0;
    FoldNothing(base);
    while IsAlnum(CharAt(str, index))
      invariant from <= index <= |str| && forall k | 0 <= k < index - from :: IsAlnum(t[k])
      invariant Fold(t[..index - from], base) == Value(val)
      decreases |str| - index
    {
      ghost var k := index - from;
      var c := CharAt(str, index);
      FoldOne(t, k, base);
      AlnumOneMore(t, k);
      var tmp := c as int - 48;
      if base <= 10 {
        if tmp >= base {
          FoldRefused(t[..Leading(t, IsAlnum)], k + 1, base);
          return false, 0;
        }
      } else {
        tmp := tmp - if IsLower(c) then 0x27 else 0x7;
        if tmp >= base {
          FoldRefused(t[..Leading(t, IsAlnum)], k + 1, base);
          return false, 0;
        }
      }
      val := val * base + tmp;
      index := index + 1;
    }
    LeadingIs(t, IsAlnum, index - from);
    ok := true;
  }

  lemma FoldNothing(base: int)
    ensures Fold("", base) == Value(0)
  {
  }

  lemma FoldOne(t: string, k: nat, base: int)
    requires k < |t| && Fold(t[..k], base).Value?
    ensures Fold(t[..k + 1], base) ==
      if Taken(t[k], base) >= base then Refused else Value(Fold(t[..k], base).v * base + Taken(t[k], base))
  {
    assert t[..k + 1][..k] == t[..k];
  }

  lemma AlnumOneMore(t: string, k: nat)
    requires k < |t| && forall j | 0 <= j <= k :: IsAlnum(t[j])
    ensures k + 1 <= Leading(t, IsAlnum) && t[..Leading(t, IsAlnum)][..k + 1] == t[..k + 1]
  {
  }

  // ----- Round trips -----

  /** A digit as atoi takes it. */
  function Skew(d: int, base: int): int { if base > 10 && d < 10 then d - 7 else d }

  /** The number that atoi makes of the text of v. */
  function Skewed(v: nat, base: nat): int
    requires 2 <= base <= 36
  {
    DivMod(v, base);
    (if v / base == 0 then 0 else Skewed(v / base, base)) * base + Skew(v % base, base)
  }

  /** v has no digit below 10 in this base. */
  predicate NoDecimalDigit(v: nat, base: nat)
    requires 2 <= base <= 36
  {
    DivMod(v, base);
    v % base >= 10 && (v / base == 0 || NoDecimalDigit(v / base, base))
  }

  lemma DigitTaken(d: nat, base: nat)
    requires d < base <= 36
    ensures IsAlnum(Digit(d)) && !IsSpace(Digit(d)) && Taken(Digit(d), base) == Skew(d, base) < base
    ensures Digit(d) != '+' && Digit(d) != '-' && (Digit(d) == '0' <==> d == 0)
  {
  }

  lemma {:induction false} FoldText(v: nat, base: nat)
    requires 2 <= base <= 36
    ensures Fold(Text(v, base), base) == Value(Skewed(v, base))
    ensures forall k | 0 <= k < |Text(v, base)| :: IsAlnum(Text(v, base)[k])
    ensures !IsSpace(Text(v, base)[0]) && Text(v, base)[0] != '+' && Text(v, base)[0] != '-'
  {
    hide Digit, Skew, Taken, IsAlnum, IsSpace;
    DivMod(v, base);
    var t, q, r := Text(v, base), v / base, v % base;
    DigitTaken(r, base);
    var p := if q == 0 then "" else Text(q, base);
    assert t == p + [Digit(r)] && t[..|t| - 1] == p;
    if q > 0 {
      FoldText(q, base);
    } else {
      FoldNothing(base);
    }
  }

  lemma {:induction false} SkewedExactly(v: nat, base: nat)
    requires 2 <= base <= 36
    ensures Skewed(v, base) <= v
    ensures Skewed(v, base) == v <==> base <= 10 || NoDecimalDigit(v, base)
  {
    DivMod(v, base);
    var q, r := v / base, v % base;
    if q > 0 {
      SkewedExactly(q, base);
      Gap(v, base, q, r, Skewed(q, base), Skew(r, base));
    }
  }

  lemma Gap(v: nat, base: nat, q: nat, r: nat, q': int, r': int)
    requires v == base * q + r && q' <= q && r' <= r && base >= 2
    ensures q' * base + r' <= v && (q' * base + r' == v <==> q' == q && r' == r)
  {
    assert v - (q' * base + r') == base * (q - q') + (r - r');
  }

  /** Reading the text of a non-negative number gives it back exactly if the base is at most 10 or no digit is below 10. */
  lemma AtoiOfItoa(v: int, base: int)
    requires 0 <= v <= INT_MAX && 2 <= base <= 36
    ensures AtoiValue(ItoaText(v, base), base) == v <==> base <= 10 || NoDecimalDigit(v, base)
  {
    hide Text, Fold, IsAlnum, IsSpace, Skewed, NoDecimalDigit, AfterBlanks, Leading;
    var t := Text(v, base);
    assert v % TWO_32 == v;
    FoldText(v, base);
    LeadingIs(t, IsSpace, 0);
    assert t[0..] == t && "" + (t + "") == t;
    Decorated(v, base, "", "");
    SkewedExactly(v, base);
  }

  /** So does reading the text of a negative number in base 10. */
  lemma AtoiOfNegative(v: int)
    requires INT_MIN < v < 0
    ensures AtoiValue(ItoaText(v, 10), 10) == v
  {
    hide Text, Fold, IsAlnum, Skewed;
    var s := "-" + Text(-v, 10);
    var t := Text(-v, 10);
    FoldText(-v, 10);
    LeadingIs(s, IsSpace, 0);
    LeadingIs(t, IsAlnum, |t|);
    assert s[0..] == s && s[1..] == t && t[..|t|] == t;
    SkewedExactly(-v, 10);
  }

  /** A character in front of a number that atoi skips, and one that ends the number. */
  predicate Blank(c: char) { c == ' ' || c == '\t' || c == '\n' || c == '\r' || c as int == 11 || c as int == 12 }

  predicate Ends(c: char) { !('0' <= c <= '9' || 'a' <= c <= 'z' || 'A' <= c <= 'Z' || 0x3a <= c as int <= 0x3f) }

  /** What atoi makes of the text of v with blanks and a sign or prefix in front, and with other characters behind it. */
  lemma AtoiOfDecorated(v: int, base: int, blanks: string, prefix: string, rest: string)
    requires 0 <= v <= INT_MAX && 2 <= base <= 36 && (forall c | c in blanks :: Blank(c)) && (rest == "" || Ends(rest[0]))
    ensures var t := Text(v, base); var r := AtoiValue(blanks + (prefix + (t + rest)), base);
      && (prefix == "" || (prefix == "+" && base == 10) || ((prefix == "0b" || prefix == "0B") && base == 2) || (prefix == "0x" && base == 16) ==>
           r == AtoiValue(t, base))
      && (prefix == "-" && base == 10 ==> r == -AtoiValue(t, base))
      && (((prefix == "+" || prefix == "-") && base != 10) || ((prefix == "0b" || prefix == "0B") && base != 2) || (prefix == "0x" && base != 16) ==>
           r == 0)
  {
    hide Text, Fold, IsAlnum, IsSpace, Digit, Taken, Skew, Skewed, Leading, AfterBlanks, PrefixLength, Denotes;
    var t := Text(v, base);
    var s := prefix + (t + rest);
    FoldText(v, base);
    LeadingIs(t, IsSpace, 0);
    assert t[0..] == t && t + "" == t && "" + (t + "") == t;
    Decorated(v, base, "", "");
    if prefix == "" || prefix == "+" || prefix == "-" || prefix == "0b" || prefix == "0B" || prefix == "0x" {
      BlanksSkipped(blanks, s, v, base, rest, prefix);
      assert (blanks + s)[|blanks|..] == s;
      Decorated(v, base, prefix, rest);
    }
  }

  lemma Decorated(v: int, base: int, prefix: string, rest: string)
    requires 0 <= v <= INT_MAX && 2 <= base <= 36 && (rest == "" || Ends(rest[0]))
    ensures var r := AfterBlanks(prefix + (Text(v, base) + rest), base); var x := Skewed(v, base);
      && (prefix == "" || (prefix == "+" && base == 10) || ((prefix == "0b" || prefix == "0B") && base == 2) || (prefix == "0x" && base == 16) ==> r == x)
      && (prefix == "-" && base == 10 ==> r == -x)
      && (((prefix == "+" || prefix == "-") && base != 10) || ((prefix == "0b" || prefix == "0B") && base != 2) || (prefix == "0x" && base != 16) ==>
           r == 0)
  {
    hide Text, Fold, IsAlnum, IsSpace, Digit, Taken, Skew, Skewed, Leading, Denotes;
    var t := Text(v, base);
    var s := prefix + (t + rest);
    FoldText(v, base);
    NoPrefix(v, base, rest);
    NumberEnds(v, base, rest);
    assert (t + rest)[..|t|] == t;
    if prefix == "" {
      assert s == t + rest && s[0..] == s;
    } else if prefix == "+" || prefix == "-" {
      assert CharAt(s, 0) == prefix[0] && s[1..] == t + rest;
    } else if prefix == "0b" || prefix == "0B" || prefix == "0x" {
      assert CharAt(s, 0) == '0' && CharAt(s, 1) == prefix[1] && s[2..] == t + rest;
    }
  }

  /** The text of a number is not taken for a sign or prefix. */
  lemma NoPrefix(v: int, base: int, rest: string)
    requires 0 <= v <= INT_MAX && 2 <= base <= 36 && (rest == "" || Ends(rest[0]))
    ensures PrefixLength(Text(v, base) + rest, base) == 0 && CharAt(Text(v, base) + rest, 0) != '-'
  {
    hide Fold, IsAlnum, IsSpace, Taken, Skew, Skewed, Denotes, Text;
    var t := Text(v, base);
    FoldText(v, base);
    TextDenotes(v, base);
    assert (t + rest)[0] == t[0];
    if t[0] == '0' {
      assert |t| == 1;
      assert CharAt(t + rest, 1) == CharAt(rest, 0);
    }
  }

  lemma NumberEnds(v: int, base: int, rest: string)
    requires 0 <= v && 2 <= base <= 36 && (rest == "" || Ends(rest[0]))
    ensures Leading(Text(v, base) + rest, IsAlnum) == |Text(v, base)|
  {
    hide Text, Fold, IsSpace, Leading;
    var t := Text(v, base);
    FoldText(v, base);
    LeadingIs(t + rest, IsAlnum, |t|);
  }

  lemma BlanksSkipped(blanks: string, s: string, v: int, base: int, rest: string, prefix: string)
    requires forall c | c in blanks :: Blank(c)
    requires 0 <= v && 2 <= base <= 36 && s == prefix + (Text(v, base) + rest)
    requires prefix == "" || prefix == "+" || prefix == "-" || prefix == "0b" || prefix == "0B" || prefix == "0x"
    ensures Leading(blanks + s, IsSpace) == |blanks|
  {
    hide Text, Fold, Leading, IsAlnum;
    FoldText(v, base);
    assert s[0] == if prefix == "" then Text(v, base)[0] else prefix[0];
    forall k | 0 <= k < |blanks| ensures IsSpace((blanks + s)[k]) {
      assert blanks[k] in blanks;
    }
    LeadingIs(blanks + s, IsSpace, |blanks|);
  }

  /** Letters are lower case. */
  lemma ItoaExamples()
    ensures ItoaText(255, 16) == "ff" && ItoaText(35, 36) == "z" && ItoaText(-10, 10) == "-10"
  {
    assert Text(15, 16) == "f";
    assert Text(255, 16) == "f" + "f";
    assert Text(1, 10) == "1";
    assert Text(10, 10) == "1" + "0";
  }

  /** In a base other than 10 the text of a negative value denotes the unsigned word; a bad base gives no text and no value. */
  lemma NegativeAndBadBase(v: int, base: int, str: string)
    requires INT_MIN <= v < 0
    ensures 2 <= base <= 36 && base != 10 ==> Denotes(ItoaText(v, base), base) == 0x1_0000_0000 + v
    ensures base == 10 ==> ItoaText(v, base) != "" && ItoaText(v, base)[0] == '-' && Denotes(ItoaText(v, base)[1..], 10) == -v
    ensures base < 2 || base > 36 ==> ItoaText(v, base) == "" && AtoiValue(str, base) == 0
  {
    hide Text, Denotes;
    if base == 10 {
      TextDenotes(-v, 10);
      assert ("-" + Text(-v, 10))[1..] == Text(-v, 10);
    } else if 2 <= base <= 36 {
      assert v % TWO_32 == TWO_32 + v;
      TextDenotes(v % TWO_32, base);
    }
  }

  /** The text "0" is read as -7 in base 16. */
  lemma ZeroInBase16()
    ensures AtoiValue("0", 16) == -7
  {
    hide Fold, IsAlnum, IsSpace;
    DigitTaken(0, 16);
    assert Digit(0) == '0';
    LeadingIs("0", IsSpace, 0);
    LeadingIs("0", IsAlnum, 1);
    assert "0"[0..] == "0" && "0"[..1] == "0" && "0"[..0] == "";
    FoldNothing(16);
    FoldOne("0", 0, 16);
  }
}
