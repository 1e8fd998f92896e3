/**
 The number printer and the width reader of the small printf.  `long` has 32 bits, as on the platforms
 it is for.
 */
module Printf {
  import opened Basics

  // ---------- Numerals ----------

  /** The digits from ten on are letters: the one for `d` is corrFactor + d - 9. */
  function DigitChar(d: int, corrFactor: int): char
    requires 0 <= d < 16 && 0 <= corrFactor <= 0x60
  {
    if d <= 9 then '0' + d as char else (d + corrFactor - 9) as char
  }

  function DigitValue(c: char, corrFactor: int): int {
    if '0' <= c <= '9' then (c - '0') as int else c as int - corrFactor + 9
  }

  predicate Format(base: int, corrFactor: int) {
    (base == 8 && corrFactor == 0) || (base == 10 && corrFactor == 0) || (base == 16 && corrFactor in {0x40, 0x60})
  }

  /** The shortest text for `n`. */
  function Numeral(n: nat, base: int, corrFactor: int): (s: string)
    requires Format(base, corrFactor)
    ensures |s| > 0
  {
    if n < base then [DigitChar(n, corrFactor)]
    else Numeral(n / base, base, corrFactor) + [DigitChar(n % base, corrFactor)]
  }

  /** What a text of digits denotes. */
  function Value(s: string, base: int, corrFactor: int): int {
    if s == [] then 0 else Value(s[..|s| - 1], base, corrFactor) * base + DigitValue(s[|s| - 1], corrFactor)
  }

  lemma {:induction false} NumeralDenotes(n: nat, base: int, corrFactor: int)
    requires Format(base, corrFactor)
    ensures Value(Numeral(n, base, corrFactor), base, corrFactor) == n
  {
    var s := Numeral(n, base, corrFactor);
    if n >= base {
      assert s[..|s| - 1] == Numeral(n / base, base, corrFactor);
      NumeralDenotes(n / base, base, corrFactor);
    } else {
      assert s[..0] == [];
    }
  }

  lemma {:induction false} NumeralLength(n: nat, base: int, corrFactor: int, k: nat, power: nat)
    requires Format(base, corrFactor) && k > 0 && power == Power8(k) && n < power
    ensures |Numeral(n, base, corrFactor)| <= k
  {
    if n >= base {
      assert k > 1;
      NumeralLength(n / base, base, corrFactor, k - 1, Power8(k - 1));
    }
  }

  function Power8(k: nat): nat {
    if k == 0 then 1 else 8 * Power8(k - 1)
  }

  function Repeat(c: char, n: int): (s: string)
    ensures |s| == if n < 0 then 0 else n
  {
    if n <= 0 then "" else Repeat(c, n - 1) + [c]
  }

  /** Leading zeros do not change what a text denotes. */
  lemma {:induction false} ZerosDenoteNothing(n: int, s: string, base: int, corrFactor: int)
    ensures Value(Repeat('0', n) + s, base, corrFactor) == Value(s, base, corrFactor)
    decreases |s|, if n < 0 then 0 else n
  {
    var t := Repeat('0', n) + s;
    if s != [] {
      assert t[..|t| - 1] == Repeat('0', n) + s[..|s| - 1];
      ZerosDenoteNothing(n, s[..|s| - 1], base, corrFactor);
    } else if n > 0 {
      assert t[..|t| - 1] == Repeat('0', n - 1) + [];
      ZerosDenoteNothing(n - 1, [], base, corrFactor);
    }
  }

  /** Sign, leading zeros, numeral. */
  function Signed(n: nat, negative: bool, base: int, corrFactor: int, rightVal: int): string
    requires Format(base, corrFactor)
  {
    var numeral := Numeral(n, base, corrFactor);
    WithSign(negative, Repeat('0', rightVal - |numeral|) + numeral)
  }

  function WithSign(negative: bool, s: string): string {
    if negative then ['-'] + s else s
  }

  /** What is printed: that, padded on the left. */
  function Layout(n: nat, negative: bool, base: int, corrFactor: int, leftVal: int, rightVal: int): string
    requires Format(base, corrFactor)
  {
    Repeat(' ', leftVal - Width(|Numeral(n, base, corrFactor)|, negative, rightVal))
    + Signed(n, negative, base, corrFactor, rightVal)
  }

  function Width(digits: nat, negative: bool, rightVal: int): int {
    if rightVal > digits then rightVal else digits + if negative then 1 else 0
  }

  /** The number printed: the magnitude of a signed one, the 32-bit value of an unsigned one. */
  function Magnitude(tempVar: int, sign: bool): nat {
    if sign && tempVar < 0 then 0 - tempVar else tempVar % 0x1_0000_0000
  }

  // ---------- Strings that end in NUL ----------

  function StrLen(s: string): (n: nat)
    requires '\0' in s
    ensures n < |s| && s[n] == '\0' && '\0' !in s[..n]
  {
    if s[0] == '\0' then 0 else 1 + StrLen(s[1..])
  }

  lemma StrLenIs(s: string, n: nat)
    requires n < |s| && s[n] == '\0' && '\0' !in s[..n]
    ensures StrLen(s) == n
  {
  }

  method Strlen(str: array<char>) returns (len: nat)
    requires '\0' in str[..]
    ensures len == StrLen(str[..])
  {
    len := 0;
    while str[len] != '\0'
      invariant len <= StrLen(str[..])
      invariant forall k :: 0 <= k < len ==> str[k] != '\0'
      decreases str.Length - len
    {
      len := len + 1;
    }
    StrLenIs(str[..], len);
  }

  /** Reverses in place. */
  method Strrev(str: array<char>)
    requires '\0' in str[..]
    modifies str
    ensures var len := StrLen(old(str[..])); str[..] == Reversed(old(str[..len])) + old(str[len..])
  {
    hide *;
    var len: int := Strlen(str);
    var i, j := 0, len - 1;
    ghost var was := str[..];
    NothingExchanged(was, len);
    while i < j
      invariant 0 <= i <= j + 1 && i + j == len - 1
      invariant EndsExchanged(was, str[..], len, i)
      decreases j - i
    {
      ExchangeEnds(was, str[..], len, i);
      Exchange(str, i, j);
      i, j := i + 1, j - 1;
    }
    TurnedRound(was, str[..], len, i);
  }

  method Exchange(str: array<char>, i: nat, j: nat)
    requires i < str.Length && j < str.Length
    modifies str
    ensures str[..] == old(str[..])[i := old(str[j])][j := old(str[i])]
  {
    str[i], str[j] := str[j], str[i];
  }

  // The first `i` characters of `was[..len]` have changed places with the last `i`.
  ghost predicate EndsExchanged(was: string, s: string, len: int, i: int) {
    && |s| == |was| && 0 <= 2 * i <= len + 1 && 0 <= len <= |s|
    && (forall k :: 0 <= k < i || len - 1 - i < k < len ==> s[k] == was[len - 1 - k])
    && (forall k :: i <= k <= len - 1 - i || len <= k < |s| ==> s[k] == was[k])
  }

  lemma NothingExchanged(was: string, len: nat)
    requires len <= |was|
    ensures EndsExchanged(was, was, len, 0)
  {
  }

  lemma ExchangeEnds(was: string, s: string, len: int, i: int)
    requires EndsExchanged(was, s, len, i) && 2 * i < len - 1
    ensures EndsExchanged(was, s[i := s[len - 1 - i]][len - 1 - i := s[i]], len, i + 1)
  {
  }

  lemma TurnedRound(was: string, s: string, len: nat, i: int)
    requires EndsExchanged(was, s, len, i) && 2 * i >= len - 1
    ensures s == Reversed(was[..len]) + was[len..]
  {
    forall k | 0 <= k < len
      ensures s[k] == Reversed(was[..len])[k]
    {
      ReversedAt(was[..len], k);
      assert s[k] == was[len - 1 - k] == was[..len][len - 1 - k];
    }
    assert s[..len] == Reversed(was[..len]) && s[len..] == was[len..];
    assert s == s[..len] + s[len..];
  }

  lemma ZeroInFront(n: nat, numeral: string)
    ensures Repeat('0', n + 1) + numeral == ['0'] + (Repeat('0', n) + numeral)
  {
    RepeatFront('0', n);
  }

  lemma Joined(a: string, b: string, c: string)
    ensures (a + b) + c == a + (b + c)
  {
  }

  // Neither NUL nor line feed.
  predicate Plain(s: string) {
    '\0' !in s && '\n' !in s
  }

  lemma PlainReversed(s: string)
    requires Plain(Reversed(s))
    ensures Plain(s)
  {
    forall k | 0 <= k < |s|
      ensures s[k] != '\0' && s[k] != '\n'
    {
      ReversedAt(s, |s| - 1 - k);
      assert s[k] in Reversed(s);
    }
  }

  lemma {:induction false} RepeatPlain(n: int)
    ensures Plain(Repeat('0', n))
    decreases if n < 0 then 0 else n
  {
    if n > 0 {
      RepeatPlain(n - 1);
    }
  }

  lemma {:induction false} NumeralPlain(n: nat, base: int, corrFactor: int)
    requires Format(base, corrFactor)
    ensures Plain(Numeral(n, base, corrFactor))
  {
    if n < base {
      assert Numeral(n, base, corrFactor) == [DigitChar(n, corrFactor)];
    } else {
      var s, c := Numeral(n / base, base, corrFactor), DigitChar(n % base, corrFactor);
      assert Numeral(n, base, corrFactor) == s + [c];
      DigitPlain(n % base, corrFactor);
      hide Numeral, DigitChar, Plain;
      NumeralPlain(n / base, base, corrFactor);
      PlainMore(s, c);
    }
  }

  lemma DigitPlain(d: int, corrFactor: int)
    requires 0 <= d < 16 && corrFactor in {0, 0x40, 0x60} && (corrFactor == 0 ==> d < 10)
    ensures DigitChar(d, corrFactor) != '\0' && DigitChar(d, corrFactor) != '\n'
  {
  }

  lemma PlainMore(s: string, c: char)
    requires Plain(s) && c != '\0' && c != '\n'
    ensures Plain(s + [c])
  {
  }

  lemma SignedPlain(n: nat, negative: bool, base: int, corrFactor: int, rightVal: int)
    requires Format(base, corrFactor)
    ensures Plain(Signed(n, negative, base, corrFactor, rightVal))
  {
    NumeralPlain(n, base, corrFactor);
    RepeatPlain(rightVal - |Numeral(n, base, corrFactor)|);
  }

  lemma {:induction false} RepeatFront(c: char, n: nat)
    ensures Repeat(c, n + 1) == [c] + Repeat(c, n)
  {
    if n > 0 {
      RepeatFront(c, n - 1);
    }
  }

  // ---------- The program ----------

  /** The characters sent for a text: a line feed goes out as two. */
  function Sent(s: string): string {
    if s == [] then [] else Sent(s[..|s| - 1]) + if s[|s| - 1] == '\n' then ['\r', '\n'] else [s[|s| - 1]]
  }

  lemma {:induction false} SentPlain(s: string)
    requires '\n' !in s
    ensures Sent(s) == s
  {
    if s != [] {
      SentPlain(s[..|s| - 1]);
    }
  }

  lemma NoBlank(before: string, n: int)
    ensures before + Repeat(' ', 0) == before && Repeat(' ', 0) == ""
    ensures n <= 0 ==> Repeat(' ', n) == ""
  {
  }

  lemma OneBlank(before: string, n: nat)
    ensures before + Repeat(' ', n) + Sent([' ']) == before + Repeat(' ', n + 1)
  {
    SentPlain([' ']);
  }

  predicate IsDigit(c: char) {
    '0' <= c <= '9'
  }

  function DigitRun(s: string): (n: nat)
    ensures n <= |s|
  {
    if s == [] || !IsDigit(s[0]) then 0 else 1 + DigitRun(s[1..])
  }

  // The first `i` characters are digits, worth `v`.
  predicate ReadUpTo(s: string, i: nat, v: int) {
    i <= |s| && i + DigitRun(s[i..]) == DigitRun(s) && v == Value(s[..i], 10, 0)
  }

  lemma ReadOn(s: string, i: nat, v: int)
    requires ReadUpTo(s, i, v)
    ensures if i < |s| && IsDigit(s[i]) then ReadUpTo(s, i + 1, v * 10 + (s[i] - '0') as int)
            else DigitRun(s) == i && v == Value(s[..i], 10, 0)
  {
    RunOn(s, i);
    if i < |s| {
      ValueOn(s, i);
    }
    hide *;
    ReadOnBoth(s, i, v);
  }

  lemma ReadOnBoth(s: string, i: nat, v: int)
    requires ReadUpTo(s, i, v)
    requires DigitRun(s[i..]) == if i < |s| && IsDigit(s[i]) then 1 + DigitRun(s[i + 1..]) else 0
    requires i < |s| ==> Value(s[..i + 1], 10, 0) == Value(s[..i], 10, 0) * 10 + DigitValue(s[i], 0)
    ensures if i < |s| && IsDigit(s[i]) then ReadUpTo(s, i + 1, v * 10 + (s[i] - '0') as int)
            else DigitRun(s) == i && v == Value(s[..i], 10, 0)
  {
    hide DigitRun, Value;
  }

  lemma RunOn(s: string, i: nat)
    requires i <= |s|
    ensures DigitRun(s[i..]) == if i < |s| && IsDigit(s[i]) then 1 + DigitRun(s[i + 1..]) else 0
  {
    if i < |s| {
      assert s[i..][1..] == s[i + 1..];
    }
  }

  lemma ValueOn(s: string, i: nat)
    requires i < |s|
    ensures Value(s[..i + 1], 10, 0) == Value(s[..i], 10, 0) * 10 + DigitValue(s[i], 0)
  {
    assert s[..i + 1][..i] == s[..i];
  }

  lemma ReadNothing(s: string)
    ensures ReadUpTo(s, 0, 0)
  {
    assert s[0..] == s;
  }

  /** What `FormatVal` leaves behind: width, precision, result, and what it prints because it cannot be read. */
  datatype Reading = Reading(leftVal: int, rightVal: int, result: int, refused: string)

  function Read(temp: string, flag: bool): Reading {
    var n := DigitRun(temp);
    var width := Value(temp[..n], 10, 0);
    if temp == "" && flag then Reading(0, 3, 0, [])
    else if n == |temp| then Reading(width, 0, width, [])
    else if temp[n] != '.' then Reading(width, 0, -1, temp[n..])
    else
      var rest := temp[n + 1..];
      var m := DigitRun(rest);
      Reading(width, Value(rest[..m], 10, 0), if m == |rest| then 0 else -1, rest[m..])
  }

  // What the text reads as when its first part has been read.
  lemma ReadEnd(temp: string, flag: bool, i: nat, v: int)
    requires ReadUpTo(temp, i, v) && (i < |temp| ==> !IsDigit(temp[i])) && !(temp == "" && flag)
    ensures Read(temp, flag) ==
            if i == |temp| then Reading(v, 0, v, [])
            else if temp[i] != '.' then Reading(v, 0, -1, temp[i..])
            else
              var rest := temp[i + 1..];
              var m := DigitRun(rest);
              Reading(v, Value(rest[..m], 10, 0), if m == |rest| then 0 else -1, rest[m..])
  {
    ReadOn(temp, i, v);
    hide DigitRun, Value;
  }

  lemma {:induction false} DigitRunOfDigits(s: string, t: string)
    requires forall i :: 0 <= i < |s| ==> IsDigit(s[i])
    requires t == [] || !IsDigit(t[0])
    ensures DigitRun(s + t) == |s|
  {
    if s != [] {
      assert (s + t)[1..] == s[1..] + t;
      DigitRunOfDigits(s[1..], t);
    } else {
      assert s + t == t;
    }
  }

  lemma {:induction false} DecimalDigits(n: nat)
    ensures forall i :: 0 <= i < |Numeral(n, 10, 0)| ==> IsDigit(Numeral(n, 10, 0)[i])
  {
    var last := DigitChar(n % 10, 0);
    assert IsDigit(last);
    if n >= 10 {
      DecimalDigits(n / 10);
      assert Numeral(n, 10, 0) == Numeral(n / 10, 10, 0) + [last];
    } else {
      assert Numeral(n, 10, 0) == [last];
    }
  }

  /** A number printed in decimal, with no width or precision, reads back as itself. */
  lemma PrintThenRead(n: nat, flag: bool)
    ensures Layout(n, false, 10, 0, 0, 0) == Numeral(n, 10, 0)
    ensures Read(Layout(n, false, 10, 0, 0, 0), flag) == Reading(n, 0, n, [])
  {
    var s := Numeral(n, 10, 0);
    assert Repeat(' ', 0 - |s|) == [] && Repeat('0', 0 - |s|) == [];
    DecimalDigits(n);
    DigitRunOfDigits(s, []);
    NumeralDenotes(n, 10, 0);
    assert s + [] == s && s[..|s|] == s;
  }

  /** And so do a width and a precision. */
  lemma PrintThenReadBoth(w: nat, p: nat, flag: bool)
    ensures Read(Numeral(w, 10, 0) + "." + Numeral(p, 10, 0), flag) == Reading(w, p, 0, [])
  {
    var s, t := Numeral(w, 10, 0), Numeral(p, 10, 0);
    var all := s + "." + t;
    DecimalDigits(w);
    DecimalDigits(p);
    assert all == s + ("." + t);
    DigitRunOfDigits(s, "." + t);
    DigitRunOfDigits(t, []);
    assert all[..|s|] == s && all[|s| + 1..] == t;
    assert t + [] == t && t[..|t|] == t;
    NumeralDenotes(w, 10, 0);
    NumeralDenotes(p, 10, 0);
  }

  /** A negative number does not: from the sign on it is refused. */
  lemma PrintThenReadNegative(n: nat, flag: bool)
    ensures Read(Layout(n, true, 10, 0, 0, 0), flag) == Reading(0, 0, -1, ['-'] + Numeral(n, 10, 0))
  {
    var s := Numeral(n, 10, 0);
    assert Repeat(' ', 0 - |s| - 1) == [] && Repeat('0', 0 - |s|) == [];
    assert Layout(n, true, 10, 0, 0, 0) == ['-'] + s;
  }

  /** Printed with any width and precision, the digits denote the number. */
  lemma PrintedDenotes(n: nat, base: int, corrFactor: int, rightVal: int)
    requires Format(base, corrFactor)
    ensures Value(Signed(n, false, base, corrFactor, rightVal), base, corrFactor) == n
  {
    ZerosDenoteNothing(rightVal - |Numeral(n, base, corrFactor)|, Numeral(n, base, corrFactor), base, corrFactor);
    NumeralDenotes(n, base, corrFactor);
  }

  class Printer {
    var leftVal: int
    var rightVal: int
    ghost var out: string

    constructor ()
    {
      leftVal, rightVal, out := 0, 0, "";
    }

    method PutChar(c: char)
      modifies `out
      ensures out == old(out) + Sent([c])
    {
      if c == '\n' {
        Send('\r');
      }
      Send(c);
    }

    // The device.
    method Send(c: char)
      modifies `out
      ensures out == old(out) + [c]
    {
      out := out + [c];
    }

    method Puts(s: array<char>)
      requires '\0' in s[..]
      modifies `out
      ensures out == old(out) + Sent(s[..StrLen(s[..])])
    {
      var i := 0;
      while s[i] != '\0'
        invariant i <= StrLen(s[..])
        invariant out == old(out) + Sent(s[..i])
        decreases s.Length - i
      {
        assert s[..i + 1][..i] == s[..i];
        PutChar(s[i]);
        i := i + 1;
      }
    }

    // The digits of `n`, the last one first.
    static method Digits(n: nat, base: int, corrFactor: int, s1: array<char>) returns (cntr: nat)
      requires Format(base, corrFactor) && n < 0x1_0000_0000 && s1.Length == 40
      modifies s1
      ensures cntr == |Numeral(n, base, corrFactor)| <= 11
      ensures Reversed(s1[..cntr]) == Numeral(n, base, corrFactor)
    {
      ghost var numeral := Numeral(n, base, corrFactor);
      NumeralLength(n, base, corrFactor, 11, Power8(11));
      cntr := 0;
      var temp: nat := n;
      if temp == 0 {
        s1[cntr] := '0';
        cntr := cntr + 1;
        assert s1[..1] == ['0'];
      }
      while temp > 0
        invariant cntr <= 11 && StillToCome(numeral, temp, s1[..cntr], base, corrFactor)
      {
        StepToCome(numeral, temp, s1[..cntr], base, corrFactor);
        hide StillToCome, DigitChar, Format, Numeral;
        ghost var done := s1[..cntr];
        var i1 := temp % base;
        temp := temp / base;
        s1[cntr] := Char(i1, corrFactor);
        cntr := cntr + 1;
        assert s1[..cntr] == done + [DigitChar(i1, corrFactor)];
      }
    }

    // The choice between a digit and a letter.
    static method Char(i1: int, corrFactor: int) returns (c: char)
      requires 0 <= i1 < 16 && 0 <= corrFactor <= 0x60
      ensures c == DigitChar(i1, corrFactor)
    {
      if i1 <= 9 {
        c := '0' + i1 as char;
      } else {
        c := (i1 + corrFactor - 9) as char;
      }
    }

    // Blanks up to the width asked for.
    method Pad(digits: nat, negative: bool, cntrVal: int) returns (cntr: int)
      modifies this
      ensures var blanks := Repeat(' ', old(leftVal) - Width(digits, negative, rightVal));
              out == old(out) + blanks && cntr == cntrVal + |blanks|
      ensures var width := Width(digits, negative, rightVal);
              leftVal == if old(leftVal) > width then width else old(leftVal)
      ensures rightVal == old(rightVal)
    {
      hide Repeat, Sent;
      cntr := cntrVal;
      ghost var n: int := 0;
      ghost var width := Width(digits, negative, rightVal);
      NoBlank(old(out), old(leftVal) - width);
      while leftVal - (if rightVal > digits then rightVal else digits + if negative then 1 else 0) > 0
        invariant 0 <= n && leftVal == old(leftVal) - n && rightVal == old(rightVal) && cntr == cntrVal + n
        invariant n == 0 || n <= old(leftVal) - width
        invariant out == old(out) + Repeat(' ', n)
        decreases leftVal - width
      {
        PutChar(' ');
        OneBlank(old(out), n);
        leftVal := leftVal - 1;
        cntr := cntr + 1;
        n := n + 1;
      }
    }

    // Leading zeros up to the precision, the sign and the NUL behind the digits.
    static method Finish(s1: array<char>, digits: nat, rightVal: int, negative: bool) returns (cntr: nat)
      requires s1.Length == 40 && digits <= 11 && rightVal + (if negative then 1 else 0) <= 39
      modifies s1
      ensures cntr < 40 && s1[cntr] == '\0'
      ensures Reversed(s1[..cntr]) ==
              WithSign(negative, Repeat('0', rightVal - digits) + old(Reversed(s1[..digits])))
    {
      cntr := Zeros(s1, digits, rightVal);
      if negative {
        Write(s1, cntr, '-');
        cntr := cntr + 1;
      }
      ghost var all := s1[..cntr];
      s1[cntr] := '\0';
      assert s1[..cntr] == all;
    }

    static method Zeros(s1: array<char>, digits: nat, rightVal: int) returns (cntr: nat)
      requires s1.Length == 40 && digits <= 11 && rightVal <= 39
      modifies s1
      ensures cntr == if rightVal > digits then rightVal else digits
      ensures Reversed(s1[..cntr]) == Repeat('0', rightVal - digits) + old(Reversed(s1[..digits]))
    {
      ghost var numeral := Reversed(s1[..digits]);
      assert Repeat('0', 0) + numeral == numeral;
      assert rightVal <= digits ==> Repeat('0', rightVal - digits) == Repeat('0', 0);
      hide Reversed, Repeat;
      cntr := digits;
      while rightVal - cntr > 0
        invariant digits <= cntr && (cntr == digits || cntr <= rightVal)
        invariant Reversed(s1[..cntr]) == Repeat('0', cntr - digits) + numeral
      {
        ZeroInFront(cntr - digits, numeral);
        Write(s1, cntr, '0');
        cntr := cntr + 1;
      }
    }

    static method Write(s1: array<char>, cntr: nat, c: char)
      requires cntr < s1.Length
      modifies s1
      ensures Reversed(s1[..cntr + 1]) == [c] + old(Reversed(s1[..cntr]))
    {
      ghost var done := s1[..cntr];
      s1[cntr] := c;
      assert s1[..cntr + 1] == done + [c];
      ReversedAppend(done, c);
    }

    /** Prints a number as `leftVal` and `rightVal` ask and counts the characters. */
    method PrintHexOct(tempVar: int, base: int, corrFactor: int, sign: bool, cntrVal: int) returns (cntr: int)
      requires -0x8000_0000 <= tempVar < 0x8000_0000 && Format(base, corrFactor)
      requires rightVal + (if sign && tempVar < 0 then 1 else 0) <= 39
      modifies this
      ensures var negative := sign && tempVar < 0;
              var text := Layout(Magnitude(tempVar, sign), negative, base, corrFactor, old(leftVal), rightVal);
              out == old(out) + text && cntr == cntrVal + |text|
      ensures var width := Width(|Numeral(Magnitude(tempVar, sign), base, corrFactor)|, sign && tempVar < 0, rightVal);
              leftVal == if old(leftVal) > width then width else old(leftVal)
      ensures rightVal == old(rightVal)
    {
      var temp, negFlag := tempVar % 0x1_0000_0000, false;
      if sign && tempVar < 0 {
        temp, negFlag := 0 - tempVar, true;
      }
      assert temp == Magnitude(tempVar, sign) && negFlag == (sign && tempVar < 0);
      hide Magnitude, Layout, Width, Numeral;
      cntr := PrintMagnitude(temp, negFlag, base, corrFactor, cntrVal);
    }

    // The rest of print_hex_oct, once sign and magnitude are known.
    method PrintMagnitude(temp: nat, negFlag: bool, base: int, corrFactor: int, cntrVal: int) returns (cntr: int)
      requires temp < 0x1_0000_0000 && Format(base, corrFactor) && rightVal + (if negFlag then 1 else 0) <= 39
      modifies this
      ensures var text := Layout(temp, negFlag, base, corrFactor, old(leftVal), rightVal);
              out == old(out) + text && cntr == cntrVal + |text|
      ensures var width := Width(|Numeral(temp, base, corrFactor)|, negFlag, rightVal);
              leftVal == if old(leftVal) > width then width else old(leftVal)
      ensures rightVal == old(rightVal)
    {
      hide Numeral, Repeat, Reversed, Width, Format, Plain, WithSign;
      var s1 := new char[40];
      var digits := Digits(temp, base, corrFactor, s1);
      ghost var was, left := out, leftVal;
      cntr := Pad(digits, negFlag, cntrVal);
      var end := Finish(s1, digits, rightVal, negFlag);
      ghost var text := Signed(temp, negFlag, base, corrFactor, rightVal);
      assert Reversed(s1[..end]) == text;
      SignedPlain(temp, negFlag, base, corrFactor, rightVal);
      hide Signed;
      cntr := PutsReversed(s1, end, cntr);
      Joined(was, Repeat(' ', left - Width(digits, negFlag, rightVal)), text);
    }

    // Reverse, print, count.
    method PutsReversed(s1: array<char>, end: nat, cntrVal: int) returns (cntr: int)
      requires end < s1.Length && s1[end] == '\0' && Plain(Reversed(s1[..end]))
      modifies `out, s1
      ensures out == old(out) + old(Reversed(s1[..end])) && cntr == cntrVal + end
    {
      PlainReversed(s1[..end]);
      StrLenIs(s1[..], end);
      ghost var was := s1[..];
      Strrev(s1);
      assert s1[..][..end] == Reversed(was[..end]) && s1[end] == '\0';
      StrLenIs(s1[..], end);
      SentPlain(s1[..end]);
      Puts(s1);
      var len := Strlen(s1);
      cntr := cntrVal + len;
    }

    /** Reads a width and a precision; a text with anything else in it is printed instead. */
    method FormatVal(temp: string, flag: bool, cntrVal: int) returns (r: int, cntr: int)
      modifies this
      ensures var reading := Read(temp, flag);
              && leftVal == reading.leftVal && rightVal == reading.rightVal && r == reading.result
              && out == old(out) + Sent(reading.refused) && cntr == cntrVal + |reading.refused|
    {
      leftVal, rightVal, cntr := 0, 0, cntrVal;
      assert Sent([]) == [] && out + [] == out;
      if temp == "" && flag {
        rightVal := 3;
        return 0, cntr;
      }
      var i := 0;
      ReadNothing(temp);
      hide ReadUpTo, Read, Sent;
      while i < |temp| && temp[i] != '.'
        invariant i <= |temp| && ReadUpTo(temp, i, leftVal)
        invariant rightVal == 0 && out == old(out) && cntr == cntrVal
      {
        if temp[i] < '0' || temp[i] > '9' {
          ReadEnd(temp, flag, i, leftVal);
          cntr := Refuse(temp[i..], cntr);
          return -1, cntr;
        }
        ReadOn(temp, i, leftVal);
        leftVal := leftVal * 10 + (temp[i] - '0') as int;
        i := i + 1;
      }
      ReadEnd(temp, flag, i, leftVal);
      if i == |temp| {
        return leftVal, cntr;
      }
      hide DigitRun, Value;
      r, cntr := Precision(temp[i + 1..], cntr);
    }

    // The part after the point.
    method Precision(temp: string, cntrVal: int) returns (r: int, cntr: int)
      requires rightVal == 0
      modifies this`rightVal, `out
      ensures var n := DigitRun(temp);
              && rightVal == Value(temp[..n], 10, 0) && r == (if n == |temp| then 0 else -1)
              && out == old(out) + Sent(temp[n..]) && cntr == cntrVal + |temp[n..]|
    {
      var i := 0;
      cntr := cntrVal;
      assert Sent([]) == [] && out + [] == out;
      ReadNothing(temp);
      hide ReadUpTo, DigitRun, Value, Sent;
      while i < |temp|
        invariant i <= |temp| && ReadUpTo(temp, i, rightVal)
        invariant out == old(out) && cntr == cntrVal
      {
        ReadOn(temp, i, rightVal);
        if temp[i] < '0' || temp[i] > '9' {
          cntr := Refuse(temp[i..], cntr);
          return -1, cntr;
        }
        rightVal := rightVal * 10 + (temp[i] - '0') as int;
        i := i + 1;
      }
      ReadOn(temp, i, rightVal);
      assert temp[i..] == [];
      r := 0;
    }

    // What cannot be read is printed.
    method Refuse(temp: string, cntrVal: int) returns (cntr: int)
      modifies `out
      ensures out == old(out) + Sent(temp) && cntr == cntrVal + |temp|
    {
      cntr := cntrVal;
      for i := 0 to |temp|
        invariant out == old(out) + Sent(temp[..i]) && cntr == cntrVal + i
      {
        assert temp[..i + 1][..i] == temp[..i];
        PutChar(temp[i]);
        cntr := cntr + 1;
      }
      assert temp[..|temp|] == temp;
    }
  }

  // `done` are the last digits of the numeral, the very last one first; `temp` is still to be written.
  predicate StillToCome(numeral: string, temp: nat, done: string, base: int, corrFactor: int) {
    && Format(base, corrFactor)
    && numeral == (if temp > 0 then Numeral(temp, base, corrFactor) else []) + Reversed(done)
  }

  lemma StepToCome(numeral: string, temp: nat, done: string, base: int, corrFactor: int)
    requires temp > 0 && StillToCome(numeral, temp, done, base, corrFactor)
    ensures |done| < |numeral| && base > 0 && 0 <= temp / base < temp && 0 <= temp % base < 16
    ensures StillToCome(numeral, temp / base, done + [DigitChar(temp % base, corrFactor)], base, corrFactor)
  {
    Shrinks(temp, base, corrFactor);
    hide DigitChar;
    var last := DigitChar(temp % base, corrFactor);
    NumeralLast(temp, base, corrFactor);
    hide Numeral, Reversed;
    ReversedAppend(done, last);
    var first := if temp / base > 0 then Numeral(temp / base, base, corrFactor) else [];
    assert (first + [last]) + Reversed(done) == first + Reversed(done + [last]);
  }

  lemma Shrinks(temp: nat, base: int, corrFactor: int)
    requires Format(base, corrFactor) && temp > 0
    ensures base > 0 && 0 <= temp / base < temp && 0 <= temp % base < 16
  {
  }

  lemma NumeralLast(n: nat, base: int, corrFactor: int)
    requires Format(base, corrFactor)
    ensures Numeral(n, base, corrFactor) ==
            (if n / base > 0 then Numeral(n / base, base, corrFactor) else []) + [DigitChar(n % base, corrFactor)]
  {
    if n < base {
      assert n / base == 0 && n % base == n;
    } else {
      assert n / base > 0;
    }
  }
}
