/**
 What the small printf prints and reads, said without the functions of Printf.dfy: in alphabets, lengths
 and values.
 */
module PrintfText {
  import opened Basics
  import opened Printf

  /** The digits in order; there are as many as the base. */
  function Alphabet(base: int, corrFactor: int): (s: string)
    requires Format(base, corrFactor)
    ensures |s| == base
  {
    if base == 8 then "01234567"
    else if base == 10 then "0123456789"
    else if corrFactor == 0x40 then "0123456789ABCDEF"
    else "0123456789abcdef"
  }

  /** The place of a digit in its alphabet. */
  function Place(c: char, alphabet: string): (i: nat)
    ensures i <= |alphabet| && (i < |alphabet| ==> alphabet[i] == c)
  {
    if alphabet == "" || alphabet[0] == c then 0 else 1 + Place(c, alphabet[1..])
  }

  /** What a text of digits is worth. */
  function Worth(s: string, alphabet: string): int {
    if s == [] then 0 else Worth(s[..|s| - 1], alphabet) * |alphabet| + Place(s[|s| - 1], alphabet)
  }

  predicate InAlphabet(s: string, alphabet: string) {
    forall c :: c in s ==> c in alphabet
  }

  lemma {:induction false} PlaceOf(alphabet: string, d: nat)
    requires d < |alphabet| && forall i :: 0 <= i < d ==> alphabet[i] != alphabet[d]
    ensures Place(alphabet[d], alphabet) == d
  {
    if d > 0 {
      PlaceOf(alphabet[1..], d - 1);
    }
  }

  lemma LettersAt(d: nat, base: int, corrFactor: int)
    requires Format(base, corrFactor) && d < base
    ensures Alphabet(base, corrFactor)[d] ==
            if d < 10 then '0' + d as char
            else (if corrFactor == 0x40 then 'A' else 'a') + (d - 10) as char
  {
    var a := Alphabet(base, corrFactor);
    if base == 8 {
      assert a == "01234567";
    } else if base == 10 {
      assert a == "0123456789";
    } else if corrFactor == 0x40 {
      assert a == "0123456789ABCDEF";
    } else {
      assert a == "0123456789abcdef";
    }
    assert a[0] == '0' && a[1] == '1' && a[2] == '2' && a[3] == '3' && a[4] == '4' && a[5] == '5' && a[6] == '6';
    assert a[7] == '7' && (base > 8 ==> a[8] == '8' && a[9] == '9');
    if corrFactor == 0x40 {
      assert a[10] == 'A' && a[11] == 'B' && a[12] == 'C' && a[13] == 'D' && a[14] == 'E' && a[15] == 'F';
    } else if base == 16 {
      assert a[10] == 'a' && a[11] == 'b' && a[12] == 'c' && a[13] == 'd' && a[14] == 'e' && a[15] == 'f';
    }
  }

  lemma CharOf(d: nat, base: int, corrFactor: int)
    requires Format(base, corrFactor) && d < base
    ensures DigitChar(d, corrFactor) ==
            if d < 10 then '0' + d as char
            else (if corrFactor == 0x40 then 'A' else 'a') + (d - 10) as char
    ensures DigitValue(DigitChar(d, corrFactor), corrFactor) == d
  {
  }

  lemma Different(i: nat, d: nat, base: int, corrFactor: int)
    requires Format(base, corrFactor) && i < d < base
    ensures DigitChar(i, corrFactor) != DigitChar(d, corrFactor)
  {
  }

  /** The d-th digit is the one printed for `d`, and the only one there. */
  lemma DigitOf(d: nat, base: int, corrFactor: int)
    requires Format(base, corrFactor) && d < base
    ensures DigitChar(d, corrFactor) == Alphabet(base, corrFactor)[d]
    ensures Place(DigitChar(d, corrFactor), Alphabet(base, corrFactor)) == d
    ensures DigitValue(DigitChar(d, corrFactor), corrFactor) == d
    ensures DigitChar(d, corrFactor) == '0' <==> d == 0
  {
    hide Alphabet, DigitChar, DigitValue, Place;
    LettersAt(d, base, corrFactor);
    CharOf(d, base, corrFactor);
    forall i | 0 <= i < d
      ensures Alphabet(base, corrFactor)[i] != Alphabet(base, corrFactor)[d]
    {
      LettersAt(i, base, corrFactor);
      CharOf(i, base, corrFactor);
      Different(i, d, base, corrFactor);
    }
    PlaceOf(Alphabet(base, corrFactor), d);
    ZeroFirst(d, base, corrFactor);
  }

  lemma ZeroFirst(d: nat, base: int, corrFactor: int)
    requires Format(base, corrFactor) && d < base
    ensures DigitChar(d, corrFactor) == '0' <==> d == 0
  {
  }

  // Numerals: in the alphabet, worth the number, and without a zero in front.
  lemma {:induction false} NumeralText(n: nat, base: int, corrFactor: int)
    requires Format(base, corrFactor)
    ensures var s, a := Numeral(n, base, corrFactor), Alphabet(base, corrFactor);
            InAlphabet(s, a) && Worth(s, a) == n && (|s| > 1 ==> s[0] != '0')
  {
    var a := Alphabet(base, corrFactor);
    if n < base {
      assert Numeral(n, base, corrFactor) == [DigitChar(n, corrFactor)] == [] + [DigitChar(n, corrFactor)];
      assert InAlphabet([], a) && Worth([], a) == 0;
      DigitOf(n, base, corrFactor);
      hide DigitChar, Alphabet, Numeral, Place;
      WorthMore([], DigitChar(n, corrFactor), a);
    } else {
      var front, last := Numeral(n / base, base, corrFactor), DigitChar(n % base, corrFactor);
      assert Numeral(n, base, corrFactor) == front + [last];
      DigitOf(n % base, base, corrFactor);
      hide DigitChar, Alphabet, Numeral, Place;
      NumeralText(n / base, base, corrFactor);
      WorthMore(front, last, a);
      if |front| == 1 {
        FirstDigit(n / base, base, corrFactor);
      }
    }
  }

  lemma FirstDigit(n: nat, base: int, corrFactor: int)
    requires Format(base, corrFactor) && n > 0 && |Numeral(n, base, corrFactor)| == 1
    ensures Numeral(n, base, corrFactor)[0] != '0'
  {
    assert n < base;
    DigitOf(n, base, corrFactor);
  }

  lemma WorthMore(s: string, c: char, alphabet: string)
    ensures Worth(s + [c], alphabet) == Worth(s, alphabet) * |alphabet| + Place(c, alphabet)
    ensures InAlphabet(s + [c], alphabet) <==> InAlphabet(s, alphabet) && c in alphabet
  {
    assert (s + [c])[..|s|] == s;
    hide Place;
  }

  lemma LastApart(n: int, s: string)
    requires s != []
    ensures Repeat('0', n) + s == (Repeat('0', n) + s[..|s| - 1]) + [s[|s| - 1]] && s == s[..|s| - 1] + [s[|s| - 1]]
  {
  }

  lemma {:induction false} OnlyZeros(n: int, alphabet: string)
    requires alphabet != "" && alphabet[0] == '0'
    ensures Worth(Repeat('0', n), alphabet) == 0 && InAlphabet(Repeat('0', n), alphabet)
    decreases if n < 0 then 0 else n
  {
    hide *;
    RepeatLast('0', n);
    if n > 0 {
      OnlyZeros(n - 1, alphabet);
      ZeroWorth(Repeat('0', n - 1), alphabet);
    } else {
      WorthEmpty(alphabet);
    }
  }

  lemma RepeatLast(c: char, n: int)
    ensures Repeat(c, n) == if n <= 0 then [] else Repeat(c, n - 1) + [c]
  {
  }

  lemma ZeroWorth(s: string, alphabet: string)
    requires alphabet != "" && alphabet[0] == '0' && Worth(s, alphabet) == 0 && InAlphabet(s, alphabet)
    ensures Worth(s + ['0'], alphabet) == 0 && InAlphabet(s + ['0'], alphabet)
  {
    assert Place('0', alphabet) == 0 && '0' in alphabet;
    hide Worth, InAlphabet, Place;
    WorthMore(s, '0', alphabet);
  }

  lemma NothingBehind(n: int)
    ensures Repeat('0', n) + [] == Repeat('0', n)
  {
  }

  lemma WorthEmpty(alphabet: string)
    ensures Worth([], alphabet) == 0 && InAlphabet([], alphabet)
  {
  }

  lemma {:induction false} ZerosWorthNothing(n: int, s: string, alphabet: string)
    requires alphabet != "" && alphabet[0] == '0'
    ensures Worth(Repeat('0', n) + s, alphabet) == Worth(s, alphabet)
    ensures InAlphabet(s, alphabet) ==> InAlphabet(Repeat('0', n) + s, alphabet)
    decreases |s|
  {
    hide *;
    if s == [] {
      NothingBehind(n);
      OnlyZeros(n, alphabet);
      WorthEmpty(alphabet);
    } else {
      LastApart(n, s);
      ZerosWorthNothing(n, s[..|s| - 1], alphabet);
      WorthMore(s[..|s| - 1], s[|s| - 1], alphabet);
      WorthMore(Repeat('0', n) + s[..|s| - 1], s[|s| - 1], alphabet);
    }
  }

  lemma {:induction false} AllAlike(c: char, n: int)
    ensures forall x :: x in Repeat(c, n) ==> x == c
    decreases if n < 0 then 0 else n
  {
    if n > 0 {
      AllAlike(c, n - 1);
    }
  }

  /** The number that is printed: its magnitude if it is signed, its 32 bits if it is not. */
  function Printed(tempVar: int, sign: bool): int {
    if tempVar >= 0 then tempVar else if sign then 0 - tempVar else tempVar + 4294967296
  }

  /** Blanks, a sign for a negative number, zeros up to the precision `p`, and the number without leading zeros. */
  ghost predicate IsPrinted(text: string, negative: bool, n: int, alphabet: string, blanks: nat, p: int,
                            numeral: string)
  {
    && numeral != "" && (|numeral| > 1 ==> numeral[0] != '0')
    && var sign, zeros := if negative then 1 else 0, if p > |numeral| then p - |numeral| else 0;
       var digits := blanks + sign;
       && |text| == digits + zeros + |numeral|
       && (forall i :: 0 <= i < blanks ==> text[i] == ' ')
       && (negative ==> text[blanks] == '-')
       && (forall i :: digits <= i < digits + zeros ==> text[i] == '0')
       && text[digits + zeros..] == numeral
       && InAlphabet(text[digits..], alphabet) && Worth(text[digits..], alphabet) == Worth(numeral, alphabet) == n
  }

  lemma AllAre(c: char, n: int)
    ensures forall i :: 0 <= i < |Repeat(c, n)| ==> Repeat(c, n)[i] == c
  {
    AllAlike(c, n);
    hide Repeat;
    forall i | 0 <= i < |Repeat(c, n)|
      ensures Repeat(c, n)[i] == c
    {
      assert Repeat(c, n)[i] in Repeat(c, n);
    }
  }

  lemma Layers(blank: string, negative: bool, zero: string, numeral: string)
    ensures var text := blank + WithSign(negative, zero + numeral);
            var digits := |blank| + if negative then 1 else 0;
            && |text| == digits + |zero| + |numeral| && text[..|blank|] == blank && (negative ==> text[|blank|] == '-')
            && text[digits..] == zero + numeral && text[digits..digits + |zero|] == zero
            && text[digits + |zero|..] == numeral
  {
  }

  lemma AlphabetZero(base: int, corrFactor: int)
    requires Format(base, corrFactor)
    ensures var a := Alphabet(base, corrFactor); a != "" && a[0] == '0'
  {
    LettersAt(0, base, corrFactor);
  }

  lemma IsMagnitude(tempVar: int, sign: bool)
    requires -0x8000_0000 <= tempVar < 0x8000_0000
    ensures Magnitude(tempVar, sign) == Printed(tempVar, sign)
  {
  }

  // The layers of a printed text, and how long each is.
  lemma LayoutIs(n: nat, negative: bool, base: int, corrFactor: int, w: int, p: int)
    returns (blank: string, zero: string)
    requires Format(base, corrFactor)
    ensures var numeral := Numeral(n, base, corrFactor);
            && Layout(n, negative, base, corrFactor, w, p) == blank + WithSign(negative, zero + numeral)
            && |blank| == Blanks(|numeral|, negative, w, p) && zero == Repeat('0', p - |numeral|)
            && |zero| == (if p > |numeral| then p - |numeral| else 0)
            && (forall i :: 0 <= i < |blank| ==> blank[i] == ' ') && (forall i :: 0 <= i < |zero| ==> zero[i] == '0')
  {
    hide Numeral, Repeat, WithSign;
    var digits := |Numeral(n, base, corrFactor)|;
    blank, zero := Repeat(' ', w - Width(digits, negative, p)), Repeat('0', p - digits);
    AllAre(' ', w - Width(digits, negative, p));
    AllAre('0', p - digits);
  }

  // How many blanks come in front.
  function Blanks(digits: nat, negative: bool, w: int, p: int): nat {
    if p > digits then if w > p then w - p else 0
    else if negative then if w > digits + 1 then w - digits - 1 else 0
    else if w > digits then w - digits else 0
  }

  lemma HowLong(digits: nat, negative: bool, w: int, p: int)
    ensures var need := (if negative then 1 else 0) + if p > digits then p else digits;
            var length := Blanks(digits, negative, w, p) + need;
            && (length == (if w > need then w else need) <==> !(negative && p > digits && w > p))
            && (negative && p > digits && w > p ==> length == w + 1)
  {
  }

  lemma LayersPrinted(text: string, negative: bool, n: int, alphabet: string, blank: string, zero: string, p: int,
                      numeral: string)
    requires text == blank + WithSign(negative, zero + numeral)
    requires (forall i :: 0 <= i < |blank| ==> blank[i] == ' ') && (forall i :: 0 <= i < |zero| ==> zero[i] == '0')
    requires numeral != "" && (|numeral| > 1 ==> numeral[0] != '0')
    requires |zero| == if p > |numeral| then p - |numeral| else 0
    requires InAlphabet(zero + numeral, alphabet) && Worth(zero + numeral, alphabet) == Worth(numeral, alphabet) == n
    ensures IsPrinted(text, negative, n, alphabet, |blank|, p, numeral)
    ensures |text| == |blank| + (if negative then 1 else 0) + if p > |numeral| then p else |numeral|
  {
    hide InAlphabet, Worth, WithSign;
    Layers(blank, negative, zero, numeral);
    var digits := |blank| + if negative then 1 else 0;
    forall i | 0 <= i < |blank|
      ensures text[i] == ' '
    {
      assert text[i] == text[..|blank|][i];
    }
    forall i | digits <= i < digits + |zero|
      ensures text[i] == '0'
    {
      assert text[i] == text[digits..digits + |zero|][i - digits];
    }
  }

  /**
   The text printed for a number, for every base, width `w` and precision `p`.  It is as long as the
   width asks for, or as sign, zeros and numeral need, except when a negative number has a precision
   above its digits and a width above that precision: then it is one longer than the width.
   */
  lemma TextPrinted(tempVar: int, sign: bool, base: int, corrFactor: int, w: int, p: int)
    returns (blanks: nat, numeral: string)
    requires -0x8000_0000 <= tempVar < 0x8000_0000 && Format(base, corrFactor)
    ensures var negative := sign && tempVar < 0;
            var text := Layout(Magnitude(tempVar, sign), negative, base, corrFactor, w, p);
            var need := |text| - blanks;
            && IsPrinted(text, negative, Printed(tempVar, sign), Alphabet(base, corrFactor), blanks, p, numeral)
            && (|text| == (if w > need then w else need) <==> !(negative && p > |numeral| && w > p))
            && (negative && p > |numeral| && w > p ==> |text| == w + 1)
  {
    hide *;
    var negative, n, a := sign && tempVar < 0, Magnitude(tempVar, sign), Alphabet(base, corrFactor);
    IsMagnitude(tempVar, sign);
    numeral := Numeral(n, base, corrFactor);
    var blank, zero := LayoutIs(n, negative, base, corrFactor, w, p);
    blanks := |blank|;
    NumeralText(n, base, corrFactor);
    AlphabetZero(base, corrFactor);
    ZerosWorthNothing(p - |numeral|, numeral, a);
    LayersPrinted(Layout(n, negative, base, corrFactor, w, p), negative, n, a, blank, zero, p, numeral);
    HowLong(|numeral|, negative, w, p);
  }

  /** What is sent for a text: in place of each line feed a carriage return and a line feed. */
  lemma {:induction false} SentText(a: string, b: string)
    ensures Sent([]) == [] && Sent(['\n']) == ['\r', '\n'] && (forall c :: c != '\n' ==> Sent([c]) == [c])
    ensures Sent(a + b) == Sent(a) + Sent(b)
  {
    SentOne();
    hide Sent;
    if b == [] {
      assert a + b == a && Sent(a) + [] == Sent(a);
    } else {
      var first, last := b[..|b| - 1], b[|b| - 1];
      SentText(a, first);
      assert b == first + [last] && a + b == (a + first) + [last];
      SentMore(first, last);
      SentMore(a + first, last);
    }
  }

  lemma SentOne()
    ensures Sent([]) == [] && Sent(['\n']) == ['\r', '\n'] && (forall c :: c != '\n' ==> Sent([c]) == [c])
  {
  }

  lemma SentMore(s: string, c: char)
    ensures Sent(s + [c]) == Sent(s) + if c == '\n' then ['\r', '\n'] else [c]
  {
    assert (s + [c])[..|s|] == s;
  }

  // ---------- Reading ----------

  predicate AllDigits(s: string) {
    InAlphabet(s, "0123456789")
  }

  lemma DigitIs(c: char)
    ensures IsDigit(c) <==> c in "0123456789"
    ensures IsDigit(c) ==> DigitValue(c, 0) == Place(c, "0123456789")
  {
    var a := "0123456789";
    if IsDigit(c) {
      var d := (c - '0') as int;
      DigitOf(d, 10, 0);
    }
  }

  lemma {:induction false} WorthIsValue(s: string)
    requires AllDigits(s)
    ensures Value(s, 10, 0) == Worth(s, "0123456789")
    ensures forall i :: 0 <= i < |s| ==> IsDigit(s[i])
  {
    if s != [] {
      var front, c := s[..|s| - 1], s[|s| - 1];
      assert s == front + [c];
      hide Value, Worth, IsDigit, Place, DigitValue;
      WorthMore(front, c, "0123456789");
      WorthIsValue(front);
      DigitIs(c);
      ValueOn(s, |s| - 1);
      assert s[..|s|] == s;
    }
  }

  // What is in front of a character that is no digit is the run of digits.
  lemma RunIs(s: string, rest: string)
    requires AllDigits(s) && (rest == [] || rest[0] !in "0123456789")
    ensures DigitRun(s + rest) == |s| && (s + rest)[..|s|] == s && (s + rest)[|s|..] == rest
    ensures Value(s, 10, 0) == Worth(s, "0123456789")
  {
    hide *;
    WorthIsValue(s);
    if rest != [] {
      DigitIs(rest[0]);
    }
    DigitRunOfDigits(s, rest);
    Cut(s, rest);
  }

  lemma Cut(s: string, rest: string)
    ensures (s + rest)[..|s|] == s && (s + rest)[|s|..] == rest
  {
  }

  // The text is digits up to the end or up to the first character that is none.
  lemma ReadParts(s: string, rest: string, flag: bool)
    requires AllDigits(s) && (rest == [] || rest[0] !in "0123456789")
    ensures var v := Worth(s, "0123456789");
            Read(s + rest, flag) ==
            if s + rest == "" && flag then Reading(0, 3, 0, [])
            else if rest == [] then Reading(v, 0, v, [])
            else if rest[0] != '.' then Reading(v, 0, -1, rest)
            else
              var m := DigitRun(rest[1..]);
              Reading(v, Value(rest[1..][..m], 10, 0), if m == |rest[1..]| then 0 else -1, rest[1..][m..])
  {
    RunIs(s, rest);
    hide DigitRun, Value, Worth, AllDigits;
    if rest != [] {
      assert (s + rest)[|s|] == rest[0] && (s + rest)[|s| + 1..] == rest[1..];
    }
  }

  /**
   What every text reads as: `s` and `t` are digits or nothing, `x` is no digit, `rest` is any text.  A
   width, a precision or both may be missing; only the empty text with the flag has a precision of its own.
   */
  lemma TextRead(s: string, t: string, x: char, rest: string, flag: bool)
    requires InAlphabet(s, "0123456789") && InAlphabet(t, "0123456789") && x !in "0123456789"
    ensures Read("", true) == Reading(0, 3, 0, [])
    ensures var v := Worth(s, "0123456789"); s != "" || !flag ==> Read(s, flag) == Reading(v, 0, v, [])
    ensures var v, u := Worth(s, "0123456789"), Worth(t, "0123456789");
            && Read(s + (['.'] + t), flag) == Reading(v, u, 0, [])
            && Read(s + (['.'] + (t + ([x] + rest))), flag) == Reading(v, u, -1, [x] + rest)
            && (x != '.' ==> Read(s + ([x] + rest), flag) == Reading(v, 0, -1, [x] + rest))
  {
    assert Read("", true) == Reading(0, 3, 0, []);
    hide Worth, Read, DigitRun, Value;
    Ends(s, t);
    ReadParts(s, [], flag);
    ReadParts(s, ['.'] + t, flag);
    ReadParts(s, [x] + rest, flag);
    ReadParts(s, ['.'] + (t + ([x] + rest)), flag);
    RunIs(t, []);
    RunIs(t, [x] + rest);
  }

  lemma Ends(s: string, t: string)
    ensures s + [] == s && t + [] == t && t[..|t|] == t && t[|t|..] == []
  {
  }

  /** Every text has one of those forms. */
  lemma {:induction false} FormOf(temp: string) returns (s: string, rest: string)
    ensures temp == s + rest && InAlphabet(s, "0123456789") && (rest == [] || rest[0] !in "0123456789")
  {
    if temp == [] || temp[0] !in "0123456789" {
      return [], temp;
    }
    s, rest := FormOf(temp[1..]);
    s := [temp[0]] + s;
  }
}
