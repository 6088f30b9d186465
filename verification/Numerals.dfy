/**
 Positional numerals: what fmt's `{}` and `{:x}` print for unsigned integers, and what
 `std::from_chars` and a hexadecimal group reader take back.
 */
module Numerals {
  datatype Radix = Decimal | Hex

  function Size(r: Radix): nat {
    if r == Decimal then 10 else 16
  }

  function Shift(r: Radix, high: nat, d: nat): nat {
    if r == Decimal then 10 * high + d else 16 * high + d
  }

  function Quot(r: Radix, n: nat): nat {
    if r == Decimal then n / 10 else n / 16
  }

  function Rem(r: Radix, n: nat): nat {
    if r == Decimal then n % 10 else n % 16
  }

  lemma ShiftParts(r: Radix, high: nat, d: nat)
    requires d < Size(r)
    ensures Quot(r, Shift(r, high, d)) == high && Rem(r, Shift(r, high, d)) == d
    ensures Shift(r, high, d) >= Size(r) <==> high > 0
  {}

  /** The value of a digit of either case, or 16 for a character that is no hexadecimal digit. */
  function DigitOf(c: char): (d: nat)
    ensures d <= 16
  {
    if '0' <= c <= '9' then c as int - '0' as int
    else if 'a' <= c <= 'f' then 10 + c as int - 'a' as int
    else if 'A' <= c <= 'F' then 10 + c as int - 'A' as int
    else 16
  }

  /** The digits in order, and no other character is one. */
  lemma DigitMeaning(c: char, d: nat)
    requires d < 16
    ensures DigitOf(c) == d <==> c == "0123456789abcdef"[d] || c == "0123456789ABCDEF"[d]
  {
    if d < 10 {
      assert "0123456789"[d] as int == '0' as int + d;
      assert "0123456789abcdef" == "0123456789" + "abcdef" && "0123456789ABCDEF" == "0123456789" + "ABCDEF";
    } else {
      assert "abcdef"[d - 10] as int == 'a' as int + d - 10 && "ABCDEF"[d - 10] as int == 'A' as int + d - 10;
      assert "0123456789abcdef" == "0123456789" + "abcdef" && "0123456789ABCDEF" == "0123456789" + "ABCDEF";
    }
  }

  function DigitChar(d: nat): (c: char)
    requires d < 16
    ensures DigitOf(c) == d && !('A' <= c <= 'Z')
  {
    if d < 10 then ('0' as int + d) as char else ('a' as int + (d - 10)) as char
  }

  predicate IsDigit(r: Radix, c: char) {
    DigitOf(c) < Size(r)
  }

  predicate AllDigits(r: Radix, s: string) {
    forall i :: 0 <= i < |s| ==> IsDigit(r, s[i])
  }

  /** Lower case and without a leading zero: how sections 4.1 and 4.3 of RFC 5952 write a number. */
  predicate Minimal(s: string) {
    (forall i :: 0 <= i < |s| ==> !('A' <= s[i] <= 'Z')) && (|s| > 1 ==> s[0] != '0')
  }

  function Value(r: Radix, s: string): nat
    requires AllDigits(r, s)
  {
    if s == "" then 0
    else Shift(r, Value(r, s[..|s| - 1]), DigitOf(s[|s| - 1]))
  }

  function Numeral(r: Radix, n: nat): (s: string)
    ensures s != "" && AllDigits(r, s)
    decreases n
  {
    if n < Size(r) then [DigitChar(n)]
    else Numeral(r, Quot(r, n)) + [DigitChar(Rem(r, n))]
  }

  lemma {:induction false} NumeralValue(r: Radix, n: nat)
    ensures Value(r, Numeral(r, n)) == n
    ensures Minimal(Numeral(r, n))
    ensures n > 0 ==> Numeral(r, n)[0] != '0'
    decreases n
  {
    var s := Numeral(r, n);
    if n < Size(r) {
      assert s[..|s| - 1] == "";
    } else {
      NumeralValue(r, Quot(r, n));
      assert s[..|s| - 1] == Numeral(r, Quot(r, n));
    }
  }

  /** The weight of a digit with `n` digits behind it. */
  function Weight(r: Radix, n: nat): nat {
    if n == 0 then 1 else if r == Decimal then 10 * Weight(r, n - 1) else 16 * Weight(r, n - 1)
  }

  lemma ShiftSum(r: Radix, v: nat, w: nat, x: nat, d: nat)
    ensures Shift(r, v * w + x, d) == v * (if r == Decimal then 10 * w else 16 * w) + Shift(r, x, d)
  {}

  lemma AllDigitsSuffix(r: Radix, x: string, y: string)
    requires AllDigits(r, x + y)
    ensures AllDigits(r, x) && AllDigits(r, y)
  {
    assert forall i :: 0 <= i < |x| ==> (x + y)[i] == x[i];
    assert forall i :: 0 <= i < |y| ==> (x + y)[|x| + i] == y[i];
  }

  /** A positional value: the digits before any point weigh as much as the digits behind it say. */
  lemma {:induction false} ValueAppend(r: Radix, x: string, y: string)
    requires AllDigits(r, x + y)
    ensures AllDigits(r, x) && AllDigits(r, y)
    ensures Value(r, x + y) == Value(r, x) * Weight(r, |y|) + Value(r, y)
    decreases |y|
  {
    AllDigitsSuffix(r, x, y);
    if y == "" {
      assert x + y == x;
    } else {
      var init, last := y[..|y| - 1], y[|y| - 1];
      assert (x + y)[..|x + y| - 1] == x + init;
      AllDigitsPrefix(r, x + y, |x + y| - 1);
      ValueAppend(r, x, init);
      ShiftSum(r, Value(r, x), Weight(r, |init|), Value(r, init), DigitOf(last));
    }
  }

  lemma LastCut(s: string)
    requires s != ""
    ensures s == s[..|s| - 1] + [s[|s| - 1]] && (|s| == 1 ==> s[..|s| - 1] == "")
  {}

  lemma AllDigitsPrefix(r: Radix, s: string, n: nat)
    requires AllDigits(r, s) && n <= |s|
    ensures AllDigits(r, s[..n])
  {}

  /** The first digits and the last one. */
  lemma ValueParts(r: Radix, s: string)
    requires s != "" && AllDigits(r, s)
    ensures var init, d := s[..|s| - 1], DigitOf(s[|s| - 1]);
            && AllDigits(r, init) && d < Size(r) && s == init + [s[|s| - 1]]
            && Value(r, s) == Shift(r, Value(r, init), d)
            && (|s| == 1 ==> Value(r, s) == d)
  {
    var init := s[..|s| - 1];
    LastCut(s);
    AllDigitsPrefix(r, s, |s| - 1);
    assert IsDigit(r, s[|s| - 1]);
    assert |s| == 1 ==> Value(r, init) == 0;
  }

  /** A minimal spelling is the numeral of its own value: there is only one. */
  lemma {:induction false} MinimalIsNumeral(r: Radix, s: string)
    requires s != "" && AllDigits(r, s) && Minimal(s)
    ensures s == Numeral(r, Value(r, s))
    decreases |s|
  {
    var init, last := s[..|s| - 1], s[|s| - 1];
    ValueParts(r, s);
    assert last == DigitChar(DigitOf(last));
    if |s| == 1 {
      assert s == [last];
    } else {
      MinimalIsNumeral(r, init);
      MinimalPositive(r, init);
      ShiftParts(r, Value(r, init), DigitOf(last));
    }
  }

  lemma MinimalPositive(r: Radix, s: string)
    requires s != "" && AllDigits(r, s) && s[0] != '0' && s == Numeral(r, Value(r, s))
    ensures Value(r, s) > 0
  {
    assert Numeral(r, 0) == ['0'];
  }

  /** No spelling of a number is shorter than its numeral. */
  lemma {:induction false} NumeralIsShortest(r: Radix, s: string)
    requires s != "" && AllDigits(r, s)
    ensures |Numeral(r, Value(r, s))| <= |s|
    decreases |s|
  {
    ValueParts(r, s);
    if |s| > 1 {
      NumeralIsShortest(r, s[..|s| - 1]);
      ShiftParts(r, Value(r, s[..|s| - 1]), DigitOf(s[|s| - 1]));
    }
  }

  lemma HexLength(n: nat)
    requires n < 65536
    ensures |Numeral(Hex, n)| <= 4
  {
    var q := Quot(Hex, n);
    var p := Quot(Hex, q);
    var o := Quot(Hex, p);
    assert q < 4096 && p < 256 && o < 16;
    assert |Numeral(Hex, o)| == 1;
    assert |Numeral(Hex, p)| <= 2;
    assert |Numeral(Hex, q)| <= 3;
  }

  lemma DecimalLength(n: nat)
    requires n < 65536
    ensures |Numeral(Decimal, n)| <= 5
    ensures n < 256 ==> |Numeral(Decimal, n)| <= 3
  {
    var q := Quot(Decimal, n);
    var p := Quot(Decimal, q);
    var o := Quot(Decimal, p);
    var m := Quot(Decimal, o);
    assert q < 6554 && p < 656 && o < 66 && m < 7;
    assert |Numeral(Decimal, m)| == 1;
    assert |Numeral(Decimal, o)| <= 2;
    assert |Numeral(Decimal, p)| <= 3;
    assert |Numeral(Decimal, q)| <= 4;
    assert n < 256 ==> q < 26 && p < 3;
  }

  /** What `std::from_chars` answers for an unsigned type: `stop` is where its pointer ends up. */
  datatype Scan = InvalidArgument | OutOfRange(stop: nat) | Parsed(value: nat, stop: nat)

  function DigitRun(s: string): (n: nat)
    ensures n <= |s| && AllDigits(Decimal, s[..n])
    ensures n < |s| ==> !IsDigit(Decimal, s[n])
  {
    if s == "" || !IsDigit(Decimal, s[0]) then 0
    else
      var n := DigitRun(s[1..]);
      assert forall i :: 1 <= i < 1 + n ==> s[i] == s[1..][..n][i - 1];
      1 + n
  }

  function FromChars(s: string, max: nat): Scan {
    var n := DigitRun(s);
    if n == 0 then InvalidArgument
    else
      var v := Value(Decimal, s[..n]);
      if v > max then OutOfRange(n) else Parsed(v, n)
  }

  /** However a text is cut behind its leading digits, that is what is read: none of it only if there are none. */
  lemma FromCharsMeaning(s: string, max: nat, n: nat)
    requires n <= |s| && AllDigits(Decimal, s[..n]) && (n < |s| ==> !IsDigit(Decimal, s[n]))
    ensures FromChars(s, max) ==
            if n == 0 then InvalidArgument
            else if Value(Decimal, s[..n]) > max then OutOfRange(n)
            else Parsed(Value(Decimal, s[..n]), n)
  {
    DigitRunUnique(s, n);
  }

  /** A printed number is read back exactly, and the scan stops at its end. */
  lemma FromCharsNumeral(n: nat, rest: string, max: nat)
    requires n <= max
    requires rest == "" || !IsDigit(Decimal, rest[0])
    ensures FromChars(Numeral(Decimal, n) + rest, max) == Parsed(n, |Numeral(Decimal, n)|)
  {
    var t := Numeral(Decimal, n);
    var s := t + rest;
    NumeralValue(Decimal, n);
    assert forall i :: 0 <= i < |t| ==> s[i] == t[i];
    assert rest != "" ==> s[|t|] == rest[0];
    DigitRunUnique(s, |t|);
    assert s[..|t|] == t;
  }

  lemma DigitRunUnique(s: string, k: nat)
    requires k <= |s| && AllDigits(Decimal, s[..k]) && (k < |s| ==> !IsDigit(Decimal, s[k]))
    ensures DigitRun(s) == k
  {
    var n := DigitRun(s);
    assert forall i :: 0 <= i < n ==> s[i] == s[..n][i];
    assert forall i :: 0 <= i < k ==> s[i] == s[..k][i];
  }
}
