/** The buffers of LogStream.h and the integer formatting of LogStream.cc. */
module LogStream {
  import opened Arithmetic

  /** What a buffer of some size holds after append: all of buf more, or nothing. */
  function Filled(text: string, size: int, buf: string): string {
    if size - |text| > |buf| then text + buf else text
  }

  /** FixedBuffer: data_ is filled up to cur_. */
  class FixedBuffer {
    const data: array<char>
    var cur: nat

    ghost predicate Valid()
      reads this
    {
      cur <= data.Length
    }

    ghost function Text(): string
      requires Valid()
      reads this, data
    {
      data[..cur]
    }

    constructor (size: nat)
      ensures Valid() && Text() == [] && data.Length == size
      ensures fresh(data)
    {
      data := new char[size](_ => '\0');
      cur := 0;
    }

    function Length(): nat
      reads this
    {
      cur
    }

    function Avail(): int
      reads this
    {
      data.Length - cur
    }

    /** Copies the whole of buf, or nothing: the last byte of data is never used. */
    method Append(buf: string)
      requires Valid()
      modifies this, data
      ensures Valid()
      ensures data.Length - |old(Text())| > |buf| ==> Text() == old(Text()) + buf
      ensures data.Length - |old(Text())| <= |buf| ==> Text() == old(Text())
      ensures Text() == Filled(old(Text()), data.Length, buf)
    {
      if Avail() > |buf| {
        var i := 0;
        while i < |buf|
          invariant 0 <= i <= |buf| && cur == old(cur)
          invariant data[..cur] == old(data[..cur]) && data[cur..cur + i] == buf[..i]
        {
          data[cur + i] := buf[i];
          assert data[cur..cur + i + 1] == data[cur..cur + i] + [buf[i]];
          assert buf[..i + 1] == buf[..i] + [buf[i]];
          i := i + 1;
        }
        assert data[..cur + |buf|] == data[..cur] + data[cur..cur + |buf|];
        assert buf[..|buf|] == buf;
        cur := cur + |buf|;
      }
    }

    method Add(len: nat)
      requires cur + len <= data.Length
      modifies this`cur
      ensures cur == old(cur) + len && Valid()
    {
      cur := cur + len;
    }

    method Reset()
      modifies this`cur
      ensures Valid() && Text() == []
    {
      cur := 0;
    }
  }

  // ---------------------------------------------------------------- numerals

  function Digit(d: int): char
    requires 0 <= d < 16
  {
    if d < 10 then ('0' as int + d) as char else ('A' as int + d - 10) as char
  }

  /** The numeral of n, without superfluous zeros. */
  function Numeral(base: int, n: nat): string
    requires 2 <= base <= 16
    decreases n
  {
    if n < base then [Digit(n)] else Numeral(base, n / base) + [Digit(n % base)]
  }

  /** What a decimal text should look like. */
  function Decimal(value: int): string {
    if value < 0 then "-" + Numeral(10, -value) else Numeral(10, value)
  }

  function DigitValue(c: char): int {
    if '0' <= c <= '9' then c as int - '0' as int else c as int - 'A' as int + 10
  }

  /** Reading a numeral. */
  function ValueOf(base: int, text: string): int {
    if text == [] then 0 else ValueOf(base, text[..|text| - 1]) * base + DigitValue(text[|text| - 1])
  }

  predicate IsDigit(base: int, c: char) {
    ('0' <= c <= '9' || 'A' <= c <= 'F') && 0 <= DigitValue(c) < base
  }

  function ValueOfDecimal(text: string): int {
    if text != [] && text[0] == '-' then -ValueOf(10, text[1..]) else ValueOf(10, text)
  }

  /** Digits of the base, and no zero in front but for zero itself. */
  predicate IsNumeral(base: int, text: string)
    requires 2 <= base <= 16
  {
    && text != [] && (forall i :: 0 <= i < |text| ==> IsDigit(base, text[i]))
    && (text[0] == '0' ==> |text| == 1)
  }

  lemma DigitIsDigit(base: int, d: int)
    requires 2 <= base <= 16 && 0 <= d < base
    ensures IsDigit(base, Digit(d)) && DigitValue(Digit(d)) == d && (Digit(d) == '0' <==> d == 0)
  {
  }

  lemma DigitOfValue(base: int, c: char)
    requires 2 <= base <= 16 && IsDigit(base, c)
    ensures 0 <= DigitValue(c) < base && Digit(DigitValue(c)) == c && (c == '0' <==> DigitValue(c) == 0)
  {
    var d := DigitValue(c);
    DigitIsDigit(base, d);
    assert c as int == Digit(d) as int;
  }

  lemma ValuePush(base: int, text: string, c: char)
    ensures ValueOf(base, text + [c]) == ValueOf(base, text) * base + DigitValue(c)
  {
    assert (text + [c])[..|text|] == text;
  }

  lemma LastDigit(base: int, n: int)
    requires 2 <= base && n >= base
    ensures n / base > 0 && n / base * base + n % base == n
  {
    assert n == base * (n / base) + n % base;
    MulAtLeast(n / base, base);
  }

  lemma NumeralPush(base: int, text: string, c: char)
    requires 2 <= base <= 16 && IsNumeral(base, text) && text[0] != '0' && IsDigit(base, c)
    ensures IsNumeral(base, text + [c])
  {
    assert (text + [c])[0] == text[0];
  }

  lemma OneMoreDigit(base: int, q: int, d: int, front: string)
    requires 2 <= base <= 16 && 0 <= d < base && IsNumeral(base, front) && ValueOf(base, front) == q
    requires front[0] != '0'
    ensures
      var text := front + [Digit(d)];
      IsNumeral(base, text) && ValueOf(base, text) == q * base + d && text[0] != '0'
  {
    DigitIsDigit(base, d);
    ValuePush(base, front, Digit(d));
    NumeralPush(base, front, Digit(d));
  }

  lemma OnlyDigit(base: int, n: nat)
    requires 2 <= base <= 16 && n < base
    ensures IsNumeral(base, [Digit(n)]) && ValueOf(base, [Digit(n)]) == n && (Digit(n) == '0' <==> n == 0)
  {
    DigitIsDigit(base, n);
    ValuePush(base, [], Digit(n));
    assert [] + [Digit(n)] == [Digit(n)] && ValueOf(base, []) == 0;
  }

  /** Reading back what was written. */
  lemma {:induction false} NumeralReadsBack(base: int, n: nat)
    requires 2 <= base <= 16
    ensures IsNumeral(base, Numeral(base, n)) && ValueOf(base, Numeral(base, n)) == n
    ensures Numeral(base, n)[0] == '0' <==> n == 0
    decreases n
  {
    if n < base {
      OnlyDigit(base, n);
    } else {
      var q, d := n / base, n % base;
      LastDigit(base, n);
      NumeralReadsBack(base, q);
      OneMoreDigit(base, q, d, Numeral(base, q));
      assert Numeral(base, n) == Numeral(base, q) + [Digit(d)];
    }
  }

  /** Writing back what was read: a number has one numeral only. */
  lemma {:induction false} NumeralIsUnique(base: int, text: string)
    requires 2 <= base <= 16 && IsNumeral(base, text)
    ensures ValueOf(base, text) >= 0 && Numeral(base, ValueOf(base, text)) == text
    ensures text[0] != '0' ==> ValueOf(base, text) > 0
    decreases |text|
  {
    var n := |text| - 1;
    var front, c := text[..n], text[n];
    DigitOfValue(base, c);
    ValuePush(base, front, c);
    assert text == front + [c];
    if n == 0 {
      OnlyDigit(base, DigitValue(c));
      assert text == [c];
    } else {
      assert front[0] == text[0] && forall i :: 0 <= i < n ==> front[i] == text[i];
      NumeralIsUnique(base, front);
      var v := ValueOf(base, front);
      NumeralGrows(base, v, DigitValue(c));
      assert Numeral(base, v * base + DigitValue(c)) == front + [c];
    }
  }

  lemma NumeralGrows(base: int, v: int, d: int)
    requires 2 <= base <= 16 && v > 0 && 0 <= d < base
    ensures v * base + d > 0 && Numeral(base, v * base + d) == Numeral(base, v) + [Digit(d)]
  {
    DivUnique(v * base + d, base, v, d);
    MulAtLeast(v, base);
  }

  lemma DecimalReadsBack(value: int)
    ensures ValueOfDecimal(Decimal(value)) == value
    ensures
      var text := Decimal(value);
      if value < 0 then text[0] == '-' && IsNumeral(10, text[1..]) && text[1] != '0' else IsNumeral(10, text)
  {
    NumeralReadsBack(10, if value < 0 then -value else value);
    if value < 0 {
      assert Decimal(value)[1..] == Numeral(10, -value);
    } else {
      assert IsDigit(10, Decimal(value)[0]);
    }
  }

  lemma DecimalIsUnique(text: string)
    requires IsNumeral(10, text) || (|text| > 1 && text[0] == '-' && IsNumeral(10, text[1..]) && text[1] != '0')
    ensures Decimal(ValueOfDecimal(text)) == text
  {
    if text[0] == '-' {
      NumeralIsUnique(10, text[1..]);
    } else {
      NumeralIsUnique(10, text);
    }
  }

  /** Some numerals, digit by digit. */
  lemma SomeNumerals()
    ensures Decimal(0) == "0" && Decimal(120) == "120" && Decimal(-120) == "-120"
    ensures Numeral(16, 0x2AF) == "2AF"
  {
    assert Numeral(10, 1) == "1" && Numeral(10, 12) == "12" && Numeral(10, 120) == "120";
    assert Numeral(16, 2) == "2" && Numeral(16, 0x2A) == "2A";
  }

  function Power(base: int, k: nat): int {
    if k == 0 then 1 else base * Power(base, k - 1)
  }

  lemma QuotientBelow(base: int, n: int, m: int)
    requires base > 0 && n < base * m
    ensures n / base < m
  {
    var q := n / base;
    MulAtLeast(q - m + 1, base);
    assert (q - m + 1) * base == q * base - m * base + base;
    assert q * base + n % base == n;
  }

  lemma {:induction false} NumeralLength(base: int, n: nat, k: nat)
    requires 2 <= base <= 16 && k > 0 && n < Power(base, k)
    ensures |Numeral(base, n)| <= k
    decreases k
  {
    if n >= base {
      LastDigit(base, n);
      assert k > 1 by {
        assert Power(base, 1) == base * Power(base, 0);
      }
      QuotientBelow(base, n, Power(base, k - 1));
      NumeralLength(base, n / base, k - 1);
    }
  }

  // ---------------------------------------------------------------- convert

  const MAX_NUMERIC_SIZE := 32

  /** The digit of every remainder from -9 to 9 stands around the middle. */
  const ZERO_AT := 9
  const DECIMAL_DIGITS := "9876543210123456789"
  const HEX_DIGITS := "0123456789ABCDEF"

  function Abs(i: int): nat {
    if i < 0 then -i else i
  }

  lemma RemainderDigit(lsd: int)
    requires -10 < lsd < 10
    ensures DECIMAL_DIGITS[ZERO_AT + lsd] == Digit(Abs(lsd))
  {
  }

  lemma HexDigit(lsd: int)
    requires 0 <= lsd < 16
    ensures HEX_DIGITS[lsd] == Digit(lsd)
  {
  }

  /** Division towards zero takes the same digits off a number and its negative. */
  lemma TruncatedDigits(i: int)
    ensures Abs(Quot(i, 10)) == Abs(i) / 10 && Abs(Rem(i, 10)) == Abs(i) % 10 && -10 < Rem(i, 10) < 10
    ensures Quot(i, 10) == 0 <==> Abs(i) < 10
  {
  }

  /** A text from its end to its start. */
  ghost function Backwards(s: string): (r: string)
    ensures |r| == |s|
  {
    if s == [] then [] else [s[|s| - 1]] + Backwards(s[..|s| - 1])
  }

  lemma BackwardsPush(s: string, c: char)
    ensures Backwards(s + [c]) == [c] + Backwards(s)
  {
    assert (s + [c])[..|s|] == s;
  }

  lemma {:induction false} BackwardsAt(s: string, k: int)
    requires 0 <= k < |s|
    ensures Backwards(s)[k] == s[|s| - 1 - k]
    decreases |s|
  {
    if k > 0 {
      BackwardsAt(s[..|s| - 1], k - 1);
    }
  }

  /** std::reverse */
  method Reverse(buf: array<char>, lo: nat, hi: nat)
    requires lo <= hi <= buf.Length
    modifies buf
    ensures buf[lo..hi] == Backwards(old(buf[lo..hi]))
    ensures forall j :: 0 <= j < lo || hi <= j < buf.Length ==> buf[j] == old(buf[j])
  {
    var a, b := lo, hi;
    while a < b - 1
      invariant lo <= a <= b + 1 <= hi + 1 && a - lo == hi - b
      invariant forall j :: 0 <= j < lo || hi <= j < buf.Length ==> buf[j] == old(buf[j])
      invariant forall j :: lo <= j < a || b <= j < hi ==> buf[j] == old(buf[lo + hi - 1 - j])
      invariant forall j :: a <= j < b ==> buf[j] == old(buf[j])
      decreases b - a
    {
      b := b - 1;
      buf[a], buf[b] := buf[b], buf[a];
      a := a + 1;
    }
    ghost var was := old(buf[lo..hi]);
    forall k | 0 <= k < hi - lo ensures buf[lo..hi][k] == Backwards(was)[k] {
      BackwardsAt(was, k);
      assert buf[lo + k] == old(buf[hi - 1 - k]);
    }
  }

  /** The digits of i that are still to be written, once others have been. */
  ghost function Rest(base: int, i: nat): string
    requires 2 <= base <= 16
  {
    if i == 0 then [] else Numeral(base, i)
  }

  /** What is still to be written, and what has been, of a numeral. */
  ghost predicate Converting(base: int, whole: string, i: nat, written: string)
    requires 2 <= base <= 16
  {
    (if written == [] then Numeral(base, i) else Rest(base, i)) + Backwards(written) == whole
  }

  lemma NumeralStep(base: int, i: nat)
    requires 2 <= base <= 16
    ensures Numeral(base, i) == Rest(base, i / base) + [Digit(i % base)]
  {
    if i >= base {
      LastDigit(base, i);
    } else {
      DivUnique(i, base, 0, i);
      assert [] + [Digit(i)] == [Digit(i)];
    }
  }

  lemma OneDigit(base: int, whole: string, i: nat, written: string)
    requires 2 <= base <= 16 && Converting(base, whole, i, written) && (written == [] || i != 0)
    ensures |written| < |whole|
    ensures Converting(base, whole, i / base, written + [Digit(i % base)])
  {
    NumeralStep(base, i);
    MoveDigit(whole, Rest(base, i / base), Digit(i % base), written);
  }

  lemma MoveDigit(whole: string, front: string, digit: char, written: string)
    requires front + [digit] + Backwards(written) == whole
    ensures |written| < |whole| && front + Backwards(written + [digit]) == whole
  {
    var behind := Backwards(written);
    BackwardsPush(written, digit);
    Regroup(front, digit, behind);
  }

  lemma Regroup(front: string, digit: char, behind: string)
    ensures front + [digit] + behind == front + ([digit] + behind)
  {
  }

  predicate Is64Bit(value: int) {
    -0x8000_0000_0000_0000 <= value < 0x1_0000_0000_0000_0000
  }

  lemma DecimalFits(value: int)
    requires Is64Bit(value)
    ensures |Numeral(10, Abs(value))| + (if value < 0 then 1 else 0) <= 20
  {
    if value < 0 {
      assert Power(10, 19) == 10000000000000000000 by { PowersOfTen(); }
      NumeralLength(10, -value, 19);
    } else {
      assert Power(10, 20) == 100000000000000000000 by { PowersOfTen(); }
      NumeralLength(10, value, 20);
    }
  }

  lemma PowersOfTen()
    ensures Power(10, 19) == 10000000000000000000 && Power(10, 20) == 100000000000000000000
  {
    assert Power(10, 4) == 10000;
    assert Power(10, 8) == 100000000;
    assert Power(10, 12) == 1000000000000;
    assert Power(10, 16) == 10000000000000000;
  }

  /** One turn of convert's loop, with truncating division and the digit table. */
  lemma OneSignedDigit(whole: string, i: int, written: string)
    requires Converting(10, whole, Abs(i), written) && (written == [] || i != 0)
    ensures |written| < |whole| && -10 < Rem(i, 10) < 10
    ensures Converting(10, whole, Abs(Quot(i, 10)), written + [DECIMAL_DIGITS[ZERO_AT + Rem(i, 10)]])
    ensures Quot(i, 10) == 0 || Abs(Quot(i, 10)) < Abs(i)
  {
    TruncatedDigits(i);
    RemainderDigit(Rem(i, 10));
    OneDigit(10, whole, Abs(i), written);
  }

  /** The loop of convert: the digits of |value|, the last one first. */
  method WriteDigits(buf: array<char>, at: nat, value: int) returns (p: nat)
    requires Is64Bit(value) && at + MAX_NUMERIC_SIZE <= buf.Length
    modifies buf
    ensures at < p <= buf.Length && Backwards(buf[at..p]) == Numeral(10, Abs(value))
    ensures forall j :: 0 <= j < at || p <= j < buf.Length ==> buf[j] == old(buf[j])
  {
    DecimalFits(value);
    var i := value;
    p := at;
    ghost var whole, written := Numeral(10, Abs(value)), [];
    assert whole + Backwards([]) == whole;
    var again := true;
    while again
      invariant at <= p <= at + 20 && written == buf[at..p] && Converting(10, whole, Abs(i), written)
      invariant p == at ==> again
      invariant p > at ==> again == (i != 0)
      invariant forall j :: 0 <= j < at || p <= j < buf.Length ==> buf[j] == old(buf[j])
      decreases Abs(i), again
    {
      OneSignedDigit(whole, i, written);
      var lsd := Rem(i, 10);
      i := Quot(i, 10);
      buf[p] := DECIMAL_DIGITS[ZERO_AT + lsd];
      written := written + [buf[p]];
      p := p + 1;
      again := i != 0;
    }
  }

  /** The digits and then the sign. */
  method WriteSigned(buf: array<char>, at: nat, value: int) returns (p: nat)
    requires Is64Bit(value) && at + MAX_NUMERIC_SIZE <= buf.Length
    modifies buf
    ensures at < p <= at + 20 && Backwards(buf[at..p]) == Decimal(value)
    ensures forall j :: 0 <= j < at || p <= j < buf.Length ==> buf[j] == old(buf[j])
  {
    DecimalFits(value);
    p := WriteDigits(buf, at, value);
    if value < 0 {
      ghost var digits := buf[at..p];
      buf[p] := '-';
      assert buf[at..p + 1] == digits + ['-'];
      BackwardsPush(digits, '-');
      p := p + 1;
    }
  }

  method Convert(buf: array<char>, at: nat, value: int) returns (len: nat)
    requires Is64Bit(value) && at + MAX_NUMERIC_SIZE <= buf.Length
    modifies buf
    ensures 0 < len <= 20 && buf[at..at + len] == Decimal(value) && buf[at + len] == '\0'
    ensures forall j :: 0 <= j < at || at + len < j < buf.Length ==> buf[j] == old(buf[j])
  {
    var p := WriteSigned(buf, at, value);
    ghost var all := buf[at..p];
    buf[p] := '\0';
    assert buf[at..p] == all;
    Reverse(buf, at, p);
    return p - at;
  }

  // ---------------------------------------------------------------- hexadecimal and the stream

  lemma HexFits(value: nat)
    requires value < 0x1_0000_0000_0000_0000
    ensures |Numeral(16, value)| <= 16
  {
    assert Power(16, 16) == 0x1_0000_0000_0000_0000 by {
      assert Power(16, 4) == 0x1_0000;
      assert Power(16, 8) == 0x1_0000_0000;
      assert Power(16, 12) == 0x1_0000_0000_0000;
    }
    NumeralLength(16, value, 16);
  }

  method ConvertHex(buf: array<char>, at: nat, value: nat) returns (len: nat)
    requires value < 0x1_0000_0000_0000_0000 && at + MAX_NUMERIC_SIZE - 2 <= buf.Length
    modifies buf
    ensures 0 < len <= 16 && buf[at..at + len] == Numeral(16, value) && buf[at + len] == '\0'
    ensures forall j :: 0 <= j < at || at + len < j < buf.Length ==> buf[j] == old(buf[j])
  {
    HexFits(value);
    var i := value;
    var p := at;
    ghost var whole, written := Numeral(16, value), [];
    assert whole + Backwards([]) == whole;
    var again := true;
    while again
      invariant at <= p <= at + 16 && written == buf[at..p] && Converting(16, whole, i, written)
      invariant p == at ==> again
      invariant p > at ==> again == (i != 0)
      invariant forall j :: 0 <= j < at || p <= j < buf.Length ==> buf[j] == old(buf[j])
      decreases i, again
    {
      OneDigit(16, whole, i, written);
      var lsd := i % 16;
      HexDigit(lsd);
      i := i / 16;
      buf[p] := HEX_DIGITS[lsd];
      written := written + [buf[p]];
      p := p + 1;
      again := i != 0;
    }
    buf[p] := '\0';
    Reverse(buf, at, p);
    return p - at;
  }

  /** operator<< for the integer types: all of the numeral, or nothing. */
  method FormatInteger(buffer: FixedBuffer, v: int)
    requires buffer.Valid() && Is64Bit(v)
    modifies buffer, buffer.data
    ensures buffer.Valid()
    ensures buffer.data.Length - |old(buffer.Text())| >= 32 ==> buffer.Text() == old(buffer.Text()) + Decimal(v)
    ensures buffer.data.Length - |old(buffer.Text())| < 32 ==> buffer.Text() == old(buffer.Text())
  {
    if buffer.Avail() >= MAX_NUMERIC_SIZE {
      ghost var before, at := buffer.Text(), buffer.cur;
      var len := Convert(buffer.data, buffer.cur, v);
      Extended(buffer.data[..], before, at, len, Decimal(v));
      buffer.Add(len);
    }
  }

  lemma Extended(data: string, before: string, at: int, len: int, text: string)
    requires 0 <= at && 0 <= len && at + len <= |data|
    requires data[..at] == before && data[at..at + len] == text
    ensures data[..at + len] == before + text
  {
  }

  /** operator<< for pointers. */
  method FormatPointer(buffer: FixedBuffer, v: nat)
    requires buffer.Valid() && v < 0x1_0000_0000_0000_0000
    modifies buffer, buffer.data
    ensures buffer.Valid()
    ensures buffer.data.Length - |old(buffer.Text())| >= 32 ==>
      buffer.Text() == old(buffer.Text()) + "0x" + Numeral(16, v)
    ensures buffer.data.Length - |old(buffer.Text())| < 32 ==> buffer.Text() == old(buffer.Text())
  {
    if buffer.Avail() >= MAX_NUMERIC_SIZE {
      var data, at := buffer.data, buffer.cur;
      data[at] := '0';
      data[at + 1] := 'x';
      var len := ConvertHex(data, at + 2, v);
      assert data[..at + len + 2] == data[..at] + [data[at], data[at + 1]] + data[at + 2..at + 2 + len];
      buffer.Add(len + 2);
    }
  }
}
