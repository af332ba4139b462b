/** The number printers of lib/modern.c and kernel/dev/video.c and the decimal parser of lib/modern.c. */
module Numerals {
  import opened Common

  // ----- numerals -----

  /** The lower-case digit for `d`, as in itoa. */
  function LowDigit(d: nat): char
    requires d < 36
  {
    if d < 10 then ('0' as int + d) as char else ('a' as int + d - 10) as char
  }

  /** The upper-case digit for `d`, as in itos and convert. */
  function HighDigit(d: nat): char
    requires d < 36
  {
    if d < 10 then ('0' as int + d) as char else ('A' as int + d - 10) as char
  }

  /** The digits in order. */
  lemma DigitCharacters(d: nat)
    requires d < 36
    ensures LowDigit(d) == "0123456789abcdefghijklmnopqrstuvwxyz"[d]
    ensures HighDigit(d) == "0123456789ABCDEFGHIJKLMNOPQRSTUVWXYZ"[d]
  {
  }

  /** The value of a character as a digit in `base`; a character that is no such digit counts as zero, as in strtol. */
  function DigitValue(c: char, base: nat): nat
  {
    var v := if '0' <= c <= '9' then c as int - '0' as int
             else if 'a' <= c <= 'z' then c as int - 'a' as int + 10
             else if 'A' <= c <= 'Z' then c as int - 'A' as int + 10
             else base;
    if v < base then v else 0
  }

  /** Digits of `n`, most significant first. */
  function Digits(n: nat, base: nat): (ds: seq<nat>)
    requires base >= 2
    ensures ds != [] && forall i :: 0 <= i < |ds| ==> ds[i] < base
    decreases n
  {
    if n < base then [n] else
      QuotientFacts(n, base);
      Digits(n / base, base) + [n % base]
  }

  lemma QuotientFacts(n: nat, base: nat)
    requires base >= 2
    ensures n == n / base * base + n % base && n % base < base
    ensures n > 0 ==> n / base < n
  {
  }

  function Low(ds: seq<nat>): string
    requires forall i :: 0 <= i < |ds| ==> ds[i] < 36
  {
    seq(|ds|, i requires 0 <= i < |ds| => LowDigit(ds[i]))
  }

  function High(ds: seq<nat>): string
    requires forall i :: 0 <= i < |ds| ==> ds[i] < 36
  {
    seq(|ds|, i requires 0 <= i < |ds| => HighDigit(ds[i]))
  }

  /** The number a numeral denotes. */
  function Denoted(s: string, base: nat): nat
  {
    if s == [] then 0 else Denoted(s[..|s| - 1], base) * base + DigitValue(s[|s| - 1], base)
  }

  lemma {:induction false} DigitsDenote(n: nat, base: nat)
    requires 2 <= base <= 36
    ensures Denoted(Low(Digits(n, base)), base) == n
    ensures Denoted(High(Digits(n, base)), base) == n
    decreases n
  {
    var ds := Digits(n, base);
    if n < base {
      LastDigit([], n, base);
      assert [] + [n] == [n] == ds;
    } else {
      QuotientFacts(n, base);
      DigitsDenote(n / base, base);
      LastDigit(Digits(n / base, base), n % base, base);
    }
  }

  lemma LastDigit(ds: seq<nat>, d: nat, base: nat)
    requires base <= 36 && d < base && forall i :: 0 <= i < |ds| ==> ds[i] < base
    ensures Denoted(Low(ds + [d]), base) == Denoted(Low(ds), base) * base + d
    ensures Denoted(High(ds + [d]), base) == Denoted(High(ds), base) * base + d
  {
    var low, high := Low(ds + [d]), High(ds + [d]);
    assert low[..|ds|] == Low(ds) && high[..|ds|] == High(ds);
    DigitOf(d, base);
  }

  lemma DigitOf(d: nat, base: nat)
    requires d < base <= 36
    ensures DigitValue(LowDigit(d), base) == d && DigitValue(HighDigit(d), base) == d
  {
  }

  function Pow(base: nat, k: nat): nat
  {
    if k == 0 then 1 else base * Pow(base, k - 1)
  }

  /** A number has at most `k` digits exactly when it is below base^k. */
  lemma {:induction false} DigitCount(n: nat, base: nat, k: nat)
    requires base >= 2 && k >= 1
    ensures |Digits(n, base)| <= k <==> n < Pow(base, k)
    decreases k
  {
    if k == 1 {
      assert Pow(base, 1) == base * Pow(base, 0) == base;
    } else if n < base {
      PowAtLeast(base, k);
    } else {
      DigitCount(n / base, base, k - 1);
      DivideBound(n, base, Pow(base, k - 1));
    }
  }

  lemma {:induction false} PowAtLeast(base: nat, k: nat)
    requires base >= 2 && k >= 1
    ensures Pow(base, k) >= base
  {
    if k > 1 {
      PowAtLeast(base, k - 1);
    } else {
      assert Pow(base, 1) == base * Pow(base, 0) == base;
    }
  }

  lemma DivisionIs(n: nat, base: nat)
    requires base >= 1
    ensures n == base * (n / base) + n % base && n % base < base && n < base * (n / base + 1)
  {
  }

  lemma DivideBound(n: nat, base: nat, p: nat)
    requires base >= 1
    ensures n / base < p <==> n < base * p
  {
    var q, r := n / base, n % base;
    DivisionIs(n, base);
    if q < p {
      ProductGrows(base, q + 1, base, p);
    } else {
      ProductGrows(base, p, base, q);
    }
  }

  lemma DigitsUnfold(n: nat, base: nat)
    requires base >= 2
    ensures Digits(n, base) == if n < base then [n] else Digits(n / base, base) + [n % base]
    ensures n >= base <==> n / base != 0
    ensures n < base ==> n % base == n
  {
  }

  /** 32 digits hold every 32-bit number in every base. */
  lemma AtMost32(n: nat, base: nat)
    requires n < TWO32 && base >= 2
    ensures |Digits(n, base)| <= 32
  {
    PowMonotonic(base, 32);
    assert Pow(2, 32) == TWO32 by {
      assert Pow(2, 8) == 256;
      PowSum(2, 8, 8);
      PowSum(2, 16, 16);
    }
    DigitCount(n, base, 32);
  }

  lemma PowStep(base: nat, k: nat)
    ensures Pow(base, 0) == 1 && Pow(base, k + 1) == base * Pow(base, k)
  {
  }

  lemma Associate(a: nat, b: nat, c: nat)
    ensures a * (b * c) == (a * b) * c
  {
  }

  lemma FactorGrows(a: nat, b: nat, c: nat)
    requires a <= b
    ensures a * c <= b * c && c * a <= c * b
  {
    assert b * c == a * c + (b - a) * c;
  }

  lemma ProductGrows(a: nat, b: nat, c: nat, d: nat)
    requires a <= c && b <= d
    ensures a * b <= c * d
  {
    FactorGrows(a, c, b);
    FactorGrows(b, d, c);
  }

  lemma {:induction false} PowMonotonic(base: nat, k: nat)
    requires base >= 2
    ensures Pow(base, k) >= Pow(2, k)
  {
    hide Pow;
    if k == 0 {
      PowStep(base, 0);
      PowStep(2, 0);
    } else {
      PowMonotonic(base, k - 1);
      PowStep(base, k - 1);
      PowStep(2, k - 1);
      ProductGrows(2, Pow(2, k - 1), base, Pow(base, k - 1));
    }
  }

  lemma {:induction false} PowSum(base: nat, j: nat, k: nat)
    ensures Pow(base, j + k) == Pow(base, j) * Pow(base, k)
  {
    hide Pow;
    if j == 0 {
      PowStep(base, 0);
    } else {
      PowSum(base, j - 1, k);
      PowStep(base, j - 1);
      PowStep(base, j - 1 + k);
      Associate(base, Pow(base, j - 1), Pow(base, k));
    }
  }

  // ----- itos and convert: digits are written backwards into a static buffer -----

  /** Writes the digits of `num` so that they end just before `end`, and returns where they start. */
  method PutDigits(buffer: array<char>, end: nat, num: nat, base: nat) returns (ptr: nat)
    requires 2 <= base <= 16 && num < TWO32 && 32 <= end <= buffer.Length
    modifies buffer
    ensures ptr + |Digits(num, base)| == end && buffer[ptr..end] == High(Digits(num, base))
    ensures forall i :: 0 <= i < buffer.Length && !(ptr <= i < end) ==> buffer[i] == old(buffer[i])
  {
    AtMost32(num, base);
    ghost var all := Digits(num, base);
    ptr := end;
    var n: nat := num;
    ghost var left := all;
    while true
      invariant end - |all| <= ptr - |left| && |left| <= ptr <= end && ptr - |left| == end - |all|
      invariant left == Digits(n, base) && left <= all
      invariant forall i :: ptr <= i < end ==> buffer[i] == HighDigit(all[i - (end - |all|)])
      invariant forall i :: 0 <= i < buffer.Length && !(ptr <= i < end) ==> buffer[i] == old(buffer[i])
      decreases n
    {
      DigitsUnfold(n, base);
      QuotientFacts(n, base);
      ptr := ptr - 1;
      buffer[ptr] := HighDigit(n % base);
      assert left[|left| - 1] == n % base;
      n := n / base;
      if n == 0 {
        break;
      }
      left := left[..|left| - 1];
    }
  }

  /** lib/modern.c: the numeral of `num` in `base`, as a zero-terminated string inside the buffer. */
  method Itos(buffer: array<char>, num: nat, base: nat) returns (ptr: nat)
    requires buffer.Length == 50 && 2 <= base <= 16 && num < TWO32
    modifies buffer
    ensures ptr + |Digits(num, base)| == 49 && buffer[ptr..49] == High(Digits(num, base)) && buffer[49] == '\0'
  {
    buffer[49] := '\0';
    ptr := PutDigits(buffer, 49, num, base);
  }

  /** kernel/dev/video.c: the same, but zero is written at the front of a cleared buffer and three zeroes follow the digits. */
  method Convert(buffer: array<char>, num: nat, base: nat) returns (ptr: nat)
    requires buffer.Length == 50 && 2 <= base <= 16 && num < TWO32
    modifies buffer
    ensures ptr + |Digits(num, base)| < 50
    ensures buffer[ptr..ptr + |Digits(num, base)|] == High(Digits(num, base))
    ensures buffer[ptr + |Digits(num, base)|] == '\0'
  {
    for i := 0 to 50
      invariant forall k :: 0 <= k < i ==> buffer[k] == '\0'
    {
      buffer[i] := '\0';
    }
    if num == 0 {
      buffer[0] := '0';
      return 0;
    }
    buffer[48], buffer[47], buffer[46] := '\0', '\0', '\0';
    ptr := PutDigits(buffer, 46, num, base);
  }

  // ----- strtol, base 10 -----

  lemma {:induction false} DecimalFront(s: string)
    requires s != []
    ensures Denoted(s, 10) == DigitValue(s[0], 10) * Pow(10, |s| - 1) + Denoted(s[1..], 10)
  {
    var n := |s| - 1;
    if n > 0 {
      DecimalFront(s[..n]);
      assert s[..n][1..] == s[1..][..n - 1];
      assert Pow(10, n) == 10 * Pow(10, n - 1);
      Distribute(DigitValue(s[0], 10), Pow(10, n - 1));
    } else {
      assert s[..0] == [] && Pow(10, 0) == 1;
    }
  }

  lemma Distribute(d: nat, p: nat)
    ensures (d * p) * 10 == d * (10 * p)
  {
  }

  /** Adds up digit times power from the right; nine characters keep every value inside 32 bits. */
  method StrtolDecimal(str: string) returns (result: int)
    requires |str| <= 9
    ensures result == Denoted(str, 10)
  {
    assert Denoted(str[|str|..], 10) == 0 && Pow(10, 0) == 1;
    hide Denoted, Pow;
    result := 0;
    var power := 1;
    var i := |str| - 1;
    while i > -1
      invariant -1 <= i < |str|
      invariant result == Denoted(str[i + 1..], 10) && power == Pow(10, |str| - 1 - i)
      invariant result < power <= 1_000_000_000
    {
      DecimalStep(str, i, power);
      PowerBound(|str| - 1 - i);
      var deze := str[i];
      if '0' <= deze <= '9' {
        var t := deze as int - '0' as int;
        result := result + t * power;
      }
      power := power * 10;
      i := i - 1;
    }
    assert str[0..] == str;
  }

  lemma DecimalStep(str: string, i: nat, power: nat)
    requires i < |str| && power == Pow(10, |str| - 1 - i)
    ensures Denoted(str[i..], 10) == DigitValue(str[i], 10) * power + Denoted(str[i + 1..], 10)
    ensures DigitValue(str[i], 10) * power <= 9 * power
  {
    hide Denoted, Pow;
    DecimalFront(str[i..]);
    assert str[i..][1..] == str[i + 1..];
    DigitTimes(DigitValue(str[i], 10), power);
  }

  lemma DigitTimes(d: nat, p: nat)
    requires d <= 9
    ensures d * p <= 9 * p
  {
  }

  lemma PowerBound(k: nat)
    requires k <= 8
    ensures Pow(10, k + 1) == 10 * Pow(10, k) <= 1_000_000_000
  {
    assert Pow(10, 3) == 1000;
    PowSum(10, 3, 3);
    PowSum(10, 6, 3);
    PowGrows(k + 1, 9);
  }

  lemma {:induction false} PowGrows(j: nat, k: nat)
    requires j <= k
    ensures Pow(10, j) <= Pow(10, k)
    decreases k
  {
    if j < k {
      PowGrows(j, k - 1);
    }
  }

  /** Parsing what itos prints gives the number back, for every number of at most nine digits. */
  method PrintThenParse(buffer: array<char>, n: nat) returns (m: int)
    requires buffer.Length == 50 && n < 1_000_000_000
    modifies buffer
    ensures m == n
  {
    DigitCount(n, 10, 9);
    PowerBound(8);
    assert Pow(10, 9) == 1_000_000_000 by {
      assert Pow(10, 3) == 1000;
      PowSum(10, 3, 3);
      PowSum(10, 6, 3);
    }
    var ptr := Itos(buffer, n, 10);
    m := StrtolDecimal(buffer[ptr..49]);
    DigitsDenote(n, 10);
  }

  // ----- itoa: digits are written forwards and then reversed in place -----

  /** C's remainder and quotient truncate towards zero. */
  function TruncMod(value: int, base: nat): int
    requires base > 0
  {
    if value >= 0 then value % base else -((-value) % base)
  }

  function TruncDiv(value: int, base: nat): int
    requires base > 0
  {
    if value >= 0 then value / base else -((-value) / base)
  }

  function Abs(value: int): nat
  {
    if value < 0 then -value else value
  }

  /** The 71-character table of itoa: position 35 + r holds the digit for |r|. */
  function TableDigit(r: int): char
    requires -36 < r < 36
  {
    LowDigit(Abs(r))
  }

  /** What itoa prints: a sign only in base 10. */
  function Printed(value: int, base: nat): string
    requires 2 <= base <= 36
  {
    (if value < 0 && base == 10 then ['-'] else []) + Low(Digits(Abs(value), base))
  }

  /** Truncation makes the remainder of a negative value the negated remainder of its absolute value. */
  lemma TruncOfAbs(v: int, base: nat)
    requires base > 0
    ensures TruncMod(v, base) < base && TruncMod(v, base) + base > 0
    ensures var a: int := Abs(v);
            Abs(TruncMod(v, base)) == a % base && Abs(TruncDiv(v, base)) == a / base && (TruncDiv(v, base) == 0 <==> a / base == 0)
  {
    QuotientIsNat(Abs(v), base);
  }

  lemma QuotientIsNat(a: int, base: nat)
    requires base > 0 && a >= 0
    ensures a / base >= 0
  {
  }

  method Itoa(value: int, str: array<char>, base: int)
    requires -0x8000_0000 <= value < 0x8000_0000
    requires str.Length >= 1 && (2 <= base <= 36 ==> str.Length > |Printed(value, base)|)
    modifies str
    ensures !(2 <= base <= 36) ==> str[0] == '\0'
    ensures 2 <= base <= 36 ==>
              var s := Printed(value, base);
              str[..|s|] == s && str[|s|] == '\0' && forall i :: |s| < i < str.Length ==> str[i] == old(str[i])
  {
    if base < 2 || base > 36 {
      str[0] := '\0';
      return;
    }
    var ptr := 0;
    if value < 0 && base == 10 {
      str[0] := '-';
      ptr := 1;
    }
    var low := ptr;
    ptr := WriteReversed(value, str, low, base);
    str[ptr] := '\0';
    ReverseInPlace(str, low, ptr);
    ghost var s := Printed(value, base);
    assert |s| == ptr;
  }

  /** The digits of |value|, least significant first, from `low` on. */
  method WriteReversed(value: int, str: array<char>, low: nat, base: nat) returns (ptr: nat)
    requires 2 <= base <= 36 && low + |Digits(Abs(value), base)| < str.Length
    modifies str
    ensures ptr == low + |Digits(Abs(value), base)|
    ensures forall i :: low <= i < ptr ==> str[i] == LowDigit(Digits(Abs(value), base)[ptr - 1 - i])
    ensures forall i :: 0 <= i < str.Length && !(low <= i < ptr) ==> str[i] == old(str[i])
  {
    ghost var all := Digits(Abs(value), base);
    ghost var left := all;
    var v := value;
    ptr := low;
    while true
      invariant left == Digits(Abs(v), base) && left <= all && ptr == low + |all| - |left|
      invariant forall i :: low <= i < ptr ==> str[i] == LowDigit(all[low + |all| - 1 - i])
      invariant forall i :: 0 <= i < str.Length && !(low <= i < ptr) ==> str[i] == old(str[i])
      decreases Abs(v)
    {
      hide Digits, LowDigit, TruncMod, TruncDiv;
      DigitsUnfold(Abs(v), base);
      QuotientFacts(Abs(v), base);
      TruncOfAbs(v, base);
      assert left[|left| - 1] == Abs(v) % base;
      str[ptr] := TableDigit(TruncMod(v, base));
      ptr := ptr + 1;
      v := TruncDiv(v, base);
      if v == 0 {
        break;
      }
      left := left[..|left| - 1];
    }
  }

  /** Swaps from both ends of [low, end) towards the middle. */
  method ReverseInPlace(str: array<char>, low: nat, end: nat)
    requires low < end <= str.Length
    modifies str
    ensures forall i :: low <= i < end ==> str[i] == old(str[low + end - 1 - i])
    ensures forall i :: 0 <= i < str.Length && !(low <= i < end) ==> str[i] == old(str[i])
  {
    var l, p := low, end - 1;
    while l < p
      invariant low <= l <= p + 1 <= end && l + p == low + end - 1
      invariant forall i :: low <= i < end && !(l <= i <= p) ==> str[i] == old(str[low + end - 1 - i])
      invariant forall i :: l <= i <= p ==> str[i] == old(str[i])
      invariant forall i :: 0 <= i < str.Length && !(low <= i < end) ==> str[i] == old(str[i])
    {
      var tmp := str[l];
      str[l] := str[p];
      l := l + 1;
      str[p] := tmp;
      p := p - 1;
    }
  }

  /** A decimal numeral with an optional minus sign. */
  function SignedDecimal(s: string): int
  {
    if s != [] && s[0] == '-' then -(Denoted(s[1..], 10) as int) else Denoted(s, 10)
  }

  /** In base 10 the printed numeral denotes the value, for every 32-bit value including the smallest. */
  lemma PrintedDenotes(value: int)
    ensures SignedDecimal(Printed(value, 10)) == value
  {
    hide Digits, Denoted;
    DigitsDenote(Abs(value), 10);
    var ds := Low(Digits(Abs(value), 10));
    if value < 0 {
      assert Printed(value, 10)[1..] == ds;
    } else {
      assert Printed(value, 10) == ds;
      assert ds[0] != '-';
    }
  }

  /** The `int` that hexdump's argument is converted to. */
  function AsInt(a: nat): int
    requires a < TWO32
  {
    if a < 0x8000_0000 then a else a - TWO32
  }

  /** hexdump: ten bytes always suffice, but the numeral denotes the argument only up to 2^31, since base 16 has no sign. */
  lemma HexdumpFitsAndDenotes(a: nat)
    requires a < TWO32
    ensures |Printed(AsInt(a), 16)| + 1 <= 9
    ensures Denoted(Printed(AsInt(a), 16), 16) == a <==> a <= 0x8000_0000
  {
    var v := Abs(AsInt(a));
    DigitsDenote(v, 16);
    assert [] + Low(Digits(v, 16)) == Low(Digits(v, 16));
    assert Pow(16, 2) == 256;
    PowSum(16, 2, 2);
    PowSum(16, 4, 4);
    DigitCount(v, 16, 8);
  }

  method Hexdump(a: nat) returns (msg: array<char>)
    requires a < TWO32
    ensures fresh(msg) && msg.Length == 10
    ensures |Printed(AsInt(a), 16)| < 10 && msg[..|Printed(AsInt(a), 16)|] == Printed(AsInt(a), 16) && msg[|Printed(AsInt(a), 16)|] == '\0'
  {
    msg := new char[10](_ => '\0');
    HexdumpFitsAndDenotes(a);
    Itoa(AsInt(a), msg, 16);
  }
}
