/** Decimal numerals and the string helpers the rest of the model shares:
    powers of ten, digit strings and their values, padding, and the trimming
    and case mapping of Go's `strings` package. */
module Numerals {

  datatype Option<+T> = None | Some(value: T)

  lemma ConcatAssoc(a: string, b: string, c: string)
    ensures (a + b) + c == a + (b + c)
  {
  }

  // ------------------------------------------------------- scaling by ten

  /** x times ten to the k. */
  function Scale(x: int, k: nat): (y: int)
    ensures (x > 0 ==> y > 0) && (x == 0 ==> y == 0) && (x < 0 ==> y < 0)
  {
    if k == 0 then x else 10 * Scale(x, k - 1)
  }

  function Pow10(k: nat): nat { Scale(1, k) }

  lemma {:induction false} ScaleAdd(x: int, a: nat, b: nat)
    ensures Scale(Scale(x, a), b) == Scale(x, a + b)
  {
    if b > 0 {
      ScaleAdd(x, a, b - 1);
    }
  }

  lemma {:induction false} ScaleLinear(x: int, y: int, k: nat)
    ensures Scale(x + y, k) == Scale(x, k) + Scale(y, k)
    ensures Scale(x - y, k) == Scale(x, k) - Scale(y, k)
  {
    if k > 0 {
      ScaleLinear(x, y, k - 1);
    }
  }

  lemma {:induction false} ScaleOrder(x: int, y: int, k: nat)
    ensures x < y <==> Scale(x, k) < Scale(y, k)
    ensures x == y <==> Scale(x, k) == Scale(y, k)
  {
    if k > 0 {
      ScaleOrder(x, y, k - 1);
    }
  }

  /** The number left when the last `p` decimal digits of `m` are dropped. */
  function HighPart(m: nat, p: nat): nat
  {
    if p == 0 then m else HighPart(m / 10, p - 1)
  }

  /** Dropping `p` digits divides by 10^p. */
  lemma {:induction false} HighPartBounds(m: nat, p: nat)
    ensures Scale(HighPart(m, p), p) <= m < Scale(HighPart(m, p) + 1, p)
  {
    if p > 0 {
      HighPartBounds(m / 10, p - 1);
    }
  }

  // --------------------------------------------------------------- numerals

  predicate IsDigit(c: char) { '0' <= c <= '9' }

  predicate AllDigits(s: string) { forall i :: 0 <= i < |s| ==> IsDigit(s[i]) }

  function DigitValue(c: char): (d: nat)
    requires IsDigit(c)
    ensures d < 10
  {
    c as int - '0' as int
  }

  function DigitChar(d: nat): (c: char)
    requires d < 10
    ensures IsDigit(c) && DigitValue(c) == d
  {
    '0' + d as char
  }

  function ValueOf(s: string): nat
    requires AllDigits(s)
  {
    if s == "" then 0 else 10 * ValueOf(s[..|s| - 1]) + DigitValue(s[|s| - 1])
  }

  /** The numeral `big.Int.String` and `strconv` print: no leading zero, "0" for zero. */
  function NatToString(n: nat): (s: string)
    ensures AllDigits(s) && |s| >= 1
  {
    if n < 10 then [DigitChar(n)] else NatToString(n / 10) + [DigitChar(n % 10)]
  }

  function Zeros(k: nat): (s: string)
    ensures |s| == k && AllDigits(s)
  {
    seq(k, i => '0')
  }

  /** The last `k` digits of `n`, padded with zeros on the left. */
  function Fixed(n: nat, k: nat): (s: string)
    ensures AllDigits(s) && |s| == k
  {
    if k == 0 then "" else Fixed(n / 10, k - 1) + [DigitChar(n % 10)]
  }

  lemma {:induction false} ValueConcat(a: string, b: string)
    requires AllDigits(a) && AllDigits(b)
    ensures AllDigits(a + b)
    ensures ValueOf(a + b) == Scale(ValueOf(a), |b|) + ValueOf(b)
  {
    if b == "" {
      assert a + b == a;
    } else {
      ValueConcat(a, b[..|b| - 1]);
      assert (a + b)[..|a + b| - 1] == a + b[..|b| - 1];
    }
  }

  lemma {:induction false} ValueBound(s: string)
    requires AllDigits(s)
    ensures ValueOf(s) < Pow10(|s|)
  {
    if s != "" {
      ValueBound(s[..|s| - 1]);
    }
  }

  lemma {:induction false} NatToStringValue(n: nat)
    ensures ValueOf(NatToString(n)) == n
  {
    if n >= 10 {
      NatToStringValue(n / 10);
      var s := NatToString(n);
      assert s[..|s| - 1] == NatToString(n / 10);
    }
  }

  lemma {:induction false} NatToStringLeading(n: nat)
    ensures n > 0 ==> NatToString(n)[0] != '0'
    ensures n == 0 ==> NatToString(n) == "0"
  {
    if n >= 10 {
      NatToStringLeading(n / 10);
    }
  }

  /** A numeral has at most k digits exactly when its value is below 10^k. */
  lemma {:induction false} NatToStringLength(n: nat, k: nat)
    requires k >= 1
    ensures |NatToString(n)| <= k <==> n < Pow10(k)
  {
    if n < 10 {
      ScaleOrder(0, 1, k - 1);
    } else if k == 1 {
    } else {
      NatToStringLength(n / 10, k - 1);
    }
  }

  /** A digit string without a superfluous leading zero is the numeral of its value. */
  lemma {:induction false} NatToStringOfValue(s: string)
    requires AllDigits(s) && |s| >= 1 && (|s| > 1 ==> s[0] != '0')
    ensures NatToString(ValueOf(s)) == s
    ensures s[0] != '0' ==> ValueOf(s) > 0
  {
    var s' := s[..|s| - 1];
    if |s| > 1 {
      NatToStringOfValue(s');
      assert ValueOf(s) / 10 == ValueOf(s') && ValueOf(s) % 10 == DigitValue(s[|s| - 1]);
      assert s == s' + [s[|s| - 1]];
    } else {
      assert s' == "";
    }
  }

  /** Cutting a numeral `p` digits from the right. */
  lemma {:induction false} NatToStringSplit(m: nat, p: nat)
    requires |NatToString(m)| > p
    ensures var s := NatToString(m);
            s[..|s| - p] == NatToString(HighPart(m, p)) && s[|s| - p..] == Fixed(m, p)
  {
    if p > 0 {
      var s, t := NatToString(m), NatToString(m / 10);
      NatToStringSplit(m / 10, p - 1);
      assert s == t + [DigitChar(m % 10)];
      assert s[..|s| - p] == t[..|t| - (p - 1)];
      assert s[|s| - p..] == t[|t| - (p - 1)..] + [DigitChar(m % 10)];
    }
  }

  /** Padding a short numeral on the left gives its fixed-width form. */
  lemma {:induction false} NatToStringPad(m: nat, p: nat)
    requires |NatToString(m)| <= p
    ensures HighPart(m, p) == 0
    ensures Zeros(p - |NatToString(m)|) + NatToString(m) == Fixed(m, p)
  {
    if m < 10 {
      FixedZero(p - 1);
    } else {
      NatToStringPad(m / 10, p - 1);
    }
  }

  lemma {:induction false} FixedZero(p: nat)
    ensures Fixed(0, p) == Zeros(p) && HighPart(0, p) == 0
  {
    if p > 0 {
      FixedZero(p - 1);
    }
  }

  /** The two parts of a number, written side by side, read as the number. */
  lemma {:induction false} JoinedValue(m: nat, p: nat)
    ensures ValueOf(NatToString(HighPart(m, p)) + Fixed(m, p)) == m
  {
    var s := NatToString(HighPart(m, p)) + Fixed(m, p);
    if p == 0 {
      assert s == NatToString(m);
      NatToStringValue(m);
    } else {
      JoinedValue(m / 10, p - 1);
      assert s[..|s| - 1] == NatToString(HighPart(m / 10, p - 1)) + Fixed(m / 10, p - 1);
    }
  }

  lemma {:induction false} TrailingZerosValue(s: string, k: nat)
    requires AllDigits(s)
    ensures AllDigits(s + Zeros(k)) && ValueOf(s + Zeros(k)) == Scale(ValueOf(s), k)
  {
    if k == 0 {
      assert s + Zeros(k) == s;
    } else {
      TrailingZerosValue(s, k - 1);
      assert (s + Zeros(k))[..|s| + k - 1] == s + Zeros(k - 1);
    }
  }

  // ------------------------------------------------------- signed integers

  function Signed(negative: bool, v: int): int { if negative then -v else v }

  function SignText(negative: bool): string { if negative then "-" else "" }

  function IntToString(n: int): string
  {
    if n < 0 then "-" + NatToString(-n) else NatToString(n)
  }

  /** An optional sign followed by at least one digit, as `strconv.ParseInt` and
      `big.Int.SetString` read base ten. */
  function ParseInt(s: string): Option<int>
  {
    var body := if |s| > 0 && (s[0] == '+' || s[0] == '-') then s[1..] else s;
    if body == "" || !AllDigits(body) then None
    else Some(Signed(s[0] == '-', ValueOf(body)))
  }

  lemma ParseIntOfDigits(negative: bool, q: string)
    requires AllDigits(q) && |q| >= 1
    ensures ParseInt(SignText(negative) + q) == Some(Signed(negative, ValueOf(q)))
  {
    var s := SignText(negative) + q;
    if negative {
      assert s[1..] == q && s[0] == '-';
    } else {
      assert s == q && IsDigit(s[0]);
    }
  }

  lemma ParseIntToString(n: int)
    ensures ParseInt(IntToString(n)) == Some(n)
  {
    var m: nat := if n < 0 then -n else n;
    NatToStringValue(m);
    ParseIntOfDigits(n < 0, NatToString(m));
    assert "" + NatToString(m) == NatToString(m);
  }

  // --------------------------------------------------- strings of the source

  /** Unicode White_Space, what `unicode.IsSpace` accepts. */
  predicate IsSpace(c: char)
  {
    var u := c as int;
    0x09 <= u <= 0x0D || u == 0x20 || u == 0x85 || u == 0xA0 || u == 0x1680 ||
    0x2000 <= u <= 0x200A || u == 0x2028 || u == 0x2029 || u == 0x202F || u == 0x205F || u == 0x3000
  }

  function TrimLeft(s: string): (t: string)
    ensures |t| <= |s| && t == s[|s| - |t|..]
    ensures t != "" ==> !IsSpace(t[0])
  {
    if s != "" && IsSpace(s[0]) then TrimLeft(s[1..]) else s
  }

  function TrimRight(s: string): (t: string)
    ensures |t| <= |s| && t == s[..|t|]
    ensures t != "" ==> !IsSpace(t[|t| - 1])
  {
    if s != "" && IsSpace(s[|s| - 1]) then TrimRight(s[..|s| - 1]) else s
  }

  predicate Trimmed(s: string) { s == "" || (!IsSpace(s[0]) && !IsSpace(s[|s| - 1])) }

  /** `strings.TrimSpace` */
  function TrimSpace(s: string): (t: string)
    ensures Trimmed(t)
    ensures Trimmed(s) ==> t == s
  {
    TrimRight(TrimLeft(s))
  }

  /** `unicode.ToLower`, exact on every character whose lower case is an ASCII letter;
      the dotted capital I (U+0130) and the Kelvin sign (U+212A) are the two beyond ASCII. */
  function LowerChar(c: char): char
  {
    if 'A' <= c <= 'Z' then c + 32 as char
    else if c == '\U{0130}' then 'i'
    else if c == '\U{212A}' then 'k'
    else c
  }

  function ToLower(s: string): (t: string)
    ensures |t| == |s|
  {
    seq(|s|, i requires 0 <= i < |s| => LowerChar(s[i]))
  }

  /** `unicode.ToUpper`, exact on every character whose upper case is an ASCII letter;
      the dotless i (U+0131) and the long s (U+017F) are the two beyond ASCII. */
  function UpperChar(c: char): char
  {
    if 'a' <= c <= 'z' then c - 32 as char
    else if c == '\U{0131}' then 'I'
    else if c == '\U{017F}' then 'S'
    else c
  }

  function ToUpper(s: string): (t: string)
    ensures |t| == |s|
  {
    seq(|s|, i requires 0 <= i < |s| => UpperChar(s[i]))
  }

  predicate AllSpace(s: string) { forall i :: 0 <= i < |s| ==> IsSpace(s[i]) }

  lemma {:induction false} TrimLeftOf(l: string, t: string)
    requires AllSpace(l) && (t == "" || !IsSpace(t[0]))
    ensures TrimLeft(l + t) == t
  {
    hide IsSpace;
    if l == "" {
      assert l + t == t;
    } else {
      assert (l + t)[1..] == l[1..] + t;
      TrimLeftOf(l[1..], t);
    }
  }

  lemma {:induction false} TrimRightOf(t: string, r: string)
    requires AllSpace(r) && (t == "" || !IsSpace(t[|t| - 1]))
    ensures TrimRight(t + r) == t
  {
    hide IsSpace;
    if r == "" {
      assert t + r == t;
    } else {
      assert (t + r)[..|t + r| - 1] == t + r[..|r| - 1];
      TrimRightOf(t, r[..|r| - 1]);
    }
  }

  /** White space around a trimmed text is what trimming takes away. */
  lemma TrimSpaceOf(l: string, t: string, r: string)
    requires AllSpace(l) && AllSpace(r) && Trimmed(t)
    ensures TrimSpace(l + t + r) == t
  {
    hide IsSpace;
    if t == "" {
      assert l + t + r == (l + r) + "";
      TrimLeftOf(l + r, "");
      assert TrimRight("") == "";
    } else {
      assert l + t + r == l + (t + r) && (t + r)[0] == t[0];
      TrimLeftOf(l, t + r);
      TrimRightOf(t, r);
    }
  }

  /** A character in either case of a letter; i and k have one more form beyond ASCII. */
  predicate EitherCase(c: char, lower: char)
  {
    c == lower || ('A' <= c <= 'Z' && c as int + 32 == lower as int) || (c == '\U{0130}' && lower == 'i') ||
    (c == '\U{212A}' && lower == 'k')
  }

  /** Lower-casing gives a word of small letters exactly for its spellings in either case. */
  lemma LowerExactly(s: string, word: string)
    requires forall i :: 0 <= i < |word| ==> 'a' <= word[i] <= 'z'
    ensures ToLower(s) == word <==> |s| == |word| && forall i :: 0 <= i < |s| ==> EitherCase(s[i], word[i])
  {
    hide LowerChar, EitherCase;
    forall i | 0 <= i < |s| && |s| == |word| ensures LowerChar(s[i]) == word[i] <==> EitherCase(s[i], word[i]) {
      LowerOfChar(s[i], word[i]);
    }
    if ToLower(s) == word {
      assert forall i :: 0 <= i < |s| ==> ToLower(s)[i] == LowerChar(s[i]);
    }
  }

  lemma LowerOfChar(c: char, lower: char)
    requires 'a' <= lower <= 'z'
    ensures LowerChar(c) == lower <==> EitherCase(c, lower)
  {
  }

  /** A character in either case of a capital; I and S have one more form beyond ASCII. */
  predicate EitherCapital(c: char, upper: char)
  {
    c == upper || ('a' <= c <= 'z' && c as int == upper as int + 32) || (c == '\U{0131}' && upper == 'I') ||
    (c == '\U{017F}' && upper == 'S')
  }

  /** The same for capitals. */
  lemma UpperExactly(s: string, word: string)
    requires forall i :: 0 <= i < |word| ==> 'A' <= word[i] <= 'Z'
    ensures ToUpper(s) == word <==> |s| == |word| && forall i :: 0 <= i < |s| ==> EitherCapital(s[i], word[i])
  {
    hide UpperChar, EitherCapital;
    forall i | 0 <= i < |s| && |s| == |word| ensures UpperChar(s[i]) == word[i] <==> EitherCapital(s[i], word[i]) {
      UpperOfChar(s[i], word[i]);
    }
    if ToUpper(s) == word {
      assert forall i :: 0 <= i < |s| ==> ToUpper(s)[i] == UpperChar(s[i]);
    }
  }

  lemma UpperOfChar(c: char, upper: char)
    requires 'A' <= upper <= 'Z'
    ensures UpperChar(c) == upper <==> EitherCapital(c, upper)
  {
  }

  predicate IsAscii(c: char) { c as int < 128 }

  function Utf8Length(c: char): nat
  {
    var u := c as int;
    if u < 0x80 then 1 else if u < 0x800 then 2 else if u < 0x1_0000 then 3 else 4
  }

  /** The bytes of a character in UTF-8. */
  function Utf8(c: char): seq<int>
  {
    var u := c as int;
    if u < 0x80 then [u]
    else if u < 0x800 then [0xC0 + u / 64, 0x80 + u % 64]
    else if u < 0x1_0000 then [0xE0 + u / 64 / 64, 0x80 + u / 64 % 64, 0x80 + u % 64]
    else [0xF0 + u / 64 / 64 / 64, 0x80 + u / 64 / 64 % 64, 0x80 + u / 64 % 64, 0x80 + u % 64]
  }

  /** The first byte says how many there are; the others carry six bits each. */
  function FromUtf8(b: seq<int>): int
    requires |b| > 0
  {
    if b[0] < 0x80 then b[0]
    else if b[0] < 0xE0 && |b| >= 2 then (b[0] - 0xC0) * 64 + (b[1] - 0x80)
    else if b[0] < 0xF0 && |b| >= 3 then ((b[0] - 0xE0) * 64 + (b[1] - 0x80)) * 64 + (b[2] - 0x80)
    else if |b| >= 4 then (((b[0] - 0xF0) * 64 + (b[1] - 0x80)) * 64 + (b[2] - 0x80)) * 64 + (b[3] - 0x80)
    else 0
  }

  /** They are as many as counted, and give the character back. */
  lemma Utf8Exactly(c: char)
    ensures |Utf8(c)| == Utf8Length(c) && FromUtf8(Utf8(c)) == c as int
    ensures forall i :: 0 <= i < |Utf8(c)| ==> 0 <= Utf8(c)[i] < 256
  {
    var u := c as int;
    SixBits(u);
    SixBits(u / 64);
    SixBits(u / 64 / 64);
  }

  lemma SixBits(x: int)
    requires x >= 0
    ensures x == x / 64 * 64 + x % 64 && 0 <= x % 64 < 64 && 0 <= x / 64
    ensures x < 0x800 ==> x / 64 < 32
    ensures x < 0x400 ==> x / 64 < 16
    ensures x < 0x4400 ==> x / 64 < 0x110
    ensures x < 0x11_0000 ==> x / 64 < 0x4400
    ensures x < 0x1_0000 ==> x / 64 < 0x400
    ensures x < 0x110 ==> x / 64 < 5
  {
  }

  /** Go's `len` counts bytes. */
  function ByteLength(s: string): nat
  {
    if s == "" then 0 else ByteLength(s[..|s| - 1]) + Utf8Length(s[|s| - 1])
  }

  lemma {:induction false} AsciiByteLength(s: string)
    requires forall i :: 0 <= i < |s| ==> IsAscii(s[i])
    ensures ByteLength(s) == |s|
  {
    if s != "" {
      AsciiByteLength(s[..|s| - 1]);
    }
  }

  // ------------------------------------------------------------- calendar

  /** Days from 1 January of year 1 to 1 January of a year of the Gregorian calendar. */
  function DaysBefore(year: int): int
  {
    var y := year - 1;
    365 * y + y / 4 - y / 100 + y / 400
  }

  // ------------------------------------------------------------- division

  lemma SmallProduct(w: int, d: int)
    requires -w < w * d < w
    ensures d == 0
  {
  }

  /** Quotient and remainder are the only ones. */
  lemma DivisionUnique(x: int, w: int, q: int, r: int)
    requires 0 <= r < w && x == w * q + r
    ensures x / w == q && x % w == r
  {
    var d := q - x / w;
    assert w * d == x % w - r;
    SmallProduct(w, d);
  }
}
