/** The two printers of amounts shown to people: native chain fees
    (common/utils/web3_fee.go) and notification amounts (pkg/notify/address_privacy.go). */
module FeeDisplay {
  import opened Numerals
  import opened Decimals
  import opened Amounts

  // ------------------------------------------------------------- the code

  function FormatAmount(amount: string): string
  {
    var s := TrimSpace(amount);
    if s == "" then "0"
    else
      match NewFromString(s)
      case None => s
      case Some(d) => StripFraction(ToString(d))
  }

  function StripFraction(s: string): string
  {
    var k := IndexWhere(s, IsDot);
    if k == |s| then s
    else
      var frac := TrimZeros(s[k + 1..]);
      if frac == "" then s[..k] else s[..k] + "." + frac
  }

  /** `big.Int.Div` by 10^k: rounds down, also below zero. */
  function FloorDrop(m: int, k: nat): int
    decreases k
  {
    if k == 0 then m else FloorDrop(m / 10, k - 1)
  }

  lemma {:induction false} FloorDropBounds(m: int, k: nat)
    decreases k
    ensures Scale(FloorDrop(m, k), k) <= m < Scale(FloorDrop(m, k) + 1, k)
    ensures m >= 0 ==> FloorDrop(m, k) == HighPart(m, k)
  {
    if k > 0 {
      FloorDropBounds(m / 10, k - 1);
    }
  }

  function FormatAmountFromRawInt(raw: int, decimals: int): string
  {
    if raw == 0 then "0"
    else if decimals <= 0 then IntToString(raw)
    else
      var intPart := FloorDrop(raw, decimals);
      var rem := raw - Scale(intPart, decimals);
      if rem == 0 then IntToString(intPart)
      else
        var remStr := IntToString(rem);
        var padded := if |remStr| < decimals then Zeros(decimals - |remStr|) + remStr else remStr;
        var trimmed := TrimZeros(padded);
        if trimmed == "" then IntToString(intPart) else IntToString(intPart) + "." + trimmed
  }

  function NativeFeeAsset(chainCode: string): string
  {
    var c := ToUpper(TrimSpace(chainCode));
    if c == "ETH" || c == "ETHEREUM" then "ETH"
    else if c == "BSC" || c == "BNB" then "BNB"
    else if c == "TRON" || c == "TRX" then "TRX"
    else ""
  }

  function NativeFeeDecimals(chainCode: string): nat
  {
    var c := ToUpper(TrimSpace(chainCode));
    if c == "TRON" || c == "TRX" then 6 else 18
  }

  predicate IsHexDigit(c: char) { IsDigit(c) || 'a' <= c <= 'f' }

  function HexValue(s: string): nat
    requires forall i :: 0 <= i < |s| ==> IsHexDigit(s[i])
  {
    if s == "" then 0
    else
      var c := s[|s| - 1];
      16 * HexValue(s[..|s| - 1]) + HexDigitValue(c)
  }

  function HexDigitValue(c: char): (d: nat)
    requires IsHexDigit(c)
    ensures d < 16
  {
    var v: int := if IsDigit(c) then DigitValue(c) else c as int - 'a' as int + 10;
    v
  }

  function ParseHex(s: string): Option<int>
  {
    var body := if |s| > 0 && (s[0] == '+' || s[0] == '-') then s[1..] else s;
    if body == "" || exists i :: 0 <= i < |body| && !IsHexDigit(body[i]) then None
    else Some(Signed(s[0] == '-', HexValue(body)))
  }

  function ParseBigIntLoose(text: string): Option<int>
  {
    var s := TrimSpace(text);
    if s == "" then None
    else if "0x" <= ToLower(s) then ParseHex(ToLower(s)[2..])
    else ParseInt(s)
  }

  /** `len(strings.Fields(s))`: a field starts at every non-space preceded by a space or nothing. */
  function FieldCount(s: string): nat
  {
    if s == "" then 0
    else FieldCount(s[..|s| - 1]) +
         if !IsSpace(s[|s| - 1]) && (|s| == 1 || IsSpace(s[|s| - 2])) then 1 else 0
  }

  datatype FeeText = FeeText(fee: Option<string>, feeAsset: Option<string>)

  function FormatWeb3Fee(chainCode: string, gasFee: string, gasUsed: nat, gasPrice: string): FeeText
  {
    var asset := NativeFeeAsset(chainCode);
    var feeAsset := if asset != "" then Some(asset) else None;
    var s := TrimSpace(gasFee);
    if s != "" then FeeText(Some(DescribeFee(chainCode, asset, s)), feeAsset)
    else
      match ParseBigIntLoose(TrimSpace(gasPrice))
      case None => FeeText(None, feeAsset)
      case Some(gp) =>
        if gasUsed > 0 && gp > 0 && gp * gasUsed > 0 then
          FeeText(Some(FormatAmountFromRawInt(gp * gasUsed, NativeFeeDecimals(chainCode)) + " " + asset), feeAsset)
        else FeeText(None, feeAsset)
  }

  function DescribeFee(chainCode: string, asset: string, s: string): string
  {
    if FieldCount(s) >= 2 then s
    else if '.' in s then s + " " + asset
    else
      var raw := ParseBigIntLoose(s);
      if raw.Some? && raw.value >= 0 then
        FormatAmountFromRawInt(raw.value, NativeFeeDecimals(chainCode)) + " " + asset
      else s + " " + asset
  }

  // --------------------------------------------------- the two printers agree

  lemma {:induction false} FixedOfValue(s: string)
    requires AllDigits(s)
    ensures Fixed(ValueOf(s), |s|) == s
  {
    if s != "" {
      FixedOfValue(s[..|s| - 1]);
      assert ValueOf(s) / 10 == ValueOf(s[..|s| - 1]) && ValueOf(s) % 10 == DigitValue(s[|s| - 1]);
      assert s == s[..|s| - 1] + [s[|s| - 1]];
    }
  }

  lemma RemainderDigits(m: nat, p: nat)
    ensures var rem := m - Scale(HighPart(m, p), p);
            0 <= rem < Pow10(p) && rem == ValueOf(Fixed(m, p)) && Fixed(rem, p) == Fixed(m, p)
  {
    JoinedValue(m, p);
    NatToStringValue(HighPart(m, p));
    ValueConcat(NatToString(HighPart(m, p)), Fixed(m, p));
    FixedOfValue(Fixed(m, p));
    ValueBound(Fixed(m, p));
  }

  /** The fee printer writes the amount's digits with trailing zeros removed. */
  lemma FromRawIntIsDotted(raw: nat, decimals: nat)
    ensures FormatAmountFromRawInt(raw, decimals) == Dotted(raw, decimals, true)
  {
    hide Scale, NatToString, Fixed, TrimZeros, HighPart, FloorDrop;
    var kept := KeptDigits(raw, decimals, true);
    KeptIffFraction(raw, decimals, kept);
    FloorDropBounds(raw, decimals);
    RemainderDigits(raw, decimals);
    if raw == 0 || decimals == 0 {
      PlainRaw(raw, decimals);
    } else {
      PaddedRemainder(raw - Scale(HighPart(raw, decimals), decimals), decimals);
    }
  }

  lemma PlainRaw(raw: nat, decimals: nat)
    requires raw == 0 || decimals == 0
    ensures HighPart(raw, decimals) == raw && TrimZeros(Fixed(raw, decimals)) == ""
    ensures raw == 0 ==> NatToString(raw) == "0"
  {
    NatToStringLeading(raw);
    if decimals > 0 {
      FixedZero(decimals);
      TrimAllZeros(decimals);
    }
  }

  lemma {:induction false} TrimAllZeros(k: nat)
    ensures TrimZeros(Zeros(k)) == ""
  {
    if k > 0 {
      TrimAllZeros(k - 1);
      assert Zeros(k)[..k - 1] == Zeros(k - 1);
    }
  }

  lemma PaddedRemainder(rem: nat, decimals: nat)
    requires 0 < decimals && rem < Pow10(decimals)
    ensures var s := NatToString(rem);
            (if |s| < decimals then Zeros(decimals - |s|) + s else s) == Fixed(rem, decimals)
  {
    hide Scale, Fixed, HighPart;
    NatToStringLength(rem, decimals);
    NatToStringPad(rem, decimals);
    assert Zeros(0) + NatToString(rem) == NatToString(rem);
  }

  /** Stripping a printed number's fraction again changes nothing. */
  lemma StripDotted(m: nat, p: nat)
    ensures StripFraction(Dotted(m, p, true)) == Dotted(m, p, true)
  {
    var q, kept := NatToString(HighPart(m, p)), TrimZeros(Fixed(m, p));
    var t := Dotted(m, p, true);
    TrimZerosSplit(Fixed(m, p));
    if kept == "" {
      IndexWhereUnique(t, IsDot, |t|);
    } else {
      IndexWhereUnique(t, IsDot, |q|);
      assert t[|q| + 1..] == kept && t[..|q|] == q;
      assert TrimZeros(kept) == kept;
    }
  }

  /** Printing a raw amount at its scale and formatting that for people gives the same text
      as printing the raw amount directly. */
  lemma PrintersAgree(raw: nat, decimals: nat)
    requires raw < Pow10(MAX_DIGITS) && decimals <= 30
    ensures var s := RawToDecimalString(Dec(raw, 0), decimals);
            s.Ok? && FormatAmount(s.value) == FormatAmountFromRawInt(raw, decimals)
  {
    hide NewFromString, TrimSpace, RawToDecimalString, Dotted, StripFraction, ToString,
      FormatAmountFromRawInt, NearestAway, ParseDecimalToRawExact, WrittenDecimals, ValueOf;
    assert IsWhole(Dec(raw, 0), raw);
    IsWholeValue(Dec(raw, 0), raw);
    var m := RawPrints(Dec(raw, 0), decimals);
    NearestOfInt(raw);
    var t := Dotted(raw, decimals, false);
    var r := DottedIsPlain(raw, decimals, false);
    var v, k := ReadOfDotted(false, raw, decimals, false);
    assert "" + t == t;
    assert t != "" by { DottedNonEmpty(raw, decimals); }
    assert v == raw;
    PrintedDec(raw, decimals);
    StripDotted(raw, decimals);
    FromRawIntIsDotted(raw, decimals);
  }

  lemma NearestOfInt(n: int)
    ensures NearestAway(n as real) == n
  {
  }

  lemma DottedNonEmpty(m: nat, p: nat)
    ensures Dotted(m, p, false) != ""
  {
  }

  lemma PrintedDec(m: nat, p: nat)
    ensures ToString(Dec(m, 0 - p)) == Dotted(m, p, true)
  {
    hide Dotted, Format;
    if p == 0 {
      DottedWhole(m, true);
    } else {
      FormatIsDotted(Dec(m, 0 - p), true);
      assert "" + Dotted(m, p, true) == Dotted(m, p, true);
    }
  }

  /** What the fee printer shows is exact: it reads back as raw / 10^decimals. */
  lemma FromRawIntIsExact(raw: nat, decimals: nat) returns (v: nat, k: nat)
    requires decimals <= 0x8000_0000
    ensures NewFromString(FormatAmountFromRawInt(raw, decimals)) == Some(Dec(v, 0 - k))
    ensures k <= decimals && Scale(v, decimals - k) == raw
  {
    hide NewFromString, FormatAmountFromRawInt, Dotted, Scale;
    FromRawIntIsDotted(raw, decimals);
    v, k := ReadOfDotted(false, raw, decimals, true);
    var t := Dotted(raw, decimals, true);
    assert "" + t == t;
  }

  /** So two different raw amounts never look alike. */
  lemma FromRawIntInjective(raw1: nat, raw2: nat, decimals: nat)
    requires decimals <= 0x8000_0000
    requires FormatAmountFromRawInt(raw1, decimals) == FormatAmountFromRawInt(raw2, decimals)
    ensures raw1 == raw2
  {
    hide NewFromString, FormatAmountFromRawInt;
    var v1, k1 := FromRawIntIsExact(raw1, decimals);
    var v2, k2 := FromRawIntIsExact(raw2, decimals);
  }

  /** Canonical text: no superfluous leading zero, and no zero or dot at the end of a fraction. */
  lemma FromRawIntIsCanonical(raw: nat, decimals: nat)
    ensures var t := FormatAmountFromRawInt(raw, decimals);
            |t| > 0 && (|t| > 1 && t[0] == '0' ==> t[1] == '.') &&
            ('.' in t ==> t[|t| - 1] != '0' && t[|t| - 1] != '.')
  {
    hide FormatAmountFromRawInt;
    FromRawIntIsDotted(raw, decimals);
    var q, kept := NatToString(HighPart(raw, decimals)), TrimZeros(Fixed(raw, decimals));
    TrimZerosSplit(Fixed(raw, decimals));
    NatToStringLeading(HighPart(raw, decimals));
    var t := Dotted(raw, decimals, true);
    if kept == "" {
      assert forall c <- t :: IsDigit(c);
    } else {
      assert t[0] == q[0] && t[|t| - 1] == kept[|kept| - 1];
      if |q| == 1 {
        assert t[1] == '.';
      }
    }
  }

  // ------------------------------------------------------- native fee texts

  lemma DigitsAreTrimmed(n: nat)
    ensures Trimmed(NatToString(n)) && NatToString(n) != "" && '.' !in NatToString(n)
    ensures FieldCount(NatToString(n)) < 2
    ensures ParseBigIntLoose(NatToString(n)) == Some(n)
  {
    hide NatToString, ValueOf, FieldCount, ParseBigIntLoose;
    NatToStringValue(n);
    DigitText(NatToString(n));
    DigitTextParses(NatToString(n));
  }

  lemma DigitText(s: string)
    requires AllDigits(s) && s != ""
    ensures Trimmed(s) && '.' !in s && FieldCount(s) < 2 && !("0x" <= ToLower(s))
  {
    OneField(s);
    assert |s| >= 2 ==> ToLower(s)[1] != "0x"[1];
  }

  lemma DigitTextParses(s: string)
    requires AllDigits(s) && s != ""
    ensures ParseBigIntLoose(s) == Some(ValueOf(s))
  {
    hide TrimSpace, ParseInt, ValueOf, ToLower;
    DigitText(s);
    ParseIntOfDigits(false, s);
    assert "" + s == s;
  }

  lemma {:induction false} OneField(s: string)
    requires forall i :: 0 <= i < |s| ==> !IsSpace(s[i])
    ensures FieldCount(s) <= 1
  {
    if |s| > 1 {
      OneField(s[..|s| - 1]);
    }
  }

  lemma RawFeeText(chainCode: string, n: nat, used: nat, price: string)
    ensures var asset := NativeFeeAsset(chainCode);
            FormatWeb3Fee(chainCode, NatToString(n), used, price) ==
            FeeText(Some(FormatAmountFromRawInt(n, NativeFeeDecimals(chainCode)) + " " + asset),
                    if asset != "" then Some(asset) else None)
  {
    hide NativeFeeAsset, NativeFeeDecimals, FormatAmountFromRawInt, ParseBigIntLoose, FieldCount, NatToString,
      TrimSpace;
    DigitsAreTrimmed(n);
  }

  lemma GasFeeText(chainCode: string, gasUsed: nat, price: nat, n: nat)
    requires gasUsed > 0 && price > 0 && n == price * gasUsed
    ensures var asset := NativeFeeAsset(chainCode);
            FormatWeb3Fee(chainCode, "", gasUsed, NatToString(price)) ==
            FeeText(Some(FormatAmountFromRawInt(n, NativeFeeDecimals(chainCode)) + " " + asset),
                    if asset != "" then Some(asset) else None)
  {
    hide NativeFeeAsset, NativeFeeDecimals, FormatAmountFromRawInt, ParseBigIntLoose, FieldCount, NatToString,
      TrimSpace;
    DigitsAreTrimmed(price);
    assert n > 0;
    assert Trimmed("") && TrimSpace("") == "";
  }

  /** A raw fee and the same fee left as gas used times gas price print alike. */
  lemma FeePathsAgree(chainCode: string, gasUsed: nat, price: nat, used': nat, price': string)
    requires gasUsed > 0 && price > 0
    ensures FormatWeb3Fee(chainCode, NatToString(price * gasUsed), used', price') ==
            FormatWeb3Fee(chainCode, "", gasUsed, NatToString(price))
  {
    hide FormatWeb3Fee, NativeFeeAsset, NativeFeeDecimals, FormatAmountFromRawInt, NatToString;
    var n: nat := price * gasUsed;
    RawFeeText(chainCode, n, used', price');
    GasFeeText(chainCode, gasUsed, price, n);
  }

  /** A trimmed text is more than one word exactly when there is white space in it. */
  lemma WordsExactly(s: string)
    requires s != "" && Trimmed(s)
    ensures FieldCount(s) >= 2 <==> exists i :: 0 <= i < |s| && IsSpace(s[i])
  {
    hide IsSpace;
    if i :| 0 <= i < |s| && IsSpace(s[i]) {
      var j := NextWord(s, i);
      FieldCountGrows(s[..j], 1);
      assert s[..j][..1] == [s[0]] && [s[0]][..0] == "";
      assert FieldCount(s[..1]) == 1 by { assert s[..1] == [s[0]]; }
      assert s[..j + 1][..j] == s[..j] && s[..j + 1][j - 1] == s[j - 1];
      FieldCountGrows(s, j + 1);
    } else {
      OneField(s);
    }
  }

  /** After white space in a trimmed text another word begins. */
  lemma {:induction false} NextWord(s: string, i: nat) returns (j: nat)
    requires i < |s| && IsSpace(s[i]) && !IsSpace(s[|s| - 1])
    ensures i < j < |s| && IsSpace(s[j - 1]) && !IsSpace(s[j])
    decreases |s| - i
  {
    if IsSpace(s[i + 1]) {
      j := NextWord(s, i + 1);
    } else {
      j := i + 1;
    }
  }

  /** A fee of several words is shown as it is; a single word with a dot, or one that is no number
      from zero on, gets the chain's unit. */
  lemma WordyFeesExactly(chainCode: string, gasFee: string, used: nat, price: string)
    requires TrimSpace(gasFee) != ""
    ensures var s, unit := TrimSpace(gasFee), NativeFeeAsset(chainCode);
            var shown := FormatWeb3Fee(chainCode, gasFee, used, price).fee;
            if exists i :: 0 <= i < |s| && IsSpace(s[i]) then shown == Some(s)
            else if '.' in s then shown == Some(s + " " + unit)
            else
              match ParseBigIntLoose(s)
              case None => shown == Some(s + " " + unit)
              case Some(n) =>
                var number := if n < 0 then s else FormatAmountFromRawInt(n, NativeFeeDecimals(chainCode));
                shown == Some(number + " " + unit)
  {
    hide NativeFeeAsset, NativeFeeDecimals, FormatAmountFromRawInt, ParseBigIntLoose, FieldCount, IsSpace;
    WordsExactly(TrimSpace(gasFee));
  }

  function HexDigit(d: nat): char
    requires d < 16
  {
    if d < 10 then '0' + d as char else 'a' + (d - 10) as char
  }

  /** A number written in hexadecimal digits. */
  function HexText(n: nat): string { if n < 16 then [HexDigit(n)] else HexText(n / 16) + [HexDigit(n % 16)] }

  lemma HexDigitReads(d: nat)
    requires d < 16
    ensures IsHexDigit(HexDigit(d)) && HexDigitValue(HexDigit(d)) == d && LowerChar(HexDigit(d)) == HexDigit(d)
    ensures !IsSpace(HexDigit(d)) && HexDigit(d) != '+' && HexDigit(d) != '-'
  {
  }

  lemma {:induction false} HexTextReads(n: nat)
    ensures HexText(n) != "" && forall i :: 0 <= i < |HexText(n)| ==> IsHexDigit(HexText(n)[i])
    ensures HexValue(HexText(n)) == n
    ensures forall i :: 0 <= i < |HexText(n)| ==>
              LowerChar(HexText(n)[i]) == HexText(n)[i] && !IsSpace(HexText(n)[i]) && HexText(n)[i] !in "+-"
  {
    hide IsHexDigit, IsSpace, LowerChar, HexDigitValue, HexDigit;
    HexDigitReads(n % 16);
    if n < 16 {
      HexDigitReads(n);
      assert HexText(n)[..0] == "" && HexValue("") == 0;
    } else {
      HexTextReads(n / 16);
      assert HexText(n)[..|HexText(n)| - 1] == HexText(n / 16);
    }
  }

  /** A fee written in hexadecimal is read as its number. */
  lemma HexReads(n: nat)
    ensures ParseBigIntLoose("0x" + HexText(n)) == Some(n)
  {
    hide IsHexDigit, IsSpace, LowerChar, HexText, HexValue;
    HexTextReads(n);
    var s := "0x" + HexText(n);
    assert s[0] == '0' && s[1] == 'x' && s[|s| - 1] == HexText(n)[|HexText(n)| - 1];
    PrefixChars();
    assert Trimmed(s);
    assert ToLower(s) == s;
    assert "0x" <= s && s[2..] == HexText(n);
    assert HexText(n)[0] !in "+-";
  }

  lemma PrefixChars()
    ensures !IsSpace('0') && LowerChar('0') == '0' && LowerChar('x') == 'x'
  {
  }

  lemma FirstDot(q: string, rest: string)
    requires '.' !in q
    ensures IndexWhere(q, IsDot) == |q| && IndexWhere(q + ("." + rest), IsDot) == |q|
  {
    hide IndexWhere;
    var t := q + ("." + rest);
    assert forall i :: 0 <= i < |q| ==> t[i] == q[i];
    IndexWhereUnique(q, IsDot, |q|);
    IndexWhereUnique(t, IsDot, |q|);
  }

  lemma StripParts(q: string, kept: string)
    requires '.' !in q && TrimZeros(kept) == kept
    ensures var t := q + if kept == "" then "" else "." + kept; StripFraction(t) == t
  {
    hide TrimZeros, IndexWhere;
    FirstDot(q, kept);
    if kept == "" {
      assert q + "" == q;
    } else {
      var t := q + ("." + kept);
      assert t[|q| + 1..] == kept && t[..|q|] == q;
      assert q + "." + kept == t;
    }
  }

  lemma StripSigned(negative: bool, m: nat, p: nat)
    ensures StripFraction(SignText(negative) + Dotted(m, p, true)) == SignText(negative) + Dotted(m, p, true)
  {
    hide HighPart, Fixed, TrimZeros, NatToString, Dotted, StripFraction;
    var q, kept := NatToString(HighPart(m, p)), TrimZeros(Fixed(m, p));
    DottedParts(m, p);
    StripParts(SignText(negative) + q, kept);
    assert SignText(negative) + (q + if kept == "" then "" else "." + kept) ==
           (SignText(negative) + q) + if kept == "" then "" else "." + kept;
  }

  lemma DottedParts(m: nat, p: nat)
    ensures AllDigits(NatToString(HighPart(m, p))) && AllDigits(TrimZeros(Fixed(m, p)))
    ensures var kept := TrimZeros(Fixed(m, p));
            Dotted(m, p, true) == NatToString(HighPart(m, p)) + if kept == "" then "" else "." + kept
    ensures TrimZeros(TrimZeros(Fixed(m, p))) == TrimZeros(Fixed(m, p))
  {
    TrimZerosSplit(Fixed(m, p));
    TrimmedTwice(Fixed(m, p));
  }

  lemma TrimmedTwice(s: string)
    ensures TrimZeros(TrimZeros(s)) == TrimZeros(s)
  {
    TrimZerosSplit(s);
  }

  /** What a notification shows: zero for a blank amount, unreadable text as it is, and any number,
      whole or not, positive or not, in its shortest decimal form. */
  lemma FormatAmountExactly(amount: string)
    ensures var t := TrimSpace(amount);
            FormatAmount(amount) ==
            if t == "" then "0"
            else match NewFromString(t) case None => t case Some(d) => ToString(d)
  {
    hide TrimSpace, NewFromString, StripFraction, Dotted, Format;
    var t := TrimSpace(amount);
    if t != "" && NewFromString(t).Some? {
      var d := NewFromString(t).value;
      ShortIsStripped(d);
    }
  }

  lemma ShortIsStripped(d: Dec)
    ensures StripFraction(ToString(d)) == ToString(d)
  {
    hide StripFraction, Dotted, Format;
    if d.exp < 0 {
      FormatIsDotted(d, true);
      StripSigned(d.coef < 0, Abs(d.coef), -d.exp);
    } else {
      WholeText(d);
      StripSigned(CoefAt(d, 0) < 0, Abs(CoefAt(d, 0)), 0);
    }
  }

  lemma WholeText(d: Dec)
    requires d.exp >= 0
    ensures ToString(d) == SignText(CoefAt(d, 0) < 0) + Dotted(Abs(CoefAt(d, 0)), 0, true)
  {
    hide Dotted, Scale;
    DottedWhole(Abs(CoefAt(d, 0)), true);
  }

  /** A raw fee is shown with six decimals on TRON and eighteen everywhere else, and with the
      chain's unit where it is known. */
  lemma RawFeeIsShown(chainCode: string, raw: nat, used: nat, price: string)
    ensures var c, shown := ToUpper(TrimSpace(chainCode)), FormatWeb3Fee(chainCode, NatToString(raw), used, price);
            shown ==
            if c in {"TRON", "TRX"} then FeeText(Some(Dotted(raw, 6, true) + " TRX"), Some("TRX"))
            else if c in {"ETH", "ETHEREUM"} then FeeText(Some(Dotted(raw, 18, true) + " ETH"), Some("ETH"))
            else if c in {"BSC", "BNB"} then FeeText(Some(Dotted(raw, 18, true) + " BNB"), Some("BNB"))
            else FeeText(Some(Dotted(raw, 18, true) + " "), None)
  {
    hide FormatAmountFromRawInt, ParseBigIntLoose, FieldCount, NatToString, ToUpper, TrimSpace, Dotted;
    DigitsAreTrimmed(raw);
    FromRawIntIsDotted(raw, 6);
    FromRawIntIsDotted(raw, 18);
    UnitsAre();
  }

  lemma UnitsAre()
    ensures " " + "TRX" == " TRX" && " " + "ETH" == " ETH" && " " + "BNB" == " BNB" && " " + "" == " "
    ensures forall x: string :: x + " " + "" == x + " "
    ensures forall x: string :: x + " " + "TRX" == x + " TRX"
    ensures forall x: string :: x + " " + "ETH" == x + " ETH"
    ensures forall x: string :: x + " " + "BNB" == x + " BNB"
  {
  }

  lemma {:induction false} FieldCountGrows(s: string, k: nat)
    requires k <= |s|
    ensures FieldCount(s[..k]) <= FieldCount(s)
  {
    if k == |s| {
      assert s[..k] == s;
    } else {
      var s' := s[..|s| - 1];
      FieldCountGrows(s', k);
      assert s'[..k] == s[..k];
    }
  }

  /** Text, a space, and a unit: at least two fields, with nothing to trim. */
  lemma WithUnit(x: string, asset: string)
    requires x != "" && !IsSpace(x[0])
    requires asset != "" && !IsSpace(asset[0]) && !IsSpace(asset[|asset| - 1])
    ensures var f := x + " " + asset; TrimSpace(f) == f && f != "" && FieldCount(f) >= 2
  {
    var f, j := x + " " + asset, |x| + 1;
    assert f[0] == x[0] && f[j] == asset[0] && f[j - 1] == ' ' && f[|f| - 1] == asset[|asset| - 1];
    assert Trimmed(f);
    FieldCountGrows(f[..j], 1);
    assert f[..j][..1] == f[..1] == [f[0]];
    assert [f[0]][..0] == "";
    assert FieldCount(f[..1]) == 1;
    assert f[..j + 1][..j] == f[..j];
    FieldCountGrows(f, j + 1);
  }

  /** On a supported chain formatting an already formatted fee changes nothing. */
  lemma FormattingIsIdempotent(
      chainCode: string, gasFee: string, gasUsed: nat, gasPrice: string, used': nat, price': string)
    requires NativeFeeAsset(chainCode) != ""
    requires FormatWeb3Fee(chainCode, gasFee, gasUsed, gasPrice).fee.Some?
    ensures var f := FormatWeb3Fee(chainCode, gasFee, gasUsed, gasPrice);
            FormatWeb3Fee(chainCode, f.fee.value, used', price') == f
  {
    hide NativeFeeAsset, NativeFeeDecimals, FormatAmountFromRawInt, ParseBigIntLoose, FieldCount, TrimSpace,
      DescribeFee;
    var asset := NativeFeeAsset(chainCode);
    AssetText(chainCode);
    var s := TrimSpace(gasFee);
    if s != "" {
      DescribedOnce(chainCode, asset, s);
    } else {
      var raw: nat := ParseBigIntLoose(TrimSpace(gasPrice)).value * gasUsed;
      var x := FormatAmountFromRawInt(raw, NativeFeeDecimals(chainCode));
      StartsWithDigit(raw, NativeFeeDecimals(chainCode));
      WithUnit(x, asset);
      KeptAsIs(chainCode, asset, x + " " + asset);
    }
  }

  lemma AssetText(chainCode: string)
    ensures var asset := NativeFeeAsset(chainCode);
            asset != "" ==> !IsSpace(asset[0]) && !IsSpace(asset[|asset| - 1])
  {
    hide ToUpper, TrimSpace;
  }

  lemma KeptAsIs(chainCode: string, asset: string, s: string)
    requires FieldCount(s) >= 2
    ensures DescribeFee(chainCode, asset, s) == s
  {
  }

  lemma DescribedOnce(chainCode: string, asset: string, s: string)
    requires Trimmed(s) && s != ""
    requires asset != "" && !IsSpace(asset[0]) && !IsSpace(asset[|asset| - 1])
    ensures var f := DescribeFee(chainCode, asset, s);
            TrimSpace(f) == f && f != "" && DescribeFee(chainCode, asset, f) == f
  {
    hide NativeFeeDecimals, FormatAmountFromRawInt, ParseBigIntLoose, FieldCount, TrimSpace;
    if FieldCount(s) < 2 {
      var raw := ParseBigIntLoose(s);
      if '.' !in s && raw.Some? && raw.value >= 0 {
        StartsWithDigit(raw.value, NativeFeeDecimals(chainCode));
        WithUnit(FormatAmountFromRawInt(raw.value, NativeFeeDecimals(chainCode)), asset);
      } else {
        WithUnit(s, asset);
      }
    }
  }

  lemma StartsWithDigit(raw: nat, decimals: nat)
    ensures var x := FormatAmountFromRawInt(raw, decimals); x != "" && IsDigit(x[0]) && !IsSpace(x[0])
  {
    hide FormatAmountFromRawInt;
    FromRawIntIsDotted(raw, decimals);
    assert Dotted(raw, decimals, true)[0] == NatToString(HighPart(raw, decimals))[0];
  }

  /** Without a known unit it is not: one whole coin, formatted twice, shrinks to one raw unit. */
  lemma UnsupportedChainReformats(chainCode: string, gasUsed: nat, gasPrice: string)
    requires NativeFeeAsset(chainCode) == ""
    ensures var once := FormatWeb3Fee(chainCode, NatToString(Pow10(18)), gasUsed, gasPrice);
            once.fee == Some("1 ") &&
            FormatWeb3Fee(chainCode, "1 ", gasUsed, gasPrice).fee == Some("0.000000000000000001 ")
  {
    hide NativeFeeAsset, NativeFeeDecimals, FormatAmountFromRawInt, ParseBigIntLoose, FieldCount,
      NatToString, TrimSpace, Scale;
    DigitsAreTrimmed(Pow10(18));
    DigitsAreTrimmed(1);
    UnsupportedDecimals(chainCode);
    OneSpace();
    OneText();
    OneCoin();
    OneUnit();
    assert "1" + " " + "" == "1 ";
  }

  lemma UnsupportedDecimals(chainCode: string)
    requires NativeFeeAsset(chainCode) == ""
    ensures NativeFeeDecimals(chainCode) == 18
  {
    hide ToUpper, TrimSpace;
  }

  lemma OneSpace()
    ensures TrimSpace("1 ") == "1"
  {
    assert TrimLeft("1 ") == "1 ";
    assert "1 "[..1] == "1";
    assert TrimRight("1") == "1";
  }

  lemma OneText()
    ensures NatToString(1) == "1"
  {
  }

  lemma OneCoin()
    ensures FormatAmountFromRawInt(Pow10(18), 18) == "1"
  {
    hide FormatAmountFromRawInt;
    var m := Pow10(18);
    FromRawIntIsDotted(m, 18);
    WholeIsHighPart(m, 18, 1);
    var kept := KeptDigits(m, 18, true);
    KeptIffFraction(m, 18, kept);
    OneText();
  }

  lemma SeventeenZeros()
    ensures Zeros(17) == "00000000000000000"
  {
  }

  lemma OneDotted()
    ensures Dotted(1, 18, true) == "0" + "." + (Zeros(17) + "1")
  {
    OneText();
    NatToStringPad(1, 18);
    NatToStringLeading(0);
    hide Fixed, HighPart, NatToString, Zeros;
    assert Fixed(1, 18) == Zeros(17) + "1";
    assert TrimZeros(Zeros(17) + "1") == Zeros(17) + "1";
  }

  lemma OneUnit()
    ensures FormatAmountFromRawInt(1, 18) + " " + "" == "0.000000000000000001 "
  {
    hide FormatAmountFromRawInt, Dotted, Zeros;
    FromRawIntIsDotted(1, 18);
    OneDotted();
    SeventeenZeros();
  }
}
