/** Password generation and strength checking (common/security/password.go). Random draws are
    an input: `draw(k, n)` is the k-th draw below n, or nothing if the random source fails. */
module Passwords {
  import opened Numerals
  import opened Sorting

  const MIN_PASSWORD_LENGTH := 8
  const SHORTEST_GENERATED := 12
  const UPPER := "ABCDEFGHJKLMNPQRSTUVWXYZ"
  const LOWER := "abcdefghijkmnopqrstuvwxyz"
  const DIGITS := "23456789"
  const SPECIAL := "!@#$%^&*"
  const ALL := UPPER + LOWER + DIGITS + SPECIAL

  // -------------------------------------------------------------- strength

  datatype CharClass = Upper | Lower | Digit | Special | Other

  /** Unicode classes of the ASCII characters. */
  function AsciiClass(c: char): CharClass
  {
    if 'A' <= c <= 'Z' then Upper
    else if 'a' <= c <= 'z' then Lower
    else if '0' <= c <= '9' then Digit
    else if '!' <= c <= '~' then Special
    else Other
  }

  /** Letters are what has another case, digits what has a value, and the other visible characters
      are special. */
  lemma AsciiClassesExactly(c: char)
    requires IsAscii(c)
    ensures AsciiClass(c) == Upper <==> LowerChar(c) != c
    ensures AsciiClass(c) == Lower <==> UpperChar(c) != c
    ensures AsciiClass(c) == Digit <==> IsDigit(c)
    ensures AsciiClass(c) == Other <==> c as int <= 32 || c as int == 127
  {
  }

  /** `classify` stands for the `unicode` tables; only its ASCII part is fixed. */
  ghost predicate AgreesOnAscii(classify: char -> CharClass)
  {
    forall c :: IsAscii(c) ==> classify(c) == AsciiClass(c)
  }

  predicate HasClass(s: string, k: CharClass, classify: char -> CharClass)
  {
    exists i :: 0 <= i < |s| && classify(s[i]) == k
  }

  predicate HasAllClasses(s: string, classify: char -> CharClass)
  {
    HasClass(s, Upper, classify) && HasClass(s, Lower, classify) &&
    HasClass(s, Digit, classify) && HasClass(s, Special, classify)
  }

  datatype Strength = Strong | TooShort(minimum: int) | MissingClass

  method ValidatePasswordStrength(password: string, minLen: int, requireComplex: bool, classify: char -> CharClass)
    returns (r: Strength)
    ensures var minimum := if minLen <= 0 then 8 else minLen;
            (r.TooShort? <==> ByteLength(password) < minimum) && (r.TooShort? ==> r.minimum == minimum) &&
            (r.Strong? <==> ByteLength(password) >= minimum && (requireComplex ==> HasAllClasses(password, classify)))
  {
    var minimum := if minLen <= 0 then MIN_PASSWORD_LENGTH else minLen;
    if ByteLength(password) < minimum {
      return TooShort(minimum);
    }
    if !requireComplex {
      return Strong;
    }
    var hasUpper, hasLower, hasDigit, hasSpecial := false, false, false, false;
    for i := 0 to |password|
      invariant hasUpper <==> exists k :: 0 <= k < i && classify(password[k]) == Upper
      invariant hasLower <==> exists k :: 0 <= k < i && classify(password[k]) == Lower
      invariant hasDigit <==> exists k :: 0 <= k < i && classify(password[k]) == Digit
      invariant hasSpecial <==> exists k :: 0 <= k < i && classify(password[k]) == Special
    {
      match classify(password[i])
      case Upper => hasUpper := true;
      case Lower => hasLower := true;
      case Digit => hasDigit := true;
      case Special => hasSpecial := true;
      case Other =>
    }
    r := if !hasUpper || !hasLower || !hasDigit || !hasSpecial then MissingClass else Strong;
  }

  // ---------------------------------------------------------------- shuffle

  function Swap<T>(s: seq<T>, i: nat, j: nat): (t: seq<T>)
    requires i < |s| && j < |s|
    ensures |t| == |s|
  {
    s[i := s[j]][j := s[i]]
  }

  /** One draw for each position: the draw for position i is at most i. */
  predicate DrawVector(js: seq<nat>)
  {
    forall i :: 0 <= i < |js| ==> js[i] <= i
  }

  /** The shuffle's remaining steps, positions i down to 1. */
  function ShuffleFrom<T>(s: seq<T>, i: nat, js: seq<nat>): (t: seq<T>)
    requires i < |s| && |js| == |s| && DrawVector(js)
    ensures |t| == |s|
    decreases i
  {
    if i == 0 then s else ShuffleFrom(Swap(s, i, js[i]), i - 1, js)
  }

  function Shuffled<T>(s: seq<T>, js: seq<nat>): (t: seq<T>)
    requires |js| == |s| && DrawVector(js)
    ensures |t| == |s|
  {
    if s == [] then s else ShuffleFrom(s, |s| - 1, js)
  }

  lemma SwapKeepsMultiset<T>(s: seq<T>, i: nat, j: nat)
    requires i < |s| && j < |s|
    ensures multiset(Swap(s, i, j)) == multiset(s)
  {
  }

  lemma {:induction false} ShuffleKeeps<T>(s: seq<T>, i: nat, js: seq<nat>)
    requires i < |s| && |js| == |s| && DrawVector(js)
    ensures multiset(ShuffleFrom(s, i, js)) == multiset(s)
    ensures forall k :: i < k < |s| ==> ShuffleFrom(s, i, js)[k] == s[k]
    decreases i
  {
    if i > 0 {
      SwapKeepsMultiset(s, i, js[i]);
      ShuffleKeeps(Swap(s, i, js[i]), i - 1, js);
    }
  }

  /** Different draws give different arrangements of distinct elements. */
  lemma {:induction false} ShuffleInjective<T>(s: seq<T>, i: nat, js: seq<nat>, ks: seq<nat>)
    requires i < |s| && |js| == |s| == |ks| && DrawVector(js) && DrawVector(ks) && Distinct(s)
    requires ShuffleFrom(s, i, js) == ShuffleFrom(s, i, ks)
    ensures forall k :: 0 <= k <= i ==> js[k] == ks[k]
    decreases i
  {
    if i > 0 {
      var u := Swap(s, i, js[i]);
      FinalPosition(s, i, js);
      FinalPosition(s, i, ks);
      assert js[i] == ks[i];
      SwapKeepsDistinct(s, i, js[i]);
      ShuffleInjective(u, i - 1, js, ks);
    }
  }

  /** The step at i settles what position i ends up with. */
  lemma FinalPosition<T>(s: seq<T>, i: nat, js: seq<nat>)
    requires 0 < i < |s| && |js| == |s| && DrawVector(js)
    ensures ShuffleFrom(s, i, js)[i] == s[js[i]]
  {
    hide Swap;
    ShuffleKeeps(Swap(s, i, js[i]), i - 1, js);
    SwapPlaces(s, i, js[i]);
  }

  lemma SwapPlaces<T>(s: seq<T>, i: nat, j: nat)
    requires i < |s| && j < |s|
    ensures Swap(s, i, j)[i] == s[j] && Swap(s, i, j)[j] == s[i]
  {
  }

  lemma SwapKeepsDistinct<T>(s: seq<T>, i: nat, j: nat)
    requires i < |s| && j < |s| && Distinct(s)
    ensures Distinct(Swap(s, i, j))
  {
  }

  /** Every arrangement of the first i + 1 positions is reached by some draws. */
  lemma {:induction false} ShuffleReaches<T>(s: seq<T>, i: nat, t: seq<T>) returns (js: seq<nat>)
    requires i < |s| == |t| && multiset(s) == multiset(t)
    requires forall k :: i < k < |s| ==> s[k] == t[k]
    ensures |js| == |s| && DrawVector(js) && ShuffleFrom(s, i, js) == t
    decreases i
  {
    if i == 0 {
      js := seq(|s|, k => 0);
      OnlyFirstLeft(s, t);
    } else {
      var j := FindInPrefix(s, i, t);
      SwapKeepsMultiset(s, i, j);
      var ks := ShuffleReaches(Swap(s, i, j), i - 1, t);
      js := ks[i := j];
      SameSteps(Swap(s, i, j), i - 1, js, ks);
    }
  }

  lemma OnlyFirstLeft<T>(s: seq<T>, t: seq<T>)
    requires |s| == |t| > 0 && multiset(s) == multiset(t)
    requires forall k :: 0 < k < |s| ==> s[k] == t[k]
    ensures s == t
  {
    assert s == [s[0]] + s[1..] && t == [t[0]] + t[1..] && s[1..] == t[1..];
    assert multiset{s[0]} == multiset(s) - multiset(s[1..]);
    assert multiset{t[0]} == multiset(t) - multiset(t[1..]);
    assert s[0] in multiset{t[0]};
  }

  lemma FindInPrefix<T>(s: seq<T>, i: nat, t: seq<T>) returns (j: nat)
    requires i < |s| == |t| && multiset(s) == multiset(t)
    requires forall k :: i < k < |s| ==> s[k] == t[k]
    ensures j <= i && s[j] == t[i]
  {
    var a, b, c := s[..i + 1], t[..i + 1], s[i + 1..];
    assert s == a + c && t == b + c;
    assert multiset(a) == multiset(s) - multiset(c);
    assert multiset(b) == multiset(t) - multiset(c);
    assert b[i] in multiset(b);
    assert t[i] in a;
    j :| 0 <= j < |a| && a[j] == t[i];
  }

  lemma {:induction false} SameSteps<T>(s: seq<T>, i: nat, js: seq<nat>, ks: seq<nat>)
    requires i < |s| && |js| == |s| == |ks| && DrawVector(js) && DrawVector(ks)
    requires forall k :: 0 <= k <= i ==> js[k] == ks[k]
    ensures ShuffleFrom(s, i, js) == ShuffleFrom(s, i, ks)
    decreases i
  {
    if i > 0 {
      SameSteps(Swap(s, i, js[i]), i - 1, js, ks);
    }
  }

  /** The shuffle maps draw vectors one-to-one onto the arrangements of distinct elements:
      each arrangement comes from exactly one vector, and nothing else is produced. */
  lemma ShuffleIsBijection<T>(s: seq<T>, t: seq<T>)
    requires Distinct(s)
    ensures (exists js :: |js| == |s| && DrawVector(js) && Shuffled(s, js) == t) <==> multiset(t) == multiset(s)
    ensures forall js, ks | |js| == |s| == |ks| && DrawVector(js) && DrawVector(ks) ::
              Shuffled(s, js) == Shuffled(s, ks) ==> js == ks
  {
    forall js, ks | |js| == |s| == |ks| && DrawVector(js) && DrawVector(ks) && Shuffled(s, js) == Shuffled(s, ks)
      ensures js == ks
    {
      if s != [] {
        ShuffleInjective(s, |s| - 1, js, ks);
      }
    }
    forall js: seq<nat> | |js| == |s| && DrawVector(js) ensures multiset(Shuffled(s, js)) == multiset(s) {
      if s != [] {
        ShuffleKeeps(s, |s| - 1, js);
      }
    }
    if multiset(t) == multiset(s) {
      assert |t| == |multiset(t)| == |s|;
      if s == [] {
        assert Shuffled(s, []) == t;
      } else {
        var js := ShuffleReaches(s, |s| - 1, t);
        assert Shuffled(s, js) == t;
      }
    }
  }

  // -------------------------------------------------------------- generation

  type Source = (nat, nat) -> Option<nat>

  /** A draw that succeeds is below its bound. */
  ghost predicate Fair(draw: Source)
  {
    forall k, n :: n > 0 && draw(k, n).Some? ==> draw(k, n).value < n
  }

  /** The characters drawn from for position k of the buffer. */
  function CharsAt(k: nat): (s: string)
    ensures |s| > 0
  {
    if k == 0 then UPPER else if k == 1 then LOWER else if k == 2 then DIGITS else if k == 3 then SPECIAL else ALL
  }

  /** Position i of an n-character buffer is shuffled by draw number 2n - 1 - i. */
  function ShuffleDraw(n: nat, i: nat, draw: Source): Option<nat>
    requires i < n
  {
    draw(2 * n - 1 - i, i + 1)
  }

  ghost predicate AllDrawn(n: nat, draw: Source)
  {
    (forall k :: 0 <= k < n ==> draw(k, |CharsAt(k)|).Some?) &&
    (forall i :: 1 <= i < n ==> ShuffleDraw(n, i, draw).Some?)
  }

  ghost function Letters(n: nat, draw: Source): (s: string)
    requires Fair(draw) && forall k :: 0 <= k < n ==> draw(k, |CharsAt(k)|).Some?
    ensures |s| == n && forall k :: 0 <= k < n ==> s[k] == CharsAt(k)[draw(k, |CharsAt(k)|).value]
  {
    seq(n, k requires 0 <= k < n => CharsAt(k)[draw(k, |CharsAt(k)|).value])
  }

  /** The draws of the shuffle; a failed one, which ends the generation, stands as 0. */
  ghost function Draws(n: nat, draw: Source): (js: seq<nat>)
    requires Fair(draw)
    ensures |js| == n && DrawVector(js)
  {
    seq(n, i requires 0 <= i < n =>
      if i == 0 || ShuffleDraw(n, i, draw).None? then 0 else ShuffleDraw(n, i, draw).value)
  }

  function GeneratedLength(length: int): nat
  {
    if length < SHORTEST_GENERATED then SHORTEST_GENERATED else length
  }

  method GenerateSecurePassword(length: int, draw: Source) returns (r: Option<string>)
    requires Fair(draw)
    ensures var n := GeneratedLength(length);
            (r.Some? <==> AllDrawn(n, draw)) &&
            (r.Some? ==> r.value == Shuffled(Letters(n, draw), Draws(n, draw)))
  {
    hide CharsAt, ShuffleFrom, ShuffleDraw, DrawVector, Distinct;
    var n := if length < SHORTEST_GENERATED then SHORTEST_GENERATED else length;
    var buf := new char[n](_ => ' ');
    for k := 0 to n
      invariant forall i :: 0 <= i < k ==> draw(i, |CharsAt(i)|).Some?
      invariant forall i :: 0 <= i < k ==> buf[i] == CharsAt(i)[draw(i, |CharsAt(i)|).value]
    {
      var chars := CharsAt(k);
      var d := draw(k, |chars|);
      if d.None? {
        return None;
      }
      buf[k] := chars[d.value];
    }
    ghost var letters, js := Letters(n, draw), Draws(n, draw);
    assert buf[..] == letters;
    var i := n - 1;
    while i > 0
      invariant 0 <= i < n
      invariant forall k :: i < k < n ==> ShuffleDraw(n, k, draw).Some?
      invariant ShuffleFrom(buf[..], i, js) == Shuffled(letters, js)
    {
      var d := ShuffleDraw(n, i, draw);
      if d.None? {
        return None;
      }
      var j := d.value;
      StepDraw(n, i, draw);
      ghost var before := buf[..];
      buf[i], buf[j] := buf[j], buf[i];
      assert buf[..] == Swap(before, i, j);
      ShuffleUnfold(before, i, js);
      i := i - 1;
    }
    ShuffleDone(buf[..], js);
    r := Some(buf[..]);
  }

  lemma StepDraw(n: nat, i: nat, draw: Source)
    requires 0 < i < n && Fair(draw) && ShuffleDraw(n, i, draw).Some?
    ensures ShuffleDraw(n, i, draw).value <= i && Draws(n, draw)[i] == ShuffleDraw(n, i, draw).value
  {
  }

  lemma ShuffleUnfold<T>(s: seq<T>, i: nat, js: seq<nat>)
    requires 0 < i < |s| && |js| == |s| && DrawVector(js)
    ensures ShuffleFrom(s, i, js) == ShuffleFrom(Swap(s, i, js[i]), i - 1, js)
  {
  }

  lemma ShuffleDone<T>(s: seq<T>, js: seq<nat>)
    requires 0 < |s| && |js| == |s| && DrawVector(js)
    ensures ShuffleFrom(s, 0, js) == s
  {
  }

  lemma ClassesOfCharacterSets()
    ensures forall i :: 0 <= i < |UPPER| ==> AsciiClass(UPPER[i]) == Upper
    ensures forall i :: 0 <= i < |LOWER| ==> AsciiClass(LOWER[i]) == Lower
    ensures forall i :: 0 <= i < |DIGITS| ==> AsciiClass(DIGITS[i]) == Digit
    ensures forall i :: 0 <= i < |SPECIAL| ==> AsciiClass(SPECIAL[i]) == Special
    ensures forall i :: 0 <= i < |ALL| ==> IsAscii(ALL[i])
  {
  }

  /** Every generated password has the requested length (at least 12) and passes the strength
      check at that length with complexity required: the four class witnesses survive the fill
      and the shuffle, whatever the draws. */
  lemma GeneratedIsStrong(length: int, draw: Source, classify: char -> CharClass)
    requires Fair(draw) && AgreesOnAscii(classify)
    requires var n := GeneratedLength(length); AllDrawn(n, draw)
    ensures var n := GeneratedLength(length);
            var p := Shuffled(Letters(n, draw), Draws(n, draw));
            |p| == n && ByteLength(p) == n && HasAllClasses(p, classify) && n == if length < 12 then 12 else length
  {
    hide ShuffleFrom, Draws, ByteLength, HasAllClasses, CharsAt, ShuffleDraw;
    var n := GeneratedLength(length);
    var s, js := Letters(n, draw), Draws(n, draw);
    ShuffleKeeps(s, n - 1, js);
    LettersHaveAllClasses(n, draw, classify);
    ClassesSurvive(s, Shuffled(s, js), classify);
    AsciiByteLength(Shuffled(s, js));
  }

  lemma ClassOfPick(k: nat, d: nat)
    requires d < |CharsAt(k)|
    ensures var c := CharsAt(k)[d];
            IsAscii(c) && (k < 4 ==> AsciiClass(c) == [Upper, Lower, Digit, Special][k])
  {
    ClassesOfCharacterSets();
    hide AsciiClass;
  }

  lemma LettersHaveAllClasses(n: nat, draw: Source, classify: char -> CharClass)
    requires n >= 4 && Fair(draw) && AgreesOnAscii(classify)
    requires forall k :: 0 <= k < n ==> draw(k, |CharsAt(k)|).Some?
    ensures HasAllClasses(Letters(n, draw), classify)
    ensures forall i :: 0 <= i < n ==> IsAscii(Letters(n, draw)[i])
  {
    hide CharsAt, AsciiClass;
    var s := Letters(n, draw);
    forall i | 0 <= i < n
      ensures IsAscii(s[i]) && (i < 4 ==> classify(s[i]) == [Upper, Lower, Digit, Special][i])
    {
      ClassOfPick(i, draw(i, |CharsAt(i)|).value);
    }
    assert classify(s[0]) == Upper && classify(s[1]) == Lower && classify(s[2]) == Digit && classify(s[3]) == Special;
  }

  /** Rearranging loses no class and brings in no new character. */
  lemma ClassesSurvive(s: string, p: string, classify: char -> CharClass)
    requires multiset(s) == multiset(p)
    requires HasAllClasses(s, classify) && forall i :: 0 <= i < |s| ==> IsAscii(s[i])
    ensures HasAllClasses(p, classify) && forall i :: 0 <= i < |p| ==> IsAscii(p[i])
  {
    ClassSurvives(s, p, Upper, classify);
    ClassSurvives(s, p, Lower, classify);
    ClassSurvives(s, p, Digit, classify);
    ClassSurvives(s, p, Special, classify);
    forall i | 0 <= i < |p| ensures IsAscii(p[i]) {
      assert p[i] in multiset(p);
      assert p[i] in s;
    }
  }

  lemma ClassSurvives(s: string, p: string, k: CharClass, classify: char -> CharClass)
    requires multiset(s) == multiset(p) && HasClass(s, k, classify)
    ensures HasClass(p, k, classify)
  {
    var i :| 0 <= i < |s| && classify(s[i]) == k;
    assert s[i] in multiset(s);
    assert s[i] in p;
  }

  // ----------------------------------------------------- which characters

  /** Letters and digits that cannot be mistaken for one another, and eight signs. */
  predicate Legible(c: char)
  {
    ('A' <= c <= 'Z' && c != 'I' && c != 'O') || ('a' <= c <= 'z' && c != 'l') || '2' <= c <= '9' || c in "!@#$%^&*"
  }

  /** What position k of the buffer is drawn from: one class each for the first four, then any. */
  predicate MayStandAt(k: nat, c: char)
  {
    if k == 0 then 'A' <= c <= 'Z' && c != 'I' && c != 'O'
    else if k == 1 then 'a' <= c <= 'z' && c != 'l'
    else if k == 2 then '2' <= c <= '9'
    else if k == 3 then c in "!@#$%^&*"
    else Legible(c)
  }

  lemma UppersExactly(c: char)
    ensures c in UPPER <==> 'A' <= c <= 'Z' && c != 'I' && c != 'O'
    ensures Distinct(UPPER) && |UPPER| == 24
  {
    assert forall i :: 0 <= i < |UPPER| ==> UPPER[i] as int == 'A' as int + i + (if i >= 8 then 1 else 0) +
                                              (if i >= 13 then 1 else 0);
    if 'A' <= c <= 'Z' && c != 'I' && c != 'O' {
      var d := c as int - 'A' as int;
      assert UPPER[if d < 8 then d else if d < 14 then d - 1 else d - 2] == c;
    }
  }

  lemma LowersExactly(c: char)
    ensures c in LOWER <==> 'a' <= c <= 'z' && c != 'l'
    ensures Distinct(LOWER) && |LOWER| == 25
  {
    assert forall i :: 0 <= i < |LOWER| ==> LOWER[i] as int == 'a' as int + i + if i >= 11 then 1 else 0;
    if 'a' <= c <= 'z' && c != 'l' {
      var d := c as int - 'a' as int;
      assert LOWER[if d < 11 then d else d - 1] == c;
    }
  }

  lemma DigitsExactly(c: char)
    ensures c in DIGITS <==> '2' <= c <= '9'
    ensures Distinct(DIGITS) && |DIGITS| == 8
  {
    assert forall i :: 0 <= i < |DIGITS| ==> DIGITS[i] as int == '2' as int + i;
    if '2' <= c <= '9' {
      assert DIGITS[c as int - '2' as int] == c;
    }
  }

  lemma DistinctJoin<T>(a: seq<T>, b: seq<T>)
    requires Distinct(a) && Distinct(b) && forall x <- a :: x !in b
    ensures Distinct(a + b)
  {
    assert forall i :: 0 <= i < |a| ==> a[i] in a;
    assert forall i :: 0 <= i < |b| ==> b[i] in b;
  }

  /** Every position is drawn from exactly its characters, each of them once. */
  lemma CharsExactly(k: nat)
    ensures Distinct(CharsAt(k)) && forall c: char :: c in CharsAt(k) <==> MayStandAt(k, c)
  {
    forall c: char ensures c in CharsAt(k) <==> MayStandAt(k, c) {
      UppersExactly(c);
      LowersExactly(c);
      DigitsExactly(c);
    }
    SetsAreDistinct();
  }

  lemma SignsExactly()
    ensures Distinct(SPECIAL) && forall c <- SPECIAL :: !('A' <= c <= 'Z') && !('a' <= c <= 'z') && !('2' <= c <= '9')
  {
  }

  lemma SetsAreDistinct()
    ensures Distinct(UPPER) && Distinct(LOWER) && Distinct(DIGITS) && Distinct(SPECIAL) && Distinct(ALL)
  {
    hide Distinct, UPPER, LOWER, DIGITS, SPECIAL;
    forall c: char
      ensures c in UPPER ==> 'A' <= c <= 'Z'
      ensures c in LOWER ==> 'a' <= c <= 'z'
      ensures c in DIGITS ==> '2' <= c <= '9'
    {
      UppersExactly(c);
      LowersExactly(c);
      DigitsExactly(c);
    }
    UppersExactly('A');
    LowersExactly('a');
    DigitsExactly('2');
    SignsExactly();
    DistinctJoin(UPPER, LOWER);
    DistinctJoin(UPPER + LOWER, DIGITS);
    DistinctJoin(UPPER + LOWER + DIGITS, SPECIAL);
  }

  /** A generated password holds legible characters only, and before the shuffle each position
      holds one of its own. */
  lemma GeneratedIsLegible(length: int, draw: Source)
    requires Fair(draw) && AllDrawn(GeneratedLength(length), draw)
    ensures var n := GeneratedLength(length);
            (forall k :: 0 <= k < n ==> MayStandAt(k, Letters(n, draw)[k])) &&
            forall c <- Shuffled(Letters(n, draw), Draws(n, draw)) :: Legible(c)
  {
    hide CharsAt, MayStandAt, ShuffleFrom, Draws, Distinct;
    var n := GeneratedLength(length);
    var s, js := Letters(n, draw), Draws(n, draw);
    forall k | 0 <= k < n ensures MayStandAt(k, s[k]) && Legible(s[k]) {
      CharsExactly(k);
      assert s[k] in CharsAt(k);
      ClassesAreLegible(k, s[k]);
    }
    ShuffleKeeps(s, n - 1, js);
    forall c <- Shuffled(s, js) ensures Legible(c) {
      assert c in multiset(Shuffled(s, js));
      assert c in s;
    }
  }

  lemma ClassesAreLegible(k: nat, c: char)
    ensures MayStandAt(k, c) ==> Legible(c)
  {
  }

  // ----------------------------------------------------- which passwords

  /** Draws that pick the letters of `s` and shuffle by `js`. */
  ghost function Making(s: string, js: seq<nat>): Source
    requires |js| == |s| && DrawVector(js) && forall k :: 0 <= k < |s| ==> s[k] in CharsAt(k)
  {
    (k: nat, n: nat) =>
      if k < |s| then Below(Place(CharsAt(k), s[k]), n)
      else if k < 2 * |s| then Below(js[2 * |s| - 1 - k], n)
      else None
  }

  function Below(i: nat, n: nat): Option<nat> { if i < n then Some(i) else None }

  function Place(s: string, c: char): (i: nat)
    requires c in s
    ensures i < |s| && s[i] == c
  {
    if s[0] == c then 0
    else
      assert s == [s[0]] + s[1..];
      1 + Place(s[1..], c)
  }

  lemma MakingIsFair(s: string, js: seq<nat>)
    requires |js| == |s| && DrawVector(js) && forall k :: 0 <= k < |s| ==> s[k] in CharsAt(k)
    ensures Fair(Making(s, js))
  {
    hide CharsAt;
    var draw := Making(s, js);
    forall k: nat, n: nat | n > 0 && draw(k, n).Some? ensures draw(k, n).value < n {
      if k < |s| {
        assert draw(k, n) == Below(Place(CharsAt(k), s[k]), n);
      } else {
        assert k < 2 * |s| && draw(k, n) == Below(js[2 * |s| - 1 - k], n);
      }
    }
  }

  lemma MakingMakes(s: string, js: seq<nat>)
    requires |js| == |s| && DrawVector(js) && forall k :: 0 <= k < |s| ==> s[k] in CharsAt(k)
    ensures var draw := Making(s, js);
            Fair(draw) && AllDrawn(|s|, draw) && Letters(|s|, draw) == s && Draws(|s|, draw) == js
  {
    hide CharsAt;
    var draw, n := Making(s, js), |s|;
    forall i | 1 <= i < n ensures ShuffleDraw(n, i, draw) == Some(js[i]) {
      var k: nat := 2 * n - 1 - i;
      assert k >= n && draw(k, i + 1) == Below(js[2 * n - 1 - k], i + 1);
    }
    assert forall k :: 0 <= k < n ==> draw(k, |CharsAt(k)|) == Some(Place(CharsAt(k), s[k]));
    MakingIsFair(s, js);
    assert n > 0 ==> js[0] == 0;
    assert AllDrawn(n, draw);
    assert Letters(n, draw) == s;
    forall i | 0 <= i < n ensures Draws(n, draw)[i] == js[i] {
      if i > 0 {
        assert ShuffleDraw(n, i, draw) == Some(js[i]);
      }
    }
    assert Draws(n, draw) == js;
  }

  lemma MadeIsPicked(n: nat, draw: Source, p: string)
    requires n >= 12 && Fair(draw) && AllDrawn(n, draw) && Makes(n, draw, p)
    ensures Picked(Letters(n, draw), n) && multiset(Letters(n, draw)) == multiset(p)
  {
    hide CharsAt, MayStandAt, ShuffleFrom, Draws, DrawVector;
    var s := Letters(n, draw);
    ShuffleKeeps(s, n - 1, Draws(n, draw));
    forall k | 0 <= k < n ensures MayStandAt(k, s[k]) {
      CharsExactly(k);
      assert s[k] in CharsAt(k);
    }
  }

  lemma PickedIsMade(n: nat, s: string, p: string) returns (draw: Source)
    requires n >= 12 && Picked(s, n) && multiset(s) == multiset(p)
    ensures Makes(n, draw, p)
  {
    hide CharsAt, MayStandAt, ShuffleFrom, Draws, DrawVector, Making, AllDrawn, Fair;
    forall k | 0 <= k < |s| ensures s[k] in CharsAt(k) { CharsExactly(k); }
    SameCharacters(s, p);
    var js := ShuffleReaches(s, n - 1, p);
    MakingMakes(s, js);
    draw := Making(s, js);
  }

  /** Exactly the rearrangements of properly picked letters can come out, all of them. */
  lemma MakesExactly(length: int, p: string)
    ensures var n := GeneratedLength(length);
            (exists draw: Source :: Makes(n, draw, p)) <==>
            exists s: string :: Picked(s, n) && multiset(s) == multiset(p)
  {
    hide Makes, Picked, Fair, AllDrawn;
    var n := GeneratedLength(length);
    if draw: Source :| Makes(n, draw, p) {
      assert Fair(draw) && AllDrawn(n, draw) by { MakesIsFair(n, draw, p); }
      MadeIsPicked(n, draw, p);
    }
    if s: string :| Picked(s, n) && multiset(s) == multiset(p) {
      var draw := PickedIsMade(n, s, p);
    }
  }

  lemma MakesIsFair(n: nat, draw: Source, p: string)
    requires Makes(n, draw, p)
    ensures Fair(draw) && AllDrawn(n, draw)
  {
  }

  ghost predicate Makes(n: nat, draw: Source, p: string)
  {
    Fair(draw) && AllDrawn(n, draw) && Shuffled(Letters(n, draw), Draws(n, draw)) == p
  }

  predicate Picked(s: string, n: nat) { |s| == n && forall k :: 0 <= k < n ==> MayStandAt(k, s[k]) }

  predicate HoldsOf(p: string, k: nat) { exists c <- p :: MayStandAt(k, c) }

  lemma SameCharacters(s: string, p: string)
    requires multiset(s) == multiset(p)
    ensures |s| == |p| && forall c: char :: c in s <==> c in p
  {
    assert |s| == |multiset(s)| && |p| == |multiset(p)|;
    forall c: char ensures c in s <==> c in p {
      assert c in s <==> c in multiset(s);
      assert c in p <==> c in multiset(p);
    }
  }

  lemma SameHolds(s: string, p: string)
    requires multiset(s) == multiset(p)
    ensures forall k: nat :: HoldsOf(s, k) <==> HoldsOf(p, k)
  {
    hide MayStandAt;
    SameCharacters(s, p);
  }

  lemma PickedHolds(s: string, p: string, n: nat)
    requires Picked(s, n) && multiset(s) == multiset(p) && n >= 4
    ensures |p| == n && (forall c <- p :: Legible(c))
    ensures HoldsOf(p, 0) && HoldsOf(p, 1) && HoldsOf(p, 2) && HoldsOf(p, 3)
  {
    hide MayStandAt, Legible;
    SameCharacters(s, p);
    SameHolds(s, p);
    assert s[0] in s && s[1] in s && s[2] in s && s[3] in s;
    forall c <- p ensures Legible(c) {
      var k :| 0 <= k < n && s[k] == c;
      ClassesAreLegible(k, c);
    }
  }

  lemma ClassesAreApart(j: nat, k: nat, c: char)
    requires j < k < 4
    ensures !(MayStandAt(j, c) && MayStandAt(k, c))
  {
  }

  lemma PlaceClass(s: string, k: nat) returns (t: string)
    requires k < 4 <= |s| && HoldsOf(s, k) && forall j :: 0 <= j < k ==> MayStandAt(j, s[j])
    ensures multiset(t) == multiset(s) && |t| == |s| && forall j :: 0 <= j <= k ==> MayStandAt(j, t[j])
  {
    hide MayStandAt;
    var c :| c in s && MayStandAt(k, c);
    var i: nat :| i < |s| && s[i] == c;
    if i < k {
      ClassesAreApart(i, k, c);
    }
    t := Swap(s, k, i);
    SwapKeepsMultiset(s, k, i);
  }

  /** Characters of the four classes can be brought to the front. */
  lemma Unshuffled(p: string, n: nat) returns (s: string)
    requires |p| == n >= 4 && (forall c <- p :: Legible(c))
    requires HoldsOf(p, 0) && HoldsOf(p, 1) && HoldsOf(p, 2) && HoldsOf(p, 3)
    ensures Picked(s, n) && multiset(s) == multiset(p)
  {
    hide MayStandAt, Legible, HoldsOf;
    s := PlaceClass(p, 0);
    SameHolds(s, p);
    s := PlaceClass(s, 1);
    SameHolds(s, p);
    s := PlaceClass(s, 2);
    SameHolds(s, p);
    s := PlaceClass(s, 3);
    SameCharacters(s, p);
    forall k | 0 <= k < n ensures MayStandAt(k, s[k]) {
      assert s[k] in s;
      LegibleStands(k, s[k]);
    }
  }

  lemma LegibleStands(k: nat, c: char)
    ensures k >= 4 && Legible(c) ==> MayStandAt(k, c)
  {
  }

  /** Which passwords can come out: all of the right length that hold legible characters only, and
      one at least of each of the four classes. */
  lemma PasswordsExactly(length: int, p: string)
    ensures (exists draw: Source :: Makes(GeneratedLength(length), draw, p)) <==>
            |p| == (if length < 12 then 12 else length) && (forall c <- p :: Legible(c)) &&
            (exists c <- p :: 'A' <= c <= 'Z') && (exists c <- p :: 'a' <= c <= 'z') &&
            (exists c <- p :: '0' <= c <= '9') && (exists c <- p :: c in "!@#$%^&*")
  {
    hide Makes, Picked, MayStandAt, Legible;
    var n := GeneratedLength(length);
    MakesExactly(length, p);
    if s: string :| Picked(s, n) && multiset(s) == multiset(p) {
      PickedHolds(s, p, n);
    }
    if |p| == n && (forall c <- p :: Legible(c)) && HoldsOf(p, 0) && HoldsOf(p, 1) && HoldsOf(p, 2) && HoldsOf(p, 3) {
      var s := Unshuffled(p, n);
    }
    if forall c <- p :: Legible(c) {
      FourClasses(p);
    }
  }

  /** Among legible characters, the classes of the four first positions are those by range. */
  lemma FourClasses(p: string)
    requires forall c <- p :: Legible(c)
    ensures HoldsOf(p, 0) <==> exists c <- p :: 'A' <= c <= 'Z'
    ensures HoldsOf(p, 1) <==> exists c <- p :: 'a' <= c <= 'z'
    ensures HoldsOf(p, 2) <==> exists c <- p :: '0' <= c <= '9'
    ensures HoldsOf(p, 3) <==> exists c <- p :: c in "!@#$%^&*"
  {
  }
}
