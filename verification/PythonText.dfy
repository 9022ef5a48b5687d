/** What the two Python scripts take for blank space. */
module PythonText {
  /** Characters that str.strip removes and that \s matches. */
  predicate Blank(c: char)
  {
    var u := c as int;
    0x09 <= u <= 0x0D || 0x1C <= u <= 0x20 || u == 0x85 || u == 0xA0 || u == 0x1680 ||
    0x2000 <= u <= 0x200A || u == 0x2028 || u == 0x2029 || u == 0x202F || u == 0x205F || u == 0x3000
  }

  function SkipBlanks(s: string): string { if s != "" && Blank(s[0]) then SkipBlanks(s[1..]) else s }

  function SkipBlanksRight(s: string): (t: string)
    ensures |t| <= |s| && t == s[..|t|]
  {
    if s != "" && Blank(s[|s| - 1]) then SkipBlanksRight(s[..|s| - 1]) else s
  }

  /** str.strip() */
  function Strip(s: string): string { SkipBlanksRight(SkipBlanks(s)) }

  predicate AllBlank(s: string) { forall i :: 0 <= i < |s| ==> Blank(s[i]) }

  predicate NoBlank(s: string) { forall i :: 0 <= i < |s| ==> !Blank(s[i]) }

  predicate StartsSolid(s: string) { s == "" || !Blank(s[0]) }

  predicate EndsSolid(s: string) { s == "" || !Blank(s[|s| - 1]) }

  lemma {:induction false} SkipBlanksOf(b: string, s: string)
    requires AllBlank(b) && StartsSolid(s)
    ensures SkipBlanks(b + s) == s
  {
    hide Blank;
    if b == "" {
      assert b + s == s;
    } else {
      assert (b + s)[1..] == b[1..] + s;
      SkipBlanksOf(b[1..], s);
    }
  }

  lemma {:induction false} SkipBlanksSplit(s: string) returns (b: string)
    ensures s == b + SkipBlanks(s) && AllBlank(b) && StartsSolid(SkipBlanks(s))
  {
    hide Blank;
    if s != "" && Blank(s[0]) {
      b := SkipBlanksSplit(s[1..]);
      b := [s[0]] + b;
    } else {
      b := "";
    }
  }

  lemma {:induction false} SkipBlanksRightOf(s: string, b: string)
    requires AllBlank(b) && EndsSolid(s)
    ensures SkipBlanksRight(s + b) == s
  {
    hide Blank;
    if b == "" {
      assert s + b == s;
    } else {
      assert (s + b)[..|s + b| - 1] == s + b[..|b| - 1];
      SkipBlanksRightOf(s, b[..|b| - 1]);
    }
  }

  /** Blanks around a text that neither begins nor ends with one are what str.strip removes. */
  lemma StripOf(l: string, s: string, r: string)
    requires AllBlank(l) && AllBlank(r) && StartsSolid(s) && EndsSolid(s)
    ensures Strip(l + s + r) == s
  {
    hide Blank, SkipBlanks, SkipBlanksRight;
    if s == "" {
      assert l + s + r == (l + r) + "";
      SkipBlanksOf(l + r, "");
      SkipBlanksRightOf("", "");
      assert "" + "" == "";
    } else {
      assert l + s + r == l + (s + r) && (s + r)[0] == s[0];
      SkipBlanksOf(l, s + r);
      SkipBlanksRightOf(s, r);
    }
  }
}
