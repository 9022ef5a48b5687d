/** The sanitizer's line patterns against the text they stand for, and what becomes of a block of
    rows written out (scripts/sanitize-initdb-sql.py). */
module SanitizerText {
  import opened Numerals
  import opened PythonText
  import opened SqlSanitizer

  predicate Without(s: string, c: char) { forall i :: 0 <= i < |s| ==> s[i] != c }

  // ------------------------------------------------------------- scanners

  lemma {:induction false} WordOf(w: string, s: string)
    requires NoBlank(w) && (s == "" || Blank(s[0]))
    ensures Word(w + s) == w
  {
    hide Blank;
    if w == "" {
      assert w + s == s;
    } else {
      assert (w + s)[1..] == w[1..] + s;
      WordOf(w[1..], s);
    }
  }

  lemma {:induction false} WordSplit(s: string)
    ensures NoBlank(Word(s)) && Word(s) == s[..|Word(s)|]
  {
    hide Blank;
    if s != "" && !Blank(s[0]) {
      WordSplit(s[1..]);
      assert s == [s[0]] + s[1..];
    }
  }

  lemma {:induction false} UpToOf(t: string, c: char, rest: string)
    requires Without(t, c)
    ensures UpTo(t + ([c] + rest), c) == t
  {
    if t == "" {
      assert t + ([c] + rest) == [c] + rest;
    } else {
      assert (t + ([c] + rest))[1..] == t[1..] + ([c] + rest);
      UpToOf(t[1..], c, rest);
    }
  }

  lemma {:induction false} UpToSplit(s: string, c: char)
    ensures Without(UpTo(s, c), c)
    ensures |UpTo(s, c)| < |s| ==> s == UpTo(s, c) + ([c] + s[|UpTo(s, c)| + 1..])
  {
    UpToIs(s, c);
    if s != "" && s[0] != c {
      UpToSplit(s[1..], c);
    }
  }

  // ------------------------------------------------------------- patterns

  const HEADER := "-- Records of "

  /** A block header for `table`: the fixed words, a word, and blanks at most. */
  predicate IsHeader(line: string, table: string, blanks: string)
  {
    line == HEADER + table + blanks && table != "" && NoBlank(table) && AllBlank(blanks)
  }

  lemma HeaderIsRead(line: string, table: string, blanks: string)
    requires IsHeader(line, table, blanks)
    ensures RecordsOf(line) == Some(table)
  {
    hide Blank, SkipBlanks, Word;
    assert |HEADER| == 14 && line == HEADER + (table + blanks);
    assert line[..14] == HEADER && line[14..] == table + blanks;
    WordOf(table, blanks);
    assert line[14 + |table|..] == blanks == blanks + "";
    SkipBlanksOf(blanks, "");
  }

  /** A line opens a block, and for which table, exactly as its text says. */
  lemma RecordsOfExactly(line: string, table: string)
    ensures RecordsOf(line) == Some(table) <==> exists blanks :: IsHeader(line, table, blanks)
  {
    hide Blank, SkipBlanks, Word;
    if RecordsOf(line) == Some(table) {
      var s := line[14..];
      WordSplit(s);
      var blanks := SkipBlanksSplit(line[14 + |table|..]);
      assert line == line[..14] + s && s == table + s[|table|..] && s[|table|..] == line[14 + |table|..] == blanks;
      assert IsHeader(line, table, blanks);
    }
    if blanks :| IsHeader(line, table, blanks) {
      HeaderIsRead(line, table, blanks);
    }
  }

  lemma OpensExactly(line: string)
    ensures Opens(line) <==> exists table, blanks :: IsHeader(line, table, blanks)
  {
    hide RecordsOf, IsHeader;
    if RecordsOf(line).Some? {
      RecordsOfExactly(line, RecordsOf(line).value);
    }
    if table, blanks :| IsHeader(line, table, blanks) {
      RecordsOfExactly(line, table);
    }
  }

  /** A letter of the keyword in either case; I and S have forms beyond ASCII. */
  predicate KeywordChar(c: char, upper: char)
  {
    c == upper || ('a' <= c <= 'z' && c as int == upper as int + 32) ||
    (upper == 'I' && (c == '\U{0130}' || c == '\U{0131}')) || (upper == 'S' && c == '\U{017F}')
  }

  predicate IsInsertInto(kw: string)
  {
    |kw| == 11 && forall i :: 0 <= i < 11 ==> KeywordChar(kw[i], "INSERT INTO"[i])
  }

  lemma KeywordExactly(line: string)
    ensures StartsWithInsertInto(line) <==> |line| >= 11 && IsInsertInto(line[..11])
  {
    forall i, c: char | 0 <= i < 11 ensures SameLetter(c, "INSERT INTO"[i]) <==> KeywordChar(c, "INSERT INTO"[i]) {
      OneLetter(c, "INSERT INTO"[i]);
    }
    hide SameLetter, KeywordChar;
    if |line| >= 11 {
      assert forall i :: 0 <= i < 11 ==> line[..11][i] == line[i];
    }
  }

  lemma OneLetter(c: char, upper: char)
    requires 'A' <= upper <= 'Z' || upper == ' '
    ensures SameLetter(c, upper) <==> KeywordChar(c, upper)
  {
  }

  /** The keyword, blanks, a name in back quotes, blanks, an opening bracket. */
  predicate IsInsert(line: string, table: string, kw: string, b1: string, b2: string, rest: string)
  {
    line == kw + (b1 + ("`" + (table + ("`" + (b2 + ("(" + rest)))))) && IsInsertInto(kw) &&
    b1 != "" && AllBlank(b1) && b2 != "" && AllBlank(b2) && table != "" && Without(table, '`')
  }

  lemma Solid()
    ensures !Blank('`') && !Blank('(') && !Blank('\'')
  {
  }

  lemma InsertIsRead(line: string, table: string, kw: string, b1: string, b2: string, rest: string)
    requires IsInsert(line, table, kw, b1, b2, rest)
    ensures InsertTable(line) == Some(table)
  {
    hide Blank, SkipBlanks, UpTo, IsInsertInto, StartsWithInsertInto;
    KeywordLength(kw);
    KeywordExactly(line);
    Solid();
    var d := "(" + rest;
    var c := b2 + d;
    var b := "`" + (table + ("`" + c));
    assert line[..11] == kw && line[11..] == b1 + b;
    SkipBlanksOf(b1, b);
    UpToOf(table, '`', c);
    assert b[1..] == table + (['`'] + c) && b[|table| + 2..] == c;
    SkipBlanksOf(b2, d);
    assert |b1 + b| > |b| && |c| > |d|;
  }

  lemma KeywordLength(kw: string)
    ensures IsInsertInto(kw) ==> |kw| == 11
  {
  }

  lemma InsertSplits(line: string, table: string) returns (kw: string, b1: string, b2: string, rest: string)
    requires InsertTable(line) == Some(table)
    ensures IsInsert(line, table, kw, b1, b2, rest)
  {
    hide Blank, SkipBlanks, UpTo, IsInsertInto, StartsWithInsertInto;
    KeywordExactly(line);
    kw := line[..11];
    var a := line[11..];
    var b := SkipBlanks(a);
    b1 := SkipBlanksSplit(a);
    UpToSplit(b[1..], '`');
    var c := b[|table| + 2..];
    assert b == "`" + b[1..] && b[1..] == table + (['`'] + c);
    b2 := SkipBlanksSplit(c);
    rest := SkipBlanks(c)[1..];
    assert SkipBlanks(c) == "(" + rest && line == kw + a;
    assert b1 == "" ==> a == b;
    assert b2 == "" ==> c == SkipBlanks(c);
  }

  /** Which table a line inserts into, exactly as its text says. */
  lemma InsertTableExactly(line: string, table: string)
    ensures InsertTable(line) == Some(table) <==>
            exists kw, b1, b2, rest :: IsInsert(line, table, kw, b1, b2, rest)
  {
    hide InsertTable, IsInsert;
    if InsertTable(line) == Some(table) {
      var kw, b1, b2, rest := InsertSplits(line, table);
    }
    if kw, b1, b2, rest :| IsInsert(line, table, kw, b1, b2, rest) {
      InsertIsRead(line, table, kw, b1, b2, rest);
    }
  }

  // ----------------------------------------------------- codes in a VALUES list

  /** A quoted text and what follows it. */
  function QuotedText(code: string, rest: string): string { "'" + (code + ("'" + rest)) }

  lemma QuotedIsRead(code: string, rest: string)
    requires code != "" && Without(code, '\'')
    ensures Quoted(QuotedText(code, rest)) == Some(code)
  {
    hide UpTo;
    var s := QuotedText(code, rest);
    UpToOf(code, '\'', rest);
    assert s[1..] == code + (['\''] + rest);
  }

  lemma QuotedSplits(s: string, code: string) returns (rest: string)
    requires Quoted(s) == Some(code)
    ensures s == QuotedText(code, rest) && code != "" && Without(code, '\'')
  {
    hide UpTo;
    UpToSplit(s[1..], '\'');
    rest := s[|code| + 2..];
    assert s == "'" + s[1..] && s[1..] == code + (['\''] + rest);
  }

  const VALUES := "VALUES"

  /** VALUES, an opening bracket and a quoted code, with blanks between at most. */
  predicate IsFirstCode(s: string, code: string, b1: string, b2: string, rest: string)
  {
    s == VALUES + (b1 + ("(" + (b2 + QuotedText(code, rest)))) && AllBlank(b1) && AllBlank(b2) &&
    code != "" && Without(code, '\'')
  }

  /** The same with one other value and a comma before the code. */
  predicate IsSecondCode(s: string, code: string, b1: string, first: string, b2: string, rest: string)
  {
    s == VALUES + (b1 + ("(" + (first + ("," + (b2 + QuotedText(code, rest)))))) && AllBlank(b1) && AllBlank(b2) &&
    first != "" && Without(first, ',') && code != "" && Without(code, '\'')
  }

  lemma ListIsRead(s: string, b1: string, list: string)
    requires s == VALUES + (b1 + ("(" + list)) && AllBlank(b1)
    ensures AfterValues(s) == Some(list)
  {
    hide SkipBlanks, Blank;
    Solid();
    assert s[..6] == VALUES && s[6..] == b1 + ("(" + list);
    SkipBlanksOf(b1, "(" + list);
  }

  lemma ListSplits(s: string, list: string) returns (b1: string)
    requires AfterValues(s) == Some(list)
    ensures s == VALUES + (b1 + ("(" + list)) && AllBlank(b1)
  {
    hide SkipBlanks, Blank;
    b1 := SkipBlanksSplit(s[6..]);
    assert s == s[..6] + s[6..] && SkipBlanks(s[6..]) == "(" + list;
  }

  lemma FirstCodeAtExactly(s: string, code: string)
    ensures FirstCodeAt(s) == Some(code) <==> exists b1, b2, rest :: IsFirstCode(s, code, b1, b2, rest)
  {
    hide AfterValues, Quoted, SkipBlanks, Blank;
    Solid();
    if FirstCodeAt(s) == Some(code) {
      var list := AfterValues(s).value;
      var b1 := ListSplits(s, list);
      var b2 := SkipBlanksSplit(list);
      var rest := QuotedSplits(SkipBlanks(list), code);
      assert IsFirstCode(s, code, b1, b2, rest);
    }
    if b1, b2, rest :| IsFirstCode(s, code, b1, b2, rest) {
      ListIsRead(s, b1, b2 + QuotedText(code, rest));
      SkipBlanksOf(b2, QuotedText(code, rest));
      QuotedIsRead(code, rest);
    }
  }

  lemma SecondCodeAtExactly(s: string, code: string)
    ensures SecondCodeAt(s) == Some(code) <==>
            exists b1, first, b2, rest :: IsSecondCode(s, code, b1, first, b2, rest)
  {
    hide AfterValues, Quoted, SkipBlanks, Blank, UpTo;
    Solid();
    if SecondCodeAt(s) == Some(code) {
      var list := AfterValues(s).value;
      var b1 := ListSplits(s, list);
      UpToSplit(list, ',');
      var first := UpTo(list, ',');
      var tail := list[|first| + 1..];
      var b2 := SkipBlanksSplit(tail);
      var rest := QuotedSplits(SkipBlanks(tail), code);
      assert list == first + ("," + (b2 + QuotedText(code, rest)));
      assert IsSecondCode(s, code, b1, first, b2, rest);
    }
    if b1, first, b2, rest :| IsSecondCode(s, code, b1, first, b2, rest) {
      var tail := b2 + QuotedText(code, rest);
      ListIsRead(s, b1, first + ("," + tail));
      UpToOf(first, ',', tail);
      assert (first + ("," + tail))[|first| + 1..] == tail;
      SkipBlanksOf(b2, QuotedText(code, rest));
      QuotedIsRead(code, rest);
    }
  }

  /** Nothing matches before `p`. */
  predicate NoneBefore(at: string -> Option<string>, s: string, p: int)
    requires p <= |s|
  {
    forall q :: 0 <= q < p ==> at(s[q..]).None?
  }

  /** A search finds the leftmost match. */
  lemma {:induction false} SearchFinds(at: string -> Option<string>, s: string, p: nat)
    requires p < |s| && at(s[p..]).Some? && NoneBefore(at, s, p)
    ensures Search(at, s) == at(s[p..])
  {
    if p == 0 {
      assert s[0..] == s;
    } else {
      assert s[0..] == s && at(s[0..]).None?;
      assert s[p..] == s[1..][p - 1..];
      forall q | 0 <= q < p - 1 ensures at(s[1..][q..]).None? {
        assert s[1..][q..] == s[q + 1..];
      }
      SearchFinds(at, s[1..], p - 1);
    }
  }

  lemma {:induction false} SearchFound(at: string -> Option<string>, s: string) returns (p: nat)
    requires Search(at, s).Some?
    ensures p < |s| && at(s[p..]) == Search(at, s) && NoneBefore(at, s, p)
  {
    if at(s).Some? {
      p := 0;
      assert s[0..] == s;
    } else {
      p := SearchFound(at, s[1..]);
      assert s[1..][p..] == s[p + 1..];
      forall q | 0 <= q < p + 1 ensures at(s[q..]).None? {
        if q == 0 {
          assert s[0..] == s;
        } else {
          assert s[q..] == s[1..][q - 1..];
        }
      }
      p := p + 1;
    }
  }

  /** The filters look at the leftmost list that has a code in its place. */
  lemma CodesExactly(s: string, code: string)
    ensures FirstCode(s) == Some(code) <==>
            exists p :: 0 <= p < |s| && NoneBefore(FirstCodeAt, s, p) && FirstCodeAt(s[p..]) == Some(code)
    ensures SecondCode(s) == Some(code) <==>
            exists p :: 0 <= p < |s| && NoneBefore(SecondCodeAt, s, p) && SecondCodeAt(s[p..]) == Some(code)
  {
    hide FirstCodeAt, SecondCodeAt, Search, NoneBefore;
    SearchIs(FirstCodeAt, s, code);
    SearchIs(SecondCodeAt, s, code);
  }

  lemma SearchIs(at: string -> Option<string>, s: string, code: string)
    ensures Search(at, s) == Some(code) <==>
            exists p :: 0 <= p < |s| && NoneBefore(at, s, p) && at(s[p..]) == Some(code)
  {
    hide Search, NoneBefore;
    if Search(at, s) == Some(code) {
      var p := SearchFound(at, s);
    }
    if p :| 0 <= p < |s| && NoneBefore(at, s, p) && at(s[p..]) == Some(code) {
      SearchFinds(at, s, p);
    }
  }

  // ------------------------------------------------------------- documents

  /** A row of a table as dumps write it, and one with its values. */
  function RowText(table: string, rest: string): string
  {
    "INSERT INTO" + (" " + ("`" + (table + ("`" + (" " + ("(" + rest))))))
  }

  predicate IsName(table: string) { table != "" && Without(table, '`') }

  predicate OneLine(s: string) { s == "" || s[|s| - 1] != '\n' }

  lemma RowIsRead(table: string, rest: string)
    requires IsName(table)
    ensures InsertTable(RowText(table, rest)) == Some(table)
  {
    hide InsertTable;
    assert IsInsert(RowText(table, rest), table, "INSERT INTO", " ", " ", rest);
    InsertIsRead(RowText(table, rest), table, "INSERT INTO", " ", " ", rest);
  }

  lemma RowEndsOpen(table: string, rest: string)
    requires OneLine(rest)
    ensures OneLine(RowText(table, rest))
  {
  }

  lemma ChompOf(line: string)
    requires OneLine(line)
    ensures Chomp(line + "\n") == line && Normal(line + "\n") == line + "\n"
  {
    assert (line + "\n")[..|line|] == line;
  }

  /** The table's rows are to go: on the drop list, or not on the allowlist. */
  predicate ToDrop(table: string) { table in FORCE_DROP_TABLES || table !in KEEP_INSERT_TABLES }

  lemma HeaderOpens(word: string)
    requires word != "" && NoBlank(word)
    ensures Opens(HEADER + word) && OneLine(HEADER + word)
  {
    hide Blank, RecordsOf;
    assert HEADER + word == HEADER + word + "";
    assert IsHeader(HEADER + word, word, "");
    OpensExactly(HEADER + word);
    NewlineIsBlank();
    assert (HEADER + word)[|HEADER + word| - 1] == word[|word| - 1];
  }

  lemma NewlineIsBlank()
    ensures Blank('\n')
  {
  }

  /** One pass over a block of one row. */
  function Block(word: string, row: string): seq<string>
  {
    [HEADER + word + "\n", row + "\n"]
  }

  lemma BlockIs(word: string, row: string)
    requires word != "" && NoBlank(word) && OneLine(row)
    ensures StateAfter([HEADER + word + "\n"])
    ensures Sanitized(Block(word, row)) ==
            if Drops(true, row) then [HEADER + word + "\n"] else [HEADER + word + "\n", row + "\n"]
  {
    hide Opens, Closes, Unwanted, Drops, Chomp, Normal, Sanitized, StateAfter;
    var header := HEADER + word + "\n";
    HeaderIsKept(word);
    ChompOf(row);
    Extends([header], row + "\n");
    assert [header] + [row + "\n"] == Block(word, row);
  }

  lemma HeaderIsKept(word: string)
    requires word != "" && NoBlank(word)
    ensures var header := HEADER + word + "\n"; StateAfter([header]) && Sanitized([header]) == [header]
  {
    hide Opens, Closes, Unwanted, Drops, Chomp, Normal;
    var header := HEADER + word + "\n";
    HeaderOpens(word);
    ChompOf(HEADER + word);
    NothingOutside(HEADER + word);
    assert [header][..0] == [];
  }

  /** After any header, a row of a table to be dropped goes, whatever its values. */
  lemma RowGoes(word: string, table: string, rest: string)
    requires word != "" && NoBlank(word) && IsName(table) && ToDrop(table) && OneLine(rest)
    ensures Sanitized(Block(word, RowText(table, rest))) == [HEADER + word + "\n"]
  {
    hide Opens, Closes, InsertTable, RowText, Sanitized;
    var row := RowText(table, rest);
    RowEndsOpen(table, rest);
    RowIsRead(table, rest);
    UnwantedIsInsert(row);
    BlockIs(word, row);
  }

  /** The tables of secrets and of accounts are among those. */
  lemma SecretTablesGo(table: string)
    requires table in {"master_seeds", "swap_svc_api_keys", "admin_users", "admin_user_role", "users"}
    ensures ToDrop(table) && IsName(table)
  {
  }

  /** A row of an allowlisted table without a filter stays. */
  lemma RowStaysInBlock(word: string, table: string, rest: string)
    requires word != "" && NoBlank(word) && IsName(table) && !ToDrop(table) && OneLine(rest)
    requires table != "acct_account_types" && table != "acct_account_type_assets"
    ensures Sanitized(Block(word, RowText(table, rest))) == Block(word, RowText(table, rest))
  {
    hide Opens, Closes, InsertTable, RowText, Sanitized;
    var row := RowText(table, rest);
    RowEndsOpen(table, rest);
    RowIsRead(table, rest);
    BlockIs(word, row);
  }

  predicate ValuesAt(s: string, p: int) { 0 <= p && p + 6 <= |s| && s[p..p + 6] == VALUES }

  /** "VALUES" occurs nowhere in the text. */
  predicate NoValues(s: string) { forall p :: 0 <= p <= |s| ==> !ValuesAt(s, p) }

  /** A list whose first value is a code, and one whose second value is. */
  function FirstCoded(code: string, tail: string): string { VALUES + (" " + ("(" + ("" + QuotedText(code, tail)))) }

  function SecondCoded(first: string, code: string, tail: string): string
  {
    VALUES + (" " + ("(" + (first + ("," + (" " + QuotedText(code, tail))))))
  }

  /** Before the first list there is none, not even across its beginning. */
  lemma NotYet(pre: string, list: string, p: nat)
    requires NoValues(pre) && p < |pre|
    ensures !ValuesAt(pre + (VALUES + list), p)
  {
    var s := pre + (VALUES + list);
    assert s[|pre|] == 'V';
    if p + 6 <= |pre| {
      assert s[p..p + 6] == pre[p..p + 6];
      assert !ValuesAt(pre, p);
    } else {
      var k := |pre| - p;
      assert VALUES[k] != 'V' && s[p..p + 6][k] == s[|pre|];
    }
  }

  lemma ListsAtValues(s: string, p: nat)
    requires p <= |s| && !ValuesAt(s, p)
    ensures AfterValues(s[p..]).None?
  {
    if |s[p..]| >= 6 {
      assert s[p..][..6] == s[p..p + 6];
    }
  }

  lemma RowLead(table: string, columns: string)
    requires Without(table, 'V') && NoValues(columns)
    ensures NoValues(RowText(table, columns))
  {
    var lead := RowText(table, "");
    var s := RowText(table, columns);
    assert s == lead + columns;
    assert Without(lead, 'V');
    forall p | 0 <= p <= |s| ensures !ValuesAt(s, p) {
      if p < |lead| {
        assert p + 6 <= |s| ==> s[p..p + 6][0] == lead[p];
      } else {
        assert !ValuesAt(columns, p - |lead|);
        assert p + 6 <= |s| ==> s[p..p + 6] == columns[p - |lead|..p - |lead| + 6];
      }
    }
  }

  /** A search with a pattern that starts with a list finds the first list of such a row. */
  lemma FindsList(at: string -> Option<string>, pre: string, list: string)
    requires NoValues(pre) && (forall s :: AfterValues(s).None? ==> at(s).None?) && at(VALUES + list).Some?
    ensures Search(at, pre + (VALUES + list)) == at(VALUES + list)
  {
    hide AfterValues;
    var s := pre + (VALUES + list);
    assert s[|pre|..] == VALUES + list;
    forall q | 0 <= q < |pre| ensures at(s[q..]).None? {
      NotYet(pre, list, q);
      ListsAtValues(s, q);
    }
    SearchFinds(at, s, |pre|);
  }

  predicate IsCode(code: string) { code != "" && Without(code, '\'') }

  lemma NoListNoCode(s: string)
    ensures AfterValues(s).None? ==> FirstCodeAt(s).None? && SecondCodeAt(s).None?
  {
    hide AfterValues;
  }

  lemma SpaceIsBlank()
    ensures AllBlank(" ") && AllBlank("")
  {
  }

  /** A row is its lead, its columns and its list. */
  lemma RowSplits(table: string, columns: string, list: string)
    ensures RowText(table, columns + list) == RowText(table, columns) + list
  {
  }

  lemma FirstListEnds(code: string, tail: string)
    requires OneLine(tail)
    ensures |FirstCoded(code, tail)| > 0 && OneLine(FirstCoded(code, tail))
  {
  }

  lemma SecondListEnds(first: string, code: string, tail: string)
    requires OneLine(tail)
    ensures |SecondCoded(first, code, tail)| > 0 && OneLine(SecondCoded(first, code, tail))
  {
  }

  lemma EndsWith(a: string, b: string)
    requires b != "" && OneLine(b)
    ensures OneLine(a + b)
  {
  }

  lemma FirstCodeOfRow(columns: string, code: string, tail: string)
    requires NoValues(columns) && IsCode(code)
    ensures FirstCode(RowText("acct_account_types", columns + FirstCoded(code, tail))) == Some(code)
  {
    hide RowText, NoValues, FirstCodeAt, AfterValues, QuotedText, AllBlank;
    var list := " " + ("(" + ("" + QuotedText(code, tail)));
    RowSplits("acct_account_types", columns, FirstCoded(code, tail));
    RowLead("acct_account_types", columns);
    SpaceIsBlank();
    assert IsFirstCode(VALUES + list, code, " ", "", tail);
    FirstCodeAtExactly(VALUES + list, code);
    forall s | AfterValues(s).None? ensures FirstCodeAt(s).None? { NoListNoCode(s); }
    FindsList(FirstCodeAt, RowText("acct_account_types", columns), list);
  }

  lemma SecondCodeOfRow(columns: string, first: string, code: string, tail: string)
    requires NoValues(columns) && IsCode(code) && first != "" && Without(first, ',')
    ensures SecondCode(RowText("acct_account_type_assets", columns + SecondCoded(first, code, tail))) == Some(code)
  {
    hide RowText, NoValues, SecondCodeAt, AfterValues, QuotedText, AllBlank;
    var list := " " + ("(" + (first + ("," + (" " + QuotedText(code, tail)))));
    RowSplits("acct_account_type_assets", columns, SecondCoded(first, code, tail));
    RowLead("acct_account_type_assets", columns);
    SpaceIsBlank();
    assert IsSecondCode(VALUES + list, code, " ", first, " ", tail);
    SecondCodeAtExactly(VALUES + list, code);
    forall s | AfterValues(s).None? ensures SecondCodeAt(s).None? { NoListNoCode(s); }
    FindsList(SecondCodeAt, RowText("acct_account_type_assets", columns), list);
  }

  /** An account type's row stays exactly when its code is one of the six. */
  lemma AccountTypeRow(word: string, columns: string, code: string, tail: string)
    requires word != "" && NoBlank(word) && NoValues(columns) && IsCode(code) && OneLine(tail)
    ensures var row := RowText("acct_account_types", columns + FirstCoded(code, tail));
            Sanitized(Block(word, row)) == if code in ALLOWED_CODES then Block(word, row) else [HEADER + word + "\n"]
  {
    hide Opens, Closes, InsertTable, RowText, Sanitized, NoValues, FirstCode, FirstCoded;
    var rest := columns + FirstCoded(code, tail);
    var row := RowText("acct_account_types", rest);
    FirstListEnds(code, tail);
    EndsWith(columns, FirstCoded(code, tail));
    RowEndsOpen("acct_account_types", rest);
    RowIsRead("acct_account_types", rest);
    FirstCodeOfRow(columns, code, tail);
    UnwantedIsInsert(row);
    BlockIs(word, row);
  }

  /** A row of the types' assets stays exactly when its second value is one of the six codes. */
  lemma TypeAssetRow(word: string, columns: string, first: string, code: string, tail: string)
    requires word != "" && NoBlank(word) && NoValues(columns) && IsCode(code) && OneLine(tail)
    requires first != "" && Without(first, ',')
    ensures var row := RowText("acct_account_type_assets", columns + SecondCoded(first, code, tail));
            Sanitized(Block(word, row)) == if code in ALLOWED_CODES then Block(word, row) else [HEADER + word + "\n"]
  {
    hide Opens, Closes, InsertTable, RowText, Sanitized, NoValues, SecondCode, SecondCoded;
    var rest := columns + SecondCoded(first, code, tail);
    var row := RowText("acct_account_type_assets", rest);
    SecondListEnds(first, code, tail);
    EndsWith(columns, SecondCoded(first, code, tail));
    RowEndsOpen("acct_account_type_assets", rest);
    RowIsRead("acct_account_type_assets", rest);
    SecondCodeOfRow(columns, first, code, tail);
    UnwantedIsInsert(row);
    BlockIs(word, row);
  }

  /** A COMMIT ends the block: the same row goes before it and stays after it. */
  lemma CommitEnds(word: string, table: string, rest: string)
    requires word != "" && NoBlank(word) && IsName(table) && ToDrop(table) && OneLine(rest)
    ensures var row := RowText(table, rest) + "\n";
            Sanitized([HEADER + word + "\n", row, "COMMIT;\n", row]) == [HEADER + word + "\n", "COMMIT;\n", row]
  {
    hide Opens, RecordsOf, InsertTable, RowText, Sanitized, StateAfter;
    var header, text := HEADER + word + "\n", RowText(table, rest);
    var row := text + "\n";
    RowEndsOpen(table, rest);
    RowIsRead(table, rest);
    UnwantedIsInsert(text);
    RowGoes(word, table, rest);
    BlockIs(word, text);
    ChompOf(text);
    assert "COMMIT;" + "\n" == "COMMIT;\n";
    ChompOf("COMMIT;");
    OpensNotCloses("COMMIT;");
    Extends([header], row);
    assert [header] + [row] == Block(word, text);
    Extends(Block(word, text), "COMMIT;\n");
    Extends(Block(word, text) + ["COMMIT;\n"], row);
    var done := Block(word, text) + ["COMMIT;\n"];
    assert StateAfter(Block(word, text)) && Sanitized(Block(word, text)) == [header];
    assert !StateAfter(done) && Sanitized(done) == [header] + ["COMMIT;\n"];
    assert Sanitized(done + [row]) == [header] + ["COMMIT;\n"] + [row];
    assert done + [row] == [header, row, "COMMIT;\n", row];
    assert [header] + ["COMMIT;\n"] + [row] == [header, "COMMIT;\n", row];
  }
}
