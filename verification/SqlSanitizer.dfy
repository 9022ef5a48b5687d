/** The dump sanitizer of scripts/sanitize-initdb-sql.py: one pass over the lines that drops
    unwanted INSERTs inside "Records of" blocks and keeps everything else. */
module SqlSanitizer {
  import opened Numerals
  import opened PythonText

  const KEEP_INSERT_TABLES: set<string> := {
    "admin_menu", "admin_permission", "admin_role", "admin_role_menu", "admin_role_permission",
    "admin_system_configs", "chain", "asset", "alert_configs", "blacklist_addresses", "language",
    "price_units", "currency_settings", "currency_chain_settings",
    "currency_global_transfer_audit_rules", "currency_global_withdraw_audit_rules",
    "currency_global_withdraw_fee_rules", "currency_withdraw_audit_rules",
    "currency_withdraw_fee_rules", "swap_provider", "swap_configs", "vault_networks",
    "acct_account_types", "acct_account_type_assets"
  }

  const FORCE_DROP_TABLES: set<string> := {"master_seeds", "swap_svc_api_keys", "admin_users", "admin_user_role"}

  const ALLOWED_CODES: set<string> := {
    "SYS_ADJUST_EXPENSE", "SYS_ADJUST_INCOME", "SYS_CAPITAL", "SYS_FEE_INCOME", "SYS_WALLET_HOT", "USER_LIABILITY"
  }

  // -------------------------------------------------------- line patterns

  function Word(s: string): (w: string)
    ensures |w| <= |s|
  {
    if s == "" || Blank(s[0]) then "" else [s[0]] + Word(s[1..])
  }

  function UpTo(s: string, stop: char): (w: string)
    ensures |w| <= |s|
  {
    if s == "" || s[0] == stop then "" else [s[0]] + UpTo(s[1..], stop)
  }

  /** ^-- Records of (\S+)\s*$ */
  function RecordsOf(line: string): Option<string>
  {
    if |line| < 14 || line[..14] != "-- Records of " then None
    else
      var w := Word(line[14..]);
      if w != "" && SkipBlanks(line[14 + |w|..]) == "" then Some(w) else None
  }

  /** Letters of the keyword, in either case, with the letters Unicode folds onto them. */
  predicate SameLetter(c: char, upper: char)
  {
    UpperChar(c) == upper || (upper == 'I' && c == '\U{0130}')
  }

  predicate StartsWithInsertInto(line: string)
  {
    var keyword := "INSERT INTO";
    |line| >= |keyword| && forall i :: 0 <= i < |keyword| ==> SameLetter(line[i], keyword[i])
  }

  /** ^INSERT INTO\s+`([^`]+)`\s+\( in any case */
  function InsertTable(line: string): Option<string>
  {
    if !StartsWithInsertInto(line) then None
    else
      var a := line[11..];
      var b := SkipBlanks(a);
      if b == a || b == "" || b[0] != '`' then None
      else
        var table := UpTo(b[1..], '`');
        if table == "" || |table| == |b| - 1 then None
        else
          var c := b[|table| + 2..];
          var d := SkipBlanks(c);
          if d != c && d != "" && d[0] == '(' then Some(table) else None
  }

  /** '([^']+)' at the start */
  function Quoted(s: string): Option<string>
  {
    if s == "" || s[0] != '\'' then None
    else
      var code := UpTo(s[1..], '\'');
      if code == "" || |code| == |s| - 1 then None else Some(code)
  }

  /** What follows VALUES\s*\( at the start */
  function AfterValues(s: string): Option<string>
  {
    if |s| < 6 || s[..6] != "VALUES" then None
    else
      var a := SkipBlanks(s[6..]);
      if a == "" || a[0] != '(' then None else Some(a[1..])
  }

  function FirstCodeAt(s: string): Option<string>
  {
    match AfterValues(s)
    case Some(a) => Quoted(SkipBlanks(a))
    case None => None
  }

  function SecondCodeAt(s: string): Option<string>
  {
    match AfterValues(s)
    case Some(a) =>
      var first := UpTo(a, ',');
      if first == "" || |first| == |a| then None else Quoted(SkipBlanks(a[|first| + 1..]))
    case None => None
  }

  /** re.search: the leftmost match. */
  function Search(at: string -> Option<string>, s: string): Option<string>
  {
    if s == "" then None else if at(s).Some? then at(s) else Search(at, s[1..])
  }

  /** VALUES\s*\(\s*'([^']+)' */
  function FirstCode(s: string): Option<string> { Search(FirstCodeAt, s) }

  /** VALUES\s*\(\s*[^,]+,\s*'([^']+)' */
  function SecondCode(s: string): Option<string> { Search(SecondCodeAt, s) }

  predicate Allowed(code: Option<string>) { code.Some? && code.value in ALLOWED_CODES }

  /** The row filters; tables without one keep every row. */
  predicate PassesFilter(table: string, line: string)
  {
    if table == "acct_account_types" then Allowed(FirstCode(line))
    else if table == "acct_account_type_assets" then Allowed(SecondCode(line))
    else true
  }

  /** An INSERT that must not stay in a records block. */
  predicate Unwanted(line: string)
  {
    var table := InsertTable(line);
    table.Some? &&
    (table.value in FORCE_DROP_TABLES || table.value !in KEEP_INSERT_TABLES || !PassesFilter(table.value, line))
  }

  // --------------------------------------------------------------- one pass

  predicate Opens(line: string) { RecordsOf(line).Some? }

  predicate Closes(line: string) { line == "COMMIT;" }

  /** raw.rstrip("\n") */
  function Chomp(raw: string): (line: string)
    ensures line == "" || line[|line| - 1] != '\n'
    ensures raw == "" || raw[|raw| - 1] != '\n' ==> line == raw
  {
    if raw != "" && raw[|raw| - 1] == '\n' then Chomp(raw[..|raw| - 1]) else raw
  }

  function Normal(raw: string): string { Chomp(raw) + "\n" }

  function NextState(inRecords: bool, line: string): bool
  {
    if Opens(line) then true else if inRecords && Closes(line) then false else inRecords
  }

  predicate Drops(inRecords: bool, line: string)
  {
    inRecords && !Opens(line) && !Closes(line) && Unwanted(line)
  }

  function StateAfter(lines: seq<string>): bool
  {
    if lines == [] then false else NextState(StateAfter(lines[..|lines| - 1]), Chomp(lines[|lines| - 1]))
  }

  function Sanitized(lines: seq<string>): seq<string>
  {
    if lines == [] then []
    else
      var init, last := lines[..|lines| - 1], lines[|lines| - 1];
      if Drops(StateAfter(init), Chomp(last)) then Sanitized(init) else Sanitized(init) + [Normal(last)]
  }

  method SanitizeLines(lines: seq<string>) returns (out: seq<string>)
    ensures out == Sanitized(lines)
  {
    hide RecordsOf, InsertTable, PassesFilter;
    out := [];
    var inRecords := false;
    for i := 0 to |lines|
      invariant inRecords == StateAfter(lines[..i]) && out == Sanitized(lines[..i])
    {
      assert lines[..i + 1][..i] == lines[..i];
      var line := Chomp(lines[i]);
      if RecordsOf(line).Some? {
        inRecords := true;
        out := out + [line + "\n"];
        continue;
      }
      if inRecords && line == "COMMIT;" {
        inRecords := false;
        out := out + [line + "\n"];
        continue;
      }
      if inRecords {
        var table := InsertTable(line);
        if table.None? {
          out := out + [line + "\n"];
          continue;
        }
        if table.value in FORCE_DROP_TABLES {
          continue;
        }
        if table.value !in KEEP_INSERT_TABLES {
          continue;
        }
        if !PassesFilter(table.value, line) {
          continue;
        }
        out := out + [line + "\n"];
        continue;
      }
      out := out + [line + "\n"];
    }
    assert lines[..|lines|] == lines;
  }

  // --------------------------------------------------------- what it keeps

  /** Line `i` lies in a block: some header before it, and no COMMIT in between. */
  ghost predicate InBlock(lines: seq<string>, i: nat)
    requires i <= |lines|
  {
    exists j :: OpenFrom(lines, j, i)
  }

  ghost predicate OpenFrom(lines: seq<string>, j: int, i: nat)
    requires i <= |lines|
  {
    0 <= j < i && Opens(Chomp(lines[j])) && forall k :: j < k < i ==> !Closes(Chomp(lines[k]))
  }

  lemma OpensNotCloses(line: string)
    ensures !(Opens(line) && Closes(line))
  {
  }

  /** The flag the loop carries is membership in a block. */
  lemma {:induction false} StateIsBlock(lines: seq<string>)
    ensures StateAfter(lines) <==> InBlock(lines, |lines|)
  {
    hide Opens, Closes;
    if lines != [] {
      var n := |lines| - 1;
      var init := lines[..n];
      StateIsBlock(init);
      OpensNotCloses(Chomp(lines[n]));
      if Opens(Chomp(lines[n])) {
        assert OpenFrom(lines, n, |lines|);
      } else {
        if j :| OpenFrom(init, j, n) && !Closes(Chomp(lines[n])) {
          assert OpenFrom(lines, j, |lines|);
        }
        if j :| OpenFrom(lines, j, |lines|) {
          assert OpenFrom(init, j, n);
        }
      }
    }
  }

  /** Dropped are exactly the unwanted INSERTs inside a block. */
  ghost predicate Dropped(lines: seq<string>, i: nat)
    requires i < |lines|
  {
    InBlock(lines, i) && Unwanted(Chomp(lines[i]))
  }

  /** The lines that are not dropped, in order, each ended by one newline. */
  ghost function Kept(lines: seq<string>, n: nat): seq<string>
    requires n <= |lines|
  {
    if n == 0 then []
    else if Dropped(lines, n - 1) then Kept(lines, n - 1)
    else Kept(lines, n - 1) + [Normal(lines[n - 1])]
  }

  lemma UnwantedIsInsert(line: string)
    ensures Unwanted(line) ==> !Opens(line) && !Closes(line)
  {
    if Unwanted(line) {
      assert SameLetter(line[0], 'I');
    }
  }

  lemma BlockOfPrefix(lines: seq<string>, m: nat, i: nat)
    requires i <= m <= |lines|
    ensures InBlock(lines[..m], i) <==> InBlock(lines, i)
  {
    if j :| OpenFrom(lines[..m], j, i) {
      assert OpenFrom(lines, j, i);
    }
    if j :| OpenFrom(lines, j, i) {
      assert OpenFrom(lines[..m], j, i);
    }
  }

  lemma {:induction false} KeptOfPrefix(lines: seq<string>, m: nat, n: nat)
    requires n <= m <= |lines|
    ensures Kept(lines[..m], n) == Kept(lines, n)
  {
    hide InBlock, Unwanted;
    if n > 0 {
      KeptOfPrefix(lines, m, n - 1);
      BlockOfPrefix(lines, m, n - 1);
    }
  }

  /** The loop keeps exactly the lines that are not an unwanted INSERT inside a block; nothing
      is reordered or changed but for its line ending. */
  lemma {:induction false} KeepsExactly(lines: seq<string>)
    ensures Sanitized(lines) == Kept(lines, |lines|)
  {
    hide InBlock, Unwanted, Opens, Closes;
    if lines != [] {
      var n := |lines| - 1;
      var init, last := lines[..n], Chomp(lines[n]);
      KeepsExactly(init);
      KeptOfPrefix(lines, n, n);
      StateIsBlock(init);
      BlockOfPrefix(lines, n, n);
      UnwantedIsInsert(last);
    }
  }

  // ------------------------------------------------------------ idempotence

  lemma ChompNormal(raw: string)
    ensures Chomp(Normal(raw)) == Chomp(raw)
  {
    assert Normal(raw)[..|Normal(raw)| - 1] == Chomp(raw);
  }

  lemma Extends(lines: seq<string>, raw: string)
    ensures StateAfter(lines + [raw]) == NextState(StateAfter(lines), Chomp(raw))
    ensures Sanitized(lines + [raw]) ==
            if Drops(StateAfter(lines), Chomp(raw)) then Sanitized(lines) else Sanitized(lines) + [Normal(raw)]
  {
    assert (lines + [raw])[..|lines|] == lines;
  }

  /** Sanitizing again changes nothing, and every block opens and closes as before. */
  lemma {:induction false} Idempotent(lines: seq<string>)
    ensures Sanitized(Sanitized(lines)) == Sanitized(lines)
    ensures StateAfter(Sanitized(lines)) == StateAfter(lines)
  {
    if lines != [] {
      hide Opens, Closes, Unwanted;
      var init, last := lines[..|lines| - 1], lines[|lines| - 1];
      Idempotent(init);
      if !Drops(StateAfter(init), Chomp(last)) {
        Extends(Sanitized(init), Normal(last));
        ChompNormal(last);
        ChompNormal(Normal(last));
      }
    }
  }

  /** Left alone are exactly the documents whose lines end in one newline each and hold no
      unwanted INSERT in a block. */
  lemma UnchangedExactly(lines: seq<string>)
    ensures Sanitized(lines) == lines <==>
            forall i :: 0 <= i < |lines| ==> lines[i] == Normal(lines[i]) && !Dropped(lines, i)
  {
    hide Dropped, Sanitized, Kept, Normal;
    KeepsExactly(lines);
    KeptAll(lines, |lines|);
    assert lines[..|lines|] == lines;
  }

  lemma {:induction false} KeptAll(lines: seq<string>, n: nat)
    requires n <= |lines|
    ensures |Kept(lines, n)| <= n
    ensures Kept(lines, n) == lines[..n] <==>
            forall i :: 0 <= i < n ==> lines[i] == Normal(lines[i]) && !Dropped(lines, i)
  {
    hide Dropped, Normal;
    if n > 0 {
      KeptAll(lines, n - 1);
      assert lines[..n] == lines[..n - 1] + [lines[n - 1]];
      if Kept(lines, n) == lines[..n] {
        assert Kept(lines, n)[..n - 1] == lines[..n - 1];
      }
    }
  }

  /** No records block of the result holds an unwanted INSERT. */
  lemma NothingUnwantedLeft(lines: seq<string>, i: nat)
    requires i < |Sanitized(lines)| && InBlock(Sanitized(lines), i)
    ensures !Unwanted(Chomp(Sanitized(lines)[i]))
  {
    Idempotent(lines);
    UnchangedExactly(Sanitized(lines));
  }

  /** In particular the secret and account tables lose every row that a block held. */
  lemma SecretsAreGone(lines: seq<string>, i: nat, table: string)
    requires i < |Sanitized(lines)| && InBlock(Sanitized(lines), i)
    requires InsertTable(Chomp(Sanitized(lines)[i])) == Some(table)
    ensures table in KEEP_INSERT_TABLES && table !in FORCE_DROP_TABLES
  {
    NothingUnwantedLeft(lines, i);
  }

  // ------------------------------------------------- what it lets through

  predicate Clean(lines: seq<string>) { forall i :: 0 <= i < |lines| ==> !Unwanted(Chomp(lines[i])) }

  lemma CleanExtends(lines: seq<string>, raw: string)
    ensures Clean(lines + [raw]) <==> Clean(lines) && !Unwanted(Chomp(raw))
  {
    hide Unwanted, Chomp;
    assert (lines + [raw])[|lines|] == raw;
    if Clean(lines + [raw]) {
      assert forall i :: 0 <= i < |lines| ==> (lines + [raw])[i] == lines[i];
    }
  }

  /** Every unwanted INSERT among the first `n` lines stands in a block. */
  ghost predicate AllInBlocks(lines: seq<string>, n: nat)
    requires n <= |lines|
  {
    forall i :: 0 <= i < n && Unwanted(Chomp(lines[i])) ==> InBlock(lines, i)
  }

  /** Nothing unwanted is left at all exactly when every unwanted INSERT stood in a block. */
  lemma AllGoneExactly(lines: seq<string>)
    ensures Clean(Sanitized(lines)) <==> AllInBlocks(lines, |lines|)
  {
    hide Clean, AllInBlocks, Sanitized, Kept;
    KeepsExactly(lines);
    KeptUnwanted(lines, |lines|);
  }

  lemma {:induction false} KeptUnwanted(lines: seq<string>, n: nat)
    requires n <= |lines|
    ensures Clean(Kept(lines, n)) <==> AllInBlocks(lines, n)
  {
    hide Unwanted, InBlock, Normal, Clean;
    if n > 0 {
      KeptUnwanted(lines, n - 1);
      ChompNormal(lines[n - 1]);
      CleanExtends(Kept(lines, n - 1), Normal(lines[n - 1]));
    } else {
      NothingIsClean();
    }
  }

  lemma NothingIsClean()
    ensures Clean([])
  {
  }

  /** "".join(lines) */
  function Joined(lines: seq<string>): string
  {
    if lines == [] then "" else Joined(lines[..|lines| - 1]) + lines[|lines| - 1]
  }

  predicate SameName(c: char, letter: char)
  {
    SameLetter(c, UpperChar(letter)) || (letter == 'k' && c == '\U{212A}')
  }

  /** INSERT INTO\s+`table` at the start, in any case */
  predicate InsertsInto(s: string, table: string)
  {
    StartsWithInsertInto(s) &&
    var a := s[11..];
    var b := SkipBlanks(a);
    b != a && |b| >= |table| + 2 && b[0] == '`' && b[|table| + 1] == '`' &&
    forall i :: 0 <= i < |table| ==> SameName(b[i + 1], table[i])
  }

  ghost predicate Holds(text: string, table: string) { exists p :: 0 <= p <= |text| && InsertsInto(text[p..], table) }

  /** What `main` writes: nothing when the result still holds an INSERT into a table of secrets. */
  ghost function Written(lines: seq<string>): Option<seq<string>>
  {
    var out := Sanitized(lines);
    if Holds(Joined(out), "master_seeds") || Holds(Joined(out), "swap_svc_api_keys") then None else Some(out)
  }

  lemma {:induction false} LineIsJoined(lines: seq<string>, i: nat) returns (p: nat, tail: string)
    requires i < |lines|
    ensures p <= |Joined(lines)| && Joined(lines)[p..] == lines[i] + tail
  {
    var init, last := lines[..|lines| - 1], lines[|lines| - 1];
    if i == |lines| - 1 {
      p, tail := |Joined(init)|, "";
    } else {
      p, tail := LineIsJoined(init, i);
      assert Joined(lines)[p..] == Joined(init)[p..] + last;
      tail := tail + last;
      assert Joined(lines)[p..] == lines[i] + tail;
    }
  }

  lemma {:induction false} BlanksBefore(s: string, tail: string)
    requires SkipBlanks(s) != ""
    ensures SkipBlanks(s + tail) == SkipBlanks(s) + tail
  {
    if Blank(s[0]) {
      assert (s + tail)[1..] == s[1..] + tail;
      BlanksBefore(s[1..], tail);
    }
  }

  lemma {:induction false} UpToIs(s: string, stop: char)
    ensures UpTo(s, stop) == s[..|UpTo(s, stop)|] && (|UpTo(s, stop)| < |s| ==> s[|UpTo(s, stop)|] == stop)
  {
    if s != "" && s[0] != stop {
      UpToIs(s[1..], stop);
      assert s == [s[0]] + s[1..];
    }
  }

  predicate LowerCase(table: string) { forall i :: 0 <= i < |table| ==> 'a' <= table[i] <= 'z' || table[i] == '_' }

  /** An INSERT line makes the joined text hold one, whatever follows it. */
  lemma InsertIsFound(line: string, table: string, tail: string)
    requires InsertTable(line) == Some(table) && LowerCase(table)
    ensures InsertsInto(line + tail, table)
  {
    var a := line[11..];
    var b := SkipBlanks(a);
    assert (line + tail)[11..] == a + tail;
    BlanksBefore(a, tail);
    UpToIs(b[1..], '`');
    assert b[|table| + 1] == b[1..][|table|] == '`';
    forall i | 0 <= i < |table| ensures SameName((b + tail)[i + 1], table[i]) {
      assert (b + tail)[i + 1] == b[1..][i] == table[i];
    }
    assert |b| < |a| by { BlanksShorten(a); }
    assert |b + tail| < |a + tail|;
  }

  lemma {:induction false} BlanksShorten(s: string)
    ensures |SkipBlanks(s)| <= |s| && (|SkipBlanks(s)| == |s| ==> SkipBlanks(s) == s)
  {
    if s != "" && Blank(s[0]) {
      BlanksShorten(s[1..]);
    }
  }

  lemma ChompIsPrefix(raw: string)
    ensures |Chomp(raw)| <= |raw| && raw == Chomp(raw) + raw[|Chomp(raw)|..]
  {
    if raw != "" && raw[|raw| - 1] == '\n' {
      ChompIsPrefix(raw[..|raw| - 1]);
    }
  }

  lemma ChompedIsJoined(lines: seq<string>, i: nat) returns (p: nat, tail: string)
    requires i < |lines|
    ensures p <= |Joined(lines)| && Joined(lines)[p..] == Chomp(lines[i]) + tail
  {
    hide Joined, Chomp;
    p, tail := LineIsJoined(lines, i);
    ChompIsPrefix(lines[i]);
    Regroup(Chomp(lines[i]), lines[i][|Chomp(lines[i])|..], tail);
    tail := lines[i][|Chomp(lines[i])|..] + tail;
  }

  lemma Regroup(a: string, b: string, c: string)
    ensures (a + b) + c == a + (b + c)
  {
  }

  lemma InsertIsHeld(lines: seq<string>, i: nat, table: string)
    requires i < |lines| && LowerCase(table) && InsertTable(Chomp(lines[i])) == Some(table)
    ensures Holds(Joined(lines), table)
  {
    hide InsertTable, InsertsInto, Joined, LowerCase, Chomp, Holds;
    var p, tail := ChompedIsJoined(lines, i);
    InsertIsFound(Chomp(lines[i]), table, tail);
    FoundAt(Joined(lines), p, table);
  }

  lemma FoundAt(text: string, p: nat, table: string)
    requires p <= |text| && InsertsInto(text[p..], table)
    ensures Holds(text, table)
  {
  }

  /** Whatever stands outside the blocks, no line that is written inserts into a table of secrets. */
  lemma SecretsAreNeverWritten(lines: seq<string>, i: nat, table: string)
    requires Written(lines).Some? && i < |Written(lines).value|
    requires table in {"master_seeds", "swap_svc_api_keys"}
    ensures InsertTable(Chomp(Written(lines).value[i])) != Some(table)
  {
    hide Sanitized, InsertTable, Holds;
    if InsertTable(Chomp(Sanitized(lines)[i])) == Some(table) {
      InsertIsHeld(Sanitized(lines), i, table);
    }
  }

  // ---------------------------------------------------------- a stray row

  const LEAD := "INSERT INTO `"

  const TRAIL := "` (1);"

  /** A row of a table, as a line. */
  function RowLine(table: string): string { LEAD + table + TRAIL }

  lemma {:induction false} UpToTick(t: string, rest: string)
    requires LowerCase(t)
    ensures UpTo(t + ("`" + rest), '`') == t
  {
    if t != "" {
      assert (t + ("`" + rest))[1..] == t[1..] + ("`" + rest);
      UpToTick(t[1..], rest);
    } else {
      assert t + ("`" + rest) == "`" + rest;
    }
  }

  lemma OneBlank(s: string)
    requires s != "" && !Blank(s[0])
    ensures SkipBlanks(" " + s) == s
  {
    assert (" " + s)[1..] == s;
  }

  lemma RowParts(table: string)
    ensures StartsWithInsertInto(RowLine(table)) && |RowLine(table)| == |table| + 19
    ensures RowLine(table)[11..] == " " + ("`" + (table + ("`" + " (1);")))
  {
    var row := RowLine(table);
    assert forall i :: 0 <= i < |LEAD| ==> row[i] == LEAD[i];
    assert LEAD[11..] == " `";
    assert row == LEAD + (table + TRAIL);
    assert row[11..] == LEAD[11..] + (table + TRAIL);
    assert TRAIL == "`" + " (1);";
  }

  lemma RowIsInsert(table: string)
    requires LowerCase(table) && table != ""
    ensures InsertTable(RowLine(table)) == Some(table)
  {
    hide Blank, StartsWithInsertInto;
    RowParts(table);
    var b := "`" + (table + ("`" + " (1);"));
    NoBlanks();
    OneBlank(b);
    UpToTick(table, " (1);");
    assert b[1..] == table + ("`" + " (1);");
    var c := " " + "(1);";
    assert b[|table| + 2..] == c;
    OneBlank("(1);");
  }

  lemma NoBlanks()
    ensures !Blank('`') && !Blank('(')
  {
  }

  /** The row does not open or close a block, and its line end is as it should be. */
  lemma RowStays(table: string)
    requires LowerCase(table) && table != ""
    ensures var lines := [RowLine(table) + "\n"]; Sanitized(lines) == lines && Chomp(lines[0]) == RowLine(table)
  {
    hide Drops, RowLine;
    var raw := RowLine(table) + "\n";
    assert RowLine(table)[|RowLine(table)| - 1] == ';' by { RowEnds(table); }
    assert raw[..|raw| - 1] == RowLine(table);
    assert !Drops(false, Chomp(raw)) by { NothingOutside(Chomp(raw)); }
    assert [raw][..0] == [];
  }

  lemma NothingOutside(line: string)
    ensures !Drops(false, line)
  {
  }

  lemma RowEnds(table: string)
    ensures RowLine(table) != "" && RowLine(table)[|RowLine(table)| - 1] == ';'
  {
  }

  lemma RowLetters(table: string, i: nat)
    requires i < |table| + 20
    ensures var text := RowLine(table) + "\n";
            |text| == |table| + 20 &&
            text[i] == if i < 13 then LEAD[i] else if i < 13 + |table| then table[i - 13]
                       else (TRAIL + "\n")[i - 13 - |table|]
  {
  }

  /** INSERT INTO occurs once in such a text. */
  lemma OnlyAtStart(table: string, p: nat)
    requires LowerCase(table) && p <= |RowLine(table) + "\n"| && StartsWithInsertInto((RowLine(table) + "\n")[p..])
    ensures p == 0
  {
    var text, n := RowLine(table) + "\n", |table|;
    RowLetters(table, 0);
    assert |text[p..]| >= 11;
    assert text[p..][0] == text[p] && text[p..][6] == text[p + 6] && text[p..][10] == text[p + 10] by {
      hide RowLine;
    }
    hide RowLine, StartsWithInsertInto;
    assert SameLetter(text[p], 'I') && text[p + 6] == ' ' && SameLetter(text[p + 10], 'O') by {
      StartLetters(text[p..]);
    }
    RowLetters(table, p);
    RowLetters(table, p + 6);
    RowLetters(table, p + 10);
  }

  lemma StartLetters(s: string)
    requires StartsWithInsertInto(s)
    ensures |s| >= 11 && SameLetter(s[0], 'I') && s[6] == ' ' && SameLetter(s[10], 'O')
  {
    assert "INSERT INTO"[0] == 'I' && "INSERT INTO"[6] == ' ' && "INSERT INTO"[10] == 'O';
  }

  /** A secret row that no header precedes is kept by the pass, and refused by `main`; one of the
      administrators' table is kept and written. */
  lemma StrayRows(table: string)
    requires table in FORCE_DROP_TABLES && LowerCase(table)
    ensures var lines := [RowLine(table) + "\n"];
            Unwanted(Chomp(lines[0])) && Sanitized(lines) == lines &&
            (Written(lines) == if table == "master_seeds" || table == "swap_svc_api_keys" then None else Some(lines))
  {
    hide InsertTable, RowLine, Sanitized, InsertsInto, LowerCase;
    RowStays(table);
    RowIsInsert(table);
    var lines := [RowLine(table) + "\n"];
    if table == "master_seeds" || table == "swap_svc_api_keys" {
      if Written(lines).Some? {
        SecretsAreNeverWritten(lines, 0, table);
      }
    } else {
      OneLine(lines);
      NotHeld(table, "master_seeds");
      NotHeld(table, "swap_svc_api_keys");
    }
  }

  lemma OneLine(lines: seq<string>)
    requires |lines| == 1
    ensures Joined(lines) == lines[0]
  {
    assert lines[..0] == [];
  }

  lemma HeldName(table: string, secret: string)
    requires LowerCase(table) && table != "" && secret != "" && Holds(RowLine(table) + "\n", secret)
    ensures SameName(table[0], secret[0])
  {
    var text := RowLine(table) + "\n";
    var p: nat :| p <= |text| && InsertsInto(text[p..], secret);
    OnlyAtStart(table, p);
    assert text[0..] == text;
    RowParts(table);
    var b := "`" + (table + ("`" + " (1);"));
    assert text[11..] == (" " + b) + "\n";
    NoBlanks();
    OneBlank(b);
    BlanksBefore(" " + b, "\n");
    assert (b + "\n")[1] == table[0];
  }

  lemma NotHeld(table: string, secret: string)
    requires table in {"admin_users", "admin_user_role"} && secret in {"master_seeds", "swap_svc_api_keys"}
    ensures !Holds(RowLine(table) + "\n", secret)
  {
    hide RowLine, Holds;
    assert table[0] == 'a' && !SameName('a', secret[0]);
    if Holds(RowLine(table) + "\n", secret) {
      HeldName(table, secret);
    }
  }
}
