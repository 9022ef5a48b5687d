/** The manifest audit of scripts/audit-secrets-manager-required.py: a line-driven machine that
    collects, from ExternalSecret manifests, which properties of which secrets are required. */
module ExternalSecrets {
  import opened Numerals
  import opened PythonText

  /** Properties that must exist, and whether the secret itself must be non-empty. */
  datatype Required = Required(properties: set<string>, nonEmpty: bool)

  type Requirements = map<string, Required>

  const NOTHING := Required({}, false)

  // -------------------------------------------------------- line patterns

  function StripQuotes(raw: string): string
  {
    var s := Strip(raw);
    if |s| >= 2 && s[0] == s[|s| - 1] && (s[0] == '"' || s[0] == '\'') then s[1..|s| - 1] else s
  }

  /** The rest of a line after blanks and a keyword. */
  function After(keyword: string, line: string): Option<string>
  {
    var s := SkipBlanks(line);
    if |s| >= |keyword| && s[..|keyword|] == keyword then Some(s[|keyword|..]) else None
  }

  /** ^\s*-\s*secretKey:\s*.+\s*$ */
  predicate StartsItem(line: string)
  {
    match After("-", line)
    case Some(rest) => (match After("secretKey:", rest) case Some(name) => name != "" case None => false)
    case None => false
  }

  /** ^\s*key:\s*(.+?)\s*$, without blanks and quotes */
  function KeyOf(line: string): Option<string>
  {
    match After("key:", line)
    case Some(rest) => if rest == "" then None else Some(StripQuotes(rest))
    case None => None
  }

  predicate WordChar(c: char) { 'A' <= c <= 'Z' || 'a' <= c <= 'z' || '0' <= c <= '9' || c == '_' }

  /** ^\s*property:\s*([A-Za-z0-9_]+)\s*$ */
  function PropertyOf(line: string): Option<string>
  {
    match After("property:", line)
    case Some(rest) =>
      var name := Strip(rest);
      if name != "" && forall i :: 0 <= i < |name| ==> WordChar(name[i]) then Some(name) else None
    case None => None
  }

  /** What a line is to the parser, in the order in which it asks. */
  datatype Line = Item | Key(key: string) | Property(name: string) | Separator | Other

  function Classify(line: string): Line
  {
    if StartsItem(line) then Item
    else if KeyOf(line).Some? then Key(KeyOf(line).value)
    else if PropertyOf(line).Some? then Property(PropertyOf(line).value)
    else if Strip(line) == "---" then Separator
    else Other
  }

  /** Lines that end the reference before them. */
  predicate Ends(line: Line) { line.Item? || line.Key? || line.Separator? }

  // --------------------------------------------------------------- machine

  datatype State = State(required: Requirements, pendingKey: Option<string>, pendingProp: Option<string>, inItem: bool)

  const INITIAL := State(map[], None, None, false)

  function Lookup(m: Requirements, k: string): Required { if k in m then m[k] else NOTHING }

  function AddReference(m: Requirements, k: string, prop: Option<string>): Requirements
  {
    var s := Lookup(m, k);
    m[k := if prop.Some? then Required(s.properties + {prop.value}, s.nonEmpty) else Required(s.properties, true)]
  }

  /** An empty key counts as none. */
  predicate HasKey(s: State) { s.pendingKey.Some? && s.pendingKey.value != "" }

  function Flush(s: State): State
  {
    State(if HasKey(s) then AddReference(s.required, s.pendingKey.value, s.pendingProp) else s.required,
          None, None, false)
  }

  function Step(s: State, line: Line): State
  {
    match line
    case Item => Flush(s).(inItem := true)
    case Key(k) => Flush(s).(pendingKey := Some(k), inItem := true)
    case Property(p) => if s.inItem && HasKey(s) then s.(pendingProp := Some(p)) else s
    case Separator => Flush(s)
    case Other => s
  }

  function RunFrom(s: State, lines: seq<Line>): State
    decreases lines
  {
    if lines == [] then s else RunFrom(Step(s, lines[0]), lines[1..])
  }

  function Parse(lines: seq<Line>): Requirements { Flush(RunFrom(INITIAL, lines)).required }

  function Lines(text: seq<string>): (lines: seq<Line>)
    ensures |lines| == |text| && forall i :: 0 <= i < |text| ==> lines[i] == Classify(text[i])
  {
    seq(|text|, i requires 0 <= i < |text| => Classify(text[i]))
  }

  method ParseExternalSecrets(text: seq<string>) returns (required: Requirements)
    ensures required == Parse(Lines(text))
  {
    hide StartsItem, KeyOf, PropertyOf, Strip, AddReference;
    var lines := Lines(text);
    required := map[];
    var pendingKey: Option<string>, pendingProp: Option<string>, inItem := None, None, false;
    for i := 0 to |text|
      invariant RunFrom(INITIAL, lines) == RunFrom(State(required, pendingKey, pendingProp, inItem), lines[i..])
    {
      ghost var s := State(required, pendingKey, pendingProp, inItem);
      assert lines[i..][0] == Classify(text[i]) && lines[i..][1..] == lines[i + 1..];
      if StartsItem(text[i]) {
        required := FlushInto(required, pendingKey, pendingProp);
        pendingKey, pendingProp, inItem := None, None, true;
        continue;
      }
      var key := KeyOf(text[i]);
      if key.Some? {
        required := FlushInto(required, pendingKey, pendingProp);
        pendingKey, pendingProp, inItem := key, None, true;
        continue;
      }
      if inItem && pendingKey.Some? && pendingKey.value != "" {
        var prop := PropertyOf(text[i]);
        if prop.Some? {
          pendingProp := prop;
          continue;
        }
      }
      if Strip(text[i]) == "---" {
        assert PropertyOf(text[i]).None? by { SeparatorIsNoProperty(text[i]); }
        required := FlushInto(required, pendingKey, pendingProp);
        pendingKey, pendingProp, inItem := None, None, false;
      }
    }
    required := FlushInto(required, pendingKey, pendingProp);
  }

  method FlushInto(before: Requirements, key: Option<string>, prop: Option<string>) returns (after: Requirements)
    ensures forall inItem :: after == Flush(State(before, key, prop, inItem)).required
  {
    after := before;
    if key.None? || key.value == "" {
      return;
    }
    after := AddReference(after, key.value, prop);
  }

  lemma SeparatorIsNoProperty(line: string)
    requires Strip(line) == "---"
    ensures PropertyOf(line).None?
  {
    var s := SkipBlanks(line);
    assert s[..3] == "---";
    assert |s| >= 9 ==> s[..9][0] == '-';
  }

  // ----------------------------------------------------------------- merge

  function Join(a: Required, b: Required): Required { Required(a.properties + b.properties, a.nonEmpty || b.nonEmpty) }

  function Merge(a: Requirements, b: Requirements): Requirements
  {
    map k | k in a.Keys + b.Keys :: Join(Lookup(a, k), Lookup(b, k))
  }

  method MergeRequired(a: Requirements, b: Requirements) returns (out: Requirements)
    ensures out == Merge(a, b)
  {
    out := a;
    var rest := b.Keys;
    while rest != {}
      invariant rest <= b.Keys && out.Keys == a.Keys + (b.Keys - rest)
      invariant forall k :: k in out ==> out[k] == if k in rest then a[k] else Join(Lookup(a, k), Lookup(b, k))
      decreases rest
    {
      var k :| k in rest;
      out := out[k := Join(Lookup(out, k), b[k])];
      rest := rest - {k};
    }
  }

  lemma LookupMerge(a: Requirements, b: Requirements, k: string)
    ensures Lookup(Merge(a, b), k) == Join(Lookup(a, k), Lookup(b, k))
    ensures k in Merge(a, b) <==> k in a || k in b
  {
  }

  lemma SameRequirements(a: Requirements, b: Requirements)
    requires a.Keys == b.Keys && forall k :: k in a ==> Lookup(a, k) == Lookup(b, k)
    ensures a == b
  {
  }

  lemma MergeCommutes(a: Requirements, b: Requirements)
    ensures Merge(a, b) == Merge(b, a)
  {
    forall k ensures Join(Lookup(a, k), Lookup(b, k)) == Join(Lookup(b, k), Lookup(a, k)) {}
    assert Merge(a, b).Keys == Merge(b, a).Keys;
  }

  lemma JoinAssociates(x: Required, y: Required, z: Required)
    ensures Join(Join(x, y), z) == Join(x, Join(y, z))
  {
    assert (x.properties + y.properties) + z.properties == x.properties + (y.properties + z.properties);
  }

  lemma AssociatesAt(a: Requirements, b: Requirements, c: Requirements, k: string)
    ensures var x, y := Merge(Merge(a, b), c), Merge(a, Merge(b, c));
            Lookup(x, k) == Lookup(y, k) && (k in x <==> k in y)
  {
    hide Merge, Lookup, Join;
    LookupMerge(Merge(a, b), c, k);
    LookupMerge(a, b, k);
    LookupMerge(a, Merge(b, c), k);
    LookupMerge(b, c, k);
    JoinAssociates(Lookup(a, k), Lookup(b, k), Lookup(c, k));
  }

  lemma MergeAssociates(a: Requirements, b: Requirements, c: Requirements)
    ensures Merge(Merge(a, b), c) == Merge(a, Merge(b, c))
  {
    hide Merge, Lookup;
    var x, y := Merge(Merge(a, b), c), Merge(a, Merge(b, c));
    forall k ensures Lookup(x, k) == Lookup(y, k) && (k in x <==> k in y) {
      AssociatesAt(a, b, c, k);
    }
    SameRequirements(x, y);
  }

  lemma MergeNeutral(a: Requirements)
    ensures Merge(a, a) == a && Merge(map[], a) == a && Merge(a, map[]) == a
  {
    forall k | k in a
      ensures Join(Lookup(a, k), Lookup(a, k)) == Join(NOTHING, Lookup(a, k)) == Join(Lookup(a, k), NOTHING) == a[k]
    {
    }
    SameRequirements(Merge(a, a), a);
    SameRequirements(Merge(map[], a), a);
    SameRequirements(Merge(a, map[]), a);
  }

  /** Merging is a join: order, grouping and repetition do not matter. */
  lemma MergeIsJoin(a: Requirements, b: Requirements, c: Requirements)
    ensures Merge(a, b) == Merge(b, a)
    ensures Merge(Merge(a, b), c) == Merge(a, Merge(b, c))
    ensures Merge(a, a) == a && Merge(map[], a) == a && Merge(a, map[]) == a
  {
    hide Merge;
    MergeCommutes(a, b);
    MergeAssociates(a, b, c);
    MergeNeutral(a);
  }

  // ------------------------------------------------------- what it collects

  /** The property of the reference whose key line stands before `lines`: the last one before
      the next item, key or separator. */
  function BlockProperty(lines: seq<Line>): Option<string>
  {
    if lines == [] || Ends(lines[0]) then None
    else if BlockProperty(lines[1..]).Some? then BlockProperty(lines[1..])
    else if lines[0].Property? then Some(lines[0].name)
    else None
  }

  function Reference(k: string, prop: Option<string>): Requirements
  {
    if k == "" then map[]
    else map[k := if prop.Some? then Required({prop.value}, false) else Required({}, true)]
  }

  /** The specification: the references of all key lines, each read off its own block. */
  function References(lines: seq<Line>): Requirements
  {
    if lines == [] then map[]
    else if lines[0].Key? then
      Merge(Reference(lines[0].key, BlockProperty(lines[1..])), References(lines[1..]))
    else References(lines[1..])
  }

  /** The reference the machine is still reading, once the block has been read to its end. */
  function Open(s: State, lines: seq<Line>): Requirements
  {
    if !HasKey(s) then map[]
    else Reference(s.pendingKey.value, if BlockProperty(lines).Some? then BlockProperty(lines) else s.pendingProp)
  }

  lemma AddIsMerge(m: Requirements, k: string, prop: Option<string>)
    requires k != ""
    ensures AddReference(m, k, prop) == Merge(m, Reference(k, prop))
  {
    var x, y := AddReference(m, k, prop), Merge(m, Reference(k, prop));
    forall j | j in x ensures Lookup(x, j) == Lookup(y, j) {
      LookupMerge(m, Reference(k, prop), j);
    }
    SameRequirements(x, y);
  }

  predicate KeyInItem(s: State) { HasKey(s) ==> s.inItem }

  /** One machine step moves a reference from open to collected, and loses none. */
  lemma StepCollects(s: State, lines: seq<Line>)
    requires lines != [] && KeyInItem(s)
    ensures KeyInItem(Step(s, lines[0]))
    ensures Merge(Merge(Step(s, lines[0]).required, Open(Step(s, lines[0]), lines[1..])), References(lines[1..]))
            == Merge(Merge(s.required, Open(s, lines)), References(lines))
  {
    hide Merge, AddReference, Reference;
    var t, rest := Step(s, lines[0]), References(lines[1..]);
    MergeIsJoin(s.required, map[], map[]);
    if Ends(lines[0]) {
      assert t.required == Merge(s.required, Open(s, lines)) by {
        if HasKey(s) {
          AddIsMerge(s.required, s.pendingKey.value, s.pendingProp);
        }
      }
      assert lines[0].Key? ==> Open(t, lines[1..]) == Reference(lines[0].key, BlockProperty(lines[1..])) by {
        EmptyKey();
      }
      MergeIsJoin(t.required, Open(t, lines[1..]), rest);
      MergeIsJoin(t.required, map[], map[]);
    }
  }

  lemma EmptyKey()
    ensures forall prop :: Reference("", prop) == map[]
  {
  }

  lemma {:induction false} RunCollects(s: State, lines: seq<Line>)
    requires KeyInItem(s)
    ensures Flush(RunFrom(s, lines)).required == Merge(Merge(s.required, Open(s, lines)), References(lines))
    decreases lines
  {
    if lines == [] {
      if HasKey(s) {
        AddIsMerge(s.required, s.pendingKey.value, s.pendingProp);
      }
      MergeIsJoin(Flush(s).required, map[], map[]);
      MergeIsJoin(s.required, map[], map[]);
    } else {
      hide Merge, Step, Open, Flush;
      StepCollects(s, lines);
      RunCollects(Step(s, lines[0]), lines[1..]);
    }
  }

  /** The machine collects exactly the references of the key lines. */
  lemma ParseCollects(lines: seq<Line>)
    ensures Parse(lines) == References(lines)
  {
    RunCollects(INITIAL, lines);
    MergeIsJoin(References(lines), map[], map[]);
  }

  predicate Refers(lines: seq<Line>, i: nat, k: string, prop: Option<string>)
  {
    i < |lines| && k != "" && lines[i] == Key(k) && BlockProperty(lines[i + 1..]) == prop
  }

  lemma {:induction false} Referred(lines: seq<Line>, k: string, prop: Option<string>)
    ensures var r := Lookup(References(lines), k);
            (if prop.Some? then prop.value in r.properties else r.nonEmpty) <==>
            exists i: nat :: Refers(lines, i, k, prop)
    decreases lines
  {
    hide BlockProperty;
    if lines != [] {
      var rest := lines[1..];
      Referred(rest, k, prop);
      if i: nat :| Refers(rest, i, k, prop) {
        assert rest[i + 1..] == lines[i + 2..];
        assert Refers(lines, i + 1, k, prop);
      }
      if i: nat :| Refers(lines, i, k, prop) && i > 0 {
        assert rest[i..] == lines[i + 1..];
        assert Refers(rest, i - 1, k, prop);
      }
      assert Refers(lines, 0, k, prop) <==> k != "" && lines[0] == Key(k) && BlockProperty(rest) == prop;
    }
  }

  /** What is required, line by line: a property exactly when some key line's block ends with
      it, the whole secret exactly when some key line's block has none. */
  lemma RequiredExactly(lines: seq<Line>, k: string, p: string)
    ensures p in Lookup(Parse(lines), k).properties <==> exists i: nat :: Refers(lines, i, k, Some(p))
    ensures Lookup(Parse(lines), k).nonEmpty <==> exists i: nat :: Refers(lines, i, k, None)
  {
    ParseCollects(lines);
    Referred(lines, k, Some(p));
    Referred(lines, k, None);
  }

  // --------------------------------------------------------------- joining

  lemma {:induction false} BlockStopsAt(a: seq<Line>, b: seq<Line>)
    requires b == [] || Ends(b[0])
    ensures BlockProperty(a + b) == BlockProperty(a)
  {
    if a == [] {
      assert a + b == b;
    } else {
      assert (a + b)[1..] == a[1..] + b;
      BlockStopsAt(a[1..], b);
    }
  }

  /** Two documents joined where the second begins with an item, a key or a separator require
      what the two require alone. */
  lemma {:induction false} JoinedDocuments(a: seq<Line>, b: seq<Line>)
    requires b == [] || Ends(b[0])
    ensures References(a + b) == Merge(References(a), References(b))
  {
    if a == [] {
      assert a + b == b;
      MergeIsJoin(References(b), map[], map[]);
    } else {
      hide Merge, Reference;
      assert (a + b)[1..] == a[1..] + b;
      JoinedDocuments(a[1..], b);
      BlockStopsAt(a[1..], b);
      var first := Reference(if a[0].Key? then a[0].key else "", BlockProperty(a[1..]));
      MergeIsJoin(first, References(a[1..]), References(b));
    }
  }

  /** Parsing two documents joined by a separator line is merging what each one requires. */
  lemma SeparatorMerges(a: seq<Line>, b: seq<Line>)
    ensures Parse(a + [Separator] + b) == Merge(Parse(a), Parse(b))
  {
    hide Parse, Merge, BlockProperty;
    assert a + [Separator] + b == a + ([Separator] + b);
    JoinedDocuments(a, [Separator] + b);
    assert ([Separator] + b)[1..] == b;
    assert References([Separator] + b) == References(b);
    ParseCollects(a + [Separator] + b);
    ParseCollects(a);
    ParseCollects(b);
  }

  /** The order within a reference matters: a property written before its key is not seen, and
      the whole secret is required instead. */
  lemma PropertyBeforeKeyIsLost(k: string, p: string)
    requires k != ""
    ensures Parse([Item, Property(p), Key(k)]) == map[k := Required({}, true)]
    ensures Parse([Item, Key(k), Property(p)]) == map[k := Required({p}, false)]
  {
    hide Merge, Parse;
    MergeNeutral(Reference(k, None));
    MergeNeutral(Reference(k, Some(p)));
    ParseCollects([Item, Property(p), Key(k)]);
    ParseCollects([Item, Key(k), Property(p)]);
    assert BlockProperty([]) == None && BlockProperty([Property(p)]) == Some(p) && References([]) == map[];
    assert References([Property(p)]) == map[] && References([Key(k)]) == Reference(k, None);
    assert References([Key(k), Property(p)]) == Reference(k, Some(p));
    assert [Item, Property(p), Key(k)][1..] == [Property(p), Key(k)] && [Property(p), Key(k)][1..] == [Key(k)];
    assert [Item, Key(k), Property(p)][1..] == [Key(k), Property(p)] && [Key(k), Property(p)][1..] == [Property(p)];
  }

  // ------------------------------------------------------ the lines' own text

  lemma AfterOf(b: string, keyword: string, rest: string)
    requires AllBlank(b) && keyword != "" && !Blank(keyword[0])
    ensures After(keyword, b + (keyword + rest)) == Some(rest)
  {
    hide Blank, SkipBlanks;
    assert (keyword + rest)[0] == keyword[0];
    SkipBlanksOf(b, keyword + rest);
    assert (keyword + rest)[..|keyword|] == keyword && (keyword + rest)[|keyword|..] == rest;
  }

  /** A line whose first character that is not blank differs from the keyword's. */
  lemma NotAfter(b: string, text: string, keyword: string)
    requires AllBlank(b) && text != "" && !Blank(text[0]) && keyword != "" && text[0] != keyword[0]
    ensures After(keyword, b + text).None?
  {
    hide Blank, SkipBlanks;
    SkipBlanksOf(b, text);
    if |text| >= |keyword| {
      assert text[..|keyword|][0] == text[0];
    }
  }

  lemma Solid()
    ensures !Blank('k') && !Blank('p') && !Blank('-') && !Blank('s') && !Blank('"') && !Blank('\'')
  {
  }

  predicate Quote(q: char) { q == '"' || q == '\'' }

  /** A value as it stands, unless it is in quotes. */
  predicate Bare(value: string)
  {
    value != "" && StartsSolid(value) && EndsSolid(value) && !(Quote(value[0]) && value[0] == value[|value| - 1])
  }

  /** A pair of quotes is taken off, with the blanks around it; anything else stays. */
  lemma StripQuotesExactly(l: string, value: string, r: string, q: char)
    requires AllBlank(l) && AllBlank(r)
    ensures Bare(value) ==> StripQuotes(l + value + r) == value
    ensures Quote(q) ==> StripQuotes(l + ([q] + value + [q]) + r) == value
    ensures Quote(q) ==> StripQuotes(l + [q] + r) == [q]
    ensures StripQuotes(l) == ""
  {
    hide Blank, Strip;
    Solid();
    if Bare(value) {
      StripOf(l, value, r);
    }
    if Quote(q) {
      var quoted := [q] + value + [q];
      assert quoted[0] == q && quoted[|quoted| - 1] == q && quoted[1..|quoted| - 1] == value;
      StripOf(l, quoted, r);
      StripOf(l, [q], r);
    }
    StripOf(l, "", "");
    assert l + "" + "" == l;
  }

  /** A key line, with the key bare or in quotes. */
  lemma KeyLineExactly(b: string, l: string, value: string, r: string, q: char)
    requires AllBlank(b) && AllBlank(l) && AllBlank(r)
    ensures Bare(value) ==> Classify(b + ("key:" + (l + value + r))) == Key(value)
    ensures Quote(q) ==> Classify(b + ("key:" + (l + ([q] + value + [q]) + r))) == Key(value)
  {
    hide Blank, After, StripQuotes, Strip;
    Solid();
    StripQuotesExactly(l, value, r, q);
    forall rest: string | rest != "" ensures Classify(b + ("key:" + rest)) == Key(StripQuotes(rest)) {
      AfterOf(b, "key:", rest);
      assert ("key:" + rest)[0] == 'k';
      NotAfter(b, "key:" + rest, "-");
    }
  }

  /** An item line: a dash, the keyword and a name. Without a name, or without its value, a line
      says nothing. */
  lemma ItemLineExactly(b: string, l: string, name: string)
    requires AllBlank(b) && AllBlank(l)
    ensures Classify(b + ("-" + (l + ("secretKey:" + name)))) == if name != "" then Item else Other
    ensures Classify(b + ("key:" + "")) == Other && Classify(b + ("property:" + l)) == Other
  {
    hide Blank, After, Strip;
    Solid();
    var item := "-" + (l + ("secretKey:" + name));
    AfterOf(b, "-", l + ("secretKey:" + name));
    AfterOf(l, "secretKey:", name);
    NotAfter(b, item, "key:");
    NotAfter(b, item, "property:");
    if name == "" {
      NoSeparator(b, item);
    }
    KeywordAlone(b, l);
  }

  lemma KeywordAlone(b: string, l: string)
    requires AllBlank(b) && AllBlank(l)
    ensures Classify(b + ("key:" + "")) == Other && Classify(b + ("property:" + l)) == Other
  {
    hide Blank, After, Strip;
    Solid();
    var key, prop := "key:" + "", "property:" + l;
    AfterOf(b, "key:", "");
    NotAfter(b, key, "-");
    NotAfter(b, key, "property:");
    NotSeparator(b, key);
    AfterOf(b, "property:", l);
    NotAfter(b, prop, "-");
    NotAfter(b, prop, "key:");
    NotSeparator(b, prop);
    StripOf(l, "", "");
    assert l + "" + "" == l;
  }

  /** A longer line that begins with a dash is no separator. */
  lemma NoSeparator(b: string, item: string)
    requires AllBlank(b) && |item| >= 2 && item[0] == '-' && item[|item| - 1] == ':'
    ensures Strip(b + item) != "---"
  {
    hide Blank;
    Solid();
    assert !Blank(':') by { ColonIsSolid(); }
    StripOf(b, item, "");
    assert b + item + "" == b + item;
  }

  lemma ColonIsSolid()
    ensures !Blank(':')
  {
  }

  predicate IsProperty(name: string) { name != "" && forall i :: 0 <= i < |name| ==> WordChar(name[i]) }

  lemma PropertyIsSolid(name: string)
    requires IsProperty(name)
    ensures StartsSolid(name) && EndsSolid(name)
  {
    assert WordChar(name[0]) && WordChar(name[|name| - 1]);
  }

  /** A property line: the keyword and a word of letters, digits and underscores. */
  lemma PropertyLineExactly(b: string, l: string, name: string, r: string)
    requires AllBlank(b) && AllBlank(l) && AllBlank(r) && IsProperty(name)
    ensures Classify(b + ("property:" + (l + name + r))) == Property(name)
  {
    hide Blank, After, Strip;
    Solid();
    PropertyIsSolid(name);
    var text := "property:" + (l + name + r);
    assert text[0] == 'p';
    AfterOf(b, "property:", l + name + r);
    NotAfter(b, text, "-");
    NotAfter(b, text, "key:");
    StripOf(l, name, r);
  }

  /** Three dashes separate documents; other text says nothing unless it begins with one of the
      keywords. */
  lemma OtherLinesExactly(b: string, text: string, r: string)
    requires AllBlank(b) && AllBlank(r)
    ensures Classify(b + "---" + r) == Separator
    ensures text != "" && !Blank(text[0]) && text[0] !in {'-', 'k', 'p'} ==> Classify(b + text) == Other
  {
    hide Blank, After, Strip;
    Solid();
    var dashes := "-" + ("--" + r);
    assert b + "---" + r == b + dashes && dashes[0] == '-' && ("--" + r)[0] == '-';
    AfterOf(b, "-", "--" + r);
    NotAfter("", "--" + r, "secretKey:");
    assert "" + ("--" + r) == "--" + r;
    NotAfter(b, dashes, "key:");
    NotAfter(b, dashes, "property:");
    StripOf(b, "---", r);
    if text != "" && !Blank(text[0]) && text[0] !in {'-', 'k', 'p'} {
      NotAfter(b, text, "-");
      NotAfter(b, text, "key:");
      NotAfter(b, text, "property:");
      NotSeparator(b, text);
    }
  }

  lemma NotSeparator(b: string, text: string)
    requires AllBlank(b) && text != "" && !Blank(text[0]) && text[0] != '-'
    ensures Strip(b + text) != "---"
  {
    hide Blank, SkipBlanks;
    SkipBlanksOf(b, text);
    var t := SkipBlanksRight(text);
    assert t != "" ==> t[0] == text[0];
  }

  /** A manifest with one reference, however it is indented: the key's property is required, or
      the whole secret when no property is named. */
  lemma ReferenceIsRequired(b: seq<string>, secret: string, key: string, q: char, prop: string)
    requires |b| == 4 && (forall i :: 0 <= i < 4 ==> AllBlank(b[i])) && secret != "" && key != "" && Quote(q)
    requires IsProperty(prop)
    ensures var item, remote := b[0] + ("-" + (" " + ("secretKey:" + secret))), b[1] + "remoteRef:";
            var keyLine := b[2] + ("key:" + (" " + ([q] + key + [q]) + ""));
            var propLine := b[3] + ("property:" + (" " + prop + ""));
            Parse(Lines([item, remote, keyLine, propLine])) == map[key := Required({prop}, false)] &&
            Parse(Lines([item, remote, keyLine])) == map[key := Required({}, true)]
  {
    hide Blank, Classify, Parse, Merge, IsProperty;
    var item, remote := b[0] + ("-" + (" " + ("secretKey:" + secret))), b[1] + "remoteRef:";
    var keyLine := b[2] + ("key:" + (" " + ([q] + key + [q]) + ""));
    var propLine := b[3] + ("property:" + (" " + prop + ""));
    BlanksAre();
    ItemLineExactly(b[0], " ", secret);
    OtherLinesExactly(b[1], "remoteRef:", "");
    KeyLineExactly(b[2], " ", key, "", q);
    PropertyLineExactly(b[3], " ", prop, "");
    assert Lines([item, remote, keyLine, propLine]) == [Item, Other, Key(key), Property(prop)];
    assert Lines([item, remote, keyLine]) == [Item, Other, Key(key)];
    OneReference(key, prop);
  }

  lemma BlanksAre()
    ensures AllBlank(" ") && AllBlank("") && !Blank('r')
  {
  }

  lemma OneReference(key: string, prop: string)
    requires key != ""
    ensures Parse([Item, Other, Key(key), Property(prop)]) == map[key := Required({prop}, false)]
    ensures Parse([Item, Other, Key(key)]) == map[key := Required({}, true)]
  {
    hide Merge, Parse;
    MergeNeutral(Reference(key, None));
    MergeNeutral(Reference(key, Some(prop)));
    ParseCollects([Item, Other, Key(key), Property(prop)]);
    ParseCollects([Item, Other, Key(key)]);
    assert BlockProperty([]) == None && BlockProperty([Property(prop)]) == Some(prop) && References([]) == map[];
    assert References([Property(prop)]) == map[] && References([Key(key)]) == Reference(key, None);
    assert References([Key(key), Property(prop)]) == Reference(key, Some(prop));
    assert [Item, Other, Key(key), Property(prop)][1..] == [Other, Key(key), Property(prop)];
    assert [Other, Key(key), Property(prop)][1..] == [Key(key), Property(prop)];
    assert [Item, Other, Key(key)][1..] == [Other, Key(key)] && [Other, Key(key)][1..] == [Key(key)];
  }
}
