/** Request metadata from context to wire and back (common/interceptor/metadata.go), as the
    readers of common/middleware/metadata.go and common/middleware/auth.go see it. */
module RequestMetadata {
  import opened Numerals

  /** The sixteen fields, in the order in which the interceptors treat them. */
  datatype Field =
    | UserID | Email | ClientIP | UserAgent | Fingerprint | DeviceID | Platform | AppVersion
    | Locale | HTTPMethod | HTTPPath | RequestID | IdempotencyKey | JWTID | JWTExp | JWTVer
  {
    /** Header name on the wire. */
    function Wire(): string
    {
      match this
      case UserID => "x-user-id"
      case Email => "x-email"
      case ClientIP => "x-client-ip"
      case UserAgent => "x-user-agent"
      case Fingerprint => "x-device-fingerprint"
      case DeviceID => "x-device-id"
      case Platform => "x-platform"
      case AppVersion => "x-app-version"
      case Locale => "x-locale"
      case HTTPMethod => "x-http-method"
      case HTTPPath => "x-http-path"
      case RequestID => "x-request-id"
      case IdempotencyKey => "x-idempotency-key"
      case JWTID => "x-jwt-id"
      case JWTExp => "x-jwt-exp"
      case JWTVer => "x-jwt-ver"
    }

    function Key(): Key
    {
      match this
      case UserID => Plain("user_id")
      case Email => Plain("email")
      case ClientIP => Typed("client-ip")
      case UserAgent => Typed("user-agent")
      case Fingerprint => Typed("device-fingerprint")
      case DeviceID => Typed("device-id")
      case Platform => Typed("platform")
      case AppVersion => Typed("app-version")
      case Locale => Typed("locale")
      case HTTPMethod => Typed("http-method")
      case HTTPPath => Typed("http-path")
      case RequestID => Typed("request-id")
      case IdempotencyKey => Typed("idempotency-key")
      case JWTID => Typed("jwt-id")
      case JWTExp => Typed("jwt-exp")
      case JWTVer => Typed("jwt-ver")
    }

    /** Place in the interceptors' order. */
    function Rank(): (r: nat)
    {
      match this
      case UserID => 0
      case Email => 1
      case ClientIP => 2
      case UserAgent => 3
      case Fingerprint => 4
      case DeviceID => 5
      case Platform => 6
      case AppVersion => 7
      case Locale => 8
      case HTTPMethod => 9
      case HTTPPath => 10
      case RequestID => 11
      case IdempotencyKey => 12
      case JWTID => 13
      case JWTExp => 14
      case JWTVer => 15
    }

    predicate Numeric() { JWTExp? || JWTVer? }

    predicate Trims() { HTTPMethod? || HTTPPath? }
  }

  /** A context key is a plain string or one of the package's own key type; the two never meet. */
  datatype Key = Plain(name: string) | Typed(name: string)

  datatype Value = Text(text: string) | Number(number: int) | Other

  /** What a chain of context.WithValue answers: the newest binding of every key. */
  type Context = map<Key, Value>

  /** gRPC metadata: a header name with its values. */
  type MD = map<string, seq<string>>

  const HEADERS: set<string> := set f: Field :: f.Wire()

  const KEYS: set<Key> := set f: Field :: f.Key()

  /** Length, first letter and last letter of a name tell the fields apart. */
  function FieldOfMark(length: nat, first: char, last: char): Field
  {
    if length == 5 then Email
    else if length == 6 then if first == 'l' then Locale else JWTID
    else if length == 7 then if first == 'u' then UserID else if last == 'p' then JWTExp else JWTVer
    else if length == 8 then Platform
    else if length == 9 then if first == 'c' then ClientIP else if first == 'h' then HTTPPath else DeviceID
    else if length == 10 then if first == 'u' then UserAgent else RequestID
    else if length == 11 then if first == 'h' then HTTPMethod else AppVersion
    else if length == 15 then IdempotencyKey
    else Fingerprint
  }

  function FieldOfHeader(header: string): Field
  {
    if |header| > 2 then FieldOfMark(|header| - 2, header[2], header[|header| - 1]) else UserID
  }

  function FieldOfKey(key: Key): Field
  {
    if key.name == "" then UserID else FieldOfMark(|key.name|, key.name[0], key.name[|key.name| - 1])
  }

  /** Every field has its own header and its own context key. */
  lemma FieldsAreApart(f: Field)
    ensures FieldOfHeader(f.Wire()) == f && f.Wire() in HEADERS
    ensures FieldOfKey(f.Key()) == f && f.Key() in KEYS
  {
    hide Field.Wire, Field.Key, FieldOfHeader, FieldOfKey;
    HeadersAreApart(f);
    KeysAreApart(f);
  }

  lemma HeadersAreApart(f: Field)
    ensures FieldOfHeader(f.Wire()) == f
  {
  }

  lemma KeysAreApart(f: Field)
    ensures FieldOfKey(f.Key()) == f
  {
  }

  // --------------------------------------------------------------- readers

  /** The Get readers of text fields: "" for a missing or mistyped value. */
  function Read(ctx: Context, f: Field): string
  {
    if f.Key() in ctx && ctx[f.Key()].Text? then
      if f.Trims() then TrimSpace(ctx[f.Key()].text) else ctx[f.Key()].text
    else ""
  }

  /** The Get readers of integer fields. */
  function ReadNumber(ctx: Context, f: Field): int
  {
    if f.Key() in ctx && ctx[f.Key()].Number? then ctx[f.Key()].number else 0
  }

  predicate IsInt64(n: int) { -0x8000_0000_0000_0000 <= n < 0x8000_0000_0000_0000 }

  /** Numbers in a context are int64 values. */
  predicate Typeable(ctx: Context) { forall k <- ctx :: ctx[k].Number? ==> IsInt64(ctx[k].number) }

  /** strconv.ParseInt(s, 10, 64) */
  function ParseInt64(s: string): Option<int>
  {
    match ParseInt(s)
    case Some(n) => if IsInt64(n) then Some(n) else None
    case None => None
  }

  lemma ParseInt64Exactly(s: string, n: int)
    ensures ParseInt64(s) == Some(n) <==>
            ParseInt(s) == Some(n) && -9_223_372_036_854_775_808 <= n <= 9_223_372_036_854_775_807
  {
    hide ParseInt;
  }

  // ------------------------------------------------------ context to wire

  /** What is sent for a field, "" for nothing: integers only when positive. */
  function WireText(ctx: Context, f: Field): string
  {
    if !f.Numeric() then Read(ctx, f)
    else if ReadNumber(ctx, f) > 0 then IntToString(ReadNumber(ctx, f))
    else ""
  }

  function ExtractStep(md: MD, ctx: Context, f: Field): MD
  {
    var text := WireText(ctx, f);
    if text != "" then md[f.Wire() := [text]] else md
  }

  /** The headers of the fields before place `n`. */
  function ExtractBefore(ctx: Context, n: nat): MD
  {
    map k | k in HEADERS && FieldOfHeader(k).Rank() < n && WireText(ctx, FieldOfHeader(k)) != "" ::
      [WireText(ctx, FieldOfHeader(k))]
  }

  /** The specification: one header for every field that has something to send. */
  function Extract(ctx: Context): MD
  {
    map k | k in HEADERS && WireText(ctx, FieldOfHeader(k)) != "" :: [WireText(ctx, FieldOfHeader(k))]
  }

  lemma HeaderOf(k: string)
    requires k in HEADERS
    ensures FieldOfHeader(k).Wire() == k
  {
    var f: Field :| f.Wire() == k;
    FieldsAreApart(f);
  }

  lemma KeyOf(k: Key)
    requires k in KEYS
    ensures FieldOfKey(k).Key() == k
  {
    var f: Field :| f.Key() == k;
    FieldsAreApart(f);
  }

  lemma RankIs(f: Field, g: Field)
    ensures f.Rank() == g.Rank() <==> f == g
  {
  }

  /** The map filled so far. */
  ghost predicate Filled(ctx: Context, md: MD, n: nat) { md == ExtractBefore(ctx, n) }

  lemma ExtractNext(ctx: Context, md: MD, f: Field, n: nat)
    requires Filled(ctx, md, n) && n == f.Rank()
    ensures Filled(ctx, ExtractStep(md, ctx, f), n + 1)
  {
    FieldsAreApart(f);
    hide Field.Wire, Field.Key, Field.Rank, WireText, FieldOfHeader;
    forall k | k in HEADERS
      ensures FieldOfHeader(k).Wire() == k && (FieldOfHeader(k).Rank() == f.Rank() <==> FieldOfHeader(k) == f)
    {
      HeaderOf(k);
      RankIs(FieldOfHeader(k), f);
    }
  }

  lemma ExtractEnds(ctx: Context, md: MD)
    ensures Filled(ctx, map[], 0) && (Filled(ctx, md, 16) <==> md == Extract(ctx))
  {
    hide Field.Wire, WireText, FieldOfHeader;
  }

  method ExtractMetadataFromContext(ctx: Context) returns (md: MD)
    ensures md == Extract(ctx)
  {
    hide Filled, ExtractStep, Extract;
    ExtractEnds(ctx, map[]);
    md := map[];
    ExtractNext(ctx, md, UserID, 0);
    md := ExtractStep(md, ctx, UserID);
    ExtractNext(ctx, md, Email, 1);
    md := ExtractStep(md, ctx, Email);
    ExtractNext(ctx, md, ClientIP, 2);
    md := ExtractStep(md, ctx, ClientIP);
    ExtractNext(ctx, md, UserAgent, 3);
    md := ExtractStep(md, ctx, UserAgent);
    ExtractNext(ctx, md, Fingerprint, 4);
    md := ExtractStep(md, ctx, Fingerprint);
    ExtractNext(ctx, md, DeviceID, 5);
    md := ExtractStep(md, ctx, DeviceID);
    ExtractNext(ctx, md, Platform, 6);
    md := ExtractStep(md, ctx, Platform);
    ExtractNext(ctx, md, AppVersion, 7);
    md := ExtractStep(md, ctx, AppVersion);
    ExtractNext(ctx, md, Locale, 8);
    md := ExtractStep(md, ctx, Locale);
    ExtractNext(ctx, md, HTTPMethod, 9);
    md := ExtractStep(md, ctx, HTTPMethod);
    ExtractNext(ctx, md, HTTPPath, 10);
    md := ExtractStep(md, ctx, HTTPPath);
    ExtractNext(ctx, md, RequestID, 11);
    md := ExtractStep(md, ctx, RequestID);
    ExtractNext(ctx, md, IdempotencyKey, 12);
    md := ExtractStep(md, ctx, IdempotencyKey);
    ExtractNext(ctx, md, JWTID, 13);
    md := ExtractStep(md, ctx, JWTID);
    ExtractNext(ctx, md, JWTExp, 14);
    md := ExtractStep(md, ctx, JWTExp);
    ExtractNext(ctx, md, JWTVer, 15);
    md := ExtractStep(md, ctx, JWTVer);
    ExtractEnds(ctx, md);
  }

  // ------------------------------------------------------ wire to context

  /** The binding that the metadata gives a field: the first value, and an integer only if it
      parses. */
  function Bound(md: MD, f: Field): Option<Value>
  {
    if f.Wire() !in md || md[f.Wire()] == [] then None
    else if !f.Numeric() then Some(Text(md[f.Wire()][0]))
    else
      match ParseInt64(md[f.Wire()][0])
      case Some(n) => Some(Number(n))
      case None => None
  }

  function InjectStep(ctx: Context, md: MD, f: Field): Context
  {
    match Bound(md, f)
    case Some(v) => ctx[f.Key() := v]
    case None => ctx
  }

  /** The bindings of the fields before place `n`. */
  function BindingsBefore(md: MD, n: nat): Context
  {
    map k | k in KEYS && FieldOfKey(k).Rank() < n && Bound(md, FieldOfKey(k)).Some? :: Bound(md, FieldOfKey(k)).value
  }

  /** The specification: the fields the metadata binds override those of the context. */
  function Inject(ctx: Context, md: MD): Context
  {
    ctx + map k | k in KEYS && Bound(md, FieldOfKey(k)).Some? :: Bound(md, FieldOfKey(k)).value
  }

  /** The context derived so far. */
  ghost predicate Derived(base: Context, md: MD, ctx: Context, n: nat) { ctx == base + BindingsBefore(md, n) }

  lemma InjectNext(base: Context, md: MD, ctx: Context, f: Field, n: nat)
    requires Derived(base, md, ctx, n) && n == f.Rank()
    ensures Derived(base, md, InjectStep(ctx, md, f), n + 1)
  {
    FieldsAreApart(f);
    hide Field.Wire, Field.Key, Field.Rank, Bound, FieldOfKey;
    forall k | k in KEYS
      ensures FieldOfKey(k).Key() == k && (FieldOfKey(k).Rank() == f.Rank() <==> FieldOfKey(k) == f)
    {
      KeyOf(k);
      RankIs(FieldOfKey(k), f);
    }
  }

  lemma InjectEnds(base: Context, md: MD, ctx: Context)
    ensures Derived(base, md, base, 0) && (Derived(base, md, ctx, 16) <==> ctx == Inject(base, md))
  {
    hide Field.Key, Bound, FieldOfKey;
    assert BindingsBefore(md, 0) == map[];
    assert forall k :: FieldOfKey(k).Rank() < 16;
    assert BindingsBefore(md, 16) ==
      map k | k in KEYS && Bound(md, FieldOfKey(k)).Some? :: Bound(md, FieldOfKey(k)).value;
  }

  method InjectMetadataToContext(base: Context, md: MD) returns (ctx: Context)
    ensures ctx == Inject(base, md)
  {
    hide Derived, InjectStep, Inject;
    InjectEnds(base, md, base);
    ctx := base;
    InjectNext(base, md, ctx, UserID, 0);
    ctx := InjectStep(ctx, md, UserID);
    InjectNext(base, md, ctx, Email, 1);
    ctx := InjectStep(ctx, md, Email);
    InjectNext(base, md, ctx, ClientIP, 2);
    ctx := InjectStep(ctx, md, ClientIP);
    InjectNext(base, md, ctx, UserAgent, 3);
    ctx := InjectStep(ctx, md, UserAgent);
    InjectNext(base, md, ctx, Fingerprint, 4);
    ctx := InjectStep(ctx, md, Fingerprint);
    InjectNext(base, md, ctx, DeviceID, 5);
    ctx := InjectStep(ctx, md, DeviceID);
    InjectNext(base, md, ctx, Platform, 6);
    ctx := InjectStep(ctx, md, Platform);
    InjectNext(base, md, ctx, AppVersion, 7);
    ctx := InjectStep(ctx, md, AppVersion);
    InjectNext(base, md, ctx, Locale, 8);
    ctx := InjectStep(ctx, md, Locale);
    InjectNext(base, md, ctx, HTTPMethod, 9);
    ctx := InjectStep(ctx, md, HTTPMethod);
    InjectNext(base, md, ctx, HTTPPath, 10);
    ctx := InjectStep(ctx, md, HTTPPath);
    InjectNext(base, md, ctx, RequestID, 11);
    ctx := InjectStep(ctx, md, RequestID);
    InjectNext(base, md, ctx, IdempotencyKey, 12);
    ctx := InjectStep(ctx, md, IdempotencyKey);
    InjectNext(base, md, ctx, JWTID, 13);
    ctx := InjectStep(ctx, md, JWTID);
    InjectNext(base, md, ctx, JWTExp, 14);
    ctx := InjectStep(ctx, md, JWTExp);
    InjectNext(base, md, ctx, JWTVer, 15);
    ctx := InjectStep(ctx, md, JWTVer);
    InjectEnds(base, md, ctx);
  }

  // ------------------------------------------------------------ round trip

  lemma ExtractAt(ctx: Context, f: Field)
    ensures f.Wire() in Extract(ctx) <==> WireText(ctx, f) != ""
    ensures f.Wire() in Extract(ctx) ==> Extract(ctx)[f.Wire()] == [WireText(ctx, f)]
  {
    FieldsAreApart(f);
    hide Field.Wire, Field.Key, WireText, FieldOfHeader;
  }

  lemma InjectAt(ctx: Context, md: MD, f: Field)
    ensures var r := Inject(ctx, md);
            if Bound(md, f).Some? then f.Key() in r && r[f.Key()] == Bound(md, f).value
            else (f.Key() in r <==> f.Key() in ctx) && (f.Key() in r ==> r[f.Key()] == ctx[f.Key()])
  {
    FieldsAreApart(f);
    hide Field.Wire, Field.Key, Bound, FieldOfKey;
  }

  /** Nothing else in the context is touched. */
  lemma InjectKeepsOthers(ctx: Context, md: MD, key: Key)
    requires forall f: Field :: f.Key() != key
    ensures var r := Inject(ctx, md);
            (key in r <==> key in ctx) && (key in r ==> r[key] == ctx[key])
  {
    hide Field.Key, Bound;
  }

  lemma NumberCrosses(n: int)
    requires IsInt64(n)
    ensures ParseInt64(IntToString(n)) == Some(n) && IntToString(n) != ""
  {
    ParseIntToString(n);
  }

  /** Reading a text field after extract and inject gives the value read before, whatever the
      receiving context held, unless there was nothing to send. */
  lemma TextRoundTrip(ctx: Context, base: Context, f: Field)
    requires !f.Numeric()
    ensures Read(Inject(base, Extract(ctx)), f) == if Read(ctx, f) != "" then Read(ctx, f) else Read(base, f)
  {
    hide Extract, Inject, Field.Wire, Field.Key;
    ExtractAt(ctx, f);
    InjectAt(base, Extract(ctx), f);
  }

  /** An integer field survives printing and parsing when it is positive. */
  lemma NumberRoundTrip(ctx: Context, base: Context, f: Field)
    requires f.Numeric() && Typeable(ctx)
    ensures ReadNumber(Inject(base, Extract(ctx)), f) ==
            if ReadNumber(ctx, f) > 0 then ReadNumber(ctx, f) else ReadNumber(base, f)
  {
    hide Extract, Inject, Field.Wire, Field.Key, IntToString, ParseInt64;
    ExtractAt(ctx, f);
    InjectAt(base, Extract(ctx), f);
    if ReadNumber(ctx, f) > 0 {
      NumberCrosses(ReadNumber(ctx, f));
    }
  }

  /** A context that answers every reader with nothing, such as a fresh one. */
  ghost predicate Blank(ctx: Context)
  {
    forall f: Field :: Read(ctx, f) == "" && ReadNumber(ctx, f) == 0
  }

  /** A service that starts from a blank context reads what the caller would have read: every
      text, and of every integer n the value max(0, n). */
  lemma ServiceReadsTheSame(ctx: Context, base: Context, f: Field)
    requires Blank(base) && Typeable(ctx)
    ensures !f.Numeric() ==> Read(Inject(base, Extract(ctx)), f) == Read(ctx, f)
    ensures f.Numeric() ==>
      ReadNumber(Inject(base, Extract(ctx)), f) == if ReadNumber(ctx, f) > 0 then ReadNumber(ctx, f) else 0
  {
    hide Extract, Inject, Read, ReadNumber;
    if f.Numeric() {
      NumberRoundTrip(ctx, base, f);
    } else {
      TextRoundTrip(ctx, base, f);
    }
  }

  lemma WireTextAfter(ctx: Context, base: Context, f: Field)
    requires Typeable(ctx)
    ensures WireText(Inject(base, Extract(ctx)), f) ==
            if WireText(ctx, f) != "" then WireText(ctx, f) else WireText(base, f)
  {
    hide Extract, Inject, Read, ReadNumber, IntToString;
    if f.Numeric() {
      NumberRoundTrip(ctx, base, f);
      if ReadNumber(ctx, f) > 0 {
        PositivePrints(ReadNumber(ctx, f));
      }
    } else {
      TextRoundTrip(ctx, base, f);
    }
  }

  lemma PositivePrints(n: int)
    requires n > 0
    ensures IntToString(n) != ""
  {
  }

  /** A second hop sends what the first one sent, over whatever its own context would send. */
  lemma SecondHop(ctx: Context, base: Context)
    requires Typeable(ctx)
    ensures Extract(Inject(base, Extract(ctx))) == Extract(base) + Extract(ctx)
    ensures Blank(base) ==> Extract(Inject(base, Extract(ctx))) == Extract(ctx)
  {
    hide Inject, WireText, Read, ReadNumber, Field.Wire, FieldOfHeader;
    forall f: Field
      ensures WireText(Inject(base, Extract(ctx)), f) ==
              if WireText(ctx, f) != "" then WireText(ctx, f) else WireText(base, f)
    {
      WireTextAfter(ctx, base, f);
    }
    if Blank(base) {
      assert Extract(base) == map[] by { BlankSendsNothing(base); }
    }
  }

  lemma BlankSendsNothing(base: Context)
    requires Blank(base)
    ensures Extract(base) == map[]
  {
    hide Read, ReadNumber, Field.Wire;
  }

  // -------------------------------------------------------- stable metadata

  /** What a header may hold to come out again unchanged. */
  predicate CleanText(f: Field, text: string)
  {
    text != "" && (f.Trims() ==> Trimmed(text)) &&
    (f.Numeric() ==>
      match ParseInt64(text)
      case Some(n) => n > 0 && IntToString(n) == text
      case None => false)
  }

  ghost predicate Clean(md: MD)
  {
    forall k <- md :: |md[k]| == 1 && exists f: Field :: f.Wire() == k && CleanText(f, md[k][0])
  }

  /** Metadata survives a service exactly when it is clean: known headers, one value each, no
      blanks around method and path, and positive integers in their shortest form. */
  lemma StableExactly(md: MD)
    ensures Extract(Inject(map[], md)) == md <==> Clean(md)
  {
    hide Inject, Extract, Field.Wire, Field.Key, WireText, CleanText, Bound;
    var out := Extract(Inject(map[], md));
    forall f: Field ensures PassesClean(md, out, f) {
      FieldPasses(md, f);
    }
    if Clean(md) {
      forall k | k in md ensures k in out && out[k] == md[k] {
        var f: Field :| f.Wire() == k && CleanText(f, md[k][0]);
        assert PassesClean(md, out, f);
      }
      forall k | k in out ensures k in md {
        var f := SenderOf(Inject(map[], md), k);
        assert PassesClean(md, out, f);
      }
    }
    if out == md {
      forall k | k in md ensures |md[k]| == 1 && exists f: Field :: f.Wire() == k && CleanText(f, md[k][0]) {
        var f := SenderOf(Inject(map[], md), k);
        assert PassesClean(md, out, f);
      }
    }
  }

  lemma SenderOf(ctx: Context, k: string) returns (f: Field)
    requires k in Extract(ctx)
    ensures f.Wire() == k
  {
    f := FieldOfHeader(k);
    HeaderOf(k);
  }

  predicate PassesClean(md: MD, out: MD, f: Field)
  {
    var k := f.Wire();
    (k in out ==> k in md && |out[k]| == 1) &&
    (k in out && out[k] == md[k] ==> CleanText(f, md[k][0])) &&
    (k in md && |md[k]| == 1 && CleanText(f, md[k][0]) ==> k in out && out[k] == md[k])
  }

  lemma FieldPasses(md: MD, f: Field)
    ensures PassesClean(md, Extract(Inject(map[], md)), f)
  {
    hide Inject, Extract, Field.Wire, Field.Key, IntToString;
    var ctx := Inject(map[], md);
    InjectAt(map[], md, f);
    ExtractAt(ctx, f);
    if f.Numeric() {
      if ReadNumber(ctx, f) > 0 {
        PositivePrints(ReadNumber(ctx, f));
        NumberCrosses(ReadNumber(ctx, f));
      }
    }
  }

  // --------------------------------------------------------------- gateway

  /** The request headers the gateway reads, "" when absent, and the peer's address. */
  datatype Headers = Headers(forwardedFor: string, realIP: string, remoteAddr: string, userAgent: string,
                             fingerprint: string, deviceID: string, platform: string, appVersion: string,
                             lang: string, acceptLanguage: string, idempotencyKey: string)

  function UpToComma(s: string): string { if s == "" || s[0] == ',' then "" else [s[0]] + UpToComma(s[1..]) }

  /** Everything before the last colon, or all of it. */
  function BeforeLastColon(s: string, whole: string): string
  {
    if s == "" then whole else if s[|s| - 1] == ':' then s[..|s| - 1] else BeforeLastColon(s[..|s| - 1], whole)
  }

  function ClientAddress(h: Headers): string
  {
    if h.forwardedFor != "" then TrimSpace(UpToComma(h.forwardedFor))
    else if h.realIP != "" then h.realIP
    else BeforeLastColon(h.remoteAddr, h.remoteAddr)
  }

  predicate Lacks(s: string, c: char) { forall i :: 0 <= i < |s| ==> s[i] != c }

  lemma {:induction false} UpToCommaOf(first: string, rest: string)
    requires Lacks(first, ',')
    ensures UpToComma(first) == first && UpToComma(first + ("," + rest)) == first
  {
    if first == "" {
      assert first + ("," + rest) == "," + rest;
    } else {
      assert (first + ("," + rest))[1..] == first[1..] + ("," + rest);
      UpToCommaOf(first[1..], rest);
    }
  }

  lemma {:induction false} BeforeLastColonOf(host: string, port: string, whole: string)
    requires Lacks(port, ':')
    ensures BeforeLastColon(host + ":" + port, whole) == host && BeforeLastColon(port, whole) == whole
  {
    var s := host + ":" + port;
    if port == "" {
      assert s == host + ":" && s[..|s| - 1] == host;
    } else {
      assert s[..|s| - 1] == host + ":" + port[..|port| - 1];
      BeforeLastColonOf(host, port[..|port| - 1], whole);
    }
  }

  /** The client's address: the first of the forwarded addresses, trimmed; without any, the real
      address as sent; without either, the peer's address without its port. */
  lemma AddressExactly(h: Headers, first: string, rest: string, host: string, port: string)
    requires Lacks(first, ',') && Lacks(port, ':')
    ensures h.forwardedFor == first + ("," + rest) ==> ClientAddress(h) == TrimSpace(first)
    ensures h.forwardedFor == first != "" ==> ClientAddress(h) == TrimSpace(first)
    ensures h.forwardedFor == "" && h.realIP != "" ==> ClientAddress(h) == h.realIP
    ensures h.forwardedFor == h.realIP == "" && h.remoteAddr == host + ":" + port ==> ClientAddress(h) == host
    ensures h.forwardedFor == h.realIP == "" && h.remoteAddr == port ==> ClientAddress(h) == port
  {
    hide TrimSpace;
    UpToCommaOf(first, rest);
    BeforeLastColonOf(host, port, h.remoteAddr);
  }

  /** The language: X-Lang unless it is blank, else Accept-Language, trimmed. */
  lemma LocaleExactly(h: Headers, l: string, text: string, r: string)
    requires AllSpace(l) && AllSpace(r) && Trimmed(text)
    ensures h.lang == l + text + r && text != "" ==> LocaleText(h) == text
    ensures AllSpace(h.lang) && h.acceptLanguage == l + text + r ==> LocaleText(h) == text
  {
    hide TrimSpace, IsSpace;
    TrimSpaceOf(l, text, r);
    if AllSpace(h.lang) {
      TrimSpaceOf(h.lang, "", "");
      assert h.lang + "" + "" == h.lang;
    }
  }

  function Bind(ctx: Context, f: Field, text: string): Context
  {
    if text == "" then ctx else ctx[f.Key() := Text(text)]
  }

  function LocaleText(h: Headers): string
  {
    if TrimSpace(h.lang) != "" then TrimSpace(h.lang) else TrimSpace(h.acceptLanguage)
  }

  /** ExtractClientMetadata: every non-empty header is bound, and the address always. */
  function Enter(ctx: Context, h: Headers): Context
  {
    var ctx := ctx[ClientIP.Key() := Text(ClientAddress(h))];
    var ctx := Bind(ctx, UserAgent, h.userAgent);
    var ctx := Bind(ctx, Fingerprint, h.fingerprint);
    var ctx := Bind(ctx, DeviceID, h.deviceID);
    var ctx := Bind(ctx, Platform, h.platform);
    var ctx := Bind(ctx, AppVersion, h.appVersion);
    var ctx := Bind(ctx, Locale, LocaleText(h));
    Bind(ctx, IdempotencyKey, h.idempotencyKey)
  }

  /** The header text meant for a field, if there is one. */
  function Offered(h: Headers, f: Field): string
  {
    match f
    case ClientIP => ClientAddress(h)
    case UserAgent => h.userAgent
    case Fingerprint => h.fingerprint
    case DeviceID => h.deviceID
    case Platform => h.platform
    case AppVersion => h.appVersion
    case Locale => LocaleText(h)
    case IdempotencyKey => h.idempotencyKey
    case _ => ""
  }

  lemma BindAt(ctx: Context, f: Field, g: Field, text: string)
    requires !f.Trims()
    ensures Read(Bind(ctx, f, text), g) == if f == g && text != "" then text else Read(ctx, g)
    ensures Read(ctx[f.Key() := Text(text)], g) == if f == g then text else Read(ctx, g)
  {
    FieldsAreApart(f);
    FieldsAreApart(g);
    hide Field.Key, FieldOfKey;
  }

  lemma EnterAt(ctx: Context, h: Headers, f: Field)
    ensures Read(Enter(ctx, h), f) == if Offered(h, f) != "" || f == ClientIP then Offered(h, f) else Read(ctx, f)
  {
    hide Bind, Read, Field.Key, ClientAddress, LocaleText;
    var c0 := ctx[ClientIP.Key() := Text(ClientAddress(h))];
    var c1 := Bind(c0, UserAgent, h.userAgent);
    var c2 := Bind(c1, Fingerprint, h.fingerprint);
    var c3 := Bind(c2, DeviceID, h.deviceID);
    var c4 := Bind(c3, Platform, h.platform);
    var c5 := Bind(c4, AppVersion, h.appVersion);
    var c6 := Bind(c5, Locale, LocaleText(h));
    BindAt(ctx, ClientIP, f, ClientAddress(h));
    BindAt(c0, UserAgent, f, h.userAgent);
    BindAt(c1, Fingerprint, f, h.fingerprint);
    BindAt(c2, DeviceID, f, h.deviceID);
    BindAt(c3, Platform, f, h.platform);
    BindAt(c4, AppVersion, f, h.appVersion);
    BindAt(c5, Locale, f, LocaleText(h));
    BindAt(c6, IdempotencyKey, f, h.idempotencyKey);
  }

  /** From the client's HTTP headers through the gateway's context and the wire, a service reads
      each header as sent, and the client's address as the gateway determined it. */
  lemma HeadersReachService(ctx: Context, h: Headers, base: Context, f: Field)
    requires Blank(base) && !f.Numeric()
    ensures Read(Inject(base, Extract(Enter(ctx, h))), f) ==
            if Offered(h, f) != "" || f == ClientIP then Offered(h, f) else Read(ctx, f)
  {
    hide Inject, Extract, Enter, Read, Offered;
    TextRoundTrip(Enter(ctx, h), base, f);
    EnterAt(ctx, h, f);
  }

  // ---------------------------------------------------------------- by name

  /** Exactly `text` is sent under a header, or nothing where it is empty. */
  predicate Sends(md: MD, header: string, text: string)
  {
    if text == "" then header !in md else header in md && md[header] == [text]
  }

  function TextAt(ctx: Context, key: Key): string { if key in ctx && ctx[key].Text? then ctx[key].text else "" }

  /** A positive integer in decimal. */
  function NumberAt(ctx: Context, key: Key): string
  {
    if key in ctx && ctx[key].Number? && ctx[key].number > 0 then IntToString(ctx[key].number) else ""
  }

  /** Which context key is sent under which header, and how: as it is, trimmed, or in decimal. */
  lemma SentByName(ctx: Context, f: Field)
    ensures var md := Extract(ctx);
            match f
            case UserID => Sends(md, "x-user-id", TextAt(ctx, Plain("user_id")))
            case Email => Sends(md, "x-email", TextAt(ctx, Plain("email")))
            case ClientIP => Sends(md, "x-client-ip", TextAt(ctx, Typed("client-ip")))
            case UserAgent => Sends(md, "x-user-agent", TextAt(ctx, Typed("user-agent")))
            case Fingerprint => Sends(md, "x-device-fingerprint", TextAt(ctx, Typed("device-fingerprint")))
            case DeviceID => Sends(md, "x-device-id", TextAt(ctx, Typed("device-id")))
            case Platform => Sends(md, "x-platform", TextAt(ctx, Typed("platform")))
            case AppVersion => Sends(md, "x-app-version", TextAt(ctx, Typed("app-version")))
            case Locale => Sends(md, "x-locale", TextAt(ctx, Typed("locale")))
            case HTTPMethod => Sends(md, "x-http-method", TrimSpace(TextAt(ctx, Typed("http-method"))))
            case HTTPPath => Sends(md, "x-http-path", TrimSpace(TextAt(ctx, Typed("http-path"))))
            case RequestID => Sends(md, "x-request-id", TextAt(ctx, Typed("request-id")))
            case IdempotencyKey => Sends(md, "x-idempotency-key", TextAt(ctx, Typed("idempotency-key")))
            case JWTID => Sends(md, "x-jwt-id", TextAt(ctx, Typed("jwt-id")))
            case JWTExp => Sends(md, "x-jwt-exp", NumberAt(ctx, Typed("jwt-exp")))
            case JWTVer => Sends(md, "x-jwt-ver", NumberAt(ctx, Typed("jwt-ver")))
  {
    hide Extract, TrimSpace, IntToString, HEADERS, WireText, TextAt, NumberAt;
    ExtractAt(ctx, f);
    SentAs(ctx, f);
  }

  lemma NothingToTrim()
    ensures TrimSpace("") == ""
  {
  }

  /** What is sent for a field, by the kind of field. */
  lemma SentAs(ctx: Context, f: Field)
    ensures WireText(ctx, f) ==
            if f.JWTExp? || f.JWTVer? then NumberAt(ctx, f.Key())
            else if f.HTTPMethod? || f.HTTPPath? then TrimSpace(TextAt(ctx, f.Key()))
            else TextAt(ctx, f.Key())
  {
    hide Field.Key, IntToString, TrimSpace;
    NothingToTrim();
    PrintedIsNotEmpty(ReadNumber(ctx, f));
  }

  lemma PrintedIsNotEmpty(n: int)
    ensures n > 0 ==> IntToString(n) != ""
  {
  }

  /** A key takes the first value of a header where there is one, and is left alone otherwise. */
  predicate Takes(before: Context, after: Context, md: MD, header: string, key: Key)
  {
    if header in md && md[header] != [] then key in after && after[key] == Text(md[header][0])
    else SameAt(before, after, key)
  }

  predicate SameAt(before: Context, after: Context, key: Key)
  {
    (key in after <==> key in before) && (key in after ==> after[key] == before[key])
  }

  /** The same for an integer, where the value is one of 64 bits. */
  predicate TakesNumber(before: Context, after: Context, md: MD, header: string, key: Key)
  {
    if header in md && md[header] != [] && ParseInt64(md[header][0]).Some? then
      key in after && after[key] == Number(ParseInt64(md[header][0]).value)
    else SameAt(before, after, key)
  }

  /** Which header is bound to which context key. */
  lemma BoundByName(ctx: Context, md: MD, f: Field)
    ensures var r := Inject(ctx, md);
            match f
            case UserID => Takes(ctx, r, md, "x-user-id", Plain("user_id"))
            case Email => Takes(ctx, r, md, "x-email", Plain("email"))
            case ClientIP => Takes(ctx, r, md, "x-client-ip", Typed("client-ip"))
            case UserAgent => Takes(ctx, r, md, "x-user-agent", Typed("user-agent"))
            case Fingerprint => Takes(ctx, r, md, "x-device-fingerprint", Typed("device-fingerprint"))
            case DeviceID => Takes(ctx, r, md, "x-device-id", Typed("device-id"))
            case Platform => Takes(ctx, r, md, "x-platform", Typed("platform"))
            case AppVersion => Takes(ctx, r, md, "x-app-version", Typed("app-version"))
            case Locale => Takes(ctx, r, md, "x-locale", Typed("locale"))
            case HTTPMethod => Takes(ctx, r, md, "x-http-method", Typed("http-method"))
            case HTTPPath => Takes(ctx, r, md, "x-http-path", Typed("http-path"))
            case RequestID => Takes(ctx, r, md, "x-request-id", Typed("request-id"))
            case IdempotencyKey => Takes(ctx, r, md, "x-idempotency-key", Typed("idempotency-key"))
            case JWTID => Takes(ctx, r, md, "x-jwt-id", Typed("jwt-id"))
            case JWTExp => TakesNumber(ctx, r, md, "x-jwt-exp", Typed("jwt-exp"))
            case JWTVer => TakesNumber(ctx, r, md, "x-jwt-ver", Typed("jwt-ver"))
  {
    hide Inject, ParseInt64, KEYS;
    InjectAt(ctx, md, f);
  }
}
