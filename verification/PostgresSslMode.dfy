/** The `sslmode` parameter of a PostgreSQL connection string: the parser that reads it and the
    rewriter that finds it again, by byte position, to replace it. */
module PostgresSslMode {
  import opened Base
  import opened Scanning
  import opened Utf8

  datatype SslMode = Disable | Prefer | Require | VerifyCa | VerifyFull | NoVerify

  /** The Unicode White_Space property, which `split_whitespace` goes by. */
  predicate IsWhitespace(c: char)
  {
    || '\U{9}' <= c <= '\U{D}' || c == ' ' || c == '\U{85}' || c == '\U{A0}' || c == '\U{1680}'
    || '\U{2000}' <= c <= '\U{200A}' || c == '\U{2028}' || c == '\U{2029}' || c == '\U{202F}'
    || c == '\U{205F}' || c == '\U{3000}'
  }

  /** `split_once('=')`: what precedes the first equals sign, if there is one. */
  function KeyOf(param: string): Option<string>
  {
    var e := NextOf(param, '=', 0);
    if e == |param| then None else Some(param[..e])
  }

  function ValueOf(param: string): string
    requires KeyOf(param).Some?
  {
    param[NextOf(param, '=', 0) + 1..]
  }

  predicate IsSslMode(param: string) { KeyOf(param) == Some("sslmode") }

  // ----- the parser ------------------------------------------------------------------------------

  /** `trim_matches('\'')`. */
  function TrimFront(s: string): string { if s != [] && s[0] == '\'' then TrimFront(s[1..]) else s }

  function TrimBack(s: string): string { if s != [] && s[|s| - 1] == '\'' then TrimBack(s[..|s| - 1]) else s }

  /** None: not a mode. A typo must not select a weaker one. */
  function ModeOf(value: string): Option<SslMode>
  {
    var v := TrimBack(TrimFront(value));
    if v == "disable" then Some(Disable)
    else if v == "prefer" then Some(Prefer)
    else if v == "require" then Some(Require)
    else if v == "verify-ca" then Some(VerifyCa)
    else if v == "verify-full" then Some(VerifyFull)
    else if v == "no-verify" then Some(NoVerify)
    else None
  }

  function NameOf(mode: SslMode): string
  {
    match mode
    case Disable => "disable"
    case Prefer => "prefer"
    case Require => "require"
    case VerifyCa => "verify-ca"
    case VerifyFull => "verify-full"
    case NoVerify => "no-verify"
  }

  /** A value selects a mode exactly when, without its quotes, it is that mode's name: nothing else
      selects any mode, and no two modes share a name. */
  lemma ModeIsNamed(value: string, mode: SslMode)
    ensures ModeOf(value) == Some(mode) <==> TrimBack(TrimFront(value)) == NameOf(mode)
  {}

  function Quotes(n: nat): string { seq(n, i => '\'') }

  lemma {:induction false} TrimFrontIs(n: nat, s: string)
    requires s == [] || s[0] != '\''
    ensures TrimFront(Quotes(n) + s) == s
    decreases n
  {
    if n > 0 {
      assert (Quotes(n) + s)[1..] == Quotes(n - 1) + s;
      TrimFrontIs(n - 1, s);
    } else {
      assert Quotes(n) + s == s;
    }
  }

  lemma {:induction false} TrimBackIs(n: nat, s: string)
    requires s == [] || s[|s| - 1] != '\''
    ensures TrimBack(s + Quotes(n)) == s
    decreases n
  {
    if n > 0 {
      assert (s + Quotes(n))[..|s| + n - 1] == s + Quotes(n - 1);
      TrimBackIs(n - 1, s);
    } else {
      assert s + Quotes(n) == s;
    }
  }

  lemma {:induction false} FrontQuotes(s: string) returns (n: nat)
    ensures s == Quotes(n) + TrimFront(s)
    decreases s
  {
    n := 0;
    if s != [] && s[0] == '\'' {
      var rest := FrontQuotes(s[1..]);
      n := rest + 1;
      assert s == ['\''] + s[1..];
    }
  }

  lemma {:induction false} BackQuotes(s: string) returns (n: nat)
    ensures s == TrimBack(s) + Quotes(n)
    decreases s
  {
    n := 0;
    if s != [] && s[|s| - 1] == '\'' {
      var rest := BackQuotes(s[..|s| - 1]);
      n := rest + 1;
      assert s == s[..|s| - 1] + ['\''];
    }
  }

  /** A value selects a mode exactly when it is that mode's name with any number of quotes on either
      side. */
  lemma ModeIsQuoted(value: string, mode: SslMode)
    ensures ModeOf(value) == Some(mode) <==> exists m: nat, n: nat :: value == Quotes(m) + NameOf(mode) + Quotes(n)
  {
    var name := NameOf(mode);
    ModeIsNamed(value, mode);
    NamesUnquoted(mode);
    if TrimBack(TrimFront(value)) == name {
      var m := FrontQuotes(value);
      var n := BackQuotes(TrimFront(value));
      assert value == Quotes(m) + name + Quotes(n);
    }
    if m: nat, n: nat :| value == Quotes(m) + name + Quotes(n) {
      assert value == Quotes(m) + (name + Quotes(n)) && (name + Quotes(n))[0] == name[0];
      TrimFrontIs(m, name + Quotes(n));
      TrimBackIs(n, name);
    }
  }

  lemma NamesUnquoted(mode: SslMode)
    ensures NameOf(mode) != [] && NameOf(mode)[0] != '\'' && NameOf(mode)[|NameOf(mode)| - 1] != '\''
  {}

  const SCHEME := "postgres://"
  const LONG_SCHEME := "postgresql://"

  predicate IsUri(conn: string) { SCHEME <= conn || LONG_SCHEME <= conn }

  /** The parameters the parser goes through, in order. */
  function Params(conn: string): seq<string>
  {
    if !IsUri(conn) then Words(conn, IsWhitespace, 0)
    else if NextOf(conn, '?', 0) == |conn| then []
    else Split(conn, '&', NextOf(conn, '?', 0) + 1)
  }

  /** The mode a connection string asks for: that of its first `sslmode` parameter, or Prefer. */
  function Parsed(conn: string): Option<SslMode>
  {
    var params := Params(conn);
    var k := FirstWanted(params, IsSslMode);
    if k == |params| then Some(Prefer) else ModeOf(ValueOf(params[k]))
  }

  method ParseSslMode(conn: string) returns (mode: Option<SslMode>)
    ensures mode == Parsed(conn)
  {
    var params := Params(conn);
    for k := 0 to |params|
      invariant forall j :: 0 <= j < k ==> !IsSslMode(params[j])
    {
      if IsSslMode(params[k]) {
        FirstIs(params, IsSslMode, k);
        return ModeOf(ValueOf(params[k]));
      }
    }
    FirstIs(params, IsSslMode, |params|);
    mode := Some(Prefer);
  }

  // ----- where the parameter is --------------------------------------------------------------------

  /** Where the first `sslmode` parameter is. */
  function SslModeRange(conn: string): Option<Range>
  {
    if IsUri(conn) then InQuery(conn) else FindWord(conn, IsWhitespace, IsSslMode, 0)
  }

  function InQuery(conn: string): Option<Range> { FindAfter(conn, '?', '&', IsSslMode) }

  /** The range holds exactly the parameter the parser read, and there is one exactly when the
      parser read one. */
  lemma RangeIsParsed(conn: string)
    ensures SslModeRange(conn).Some? <==> FirstWanted(Params(conn), IsSslMode) < |Params(conn)|
    ensures SslModeRange(conn).None? ==> Parsed(conn) == Some(Prefer)
    ensures var r := SslModeRange(conn);
      r.Some? ==> (r.value.start <= r.value.end <= |conn|
        && conn[r.value.start..r.value.end] == Params(conn)[FirstWanted(Params(conn), IsSslMode)]
        && IsSslMode(conn[r.value.start..r.value.end])
        && Parsed(conn) == ModeOf(ValueOf(conn[r.value.start..r.value.end])))
  {
    if !IsUri(conn) {
      FoundWordIsFirst(conn, IsWhitespace, IsSslMode, 0);
    } else if NextOf(conn, '?', 0) < |conn| {
      FoundPieceIsFirst(conn, '&', IsSslMode, NextOf(conn, '?', 0) + 1);
    }
  }

  function SslModeBytes(conn: string): Option<Range>
  {
    RangeIsParsed(conn);
    Measured(conn, SslModeRange(conn), Size)
  }

  lemma AfterMark(conn: string, q: nat)
    requires q == NextOf(conn, '?', 0) < |conn|
    ensures Offset(conn, q + 1, Size) == Offset(conn, q, Size) + 1
  {
    NextOfFinds(conn, '?', 0);
    SizeMeasures();
    OffsetLater(conn, q, q + 1, Size);
    assert conn[q..q + 1] == ['?'];
  }

  /** `sslmode_param_range`: a range of bytes. */
  method SslModeParamRange(conn: string) returns (r: Option<Range>)
    ensures r == SslModeBytes(conn)
  {
    SizeMeasures();
    if IsUri(conn) {
      var q := NextOf(conn, '?', 0);
      if q == |conn| {
        return None;
      }
      AfterMark(conn, q);
      r := LocatePiece(conn, '&', IsSslMode, Offset(conn, q, Size) + 1, Size, q + 1);
    } else {
      r := LocateWord(conn, IsWhitespace, IsSslMode, Size);
    }
  }

  // ----- the rewriter --------------------------------------------------------------------------------

  predicate NeedsRewrite(mode: SslMode) { mode.VerifyCa? || mode.VerifyFull? || mode.NoVerify? }

  const REQUIRE := "sslmode=require"

  /** `driver_connection_string`. */
  method DriverConnectionString(conn: string, mode: SslMode) returns (out: string)
    ensures out == DriverString(conn, mode)
  {
    if !NeedsRewrite(mode) {
      return conn;
    }
    var range := SslModeParamRange(conn);
    if range.None? {
      return conn;
    }
    RangeIsParsed(conn);
    SizeMeasures();
    CharAtOffset(conn, SslModeRange(conn).value.start, Size, 0);
    CharAtOffset(conn, SslModeRange(conn).value.end, Size, 0);
    out := conn[..CharAt(conn, range.value.start, Size, 0)] + REQUIRE + conn[CharAt(conn, range.value.end, Size, 0)..];
  }

  function DriverString(conn: string, mode: SslMode): string
  {
    if !NeedsRewrite(mode) || SslModeRange(conn).None? then conn
    else
      RangeIsParsed(conn);
      Splice(conn, SslModeRange(conn).value.start, SslModeRange(conn).value.end, REQUIRE)
  }

  /** Every character is a visible ASCII one other than `not`. */
  predicate Visible(s: string, not: char, i: nat)
    decreases |s| - i
  {
    i >= |s| || ('!' <= s[i] <= '~' && s[i] != not && Visible(s, not, i + 1))
  }

  lemma {:induction false} VisibleHasNoBlank(s: string, not: char, i: nat)
    requires Visible(s, not, i)
    ensures forall j :: i <= j < |s| ==> !IsWhitespace(s[j]) && s[j] != not
    decreases |s| - i
  {
    if i < |s| {
      VisibleHasNoBlank(s, not, i + 1);
    }
  }

  lemma RequireIsOneParam()
    ensures '&' !in REQUIRE && REQUIRE != [] && forall j :: 0 <= j < |REQUIRE| ==> !IsWhitespace(REQUIRE[j])
  {
    assert Visible("sslmode=require", '&', 0);
    VisibleHasNoBlank(REQUIRE, '&', 0);
  }

  lemma RequireHasKey()
    ensures NextOf(REQUIRE, '=', 0) == 7 && REQUIRE[..7] == "sslmode" && REQUIRE[8..] == "require"
  {
    assert NextOf("sslmode=require", '=', 0) == 7;
  }

  lemma RequireTrims()
    ensures TrimBack(TrimFront("require")) == "require"
  {}

  lemma RequireIsSslMode()
    ensures IsSslMode(REQUIRE) && ModeOf(ValueOf(REQUIRE)) == Some(Require)
  {
    RequireHasKey();
    RequireTrims();
    assert KeyOf(REQUIRE) == Some("sslmode");
    assert ValueOf(REQUIRE) == "require";
  }

  /** Rewriting leaves all text around the parameter as it was, puts the new parameter exactly where
      the old one was, and what it wrote parses as Require. */
  lemma RewriteKeepsTheRest(conn: string, mode: SslMode)
    requires NeedsRewrite(mode) && SslModeRange(conn).Some?
    ensures var r := SslModeRange(conn).value;
      var out := DriverString(conn, mode);
      && r.start <= r.end <= |conn|
      && out == conn[..r.start] + REQUIRE + conn[r.end..]
      && SslModeRange(out) == Some(Range(r.start, r.start + |REQUIRE|))
      && Parsed(out) == Some(Require)
  {
    RangeIsParsed(conn);
    RequireIsSslMode();
    var r, out := SslModeRange(conn).value, DriverString(conn, mode);
    if IsUri(conn) {
      UriRewrite(conn, r);
    } else {
      KeyValueRewrite(conn, r);
    }
    RangeIsParsed(out);
    SpliceAt(conn, r.start, r.end, REQUIRE);
  }

  /** In bytes too: those before and those behind the parameter's range are kept. */
  lemma RewriteKeepsTheBytes(conn: string, mode: SslMode)
    requires NeedsRewrite(mode) && SslModeBytes(conn).Some?
    ensures var r, bytes := SslModeBytes(conn).value, Encode(conn);
      && r.start <= r.end <= |bytes|
      && Encode(DriverString(conn, mode)) == bytes[..r.start] + Encode(REQUIRE) + bytes[r.end..]
  {
    RangeIsParsed(conn);
    var Range(a, b) := SslModeRange(conn).value;
    SizeMeasures();
    OffsetLater(conn, a, b, Size);
    EncodeSplit(conn, a);
    EncodeSplit(conn, b);
    EncodeConcat(conn[..a], REQUIRE);
    EncodeConcat(conn[..a] + REQUIRE, conn[b..]);
  }

  lemma UriRewrite(conn: string, r: Range)
    requires IsUri(conn) && SslModeRange(conn) == Some(r) && r.start <= r.end <= |conn| && IsSslMode(REQUIRE)
    ensures SslModeRange(Splice(conn, r.start, r.end, REQUIRE)) == Some(Range(r.start, r.start + |REQUIRE|))
  {
    RequireIsOneParam();
    ReplacementFoundAfter(conn, '?', '&', IsSslMode, REQUIRE);
    SchemesStay(conn, r, REQUIRE);
  }

  lemma SchemesVisible()
    ensures forall j :: 0 <= j < |SCHEME| ==> !IsWhitespace(SCHEME[j]) && SCHEME[j] != '?'
    ensures forall j :: 0 <= j < |LONG_SCHEME| ==> !IsWhitespace(LONG_SCHEME[j]) && LONG_SCHEME[j] != '?'
  {
    assert Visible("postgres://", '?', 0) && Visible("postgresql://", '?', 0);
    VisibleHasNoBlank(SCHEME, '?', 0);
    VisibleHasNoBlank(LONG_SCHEME, '?', 0);
  }

  lemma SchemesStay(conn: string, r: Range, y: string)
    requires IsUri(conn) && NextOf(conn, '?', 0) < r.start <= r.end <= |conn|
    ensures IsUri(Splice(conn, r.start, r.end, y))
  {
    SchemesVisible();
    PrefixStays(conn, SCHEME, r.start, r.end, y);
    PrefixStays(conn, LONG_SCHEME, r.start, r.end, y);
  }

  /** The question mark comes after the scheme. */
  lemma PrefixStays(conn: string, scheme: string, a: nat, b: nat, y: string)
    requires (forall j :: 0 <= j < |scheme| ==> scheme[j] != '?') && NextOf(conn, '?', 0) < a <= b <= |conn|
    ensures scheme <= conn ==> scheme <= Splice(conn, a, b, y)
  {
    if scheme <= conn {
      var q := NextOf(conn, '?', 0);
      NextOfFinds(conn, '?', 0);
      assert q >= |scheme| by {
        assert conn[..|scheme|] == scheme;
        assert forall j {:trigger conn[j]} :: 0 <= j < |scheme| ==> conn[j] == scheme[j];
      }
      assert Splice(conn, a, b, y)[..|scheme|] == conn[..|scheme|];
    }
  }

  lemma KeyValueRewrite(conn: string, r: Range)
    requires !IsUri(conn) && SslModeRange(conn) == Some(r) && r.start <= r.end <= |conn| && IsSslMode(REQUIRE)
    ensures SslModeRange(Splice(conn, r.start, r.end, REQUIRE)) == Some(Range(r.start, r.start + |REQUIRE|))
  {
    WordRewrite(conn, r, Splice(conn, r.start, r.end, REQUIRE));
    NoSchemesAppear(conn, r);
  }

  lemma WordRewrite(conn: string, r: Range, out: string)
    requires FindWord(conn, IsWhitespace, IsSslMode, 0) == Some(r) && IsSslMode(REQUIRE)
    requires out == Splice(conn, r.start, r.end, REQUIRE)
    ensures r.start > 0 ==> IsWhitespace(conn[r.start - 1])
    ensures FindWord(out, IsWhitespace, IsSslMode, 0) == Some(Range(r.start, r.start + |REQUIRE|))
  {
    RequireIsOneParam();
    ReplacedWordFound(conn, IsWhitespace, IsSslMode, 0, REQUIRE);
    BlankBefore(conn, IsWhitespace, IsSslMode, 0);
  }

  lemma NoSchemesAppear(conn: string, r: Range)
    requires r.start <= r.end <= |conn| && (r.start > 0 ==> IsWhitespace(conn[r.start - 1])) && !IsUri(conn)
    ensures !IsUri(Splice(conn, r.start, r.end, REQUIRE))
  {
    SchemesVisible();
    NoPrefixAppears(conn, SCHEME, r.start, r.end, REQUIRE);
    NoPrefixAppears(conn, LONG_SCHEME, r.start, r.end, REQUIRE);
  }

  /** A rewritten key-value string does not turn into a URI. */
  lemma NoPrefixAppears(conn: string, scheme: string, a: nat, b: nat, y: string)
    requires scheme != [] && y != [] && scheme[0] != y[0] && forall j :: 0 <= j < |scheme| ==> !IsWhitespace(scheme[j])
    requires a <= b <= |conn| && (a > 0 ==> IsWhitespace(conn[a - 1])) && !(scheme <= conn)
    ensures !(scheme <= Splice(conn, a, b, y))
  {
    var out := Splice(conn, a, b, y);
    SpliceAt(conn, a, b, y);
    if a == 0 {
      assert out[0] == y[0];
    } else if a - 1 < |scheme| {
      assert out[a - 1] == conn[a - 1];
    } else {
      assert out[..|scheme|] == conn[..|scheme|];
    }
  }

  /** Without a rewrite the string is handed on as it is; a mode that needs one was read from a
      parameter that is there to be rewritten. */
  lemma NoRewriteNoChange(conn: string, mode: SslMode)
    ensures !NeedsRewrite(mode) || SslModeRange(conn).None? ==> DriverString(conn, mode) == conn
    ensures Parsed(conn).Some? && NeedsRewrite(Parsed(conn).value) ==> SslModeRange(conn).Some?
  {
    RangeIsParsed(conn);
  }
}
