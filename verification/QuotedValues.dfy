/** How a key-value connection string falls into parameters, by the rules of "Keyword/Value
    Connection Strings", section 34.1.1.1 of the PostgreSQL 16 documentation: blanks around the
    equals sign are allowed, a value may stand in single quotes, and a backslash escapes the next
    character. The `sslmode` scan goes by blanks alone; here is exactly when a rewrite still
    changes that one parameter and no other. */
module QuotedValues {
  import opened Base
  import opened Scanning
  import opened PostgresSslMode

  /** Where in a parameter the reading is. */
  datatype Place = InKey | Gap | AfterEquals | Bare | BareEscape | Quoted | QuotedEscape | Over

  /** The parameter ends before this character. */
  predicate Stops(p: Place, c: char)
  {
    match p
    case Gap => c != '=' && !IsWhitespace(c)
    case Bare => IsWhitespace(c)
    case Over => true
    case _ => false
  }

  function Next(p: Place, c: char): Place
  {
    match p
    case InKey => if c == '=' then AfterEquals else if IsWhitespace(c) then Gap else InKey
    case Gap => if c == '=' then AfterEquals else Gap
    case AfterEquals =>
      if IsWhitespace(c) then AfterEquals else if c == '\'' then Quoted else if c == '\\' then BareEscape else Bare
    case Bare => if c == '\\' then BareEscape else Bare
    case BareEscape => Bare
    case Quoted => if c == '\'' then Over else if c == '\\' then QuotedEscape else Quoted
    case QuotedEscape => Quoted
    case Over => Over
  }

  /** How much of a text the parameter being read takes. */
  function ParamLen(s: string, p: Place): (n: nat)
    ensures n <= |s| && (s != [] && p == InKey ==> n > 0)
  {
    if s == [] || Stops(p, s[0]) then 0 else 1 + ParamLen(s[1..], Next(p, s[0]))
  }

  /** The place after a whole text; None when the parameter ends within it. */
  function After(p: Place, s: string): Option<Place>
    decreases s
  {
    if s == [] then Some(p) else if Stops(p, s[0]) then None else After(Next(p, s[0]), s[1..])
  }

  function Unblanked(s: string): (r: string)
    ensures |r| <= |s| && (r != [] ==> !IsWhitespace(r[0]))
  {
    if s != [] && IsWhitespace(s[0]) then Unblanked(s[1..]) else s
  }

  /** The parameters of a key-value string, each as it is written. */
  function Parameters(s: string): seq<string>
    decreases |s|
  {
    var t := Unblanked(s);
    if t == [] then [] else Prepend(t[..ParamLen(t, InKey)], Parameters(t[ParamLen(t, InKey)..]))
  }

  /** `b` is `a` with one parameter replaced by the new `sslmode`, and every other untouched. */
  ghost predicate OneReplaced(a: seq<string>, b: seq<string>)
  {
    exists k: nat :: ReplacedAt(a, b, k)
  }

  predicate ReplacedAt(a: seq<string>, b: seq<string>, k: nat) { k < |a| && b == a[k := REQUIRE] }

  /** No parameter that begins in the text runs on into a word behind it. */
  predicate Between(a: string)
    decreases |a|
  {
    var t := Unblanked(a);
    t == [] || ((After(InKey, t).Some? ==> After(InKey, t).value in {Gap, Over}) && Between(t[ParamLen(t, InKey)..]))
  }

  /** Read as a parameter, the word is taken whole, and with it nothing but blanks of what follows. */
  predicate Alone(x: string, b: string)
  {
    var n := ParamLen(x + b, InKey);
    n >= |x| && Unblanked(b[..n - |x|]) == []
  }

  // ----- reading through a text -------------------------------------------------------------------

  lemma {:induction false} LenThrough(a: string, u: string, p: Place)
    ensures ParamLen(a + u, p) ==
      if After(p, a).Some? then |a| + ParamLen(u, After(p, a).value) else ParamLen(a, p)
    ensures After(p, a).Some? ==> ParamLen(a, p) == |a|
    decreases a
  {
    if a == [] {
      assert a + u == u;
    } else if !Stops(p, a[0]) {
      assert (a + u)[1..] == a[1..] + u;
      LenThrough(a[1..], u, Next(p, a[0]));
    }
  }

  lemma {:induction false} UnblankedConcat(a: string, u: string)
    ensures Unblanked(a + u) == if Unblanked(a) == [] then Unblanked(u) else Unblanked(a) + u
    decreases a
  {
    if a == [] {
      assert a + u == u;
    } else {
      assert (a + u)[1..] == a[1..] + u;
      UnblankedConcat(a[1..], u);
    }
  }

  /** What is left after the leading blanks ends as the whole did. */
  lemma {:induction false} UnblankedEnd(a: string)
    ensures Unblanked(a) != [] ==> Unblanked(a)[|Unblanked(a)| - 1] == a[|a| - 1]
    decreases a
  {
    if a != [] && IsWhitespace(a[0]) {
      UnblankedEnd(a[1..]);
    }
  }

  /** Neither a blank nor a quote. */
  ghost predicate Solid(s: string) { forall c :: c in s ==> !IsWhitespace(c) && c != '\'' }

  /** Such a text does not end a parameter that is past its gap. */
  lemma {:induction false} SolidPasses(s: string, p: Place)
    requires Solid(s) && p !in {Gap, Over}
    ensures After(p, s).Some? && After(p, s).value !in {Gap, Over}
    decreases s
  {
    if s != [] {
      assert s[0] in s && forall c :: c in s[1..] ==> c in s;
      SolidPasses(s[1..], Next(p, s[0]));
    }
  }

  lemma {:induction false} SolidValuePasses(s: string, p: Place)
    requires Solid(s) && p in {AfterEquals, Bare} && '\\' !in s && s != []
    ensures After(p, s) == Some(Bare)
    decreases s
  {
    assert s[0] in s && forall c :: c in s[1..] ==> c in s;
    if |s| > 1 {
      SolidValuePasses(s[1..], Next(p, s[0]));
    }
  }

  lemma {:induction false} AfterConcat(p: Place, a: string, b: string)
    ensures After(p, a + b) == if After(p, a).Some? then After(After(p, a).value, b) else None
    decreases a
  {
    if a == [] {
      assert a + b == b;
    } else if !Stops(p, a[0]) {
      assert (a + b)[1..] == a[1..] + b;
      AfterConcat(Next(p, a[0]), a[1..], b);
    }
  }

  // ----- the words ----------------------------------------------------------------------------------

  const KEY := "sslmode="

  /** A blank-separated `sslmode` word whose value needs rewriting. */
  ghost predicate Word(x: string)
  {
    && KEY <= x && |x| > |KEY| && x[|KEY|] != 'r'
    && forall c :: c in x ==> !IsWhitespace(c)
  }

  ghost predicate EndsBlank(a: string) { a == [] || IsWhitespace(a[|a| - 1]) }

  ghost predicate BeginsBlank(b: string) { b == [] || IsWhitespace(b[0]) }

  lemma KeyIsSolid()
    ensures Solid(KEY) && |KEY| == 8 && KEY[0] == 's'
  {
    assert Visible("sslmode=", '\'', 0);
    VisibleHasNoBlank(KEY, '\'', 0);
  }

  lemma RequireIsSolid()
    ensures Solid(REQUIRE) && |REQUIRE| == 15 && REQUIRE[..8] == KEY && REQUIRE[8] == 'r'
    ensures Solid("require") && '\\' !in "require" && REQUIRE == KEY + "require"
  {
    assert Visible("sslmode=require", '\'', 0);
    VisibleHasNoBlank(REQUIRE, '\'', 0);
    assert Visible("require", '\'', 0) && Visible("require", '\\', 0);
    VisibleHasNoBlank("require", '\'', 0);
    VisibleHasNoBlank("require", '\\', 0);
  }

  /** Any parameter past its gap that reaches an `sslmode` word takes its key and more. */
  lemma TakesKey(x: string, b: string, p: Place)
    requires KEY <= x && |x| > |KEY| && !IsWhitespace(x[|KEY|]) && p !in {Gap, Over}
    ensures ParamLen(x + b, p) > |KEY|
  {
    KeyIsSolid();
    assert x + b == KEY + (x[|KEY|..] + b);
    TakesMore(KEY, x[|KEY|..] + b, p);
  }

  lemma TakesMore(s: string, rest: string, p: Place)
    requires Solid(s) && rest != [] && !IsWhitespace(rest[0]) && p !in {Gap, Over}
    ensures ParamLen(s + rest, p) > |s|
  {
    SolidPasses(s, p);
    LenThrough(s, rest, p);
  }

  /** The new parameter is taken whole and alone. */
  lemma RequireAlone(b: string)
    requires BeginsBlank(b)
    ensures ParamLen(REQUIRE + b, InKey) == |REQUIRE|
  {
    RequireIsSolid();
    KeyIsSolid();
    assert After(InKey, "sslmode=") == Some(AfterEquals) by {
      KeyToEquals();
    }
    SolidValuePasses("require", AfterEquals);
    AfterConcat(InKey, KEY, "require");
    LenThrough(REQUIRE, b, InKey);
  }

  lemma KeyToEquals()
    ensures After(InKey, KEY) == Some(AfterEquals)
  {
    var name := "sslmode";
    assert KEY == name + "=";
    assert Visible("sslmode", '=', 0);
    VisibleHasNoBlank(name, '=', 0);
    NameStaysInKey(name);
    AfterConcat(InKey, name, "=");
    assert "="[1..] == [];
  }

  lemma {:induction false} NameStaysInKey(name: string)
    requires forall j :: 0 <= j < |name| ==> !IsWhitespace(name[j]) && name[j] != '='
    ensures After(InKey, name) == Some(InKey)
    decreases name
  {
    if name != [] {
      assert forall j :: 0 <= j < |name[1..]| ==> name[1..][j] == name[j + 1];
      NameStaysInKey(name[1..]);
    }
  }

  /** A parameter that ends before a word, ends alike whatever the word. */
  lemma FirstParameter(a: string, u: string)
    requires Unblanked(a) != [] && u != [] && u[0] == 's'
    requires After(InKey, Unblanked(a)).Some? ==> After(InKey, Unblanked(a)).value in {Gap, Over}
    ensures var t := Unblanked(a);
      var n := ParamLen(t, InKey);
      0 < n <= |t| && Parameters(a + u) == Prepend(t[..n], Parameters(t[n..] + u))
  {
    var t := Unblanked(a);
    UnblankedConcat(a, u);
    LenAlike(t, u);
    CutFront(t, u, ParamLen(t, InKey));
    ParametersFrom(a + u, t + u);
  }

  lemma LenAlike(t: string, u: string)
    requires t != [] && u != [] && u[0] == 's'
    requires After(InKey, t).Some? ==> After(InKey, t).value in {Gap, Over}
    ensures ParamLen(t + u, InKey) == ParamLen(t, InKey)
  {
    LenThrough(t, u, InKey);
  }

  lemma CutFront(t: string, u: string, n: nat)
    requires n <= |t|
    ensures (t + u)[..n] == t[..n] && (t + u)[n..] == t[n..] + u
  {}

  lemma ParametersFrom(s: string, t: string)
    requires t != [] && Unblanked(s) == t
    ensures var n := ParamLen(t, InKey);
      n > 0 && Parameters(s) == Prepend(t[..n], Parameters(t[n..]))
  {}

  lemma TailEndsBlank(a: string, n: nat)
    requires EndsBlank(a) && n <= |Unblanked(a)|
    ensures EndsBlank(Unblanked(a)[n..])
  {
    UnblankedEnd(a);
  }

  // ----- replaced and nothing else ------------------------------------------------------------------

  lemma ReplacedLaterOn(a: seq<string>, b: seq<string>, w: string)
    requires OneReplaced(a, b)
    ensures OneReplaced(Prepend(w, a), Prepend(w, b))
  {
    var k: nat :| ReplacedAt(a, b, k);
    assert ReplacedAt(Prepend(w, a), Prepend(w, b), k + 1);
  }

  lemma SameUnblanked(s: string, t: string)
    requires Unblanked(s) == Unblanked(t)
    ensures Parameters(s) == Parameters(t)
  {}

  lemma RequireFirst(b: string)
    requires BeginsBlank(b)
    ensures Parameters(REQUIRE + b) == Prepend(REQUIRE, Parameters(b))
  {
    RequireIsSolid();
    RequireAlone(b);
    assert (REQUIRE + b)[0] == REQUIRE[0] && REQUIRE[0] in REQUIRE;
    ParametersFrom(REQUIRE + b, REQUIRE + b);
    CutAt(REQUIRE, b);
  }

  lemma CutAt(a: string, b: string)
    ensures (a + b)[..|a|] == a && (a + b)[|a|..] == b
  {}

  /** The parameter the word begins is no new `sslmode` yet. */
  lemma WordFirst(x: string, b: string) returns (w: string, rest: string)
    requires Word(x)
    ensures var n := ParamLen(x + b, InKey); w == (x + b)[..n] && rest == (x + b)[n..]
    ensures w != REQUIRE && Parameters(x + b) == Prepend(w, Parameters(rest))
  {
    var n := ParamLen(x + b, InKey);
    w, rest := (x + b)[..n], (x + b)[n..];
    KeyIsSolid();
    RequireIsSolid();
    assert x[0] in x && x[|KEY|] in x;
    TakesKey(x, b, InKey);
    ParametersFrom(x + b, x + b);
    assert w[8] == x[8];
  }

  lemma BlanksDropped(x: string, b: string, n: nat)
    requires |x| <= n <= |x + b| && Unblanked(b[..n - |x|]) == []
    ensures Parameters((x + b)[n..]) == Parameters(b)
  {
    var m := n - |x|;
    assert (x + b)[n..] == b[m..] && b == b[..m] + b[m..];
    UnblankedConcat(b[..m], b[m..]);
    SameUnblanked(b, b[m..]);
  }

  /** At the word itself. */
  lemma ReplacedHere(x: string, b: string)
    requires Word(x) && BeginsBlank(b) && Alone(x, b)
    ensures OneReplaced(Parameters(x + b), Parameters(REQUIRE + b))
  {
    var w, rest := WordFirst(x, b);
    RequireFirst(b);
    BlanksDropped(x, b, ParamLen(x + b, InKey));
    assert ReplacedAt(Parameters(x + b), Parameters(REQUIRE + b), 0);
  }

  lemma {:induction false} ReplacedIf(a: string, x: string, b: string)
    requires Word(x) && BeginsBlank(b) && Between(a) && Alone(x, b)
    ensures OneReplaced(Parameters(a + (x + b)), Parameters(a + (REQUIRE + b)))
    decreases |a|
  {
    var t := Unblanked(a);
    KeyIsSolid();
    RequireIsSolid();
    if t == [] {
      UnblankedConcat(a, x + b);
      UnblankedConcat(a, REQUIRE + b);
      ReplacedHere(x, b);
      SameUnblanked(a + (x + b), x + b);
      SameUnblanked(a + (REQUIRE + b), REQUIRE + b);
    } else {
      var n := ParamLen(t, InKey);
      FirstParameter(a, x + b);
      FirstParameter(a, REQUIRE + b);
      ReplacedIf(t[n..], x, b);
      ReplacedLaterOn(Parameters(t[n..] + (x + b)), Parameters(t[n..] + (REQUIRE + b)), t[..n]);
    }
  }

  // ----- and otherwise not --------------------------------------------------------------------------

  /** How many characters are not blanks. */
  function Visibles(s: string): nat
  {
    if s == [] then 0 else (if IsWhitespace(s[0]) then 0 else 1) + Visibles(s[1..])
  }

  function VisiblesIn(texts: seq<string>): nat
  {
    if texts == [] then 0 else Visibles(texts[0]) + VisiblesIn(texts[1..])
  }

  lemma {:induction false} VisiblesConcat(a: string, b: string)
    ensures Visibles(a + b) == Visibles(a) + Visibles(b)
    decreases a
  {
    if a == [] {
      assert a + b == b;
    } else {
      assert (a + b)[1..] == a[1..] + b;
      VisiblesConcat(a[1..], b);
    }
  }

  lemma {:induction false} UnblankedVisibles(s: string)
    ensures Visibles(Unblanked(s)) == Visibles(s) && (Visibles(s) == 0 <==> Unblanked(s) == [])
    decreases s
  {
    if s != [] && IsWhitespace(s[0]) {
      UnblankedVisibles(s[1..]);
    }
  }

  /** The parameters hold every character that is not a blank. */
  lemma {:induction false} ParametersHoldAll(s: string)
    ensures VisiblesIn(Parameters(s)) == Visibles(s)
    decreases |s|
  {
    var t := Unblanked(s);
    UnblankedVisibles(s);
    if t != [] {
      var n := ParamLen(t, InKey);
      assert t == t[..n] + t[n..];
      VisiblesConcat(t[..n], t[n..]);
      ParametersHoldAll(t[n..]);
    }
  }

  /** The new list is the old one, or has one parameter replaced. */
  ghost predicate AtMostOne(a: seq<string>, b: seq<string>) { a == b || OneReplaced(a, b) }

  lemma TailsAtMostOne(v: string, w: string, a: seq<string>, b: seq<string>)
    requires AtMostOne(Prepend(v, a), Prepend(w, b))
    ensures v == w ==> AtMostOne(a, b)
    ensures v != w ==> w == REQUIRE && a == b
  {
    var all, all' := Prepend(v, a), Prepend(w, b);
    if all == all' {
      assert all[0] == v && all[1..] == a;
    } else {
      var k: nat :| ReplacedAt(all, all', k);
      if k == 0 {
        assert all'[1..] == all[1..];
      } else {
        assert all'[1..] == all[1..][k - 1 := REQUIRE] && all'[0] == all[0];
        assert ReplacedAt(a, b, k - 1);
      }
    }
  }

  /** At the word itself. */
  lemma AloneIfReplaced(x: string, b: string)
    requires Word(x) && BeginsBlank(b) && AtMostOne(Parameters(x + b), Parameters(REQUIRE + b))
    ensures Alone(x, b)
  {
    var w, rest := WordFirst(x, b);
    RequireFirst(b);
    TailsAtMostOne(w, REQUIRE, Parameters(rest), Parameters(b));
    ParametersHoldAll(rest);
    ParametersHoldAll(b);
    NothingBetween(x, b, ParamLen(x + b, InKey));
  }

  lemma NothingBetween(x: string, b: string, n: nat)
    requires x != [] && (forall c :: c in x ==> !IsWhitespace(c)) && n <= |x + b|
      && Visibles((x + b)[n..]) == Visibles(b)
    ensures n >= |x| && Unblanked(b[..n - |x|]) == []
  {
    if n < |x| {
      assert (x + b)[n..] == x[n..] + b && x[n] in x && x[n..][0] == x[n];
      VisiblesConcat(x[n..], b);
      assert false;
    }
    var m := n - |x|;
    assert (x + b)[n..] == b[m..] && b == b[..m] + b[m..];
    VisiblesConcat(b[..m], b[m..]);
    UnblankedVisibles(b[..m]);
  }

  /** A parameter that runs on into the word comes out changed, and not into the new `sslmode`. */
  lemma RunsOn(a: string, x: string, b: string)
    requires Word(x) && EndsBlank(a) && Unblanked(a) != []
    requires After(InKey, Unblanked(a)).Some? && After(InKey, Unblanked(a)).value !in {Gap, Over}
    ensures !AtMostOne(Parameters(a + (x + b)), Parameters(a + (REQUIRE + b)))
  {
    var t := Unblanked(a);
    var p := After(InKey, t).value;
    UnblankedEnd(a);
    KeyIsSolid();
    RequireIsSolid();
    assert x[|KEY|] in x && REQUIRE[|KEY|] in REQUIRE;
    TakesKey(x, b, p);
    TakesKey(REQUIRE, b, p);
    UnblankedConcat(a, x + b);
    UnblankedConcat(a, REQUIRE + b);
    LenThrough(t, x + b, InKey);
    LenThrough(t, REQUIRE + b, InKey);
    var s, s' := t + (x + b), t + (REQUIRE + b);
    var n, n' := ParamLen(s, InKey), ParamLen(s', InKey);
    var v, w := s[..n], s'[..n'];
    assert v[|t| + 8] == x[8] && w[|t| + 8] == 'r';
    assert w[|t| - 1] == t[|t| - 1] && w[|t| - 1] in w && IsWhitespace(w[|t| - 1]);
    if AtMostOne(Parameters(a + (x + b)), Parameters(a + (REQUIRE + b))) {
      TailsAtMostOne(v, w, Parameters(s[n..]), Parameters(s'[n'..]));
    }
  }

  lemma {:induction false} OnlyIf(a: string, x: string, b: string)
    requires Word(x) && EndsBlank(a) && BeginsBlank(b)
    requires AtMostOne(Parameters(a + (x + b)), Parameters(a + (REQUIRE + b)))
    ensures Between(a) && Alone(x, b)
    decreases |a|
  {
    var t := Unblanked(a);
    KeyIsSolid();
    RequireIsSolid();
    if t == [] {
      UnblankedConcat(a, x + b);
      UnblankedConcat(a, REQUIRE + b);
      SameUnblanked(a + (x + b), x + b);
      SameUnblanked(a + (REQUIRE + b), REQUIRE + b);
      AloneIfReplaced(x, b);
    } else if After(InKey, t).Some? && After(InKey, t).value !in {Gap, Over} {
      RunsOn(a, x, b);
    } else {
      var n := ParamLen(t, InKey);
      FirstParameter(a, x + b);
      FirstParameter(a, REQUIRE + b);
      TailsAtMostOne(t[..n], t[..n], Parameters(t[n..] + (x + b)), Parameters(t[n..] + (REQUIRE + b)));
      TailEndsBlank(a, n);
      OnlyIf(t[n..], x, b);
    }
  }

  // ----- the rewriter -------------------------------------------------------------------------------

  /** What the scan finds is a word between blanks. */
  lemma {:induction false} FoundBetweenBlanks(s: string, wanted: string -> bool, i: nat)
    requires i <= |s| && FindWord(s, IsWhitespace, wanted, i).Some?
    ensures var r := FindWord(s, IsWhitespace, wanted, i).value;
      && (r.end < |s| ==> IsWhitespace(s[r.end]))
      && forall j :: r.start <= j < r.end ==> !IsWhitespace(s[j])
    decreases |s| - i
  {
    var b := Skip(s, IsWhitespace, false, i);
    SkipFinds(s, IsWhitespace, false, i);
    SkipFinds(s, IsWhitespace, true, b);
    var e := Skip(s, IsWhitespace, true, b);
    if !wanted(s[b..e]) {
      FoundBetweenBlanks(s, wanted, e);
    }
  }

  lemma {:induction false} TrimBackIsPrefix(s: string)
    ensures TrimBack(s) <= s
    decreases |s|
  {
    if s != [] && s[|s| - 1] == '\'' {
      TrimBackIsPrefix(s[..|s| - 1]);
    }
  }

  /** A value that needs rewriting is there and does not begin as the new one does. */
  lemma RewrittenValue(value: string)
    requires ModeOf(value).Some? && NeedsRewrite(ModeOf(value).value)
    ensures value != [] && value[0] != 'r'
  {
    var mode := ModeOf(value).value;
    ModeIsNamed(value, mode);
    TrimBackIsPrefix(TrimFront(value));
    NameBegins(mode);
    assert TrimFront(value)[0] == NameOf(mode)[0];
  }

  lemma NameBegins(mode: SslMode)
    requires NeedsRewrite(mode)
    ensures NameOf(mode) != [] && NameOf(mode)[0] != 'r'
  {
    assert "verify-ca"[0] == 'v' && "verify-full"[0] == 'v' && "no-verify"[0] == 'n';
  }

  lemma KeyedWord(x: string)
    requires IsSslMode(x) && ModeOf(ValueOf(x)).Some? && NeedsRewrite(ModeOf(ValueOf(x)).value)
    requires forall c :: c in x ==> !IsWhitespace(c)
    ensures Word(x)
  {
    var e := NextOf(x, '=', 0);
    NextOfFinds(x, '=', 0);
    assert x[..e] == "sslmode" && x == x[..e] + [x[e]] + x[e + 1..];
    assert KEY == "sslmode" + ['='];
    RewrittenValue(x[e + 1..]);
    assert x[|KEY|] == x[e + 1..][0];
  }

  lemma FoundIsWord(conn: string, r: Range)
    requires FindWord(conn, IsWhitespace, IsSslMode, 0) == Some(r)
    requires var x := conn[r.start..r.end];
      IsSslMode(x) && ModeOf(ValueOf(x)).Some? && NeedsRewrite(ModeOf(ValueOf(x)).value)
    ensures Word(conn[r.start..r.end]) && EndsBlank(conn[..r.start]) && BeginsBlank(conn[r.end..])
  {
    var x := conn[r.start..r.end];
    BlankBefore(conn, IsWhitespace, IsSslMode, 0);
    FoundBetweenBlanks(conn, IsSslMode, 0);
    NoBlankWithin(conn, r.start, r.end);
    KeyedWord(x);
  }

  lemma NoBlankWithin(s: string, i: nat, j: nat)
    requires i <= j <= |s| && forall k :: i <= k < j ==> !IsWhitespace(s[k])
    ensures forall c :: c in s[i..j] ==> !IsWhitespace(c)
  {
    forall c | c in s[i..j] ensures !IsWhitespace(c) {
      var k :| 0 <= k < j - i && s[i..j][k] == c;
      assert s[i + k] == c;
    }
  }

  lemma Parts(s: string, i: nat, j: nat)
    requires i <= j <= |s|
    ensures s == s[..i] + (s[i..j] + s[j..])
    ensures Splice(s, i, j, REQUIRE) == s[..i] + (REQUIRE + s[j..])
  {}

  lemma ReplacedIff(a: string, x: string, b: string)
    requires Word(x) && EndsBlank(a) && BeginsBlank(b)
    ensures OneReplaced(Parameters(a + (x + b)), Parameters(a + (REQUIRE + b))) <==> Between(a) && Alone(x, b)
  {
    if Between(a) && Alone(x, b) {
      ReplacedIf(a, x, b);
    } else if OneReplaced(Parameters(a + (x + b)), Parameters(a + (REQUIRE + b))) {
      OnlyIf(a, x, b);
    }
  }

  /** Rewriting a key-value string replaces one parameter and leaves every other, a quoted password
      among them, as it was, exactly when no parameter that begins before the word found runs on
      into it and the word is that parameter's whole text. */
  lemma OthersUntouchedIff(conn: string, mode: SslMode)
    requires !IsUri(conn) && Parsed(conn) == Some(mode) && NeedsRewrite(mode)
    ensures SslModeRange(conn).Some?
    ensures var Range(start, end) := SslModeRange(conn).value;
      && start <= end <= |conn|
      && (OneReplaced(Parameters(conn), Parameters(DriverString(conn, mode)))
          <==> Between(conn[..start]) && Alone(conn[start..end], conn[end..]))
  {
    RangeIsParsed(conn);
    var r := SslModeRange(conn).value;
    FoundIsWord(conn, r);
    Parts(conn, r.start, r.end);
    ReplacedIff(conn[..r.start], conn[r.start..r.end], conn[r.end..]);
  }

  // ----- a password that does not stay ----------------------------------------------------------------

  const OPENED := "password='a"
  const WORD := "sslmode=no-verify"
  const CLOSED := " b'"

  /** A quoted password that holds an `sslmode` literal between blanks. */
  function QuotedPassword(): string { OPENED + " " + (WORD + CLOSED) }

  lemma OpenedIsOneWord()
    ensures |OPENED| == 11 && !IsSslMode(OPENED) && forall j :: 0 <= j < |OPENED| ==> !IsWhitespace(OPENED[j])
  {
    assert NextOf("password='a", '=', 0) == 8;
    assert OPENED[..8] == "password" && "password"[0] == 'p' && "sslmode"[0] == 's';
    assert Visible("password='a", '&', 0);
    VisibleHasNoBlank(OPENED, '&', 0);
  }

  lemma NoVerifyTrims()
    ensures TrimBack(TrimFront("no-verify")) == "no-verify"
  {}

  lemma WordIsOneWord()
    ensures |WORD| == 17 && IsSslMode(WORD) && forall j :: 0 <= j < |WORD| ==> !IsWhitespace(WORD[j])
    ensures ModeOf(ValueOf(WORD)) == Some(NoVerify)
  {
    assert NextOf("sslmode=no-verify", '=', 0) == 7;
    assert WORD[..7] == "sslmode" && WORD[8..] == "no-verify";
    NoVerifyTrims();
    WordHasNoBlank();
  }

  lemma WordHasNoBlank()
    ensures forall j :: 0 <= j < |WORD| ==> !IsWhitespace(WORD[j])
  {
    assert Visible("sslmode=", '&', 0) && Visible("no-verify", '&', 0);
    VisibleHasNoBlank("sslmode=", '&', 0);
    VisibleHasNoBlank("no-verify", '&', 0);
    NoBlankConcat("sslmode=", "no-verify");
    assert WORD == "sslmode=" + "no-verify";
  }

  lemma NoBlankConcat(a: string, b: string)
    requires forall j :: 0 <= j < |a| ==> !IsWhitespace(a[j])
    requires forall j :: 0 <= j < |b| ==> !IsWhitespace(b[j])
    ensures forall j :: 0 <= j < |a + b| ==> !IsWhitespace((a + b)[j])
  {}

  /** The scan passes the word that opens the quote and finds the one inside it. */
  lemma ScanFindsInside(conn: string)
    requires conn == QuotedPassword()
    ensures FindWord(conn, IsWhitespace, IsSslMode, 0) == Some(Range(12, 29)) && conn[12..29] == WORD
  {
    OpenedIsOneWord();
    WordIsOneWord();
    PasswordBlanks(conn);
    SkipIs(conn, IsWhitespace, false, 0, 0);
    SkipIs(conn, IsWhitespace, true, 0, 11);
    SkipIs(conn, IsWhitespace, false, 11, 12);
    SkipIs(conn, IsWhitespace, true, 12, 29);
    WordFound(conn, IsWhitespace, IsSslMode, 11, 12, 29);
    WordPassed(conn, IsWhitespace, IsSslMode, 0, 0, 11);
  }

  lemma WordFound(s: string, blank: char -> bool, wanted: string -> bool, i: nat, b: nat, e: nat)
    requires i <= |s| && Skip(s, blank, false, i) == b < |s| && Skip(s, blank, true, b) == e && wanted(s[b..e])
    ensures FindWord(s, blank, wanted, i) == Some(Range(b, e))
  {}

  lemma WordPassed(s: string, blank: char -> bool, wanted: string -> bool, i: nat, b: nat, e: nat)
    requires i <= |s| && Skip(s, blank, false, i) == b < |s| && Skip(s, blank, true, b) == e && !wanted(s[b..e])
    ensures FindWord(s, blank, wanted, i) == FindWord(s, blank, wanted, e)
  {}

  lemma PasswordBlanks(conn: string)
    requires conn == QuotedPassword()
    ensures |conn| == 32 && conn[..11] == OPENED && conn[12..29] == WORD && conn[11] == conn[29] == ' '
    ensures forall j :: 0 <= j < 11 || 12 <= j < 29 ==> !IsWhitespace(conn[j])
  {
    OpenedIsOneWord();
    WordIsOneWord();
    assert forall j {:trigger conn[j]} :: 0 <= j < 11 ==> conn[j] == OPENED[j];
    assert forall j {:trigger conn[j]} :: 12 <= j < 29 ==> conn[j] == WORD[j - 12];
  }

  /** The quote is still open at the end. */
  lemma QuoteIsOpen()
    ensures !Between(OPENED + " ")
  {
    var t := OPENED + " ";
    assert t[0] == 'p' && Unblanked(t) == t;
    OpenedStaysQuoted();
  }

  lemma OpenedStaysQuoted()
    ensures After(InKey, OPENED + " ") == Some(Quoted)
  {
    var name, t := "password", OPENED + " ";
    assert Visible("password", '=', 0);
    VisibleHasNoBlank(name, '=', 0);
    NameStaysInKey(name);
    var rest := "=" + ("'" + ("a" + " "));
    assert t == name + rest;
    AfterConcat(InKey, name, rest);
    QuoteOpens();
  }

  lemma QuoteOpens()
    ensures After(InKey, "=" + ("'" + ("a" + " "))) == Some(Quoted)
  {
    AfterConcat(InKey, "=", "'" + ("a" + " "));
    AfterConcat(AfterEquals, "'", "a" + " ");
    AfterConcat(Quoted, "a", " ");
    AfterOne(InKey, '=');
    AfterOne(AfterEquals, '\'');
    AfterOne(Quoted, 'a');
    AfterOne(Quoted, ' ');
  }

  lemma AfterOne(p: Place, c: char)
    ensures After(p, [c]) == if Stops(p, c) then None else Some(Next(p, c))
  {
    assert [c][1..] == [];
  }

  lemma QuotedPasswordIsKeyValue()
    ensures !IsUri(QuotedPassword())
  {
    var conn := QuotedPassword();
    assert conn[1] == OPENED[1] == 'a' && SCHEME[1] == 'o' && LONG_SCHEME[1] == 'o';
  }

  lemma QuotedPasswordScanned(conn: string)
    requires conn == QuotedPassword()
    ensures Parsed(conn) == Some(NoVerify) && SslModeRange(conn) == Some(Range(12, 29))
    ensures DriverString(conn, NoVerify) == OPENED + " " + (REQUIRE + CLOSED)
  {
    QuotedPasswordIsKeyValue();
    ScanFindsInside(conn);
    WordIsOneWord();
    RangeIsParsed(conn);
    Parts(conn, 12, 29);
    PartsOfPassword();
  }

  lemma PartsOfPassword()
    ensures QuotedPassword()[..12] == OPENED + " " && QuotedPassword()[29..] == CLOSED
  {
    assert |OPENED| == 11 && |WORD| == 17;
  }

  lemma WordInside()
    ensures Word(WORD) && EndsBlank(OPENED + " ") && BeginsBlank(CLOSED)
  {
    WordIsOneWord();
    assert CLOSED[0] == ' ';
    forall c | c in WORD ensures !IsWhitespace(c) {
      var j :| 0 <= j < |WORD| && WORD[j] == c;
    }
    KeyedWord(WORD);
  }

  /** A password in quotes with a blank before an `sslmode` literal: the literal is taken for the
      parameter, and what the driver is given as the password is another one. */
  lemma QuotedPasswordRewritten()
    ensures var conn := QuotedPassword();
      && Parsed(conn) == Some(NoVerify) && SslModeRange(conn) == Some(Range(12, 29))
      && DriverString(conn, NoVerify) == OPENED + " " + (REQUIRE + CLOSED)
      && !OneReplaced(Parameters(conn), Parameters(DriverString(conn, NoVerify)))
  {
    QuotedPasswordScanned(QuotedPassword());
    QuoteIsOpen();
    WordInside();
    ReplacedIff(OPENED + " ", WORD, CLOSED);
  }
}
