/** The `ssl-mode` parameter of a MySQL connection string, which the driver must not see: the
    stripper takes it out and reports what it said. */
module MysqlSslMode {
  import opened Base
  import opened Scanning

  datatype SslMode = Absent | Disabled | Preferred | Required | VerifyCa | VerifyIdentity | NoVerify

  function LowerChar(c: char): char { if 'A' <= c <= 'Z' then c + (32 as char) else c }

  /** `to_ascii_lowercase`. */
  function Lower(s: string): string { seq(|s|, i requires 0 <= i < |s| => LowerChar(s[i])) }

  /** None: not a mode. A typo must not silently downgrade to plaintext. */
  function ModeOf(value: string): Option<SslMode>
  {
    var v := Lower(value);
    if v in {"disabled", "disable"} then Some(Disabled)
    else if v in {"preferred", "prefer"} then Some(Preferred)
    else if v in {"required", "require"} then Some(Required)
    else if v in {"verify_ca", "verify-ca", "verifyca"} then Some(VerifyCa)
    else if v in {"verify_identity", "verify-identity", "verifyidentity", "verify-full", "verify_full"}
    then Some(VerifyIdentity)
    else if v in {"no-verify", "no_verify", "noverify"} then Some(NoVerify)
    else None
  }

  /** `split_once('=')`. */
  function KeyEnd(param: string): nat { NextOf(param, '=', 0) }

  predicate IsSslMode(param: string)
  {
    KeyEnd(param) < |param| && Lower(param[..KeyEnd(param)]) in {"ssl-mode", "ssl_mode", "sslmode"}
  }

  function ParamMode(param: string): Option<SslMode>
    requires IsSslMode(param)
  {
    ModeOf(param[KeyEnd(param) + 1..])
  }

  datatype Stripped = Stripped(conn: string, mode: SslMode)

  // ----- what stripping means --------------------------------------------------------------------

  /** Every other parameter, in order. */
  function Retained(params: seq<string>): seq<string>
  {
    if params == [] then []
    else if IsSslMode(params[0]) then Retained(params[1..])
    else Prepend(params[0], Retained(params[1..]))
  }

  /** What the last mode parameter says; None when one of them says nothing that is a mode. */
  function LastMode(params: seq<string>, before: SslMode): Option<SslMode>
    decreases params
  {
    if params == [] then Some(before)
    else if !IsSslMode(params[0]) then LastMode(params[1..], before)
    else if ParamMode(params[0]).None? then None
    else LastMode(params[1..], ParamMode(params[0]).value)
  }

  function Join(params: seq<string>): string
    requires params != []
  {
    if |params| == 1 then params[0] else params[0] + "&" + Join(params[1..])
  }

  /** The parameters behind the first question mark; None when there is none. */
  function Query(conn: string): Option<seq<string>>
  {
    var q := NextOf(conn, '?', 0);
    if q == |conn| then None else Some(Split(conn, '&', q + 1))
  }

  function Server(conn: string): string { conn[..NextOf(conn, '?', 0)] }

  function Rebuilt(base: string, params: seq<string>): string
  {
    if params == [] then base else base + "?" + Join(params)
  }

  function Strip(conn: string): Option<Stripped>
  {
    if Query(conn).None? then Some(Stripped(conn, Absent))
    else
      var mode := LastMode(Query(conn).value, Absent);
      if mode.None? then None else Some(Stripped(Rebuilt(Server(conn), Retained(Query(conn).value)), mode.value))
  }

  // ----- the loop ----------------------------------------------------------------------------------

  lemma {:induction false} RetainedSnoc(params: seq<string>, p: string)
    ensures Retained(params + [p]) == Retained(params) + (if IsSslMode(p) then [] else [p])
    decreases params
  {
    if params == [] {
      assert params + [p] == [p] && [p][1..] == [];
    } else {
      assert (params + [p])[1..] == params[1..] + [p];
      RetainedSnoc(params[1..], p);
    }
  }

  lemma {:induction false} LastModeSplit(a: seq<string>, b: seq<string>, before: SslMode)
    ensures LastMode(a + b, before) == var m := LastMode(a, before); if m.None? then None else LastMode(b, m.value)
    decreases a
  {
    if a == [] {
      assert a + b == b;
    } else {
      assert (a + b)[1..] == a[1..] + b;
      if !IsSslMode(a[0]) {
        LastModeSplit(a[1..], b, before);
      } else if ParamMode(a[0]).Some? {
        LastModeSplit(a[1..], b, ParamMode(a[0]).value);
      }
    }
  }

  /** `connection_string_and_ssl_mode`. */
  method ConnectionStringAndSslMode(conn: string) returns (r: Option<Stripped>)
    ensures r == Strip(conn)
  {
    var q := NextOf(conn, '?', 0);
    if q == |conn| {
      return Some(Stripped(conn, Absent));
    }
    var params := Split(conn, '&', q + 1);
    var sslMode, retained := Absent, [];
    for i := 0 to |params|
      invariant retained == Retained(params[..i]) && LastMode(params[..i], Absent) == Some(sslMode)
    {
      var param := params[i];
      assert params[..i + 1] == params[..i] + [param];
      RetainedSnoc(params[..i], param);
      LastModeSplit(params[..i], [param], Absent);
      assert [param][1..] == [];
      if IsSslMode(param) {
        var mode := ParamMode(param);
        if mode.None? {
          LastModeSplit(params[..i + 1], params[i + 1..], Absent);
          assert params[..i + 1] + params[i + 1..] == params;
          return None;
        }
        sslMode := mode.value;
      } else {
        retained := retained + [param];
      }
    }
    assert params[..|params|] == params;
    r := Some(Stripped(Rebuilt(conn[..q], retained), sslMode));
  }

  // ----- round trip ----------------------------------------------------------------------------------

  ghost predicate Free(params: seq<string>) { forall p :: p in params ==> '&' !in p }

  lemma {:induction false} PiecesAreFree(s: string, i: nat)
    requires i <= |s|
    ensures Free(Split(s, '&', i))
    decreases |s| - i
  {
    var e := NextOf(s, '&', i);
    NextOfFinds(s, '&', i);
    assert '&' !in s[i..e];
    if e < |s| {
      PiecesAreFree(s, e + 1);
      FrontFree(s[i..e], Split(s, '&', e + 1));
    }
  }

  lemma FrontFree(p: string, rest: seq<string>)
    requires '&' !in p && Free(rest)
    ensures Free(Prepend(p, rest))
  {
    assert Prepend(p, rest) == [p] + rest;
  }

  lemma {:induction false} RetainedFree(params: seq<string>)
    requires Free(params)
    ensures Free(Retained(params)) && forall p :: p in Retained(params) ==> !IsSslMode(p)
    decreases params
  {
    if params != [] {
      assert params[0] in params && forall p :: p in params[1..] ==> p in params;
      RetainedFree(params[1..]);
      if !IsSslMode(params[0]) {
        FrontFree(params[0], Retained(params[1..]));
        assert Retained(params) == [params[0]] + Retained(params[1..]);
      }
    }
  }

  /** From a position on, a text is the parameters joined. */
  ghost predicate JoinedFrom(s: string, i: nat, params: seq<string>)
    decreases params
  {
    && params != [] && i + |params[0]| <= |s| && s[i..i + |params[0]|] == params[0]
    && (if |params| == 1 then i + |params[0]| == |s|
        else i + |params[0]| < |s| && s[i + |params[0]|] == '&' && JoinedFrom(s, i + |params[0]| + 1, params[1..]))
  }

  lemma {:induction false} JoinIsJoined(pre: string, params: seq<string>)
    requires params != []
    ensures JoinedFrom(pre + Join(params), |pre|, params)
    decreases params
  {
    var s, p := pre + Join(params), params[0];
    if |params| > 1 {
      var next := pre + p + "&";
      JoinIsJoined(next, params[1..]);
      assert s == next + Join(params[1..]);
    }
  }

  lemma PieceEnds(s: string, i: nat, p: string)
    requires i + |p| <= |s| && s[i..i + |p|] == p && '&' !in p && (i + |p| < |s| ==> s[i + |p|] == '&')
    ensures NextOf(s, '&', i) == i + |p|
  {
    forall j | i <= j < i + |p| ensures s[j] != '&' {
      assert s[i..i + |p|][j - i] == s[j];
    }
    NextOfIs(s, '&', i, i + |p|);
  }

  /** Splitting what was joined gives the parameters back. */
  lemma {:induction false} SplitJoined(s: string, i: nat, params: seq<string>)
    requires JoinedFrom(s, i, params) && Free(params)
    ensures i <= |s| && Split(s, '&', i) == params
    decreases params
  {
    var p := params[0];
    assert p in params;
    PieceEnds(s, i, p);
    if |params| == 1 {
      assert params == [p];
    } else {
      assert forall x :: x in params[1..] ==> x in params;
      SplitJoined(s, i + |p| + 1, params[1..]);
      assert Prepend(p, params[1..]) == params;
    }
  }

  /** The base ends at the first question mark. */
  lemma ServerHasNoMark(conn: string)
    ensures NextOf(Server(conn), '?', 0) == |Server(conn)|
  {
    NextOfFinds(conn, '?', 0);
    var b := Server(conn);
    assert forall j {:trigger b[j]} :: 0 <= j < |b| ==> b[j] == conn[j];
    NextOfIs(b, '?', 0, |b|);
  }

  lemma MarkAfterBase(base: string, rest: string)
    requires NextOf(base, '?', 0) == |base|
    ensures NextOf(base + "?" + rest, '?', 0) == |base|
  {
    NextOfFinds(base, '?', 0);
    var s := base + "?" + rest;
    assert forall j {:trigger s[j]} :: 0 <= j < |base| ==> s[j] == base[j];
    assert s[|base|] == '?';
    NextOfIs(s, '?', 0, |base|);
  }

  lemma QueryIs(s: string, n: nat, params: seq<string>)
    requires NextOf(s, '?', 0) == n < |s| && JoinedFrom(s, n + 1, params) && Free(params)
    ensures Query(s) == Some(params)
  {
    SplitJoined(s, n + 1, params);
  }

  lemma QueryOfJoined(base: string, params: seq<string>, s: string)
    requires NextOf(base, '?', 0) == |base| && Free(params) && params != [] && s == base + "?" + Join(params)
    ensures NextOf(s, '?', 0) == |base| < |s| && s[..|base|] == base && Query(s) == Some(params)
  {
    MarkAfterBase(base, Join(params));
    JoinIsJoined(base + "?", params);
    QueryIs(s, |base|, params);
  }

  lemma QueryOfRebuilt(base: string, params: seq<string>)
    requires NextOf(base, '?', 0) == |base| && Free(params)
    ensures Server(Rebuilt(base, params)) == base
    ensures Query(Rebuilt(base, params)) == if params == [] then None else Some(params)
  {
    if params != [] {
      QueryOfJoined(base, params, Rebuilt(base, params));
    }
  }

  lemma {:induction false} NothingLeft(params: seq<string>)
    requires forall p :: p in params ==> !IsSslMode(p)
    ensures Retained(params) == params && LastMode(params, Absent) == Some(Absent)
    decreases params
  {
    if params != [] {
      assert params[0] in params && forall p :: p in params[1..] ==> p in params;
      NothingLeft(params[1..]);
    }
  }

  /** Stripping keeps the base and every other parameter, in order, and takes every mode parameter
      out: stripping the result again changes nothing and finds no mode. */
  lemma StripKeepsTheRest(conn: string)
    requires Strip(conn).Some?
    ensures var out := Strip(conn).value.conn;
      && Server(out) == Server(conn)
      && (Query(conn).Some? ==>
            (Query(out) == if Retained(Query(conn).value) == [] then None else Some(Retained(Query(conn).value))))
      && Strip(out) == Some(Stripped(out, Absent))
  {
    if Query(conn).Some? {
      var params := Query(conn).value;
      PiecesAreFree(conn, NextOf(conn, '?', 0) + 1);
      RetainedFree(params);
      ServerHasNoMark(conn);
      QueryOfRebuilt(Server(conn), Retained(params));
      NothingLeft(Retained(params));
    }
  }

  lemma {:induction false} LastModeIs(params: seq<string>, before: SslMode, i: nat)
    requires i < |params| && IsSslMode(params[i]) && forall j :: i < j < |params| ==> !IsSslMode(params[j])
    requires LastMode(params, before).Some?
    ensures LastMode(params, before) == ParamMode(params[i])
    decreases params
  {
    var rest := params[1..];
    assert forall j :: 0 <= j < |rest| ==> rest[j] == params[j + 1];
    var next := if IsSslMode(params[0]) then ParamMode(params[0]).value else before;
    if i > 0 {
      LastModeIs(rest, next, i - 1);
    } else {
      NoModeLeft(rest, next);
    }
  }

  lemma {:induction false} NoModeLeft(params: seq<string>, before: SslMode)
    requires forall j :: 0 <= j < |params| ==> !IsSslMode(params[j])
    ensures LastMode(params, before) == Some(before)
    decreases params
  {
    if params != [] {
      assert forall j :: 0 <= j < |params[1..]| ==> params[1..][j] == params[j + 1];
      NoModeLeft(params[1..], before);
    }
  }

  /** What is reported is what the last mode parameter says, or that there is none. */
  lemma LastOneIsReported(conn: string)
    requires Strip(conn).Some? && Query(conn).Some?
    ensures var params := Query(conn).value;
      && (forall i :: 0 <= i < |params| && IsSslMode(params[i])
                      && (forall j :: i < j < |params| ==> !IsSslMode(params[j])) ==>
           ParamMode(params[i]) == Some(Strip(conn).value.mode))
      && ((forall j :: 0 <= j < |params| ==> !IsSslMode(params[j])) ==> Strip(conn).value.mode == Absent)
  {
    var params := Query(conn).value;
    forall i | 0 <= i < |params| && IsSslMode(params[i]) && (forall j :: i < j < |params| ==> !IsSslMode(params[j]))
      ensures ParamMode(params[i]) == Some(Strip(conn).value.mode)
    {
      LastModeIs(params, Absent, i);
    }
    if forall j :: 0 <= j < |params| ==> !IsSslMode(params[j]) {
      NoModeLeft(params, Absent);
    }
  }

  // ----- names ---------------------------------------------------------------------------------------

  /** The names of a mode; none of Absent, which no value selects. */
  function NamesOf(mode: SslMode): set<string>
  {
    match mode
    case Absent => {}
    case Disabled => {"disabled", "disable"}
    case Preferred => {"preferred", "prefer"}
    case Required => {"required", "require"}
    case VerifyCa => {"verify_ca", "verify-ca", "verifyca"}
    case VerifyIdentity => {"verify_identity", "verify-identity", "verifyidentity", "verify_full", "verify-full"}
    case NoVerify => {"no_verify", "no-verify", "noverify"}
  }

  /** Character by character the value is the name, or an upper-case letter of it. */
  predicate Spells(value: string, name: string)
  {
    |value| == |name| && forall i :: 0 <= i < |name| ==>
      name[i] as int == (if 'A' <= value[i] <= 'Z' then value[i] as int + 32 else value[i] as int)
  }

  lemma LowerIs(value: string, name: string)
    ensures Lower(value) == name <==> Spells(value, name)
  {
    if Lower(value) == name {
      forall i | 0 <= i < |name| ensures name[i] == LowerChar(value[i]) {
        assert Lower(value)[i] == LowerChar(value[i]);
      }
    }
    if Spells(value, name) {
      forall i | 0 <= i < |name| ensures Lower(value)[i] == name[i] {
      }
    }
  }

  lemma ModeOfIff(value: string, mode: SslMode)
    ensures ModeOf(value) == Some(mode) <==> Lower(value) in NamesOf(mode)
  {}

  /** A value selects a mode exactly when it spells one of its names, in any case. */
  lemma ModeIsNamed(value: string, mode: SslMode)
    ensures ModeOf(value) == Some(mode) <==> exists name :: name in NamesOf(mode) && Spells(value, name)
  {
    ModeOfIff(value, mode);
    LowerIs(value, Lower(value));
    forall name | name in NamesOf(mode) && Spells(value, name) ensures Lower(value) == name {
      LowerIs(value, name);
    }
  }

  lemma {:induction false} LastModeFailsIff(params: seq<string>, before: SslMode)
    ensures LastMode(params, before).None? <==> exists p :: p in params && IsSslMode(p) && ParamMode(p).None?
    decreases params
  {
    if params != [] {
      assert params == [params[0]] + params[1..];
      if !IsSslMode(params[0]) {
        LastModeFailsIff(params[1..], before);
      } else if ParamMode(params[0]).Some? {
        LastModeFailsIff(params[1..], ParamMode(params[0]).value);
      }
    }
  }

  /** A connection string is refused exactly when it has a query and one of the query's mode
      parameters, first or last, is not a mode. */
  lemma RefusedIff(conn: string)
    ensures Strip(conn).None? <==>
      Query(conn).Some? && exists p :: p in Query(conn).value && IsSslMode(p) && ParamMode(p).None?
  {
    if Query(conn).Some? {
      LastModeFailsIff(Query(conn).value, Absent);
    }
  }
}
