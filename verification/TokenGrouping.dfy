/** Outputs grouped by token, as PostgreSQL stores them, against the order they are reported in, as
    MySQL stores them: which report of an outpoint is kept, and exactly when it is the same one. */
module TokenGrouping {
  import opened Base
  import opened TokenSelection
  import opened TokenTables

  datatype Group = Group(token: string, outputs: seq<TokenOutput>)

  /** `group_outputs_by_token`, one output at a time. */
  function AddToGroups(gs: seq<Group>, x: TokenOutput): seq<Group>
  {
    if gs == [] then [Group(x.token, [x])]
    else if gs[0].token == x.token then Prepend(Group(x.token, gs[0].outputs + [x]), gs[1..])
    else Prepend(gs[0], AddToGroups(gs[1..], x))
  }

  lemma {:induction false} AddAt(gs: seq<Group>, x: TokenOutput, j: nat)
    requires j <= |gs| && (forall k :: 0 <= k < j ==> gs[k].token != x.token) && (j < |gs| ==> gs[j].token == x.token)
    ensures AddToGroups(gs, x) ==
      if j < |gs| then gs[j := Group(x.token, gs[j].outputs + [x])] else gs + [Group(x.token, [x])]
    decreases j
  {
    if j > 0 {
      AddAt(gs[1..], x, j - 1);
    }
  }

  function Grouped(xs: seq<TokenOutput>): seq<Group>
  {
    if xs == [] then [] else AddToGroups(Grouped(xs[..|xs| - 1]), xs[|xs| - 1])
  }

  function Ungrouped(gs: seq<Group>): seq<TokenOutput>
  {
    if gs == [] then [] else gs[0].outputs + Ungrouped(gs[1..])
  }

  function IsToken(token: string): TokenOutput -> bool { (x: TokenOutput) => x.token == token }

  /** Where a token is first reported; past the end if it is not. */
  function FirstSeen(xs: seq<TokenOutput>, token: string): (i: nat)
    ensures i <= |xs|
  {
    if xs == [] || xs[0].token == token then 0 else 1 + FirstSeen(xs[1..], token)
  }

  lemma {:induction false} FirstSeenSnoc(xs: seq<TokenOutput>, x: TokenOutput, token: string)
    ensures FirstSeen(xs + [x], token) ==
      if FirstSeen(xs, token) < |xs| then FirstSeen(xs, token) else if x.token == token then |xs| else |xs| + 1
    decreases xs
  {
    if xs == [] {
      assert xs + [x] == [x] && [x][1..] == [];
    } else {
      assert (xs + [x])[1..] == xs[1..] + [x];
      FirstSeenSnoc(xs[1..], x, token);
    }
  }

  lemma {:induction false} SeenIff(xs: seq<TokenOutput>, token: string)
    ensures FirstSeen(xs, token) < |xs| <==> exists x :: x in xs && x.token == token
    decreases xs
  {
    if xs != [] {
      SeenIff(xs[1..], token);
      assert xs == [xs[0]] + xs[1..];
    }
  }

  // ----- what is kept of a list ---------------------------------------------------------------------

  lemma {:induction false} KeepConcat(a: seq<TokenOutput>, b: seq<TokenOutput>, p: TokenOutput -> bool)
    ensures Keep(a + b, p) == Keep(a, p) + Keep(b, p)
    decreases a
  {
    if a == [] {
      assert a + b == b;
    } else {
      assert (a + b)[1..] == a[1..] + b;
      KeepConcat(a[1..], b, p);
    }
  }

  lemma {:induction false} KeepNone(s: seq<TokenOutput>, p: TokenOutput -> bool)
    requires forall x :: x in s ==> !p(x)
    ensures Keep(s, p) == []
    decreases s
  {
    if s != [] {
      assert s[0] in s;
      KeepNone(s[1..], p);
    }
  }

  lemma {:induction false} KeepTwiceTheSame(s: seq<TokenOutput>, p: TokenOutput -> bool)
    ensures Keep(Keep(s, p), p) == Keep(s, p)
    decreases s
  {
    if s != [] {
      KeepTwiceTheSame(s[1..], p);
    }
  }

  lemma KeepOne(x: TokenOutput, p: TokenOutput -> bool)
    ensures Keep([x], p) == if p(x) then [x] else []
  {
    assert [x][1..] == [];
  }

  lemma {:induction false} KeepMembers(s: seq<TokenOutput>, p: TokenOutput -> bool)
    ensures forall x :: x in Keep(s, p) <==> x in s && p(x)
    decreases s
  {
    if s != [] {
      KeepMembers(s[1..], p);
      assert s == [s[0]] + s[1..];
      if p(s[0]) {
        assert Keep(s, p) == [s[0]] + Keep(s[1..], p);
      }
    }
  }

  // ----- the groups ---------------------------------------------------------------------------------

  /** One group per token, in the order the tokens are first reported, holding that token's reports
      in their order. */
  ghost predicate GroupsOf(gs: seq<Group>, xs: seq<TokenOutput>)
  {
    && (forall i :: 0 <= i < |gs| ==> gs[i].outputs == Keep(xs, IsToken(gs[i].token)))
    && (forall i, j :: 0 <= i < j < |gs| ==> FirstSeen(xs, gs[i].token) < FirstSeen(xs, gs[j].token))
    && (forall i :: 0 <= i < |gs| ==> FirstSeen(xs, gs[i].token) < |xs|)
    && (forall x :: x in xs ==> exists i :: 0 <= i < |gs| && gs[i].token == x.token)
  }

  function GroupAt(gs: seq<Group>, token: string): (j: nat)
    ensures j <= |gs| && (forall k :: 0 <= k < j ==> gs[k].token != token) && (j < |gs| ==> gs[j].token == token)
  {
    if gs == [] || gs[0].token == token then 0 else 1 + GroupAt(gs[1..], token)
  }

  /** Every group after one more output. */
  lemma GroupAfter(gs: seq<Group>, xs: seq<TokenOutput>, x: TokenOutput, i: nat)
    requires GroupsOf(gs, xs) && i < |AddToGroups(gs, x)|
    ensures var gs', xs' := AddToGroups(gs, x), xs + [x];
      && |gs| <= |gs'| <= |gs| + 1 && gs'[i].outputs == Keep(xs', IsToken(gs'[i].token))
      && (i < |gs| ==> gs'[i].token == gs[i].token && FirstSeen(xs', gs'[i].token) == FirstSeen(xs, gs[i].token))
      && (i == |gs| ==> gs'[i].token == x.token && FirstSeen(xs', gs'[i].token) == |xs|)
  {
    var token := AddToGroups(gs, x)[i].token;
    AddAt(gs, x, GroupAt(gs, x.token));
    KeepConcat(xs, [x], IsToken(token));
    KeepOne(x, IsToken(token));
    FirstSeenSnoc(xs, x, token);
    if i == |gs| {
      SeenIff(xs, token);
      KeepNone(xs, IsToken(token));
    } else {
      assert gs[i].outputs == Keep(xs, IsToken(gs[i].token));
    }
  }

  lemma TokensAfter(gs: seq<Group>, xs: seq<TokenOutput>, x: TokenOutput, y: TokenOutput) returns (i: nat)
    requires GroupsOf(gs, xs) && y in xs + [x]
    ensures i < |AddToGroups(gs, x)| && AddToGroups(gs, x)[i].token == y.token
  {
    i := GroupAt(gs, y.token);
    AddAt(gs, x, GroupAt(gs, x.token));
  }

  lemma AddToGroupsOf(gs: seq<Group>, xs: seq<TokenOutput>, x: TokenOutput, xs': seq<TokenOutput>)
    requires GroupsOf(gs, xs) && xs' == xs + [x]
    ensures GroupsOf(AddToGroups(gs, x), xs')
  {
    var gs' := AddToGroups(gs, x);
    forall i | 0 <= i < |gs'|
      ensures gs'[i].outputs == Keep(xs', IsToken(gs'[i].token)) && FirstSeen(xs', gs'[i].token) < |xs'|
    {
      GroupAfter(gs, xs, x, i);
    }
    forall i, j | 0 <= i < j < |gs'| ensures FirstSeen(xs', gs'[i].token) < FirstSeen(xs', gs'[j].token) {
      GroupAfter(gs, xs, x, i);
      GroupAfter(gs, xs, x, j);
    }
    forall y | y in xs' ensures exists i :: 0 <= i < |gs'| && gs'[i].token == y.token {
      var i := TokensAfter(gs, xs, x, y);
    }
  }

  lemma {:induction false} GroupedGroupsOf(xs: seq<TokenOutput>)
    ensures GroupsOf(Grouped(xs), xs)
    decreases xs
  {
    if xs != [] {
      var n := |xs| - 1;
      GroupedGroupsOf(xs[..n]);
      assert xs == xs[..n] + [xs[n]];
      AddToGroupsOf(Grouped(xs[..n]), xs[..n], xs[n], xs);
    }
  }

  /** Of groups with distinct tokens, a token's group is what is kept for it. */
  lemma {:induction false} UngroupedKeep(gs: seq<Group>, token: string)
    requires forall i, j :: 0 <= i < j < |gs| ==> gs[i].token != gs[j].token
    requires forall i :: 0 <= i < |gs| ==> gs[i].outputs == Keep(gs[i].outputs, IsToken(gs[i].token))
    ensures Keep(Ungrouped(gs), IsToken(token)) ==
      var j := GroupAt(gs, token); if j < |gs| then gs[j].outputs else []
    decreases gs
  {
    if gs != [] {
      var g, rest, p := gs[0], gs[1..], IsToken(token);
      UngroupedKeep(rest, token);
      KeepConcat(g.outputs, Ungrouped(rest), p);
      if g.token == token {
        assert forall k :: 0 <= k < |rest| ==> rest[k] == gs[k + 1];
      } else {
        KeepMembers(g.outputs, IsToken(g.token));
        KeepNone(g.outputs, p);
      }
    }
  }

  /** Grouping makes one group per token, in first-seen order, and keeps each token's outputs, all
      of them and in order. */
  lemma GroupingKeepsOrder(xs: seq<TokenOutput>, token: string)
    ensures GroupsOf(Grouped(xs), xs)
    ensures Keep(Ungrouped(Grouped(xs)), IsToken(token)) == Keep(xs, IsToken(token))
  {
    var gs := Grouped(xs);
    GroupedGroupsOf(xs);
    forall i | 0 <= i < |gs| ensures gs[i].outputs == Keep(gs[i].outputs, IsToken(gs[i].token)) {
      KeepTwiceTheSame(xs, IsToken(gs[i].token));
    }
    UngroupedKeep(gs, token);
    if GroupAt(gs, token) == |gs| {
      KeepNone(xs, IsToken(token));
    }
  }

  // ----- the report that is stored ------------------------------------------------------------------

  lemma {:induction false} FirstReportConcat(outs: TokenOutputs, a: seq<TokenOutput>, b: seq<TokenOutput>, o: Outpoint)
    ensures FirstReport(outs, a + b, o) ==
      if FirstReport(outs, a, o).Some? then FirstReport(outs, a, o) else FirstReport(outs, b, o)
    decreases a
  {
    if a == [] {
      assert a + b == b;
    } else {
      assert (a + b)[1..] == a[1..] + b;
      FirstReportConcat(outs, a[1..], b, o);
    }
  }

  /** The first group that reports an outpoint; past the end if none does. */
  function ReportingGroup(outs: TokenOutputs, gs: seq<Group>, o: Outpoint): (j: nat)
    ensures j <= |gs| && (j < |gs| ==> FirstReport(outs, gs[j].outputs, o).Some?)
    ensures forall k :: 0 <= k < j ==> FirstReport(outs, gs[k].outputs, o).None?
  {
    if gs == [] || FirstReport(outs, gs[0].outputs, o).Some? then 0 else 1 + ReportingGroup(outs, gs[1..], o)
  }

  lemma {:induction false} FirstReportOfGroups(outs: TokenOutputs, gs: seq<Group>, o: Outpoint)
    ensures FirstReport(outs, Ungrouped(gs), o) ==
      var j := ReportingGroup(outs, gs, o); if j < |gs| then FirstReport(outs, gs[j].outputs, o) else None
    decreases gs
  {
    if gs != [] {
      FirstReportConcat(outs, gs[0].outputs, Ungrouped(gs[1..]), o);
      FirstReportOfGroups(outs, gs[1..], o);
    }
  }

  /** Keeping one token keeps the first report, if it is that token's. */
  lemma {:induction false} FirstReportKept(outs: TokenOutputs, xs: seq<TokenOutput>, o: Outpoint, token: string)
    requires FirstReport(outs, xs, o).Some? && FirstReport(outs, xs, o).value.token == token
    ensures FirstReport(outs, Keep(xs, IsToken(token)), o) == FirstReport(outs, xs, o)
    decreases xs
  {
    if !(xs[0].at == o && outs.MetadataFor(xs[0].token).Some?) {
      FirstReportKept(outs, xs[1..], o, token);
    }
  }

  /** `y` is a report of the outpoint that could be stored: its token comes with metadata. */
  predicate Reports(outs: TokenOutputs, xs: seq<TokenOutput>, o: Outpoint, y: TokenOutput)
  {
    y in xs && y.at == o && outs.MetadataFor(y.token).Some?
  }

  lemma FirstReportFrom(outs: TokenOutputs, xs: seq<TokenOutput>, o: Outpoint)
    ensures FirstReport(outs, xs, o).Some? ==> Reports(outs, xs, o, FirstReport(outs, xs, o).value)
    ensures forall y :: Reports(outs, xs, o, y) ==> FirstReport(outs, xs, o).Some?
  {
    FirstReportIff(outs, xs, o);
  }

  /** A report's group reports the outpoint. */
  lemma ReportedInGroup(outs: TokenOutputs, xs: seq<TokenOutput>, gs: seq<Group>, o: Outpoint, y: TokenOutput)
    returns (j: nat)
    requires GroupsOf(gs, xs) && Reports(outs, xs, o, y)
    ensures j < |gs| && gs[j].token == y.token && ReportingGroup(outs, gs, o) <= j
  {
    j :| j < |gs| && gs[j].token == y.token;
    KeepMembers(xs, IsToken(y.token));
    assert Reports(outs, gs[j].outputs, o, y);
    FirstReportFrom(outs, gs[j].outputs, o);
  }

  /** What the first reporting group stores is a report of the list, under the group's token. */
  lemma GroupReports(outs: TokenOutputs, xs: seq<TokenOutput>, gs: seq<Group>, o: Outpoint, j: nat)
    requires GroupsOf(gs, xs) && j == ReportingGroup(outs, gs, o) < |gs|
    ensures var z := FirstReport(outs, gs[j].outputs, o).value; Reports(outs, xs, o, z) && z.token == gs[j].token
  {
    FirstReportFrom(outs, gs[j].outputs, o);
    KeepMembers(xs, IsToken(gs[j].token));
  }

  /** The token of `x` is reported no later than that of any report of the outpoint. */
  ghost predicate SeenFirst(outs: TokenOutputs, xs: seq<TokenOutput>, o: Outpoint, x: TokenOutput)
  {
    forall y :: Reports(outs, xs, o, y) ==> FirstSeen(xs, x.token) <= FirstSeen(xs, y.token)
  }

  /** Either the first reporting group is that of the first report, or its token is seen earlier. */
  lemma SameGroupIff(outs: TokenOutputs, xs: seq<TokenOutput>, gs: seq<Group>, o: Outpoint, x: TokenOutput)
    requires GroupsOf(gs, xs) && FirstReport(outs, xs, o) == Some(x)
    ensures var j := ReportingGroup(outs, gs, o);
      j < |gs| && (gs[j].token == x.token <==> SeenFirst(outs, xs, o, x))
  {
    var j := ReportingGroup(outs, gs, o);
    FirstReportFrom(outs, xs, o);
    var i := ReportedInGroup(outs, xs, gs, o, x);
    GroupReports(outs, xs, gs, o, j);
    if i == j {
      forall y | Reports(outs, xs, o, y) ensures FirstSeen(xs, x.token) <= FirstSeen(xs, y.token) {
        var k := ReportedInGroup(outs, xs, gs, o, y);
      }
    }
  }

  /** Stored group by group, as PostgreSQL does, or in the order reported, as MySQL does, the same
      report of an outpoint is kept exactly when the token of the first one is reported no later
      than every other token the outpoint is reported under. */
  lemma GroupedReportsAlikeIff(outs: TokenOutputs, xs: seq<TokenOutput>, o: Outpoint)
    ensures var grouped, first := FirstReport(outs, Ungrouped(Grouped(xs)), o), FirstReport(outs, xs, o);
      && (grouped.Some? <==> first.Some?)
      && (grouped == first <==> first.Some? ==> SeenFirst(outs, xs, o, first.value))
  {
    var gs, first := Grouped(xs), FirstReport(outs, xs, o);
    var j := ReportingGroup(outs, gs, o);
    GroupedGroupsOf(xs);
    FirstReportOfGroups(outs, gs, o);
    FirstReportFrom(outs, xs, o);
    if j < |gs| {
      GroupReports(outs, xs, gs, o, j);
    }
    if first.Some? {
      SameGroupIff(outs, xs, gs, o, first.value);
      if gs[j].token == first.value.token {
        FirstReportKept(outs, xs, o, first.value.token);
      }
    }
  }

  /** So the two stores leave the same row for an outpoint exactly when they have it already, or
      skip it, or nothing reports it, or its first report's token is seen first. */
  lemma GroupedStoresAlikeIff(t: TokenTables, outs: TokenOutputs, xs: seq<TokenOutput>, skip: set<Outpoint>,
                              at: Outpoint -> Time, o: Outpoint)
    ensures RowAt(StoreReported(t, outs, Ungrouped(Grouped(xs)), skip, at), o) ==
      RowAt(StoreReported(t, outs, xs, skip, at), o)
      <==> (o in t.outputs || o in skip || FirstReport(outs, xs, o).None?
            || SeenFirst(outs, xs, o, FirstReport(outs, xs, o).value))
  {
    GroupedReportsAlikeIff(outs, xs, o);
    StoreReportedRow(t, outs, xs, skip, at, o);
    StoreReportedRow(t, outs, Ungrouped(Grouped(xs)), skip, at, o);
  }

  /** No outpoint is reported under two tokens. */
  ghost predicate OneTokenEach(xs: seq<TokenOutput>)
  {
    forall x, y :: x in xs && y in xs && x.at == y.at ==> x.token == y.token
  }

  /** In particular they keep the same report of every outpoint when none is reported under two
      tokens. */
  lemma GroupedStoresAlike(outs: TokenOutputs, o: Outpoint)
    requires OneTokenEach(outs.outputs)
    ensures FirstReport(outs, Ungrouped(Grouped(outs.outputs)), o) == FirstReport(outs, outs.outputs, o)
  {
    GroupedReportsAlikeIff(outs, outs.outputs, o);
    FirstReportFrom(outs, outs.outputs, o);
  }

  /** They need not: the groups come in the order their tokens are first seen, so a later report
      of an outpoint can win over an earlier one under another token. */
  lemma GroupedStoresDiffer(o: Outpoint, p: Outpoint, ma: Metadata, mb: Metadata)
    requires o != p && ma.identifier != mb.identifier
    ensures var xs := [TokenOutput(p, mb.identifier, 1, ""), TokenOutput(o, ma.identifier, 1, ""),
      TokenOutput(o, mb.identifier, 2, "")];
      var outs := TokenOutputs([ma, mb], xs);
      FirstReport(outs, xs, o) == Some(xs[1]) && FirstReport(outs, Ungrouped(Grouped(xs)), o) == Some(xs[2])
  {
    var a, b, c := TokenOutput(p, mb.identifier, 1, ""), TokenOutput(o, ma.identifier, 1, ""),
      TokenOutput(o, mb.identifier, 2, "");
    var xs, ms := [a, b, c], [ma, mb];
    var outs := TokenOutputs(ms, xs);
    assert ms[1..] == [mb];
    assert FirstMetadata(ms, mb.identifier) == FirstMetadata([mb], mb.identifier) == Some(mb);
    assert xs[1..] == [b, c];
    var g1, g2 := [Group(b.token, [b])], [Group(a.token, [a])];
    assert Grouped([a]) == g2 by {
      assert [a][..0] == [];
    }
    assert Grouped([a, b]) == g2 + g1 by {
      assert [a, b][..1] == [a] && g2[1..] == [];
      assert Grouped([a, b]) == AddToGroups(g2, b) == Prepend(g2[0], AddToGroups([], b));
    }
    var g3 := [Group(a.token, [a] + [c])] + g1;
    assert Grouped(xs) == g3 by {
      assert xs[..2] == [a, b] && (g2 + g1)[1..] == g1 && (g2 + g1)[0] == g2[0];
      assert Grouped(xs) == AddToGroups(g2 + g1, c) == Prepend(Group(a.token, [a] + [c]), g1);
    }
    assert g3[1..] == g1 && g1[1..] == [];
    assert Ungrouped(g3) == [a] + [c] + Ungrouped(g1) && Ungrouped(g1) == [b] + [];
    var ys := [a, c, b];
    assert Ungrouped(g3) == ys;
    assert ys[1..] == [c, b];
  }
}
