/** Scanning a text for pieces between separators and for words between blanks: the lists the
    standard library's splits give, and where in the text a wanted piece or word is. */
module Scanning {
  import opened Base

  datatype Range = Range(start: nat, end: nat)

  // ----- positions in some unit ------------------------------------------------------------------

  /** A size of texts that adds up: that of a text is the sum of those of its parts. */
  ghost predicate Measures(size: string -> nat)
  {
    && (forall a, b {:trigger size(a + b)} :: size(a + b) == size(a) + size(b))
    && (forall a :: a != [] ==> size(a) > 0)
  }

  /** Where a character is, in the unit of `size`. */
  function Offset(s: string, i: nat, size: string -> nat): nat
    requires i <= |s|
  {
    size(s[..i])
  }

  /** The character at a place, as slicing a text there finds it. */
  function CharAt(s: string, n: nat, size: string -> nat, i: nat): (r: nat)
    requires i <= |s|
    ensures i <= r <= |s|
    decreases |s| - i
  {
    if i == |s| || Offset(s, i, size) >= n then i else CharAt(s, n, size, i + 1)
  }

  lemma OffsetLater(s: string, i: nat, j: nat, size: string -> nat)
    requires i <= j <= |s| && Measures(size)
    ensures Offset(s, j, size) == Offset(s, i, size) + size(s[i..j])
    ensures i < j ==> Offset(s, i, size) < Offset(s, j, size)
  {
    assert s[..j] == s[..i] + s[i..j];
  }

  lemma {:induction false} CharAtOffset(s: string, i: nat, size: string -> nat, from: nat)
    requires from <= i <= |s| && Measures(size)
    ensures CharAt(s, Offset(s, i, size), size, from) == i
    decreases i - from
  {
    OffsetLater(s, from, i, size);
    if from < i {
      CharAtOffset(s, i, size, from + 1);
    }
  }

  function Measured(s: string, r: Option<Range>, size: string -> nat): Option<Range>
    requires r.Some? ==> r.value.start <= |s| && r.value.end <= |s|
  {
    if r.None? then None else Some(Range(Offset(s, r.value.start, size), Offset(s, r.value.end, size)))
  }

  // ----- texts with a part replaced --------------------------------------------------------------

  /** `s` with the text between two positions replaced. */
  function Splice(s: string, a: nat, b: nat, y: string): string
    requires a <= b <= |s|
  {
    s[..a] + y + s[b..]
  }

  lemma SpliceAt(s: string, a: nat, b: nat, y: string)
    requires a <= b <= |s|
    ensures var t := Splice(s, a, b, y);
      && |t| == a + |y| + (|s| - b)
      && (forall m {:trigger t[m]} :: 0 <= m < a ==> t[m] == s[m])
      && (forall m {:trigger t[m]} :: a <= m < a + |y| ==> t[m] == y[m - a])
      && (forall m {:trigger t[m]} :: a + |y| <= m < |t| ==> t[m] == s[m - a - |y| + b])
      && t[a..a + |y|] == y
  {}

  // ----- pieces ----------------------------------------------------------------------------------

  /** The first position at or after `i` that holds `c`, or the end. */
  function NextOf(s: string, c: char, i: nat): (e: nat)
    requires i <= |s|
    ensures i <= e <= |s|
    decreases |s| - i
  {
    if i == |s| || s[i] == c then i else NextOf(s, c, i + 1)
  }

  lemma {:induction false} NextOfFinds(s: string, c: char, i: nat)
    requires i <= |s|
    ensures var e := NextOf(s, c, i); (e < |s| ==> s[e] == c) && forall j :: i <= j < e ==> s[j] != c
    decreases |s| - i
  {
    if i < |s| && s[i] != c {
      NextOfFinds(s, c, i + 1);
    }
  }

  lemma NextOfIs(s: string, c: char, i: nat, e: nat)
    requires i <= e <= |s| && (e < |s| ==> s[e] == c) && forall j :: i <= j < e ==> s[j] != c
    ensures NextOf(s, c, i) == e
  {
    NextOfFinds(s, c, i);
  }

  /** `str::split` on a character, from a position on: one piece more than there are separators. */
  function Split(s: string, c: char, i: nat): (r: seq<string>)
    requires i <= |s|
    ensures r != []
    decreases |s| - i
  {
    var e := NextOf(s, c, i);
    if e == |s| then [s[i..e]] else Prepend(s[i..e], Split(s, c, e + 1))
  }

  /** Where the first piece that is wanted is. */
  function FindPiece(s: string, c: char, wanted: string -> bool, i: nat): (r: Option<Range>)
    requires i <= |s|
    ensures r.Some? ==> i <= r.value.start <= r.value.end <= |s| && wanted(s[r.value.start..r.value.end])
    decreases |s| - i
  {
    var e := NextOf(s, c, i);
    if wanted(s[i..e]) then Some(Range(i, e)) else if e == |s| then None else FindPiece(s, c, wanted, e + 1)
  }

  /** The first wanted text in a list, or the end. */
  function FirstWanted(texts: seq<string>, wanted: string -> bool): (k: nat)
    ensures k <= |texts| && (k < |texts| ==> wanted(texts[k]))
  {
    if texts == [] || wanted(texts[0]) then 0 else 1 + FirstWanted(texts[1..], wanted)
  }

  lemma {:induction false} NoneBefore(texts: seq<string>, wanted: string -> bool)
    ensures forall j :: 0 <= j < FirstWanted(texts, wanted) ==> !wanted(texts[j])
    decreases texts
  {
    if texts != [] && !wanted(texts[0]) {
      NoneBefore(texts[1..], wanted);
    }
  }

  lemma FirstIs(texts: seq<string>, wanted: string -> bool, k: nat)
    requires k <= |texts| && (k < |texts| ==> wanted(texts[k])) && forall j :: 0 <= j < k ==> !wanted(texts[j])
    ensures FirstWanted(texts, wanted) == k
  {
    NoneBefore(texts, wanted);
  }

  /** The piece found by position is the first wanted one of the list. */
  lemma {:induction false} FoundPieceIsFirst(s: string, c: char, wanted: string -> bool, i: nat)
    requires i <= |s|
    ensures var texts, r := Split(s, c, i), FindPiece(s, c, wanted, i);
      var k := FirstWanted(texts, wanted);
      && (r.Some? <==> k < |texts|)
      && (r.Some? ==> s[r.value.start..r.value.end] == texts[k])
    decreases |s| - i
  {
    var e := NextOf(s, c, i);
    if !wanted(s[i..e]) && e < |s| {
      FoundPieceIsFirst(s, c, wanted, e + 1);
    }
  }

  lemma PieceAtOffset(s: string, c: char, wanted: string -> bool, i: nat)
    requires i <= |s|
    ensures var e, ps := NextOf(s, c, i), Split(s, c, i);
      && ps[0] == s[i..e] && |ps[0]| == e - i
      && (wanted(ps[0]) ==> FindPiece(s, c, wanted, i) == Some(Range(i, e)))
      && (e == |s| ==> |ps| == 1 && (!wanted(ps[0]) ==> FindPiece(s, c, wanted, i) == None))
      && (e < |s| ==> ps[1..] == Split(s, c, e + 1))
      && (e < |s| && !wanted(ps[0]) ==> FindPiece(s, c, wanted, i) == FindPiece(s, c, wanted, e + 1))
  {}

  /** `pieces` from `k` on are the pieces from `offset` on, and none before was wanted. */
  ghost predicate PiecesLeft(s: string, c: char, wanted: string -> bool, from: nat, pieces: seq<string>, k: nat,
                             offset: nat)
    requires from <= |s|
  {
    if k < |pieces| then offset <= |s| && pieces[k..] == Split(s, c, offset)
      && FindPiece(s, c, wanted, from) == FindPiece(s, c, wanted, offset)
    else FindPiece(s, c, wanted, from) == None
  }

  lemma NextPiece(s: string, c: char, wanted: string -> bool, from: nat, pieces: seq<string>, k: nat, offset: nat)
    requires from <= |s| && k < |pieces| && PiecesLeft(s, c, wanted, from, pieces, k, offset)
    ensures wanted(pieces[k]) ==> FindPiece(s, c, wanted, from) == Some(Range(offset, offset + |pieces[k]|))
    ensures !wanted(pieces[k]) ==> PiecesLeft(s, c, wanted, from, pieces, k + 1, offset + |pieces[k]| + 1)
  {
    var rest := pieces[k..];
    assert rest[0] == pieces[k] && rest[1..] == pieces[k + 1..];
    PieceAtOffset(s, c, wanted, offset);
  }

  lemma NextOffset(s: string, c: char, k: nat, pieces: seq<string>, at: nat, size: string -> nat)
    requires k < |pieces| && at <= |s| && pieces[k..] == Split(s, c, at) && Measures(size) && size([c]) == 1
    ensures var end := at + |pieces[k]|;
      && end <= |s| && Offset(s, end, size) == Offset(s, at, size) + size(pieces[k])
      && (k + 1 < |pieces| ==> end < |s| && Offset(s, end + 1, size) == Offset(s, end, size) + 1)
  {
    var end := NextOf(s, c, at);
    assert pieces[k..][0] == pieces[k] == s[at..end];
    OffsetLater(s, at, end, size);
    if k + 1 < |pieces| {
      NextOfFinds(s, c, at);
      OffsetLater(s, end, end + 1, size);
      assert s[end..end + 1] == [c];
    }
  }

  /** Locates a piece by adding up the sizes of the pieces and separators before it. */
  method LocatePiece(s: string, c: char, wanted: string -> bool, from: nat, size: string -> nat, ghost start: nat)
    returns (r: Option<Range>)
    requires Measures(size) && size([c]) == 1 && start <= |s| && from == Offset(s, start, size)
    ensures r == Measured(s, FindPiece(s, c, wanted, start), size)
  {
    CharAtOffset(s, start, size, 0);
    var pieces := Split(s, c, CharAt(s, from, size, 0));
    var offset: nat := from;
    ghost var at: nat := start;
    for k := 0 to |pieces|
      invariant PiecesLeft(s, c, wanted, start, pieces, k, at)
      invariant k < |pieces| ==> offset == Offset(s, at, size)
    {
      NextPiece(s, c, wanted, start, pieces, k, at);
      NextOffset(s, c, k, pieces, at, size);
      if wanted(pieces[k]) {
        return Some(Range(offset, offset + size(pieces[k])));
      }
      at := at + |pieces[k]| + 1;
      offset := offset + size(pieces[k]) + 1;
    }
    r := None;
  }

  /** The wanted piece after the first mark. */
  function FindAfter(s: string, mark: char, c: char, wanted: string -> bool): (r: Option<Range>)
    ensures r.Some? ==>
      NextOf(s, mark, 0) < r.value.start <= r.value.end <= |s| && wanted(s[r.value.start..r.value.end])
  {
    var q := NextOf(s, mark, 0);
    if q == |s| then None else FindPiece(s, c, wanted, q + 1)
  }

  lemma FindAfterIs(s: string, mark: char, c: char, wanted: string -> bool, q: nat)
    requires NextOf(s, mark, 0) == q < |s|
    ensures FindAfter(s, mark, c, wanted) == FindPiece(s, c, wanted, q + 1)
  {}

  lemma ReplacementFoundAfter(s: string, mark: char, c: char, wanted: string -> bool, y: string)
    requires FindAfter(s, mark, c, wanted).Some? && c !in y && wanted(y)
    ensures var r := FindAfter(s, mark, c, wanted).value;
      FindAfter(Splice(s, r.start, r.end, y), mark, c, wanted) == Some(Range(r.start, r.start + |y|))
  {
    var q, r := NextOf(s, mark, 0), FindAfter(s, mark, c, wanted).value;
    FindAfterIs(s, mark, c, wanted, q);
    ReplacementFound(s, c, wanted, q + 1, r, y, Splice(s, r.start, r.end, y));
    EarlierPieceStays(s, mark, 0, r.start, r.end, y);
    FindAfterIs(Splice(s, r.start, r.end, y), mark, c, wanted, q);
  }

  lemma NewPieceEnds(s: string, c: char, i: nat, y: string)
    requires i <= |s| && c !in y
    ensures var t := Splice(s, i, NextOf(s, c, i), y);
      i + |y| <= |t| && NextOf(t, c, i) == i + |y| && t[i..i + |y|] == y
  {
    var e := NextOf(s, c, i);
    var t := Splice(s, i, e, y);
    SpliceAt(s, i, e, y);
    NextOfFinds(s, c, i);
    assert forall m {:trigger t[m]} :: i <= m < i + |y| ==> t[m] != c;
    assert e < |s| ==> t[i + |y|] == s[e];
    NextOfIs(t, c, i, i + |y|);
  }

  lemma EarlierPieceStays(s: string, c: char, i: nat, a: nat, b: nat, y: string)
    requires i <= |s| && NextOf(s, c, i) < a <= b <= |s|
    ensures var t, e := Splice(s, a, b, y), NextOf(s, c, i);
      e < |t| && NextOf(t, c, i) == e && t[i..e] == s[i..e]
  {
    var t, e := Splice(s, a, b, y), NextOf(s, c, i);
    SpliceAt(s, a, b, y);
    NextOfFinds(s, c, i);
    assert t[e] == s[e];
    NextOfIs(t, c, i, e);
  }

  lemma FindPieceHere(t: string, c: char, wanted: string -> bool, i: nat, e: nat)
    requires i <= |t| && NextOf(t, c, i) == e
    ensures wanted(t[i..e]) ==> FindPiece(t, c, wanted, i) == Some(Range(i, e))
    ensures !wanted(t[i..e]) && e < |t| ==> FindPiece(t, c, wanted, i) == FindPiece(t, c, wanted, e + 1)
  {}

  lemma ReplacedHere(s: string, c: char, wanted: string -> bool, i: nat, e: nat, y: string, t: string)
    requires i <= |s| && e == NextOf(s, c, i) && c !in y && wanted(y) && t == Splice(s, i, e, y)
    ensures i <= |t| && FindPiece(t, c, wanted, i) == Some(Range(i, i + |y|))
  {
    NewPieceEnds(s, c, i, y);
    FindPieceHere(t, c, wanted, i, i + |y|);
  }

  lemma ReplacedLater(s: string, c: char, wanted: string -> bool, i: nat, e: nat, r: Range, y: string, t: string,
                      found: Option<Range>)
    requires i <= |s| && e == NextOf(s, c, i) && !wanted(s[i..e]) && e < r.start <= r.end <= |s|
    requires t == Splice(s, r.start, r.end, y)
    requires e < |t| && FindPiece(t, c, wanted, e + 1) == found
    ensures i <= |t| && FindPiece(t, c, wanted, i) == found
  {
    EarlierPieceStays(s, c, i, r.start, r.end, y);
    FindPieceHere(t, c, wanted, i, e);
  }

  /** Where the first piece ends, and whether it is the one found. */
  lemma FirstPiece(s: string, c: char, wanted: string -> bool, i: nat, r: Range) returns (here: bool, e: nat)
    requires i <= |s| && FindPiece(s, c, wanted, i) == Some(r)
    ensures e == NextOf(s, c, i) && (here ==> r == Range(i, e))
    ensures !here ==> !wanted(s[i..e]) && e < |s| && FindPiece(s, c, wanted, e + 1) == Some(r)
  {
    e := NextOf(s, c, i);
    here := wanted(s[i..e]);
  }

  /** With the wanted piece replaced by another wanted text, the replacement is found in its place. */
  lemma {:induction false} ReplacementFound(s: string, c: char, wanted: string -> bool, i: nat, r: Range, y: string,
                                            t: string)
    requires i <= |s| && FindPiece(s, c, wanted, i) == Some(r) && c !in y && wanted(y)
    requires t == Splice(s, r.start, r.end, y)
    ensures i <= |t| && FindPiece(t, c, wanted, i) == Some(Range(r.start, r.start + |y|))
    decreases |s| - i
  {
    var here, e := FirstPiece(s, c, wanted, i, r);
    if here {
      ReplacedHere(s, c, wanted, i, e, y, t);
    } else {
      ReplacementFound(s, c, wanted, e + 1, r, y, t);
      ReplacedLater(s, c, wanted, i, e, r, y, t, Some(Range(r.start, r.start + |y|)));
    }
  }

  // ----- words -----------------------------------------------------------------------------------

  /** The first position at or after `i` where `blank` answers `want`, or the end. */
  function Skip(s: string, blank: char -> bool, want: bool, i: nat): (e: nat)
    requires i <= |s|
    ensures i <= e <= |s|
    ensures i < |s| && blank(s[i]) != want ==> i < e
    decreases |s| - i
  {
    if i == |s| || blank(s[i]) == want then i else Skip(s, blank, want, i + 1)
  }

  lemma {:induction false} SkipFinds(s: string, blank: char -> bool, want: bool, i: nat)
    requires i <= |s|
    ensures var e := Skip(s, blank, want, i); (e < |s| ==> blank(s[e]) == want) && forall j :: i <= j < e ==>
      blank(s[j]) != want
    decreases |s| - i
  {
    if i < |s| && blank(s[i]) != want {
      SkipFinds(s, blank, want, i + 1);
    }
  }

  lemma SkipIs(s: string, blank: char -> bool, want: bool, i: nat, e: nat)
    requires i <= e <= |s| && (e < |s| ==> blank(s[e]) == want) && forall j :: i <= j < e ==> blank(s[j]) != want
    ensures Skip(s, blank, want, i) == e
  {
    SkipFinds(s, blank, want, i);
  }

  /** `split_whitespace`, from a position on: the words, never empty. */
  function Words(s: string, blank: char -> bool, i: nat): seq<string>
    requires i <= |s|
    decreases |s| - i
  {
    var b := Skip(s, blank, false, i);
    if b == |s| then []
    else
      SkipFinds(s, blank, false, i);
      var e := Skip(s, blank, true, b);
      Prepend(s[b..e], Words(s, blank, e))
  }

  /** From a position on, the text is these words: each ends at the end or a blank, and nothing but
      blanks is before, between and behind them. */
  ghost predicate Spaced(s: string, blank: char -> bool, i: nat, words: seq<string>)
    decreases words
  {
    if words == [] then forall j :: i <= j < |s| ==> blank(s[j])
    else exists b: nat, e: nat :: WordAt(s, blank, i, b, e) && s[b..e] == words[0] && Spaced(s, blank, e, words[1..])
  }

  predicate WordAt(s: string, blank: char -> bool, i: nat, b: nat, e: nat)
  {
    && i <= b < e <= |s| && (e < |s| ==> blank(s[e]))
    && (forall j :: i <= j < b ==> blank(s[j])) && (forall j :: b <= j < e ==> !blank(s[j]))
  }

  lemma WordAtSkips(s: string, blank: char -> bool, i: nat, b: nat, e: nat)
    requires WordAt(s, blank, i, b, e)
    ensures Skip(s, blank, false, i) == b && Skip(s, blank, true, b) == e
  {
    SkipIs(s, blank, false, i, b);
    SkipIs(s, blank, true, b, e);
  }

  lemma SpacedFirst(s: string, blank: char -> bool, i: nat, words: seq<string>)
    requires i <= |s| && words != [] && Spaced(s, blank, i, words)
    ensures var b := Skip(s, blank, false, i);
      b < |s| && s[b..Skip(s, blank, true, b)] == words[0] && Spaced(s, blank, Skip(s, blank, true, b), words[1..])
  {
    var b: nat, e: nat :| WordAt(s, blank, i, b, e) && s[b..e] == words[0] && Spaced(s, blank, e, words[1..]);
    WordAtSkips(s, blank, i, b, e);
  }

  /** Splitting by blanks gives exactly the words of the text. */
  lemma {:induction false} WordsAre(s: string, blank: char -> bool, i: nat, words: seq<string>)
    requires i <= |s|
    ensures Spaced(s, blank, i, words) <==> Words(s, blank, i) == words
    decreases |s| - i
  {
    var b := Skip(s, blank, false, i);
    SkipFinds(s, blank, false, i);
    if words != [] && Spaced(s, blank, i, words) {
      SpacedFirst(s, blank, i, words);
    }
    if b < |s| {
      var e := Skip(s, blank, true, b);
      SkipFinds(s, blank, true, b);
      assert WordAt(s, blank, i, b, e);
      if words != [] {
        WordsAre(s, blank, e, words[1..]);
        assert words == Prepend(words[0], words[1..]);
      }
    }
  }

  /** Where the first word that is wanted is. */
  function FindWord(s: string, blank: char -> bool, wanted: string -> bool, i: nat): (r: Option<Range>)
    requires i <= |s|
    ensures r.Some? ==> i <= r.value.start < r.value.end <= |s| && wanted(s[r.value.start..r.value.end])
    decreases |s| - i
  {
    var b := Skip(s, blank, false, i);
    if b == |s| then None
    else
      SkipFinds(s, blank, false, i);
      var e := Skip(s, blank, true, b);
      if wanted(s[b..e]) then Some(Range(b, e)) else FindWord(s, blank, wanted, e)
  }

  lemma {:induction false} FoundWordIsFirst(s: string, blank: char -> bool, wanted: string -> bool, i: nat)
    requires i <= |s|
    ensures var texts, r := Words(s, blank, i), FindWord(s, blank, wanted, i);
      var k := FirstWanted(texts, wanted);
      && (r.Some? <==> k < |texts|)
      && (r.Some? ==> s[r.value.start..r.value.end] == texts[k])
    decreases |s| - i
  {
    var b := Skip(s, blank, false, i);
    if b < |s| {
      SkipFinds(s, blank, false, i);
      var e := Skip(s, blank, true, b);
      if !wanted(s[b..e]) {
        FoundWordIsFirst(s, blank, wanted, e);
      }
    }
  }

  /** A word found is a whole word: a blank or the beginning comes before it. */
  lemma {:induction false} BlankBefore(s: string, blank: char -> bool, wanted: string -> bool, i: nat)
    requires i <= |s| && FindWord(s, blank, wanted, i).Some?
    ensures var a := FindWord(s, blank, wanted, i).value.start;
      (a > i ==> blank(s[a - 1])) && !blank(s[a])
    decreases |s| - i
  {
    var b := Skip(s, blank, false, i);
    SkipFinds(s, blank, false, i);
    var e := Skip(s, blank, true, b);
    if !wanted(s[b..e]) {
      SkipFinds(s, blank, true, b);
      BlankBefore(s, blank, wanted, e);
    }
  }

  lemma NewWordEnds(s: string, blank: char -> bool, i: nat, y: string)
    requires i <= |s| && Skip(s, blank, false, i) < |s| && y != [] && forall j :: 0 <= j < |y| ==> !blank(y[j])
    ensures var b := Skip(s, blank, false, i);
      var e := Skip(s, blank, true, b);
      var t := Splice(s, b, e, y);
      b + |y| <= |t| && i <= |t| && Skip(t, blank, false, i) == b && Skip(t, blank, true, b) == b + |y|
        && t[b..b + |y|] == y
  {
    var b := Skip(s, blank, false, i);
    var e := Skip(s, blank, true, b);
    var t := Splice(s, b, e, y);
    SpliceAt(s, b, e, y);
    SkipFinds(s, blank, false, i);
    SkipFinds(s, blank, true, b);
    assert t[b] == y[0] && (e < |s| ==> t[b + |y|] == s[e]);
    assert forall m {:trigger t[m]} :: b <= m < b + |y| ==> !blank(t[m]);
    assert forall m {:trigger t[m]} :: i <= m < b ==> blank(t[m]);
    SkipIs(t, blank, false, i, b);
    SkipIs(t, blank, true, b, b + |y|);
  }

  lemma EarlierWordStays(s: string, blank: char -> bool, i: nat, a: nat, c: nat, y: string)
    requires i <= |s| && a <= c <= |s|
    requires var b := Skip(s, blank, false, i); b < |s| && Skip(s, blank, true, b) < a
    ensures var b := Skip(s, blank, false, i);
      var e, t := Skip(s, blank, true, b), Splice(s, a, c, y);
      i <= b < e < |t| && Skip(t, blank, false, i) == b && e == Skip(t, blank, true, b) && t[b..e] == s[b..e]
  {
    var b := Skip(s, blank, false, i);
    var e, t := Skip(s, blank, true, b), Splice(s, a, c, y);
    SpliceAt(s, a, c, y);
    SkipFinds(s, blank, false, i);
    SkipFinds(s, blank, true, b);
    assert t[b] == s[b] && t[e] == s[e];
    SkipIs(t, blank, false, i, b);
    SkipIs(t, blank, true, b, e);
  }

  lemma {:induction false} ReplacedWordFound(s: string, blank: char -> bool, wanted: string -> bool, i: nat, y: string)
    requires i <= |s| && FindWord(s, blank, wanted, i).Some? && wanted(y)
    requires y != [] && forall j :: 0 <= j < |y| ==> !blank(y[j])
    ensures var r := FindWord(s, blank, wanted, i).value;
      var t := Splice(s, r.start, r.end, y);
      i <= |t| && FindWord(t, blank, wanted, i) == Some(Range(r.start, r.start + |y|))
    decreases |s| - i
  {
    var b, r := Skip(s, blank, false, i), FindWord(s, blank, wanted, i).value;
    SkipFinds(s, blank, false, i);
    var e := Skip(s, blank, true, b);
    if wanted(s[b..e]) {
      NewWordEnds(s, blank, i, y);
    } else {
      ComesLater(s, blank, wanted, b, e);
      EarlierWordStays(s, blank, i, r.start, r.end, y);
      ReplacedWordFound(s, blank, wanted, e, y);
    }
  }

  /** A word found after another starts after the blank that ends it. */
  lemma ComesLater(s: string, blank: char -> bool, wanted: string -> bool, b: nat, e: nat)
    requires b <= |s| && e == Skip(s, blank, true, b) && FindWord(s, blank, wanted, e).Some?
    ensures e < FindWord(s, blank, wanted, e).value.start
  {
    SkipFinds(s, blank, true, b);
    BlankBefore(s, blank, wanted, e);
  }

  // ----- finding a text ----------------------------------------------------------------------------

  predicate OccursAt(s: string, text: string, i: nat) { i + |text| <= |s| && s[i..i + |text|] == text }

  /** `str::find` in the text from a position on. */
  function Find(s: string, text: string, i: nat): (r: Option<nat>)
    requires i <= |s|
    ensures r.Some? ==> i <= r.value && OccursAt(s, text, r.value)
    decreases |s| - i
  {
    if OccursAt(s, text, i) then Some(i) else if i == |s| then None else Find(s, text, i + 1)
  }

  lemma {:induction false} FindIs(s: string, text: string, i: nat, at: nat)
    requires i <= at <= |s| && OccursAt(s, text, at) && forall j :: i <= j < at ==> !OccursAt(s, text, j)
    ensures Find(s, text, i) == Some(at)
    decreases at - i
  {
    if i < at {
      FindIs(s, text, i + 1, at);
    }
  }

  /** A word cannot start inside the blanks before it: the first place its text occurs is its own. */
  lemma FindsFirstWord(s: string, blank: char -> bool, i: nat, b: nat, e: nat)
    requires i <= |s| && b == Skip(s, blank, false, i) < |s| && e == Skip(s, blank, true, b)
    ensures b < e && Find(s, s[b..e], i) == Some(b)
  {
    SkipFinds(s, blank, false, i);
    var w := s[b..e];
    forall j | i <= j < b ensures !OccursAt(s, w, j) {
      FirstCharacter(s, w, j);
    }
    FindIs(s, w, i, b);
  }

  lemma FirstCharacter(s: string, text: string, i: nat)
    requires text != []
    ensures OccursAt(s, text, i) ==> s[i] == text[0]
  {
    if OccursAt(s, text, i) {
      assert s[i..i + |text|][0] == s[i];
    }
  }

  /** Each word is found at its place by a search from the end of the one before. */
  ghost predicate Placed(s: string, words: seq<string>, froms: seq<nat>, starts: seq<nat>)
  {
    && |froms| == |words| + 1 && |starts| == |words|
    && forall k {:trigger starts[k]} :: 0 <= k < |words| ==>
         froms[k] <= |s| && Find(s, words[k], froms[k]) == Some(starts[k]) && froms[k + 1] == starts[k] + |words[k]|
  }

  /** The place of the first wanted word. */
  ghost function Chosen(words: seq<string>, starts: seq<nat>, wanted: string -> bool): Option<Range>
    requires |starts| == |words|
  {
    var k := FirstWanted(words, wanted);
    if k == |words| then None else Some(Range(starts[k], starts[k] + |words[k]|))
  }

  lemma WordsEnd(s: string, blank: char -> bool, wanted: string -> bool, from: nat)
    requires from <= |s| && Words(s, blank, from) == []
    ensures FindWord(s, blank, wanted, from) == None
  {}

  /** The first word from a position on, and what follows it. */
  lemma FirstWord(s: string, blank: char -> bool, wanted: string -> bool, from: nat, ws: seq<string>,
                  found: Option<Range>)
    returns (at: nat, next: nat, later: Option<Range>)
    requires from <= |s| && ws == Words(s, blank, from) != [] && found == FindWord(s, blank, wanted, from)
    ensures from < next <= |s| && Find(s, ws[0], from) == Some(at) && next == at + |ws[0]|
    ensures ws[1..] == Words(s, blank, next) && later == FindWord(s, blank, wanted, next)
    ensures found == if wanted(ws[0]) then Some(Range(at, next)) else later
  {
    at := Skip(s, blank, false, from);
    next := Skip(s, blank, true, at);
    FindsFirstWord(s, blank, from, at, next);
    later := FindWord(s, blank, wanted, next);
  }

  /** The words are found one after the other, each at its own place. */
  lemma {:induction false} WordsPlaced(s: string, blank: char -> bool, wanted: string -> bool, from: nat,
                                       ws: seq<string>, found: Option<Range>)
    returns (froms: seq<nat>, starts: seq<nat>)
    requires from <= |s| && ws == Words(s, blank, from) && found == FindWord(s, blank, wanted, from)
    ensures Placed(s, ws, froms, starts) && froms[0] == from && found == Chosen(ws, starts, wanted)
    decreases ws
  {
    froms, starts := [from], [];
    if ws == [] {
      WordsEnd(s, blank, wanted, from);
    } else {
      var at, next, later := FirstWord(s, blank, wanted, from, ws, found);
      froms, starts := WordsPlaced(s, blank, wanted, next, ws[1..], later);
      PlacedFront(s, ws[0], from, at, ws[1..], froms, starts);
      ChosenFront(ws[0], at, ws[1..], starts, wanted);
      assert Prepend(ws[0], ws[1..]) == ws;
      froms, starts := Prepend(from, froms), Prepend(at, starts);
    }
  }

  lemma PlacedFront(s: string, w: string, from: nat, at: nat, words: seq<string>, froms: seq<nat>, starts: seq<nat>)
    requires from <= |s| && Find(s, w, from) == Some(at)
    requires Placed(s, words, froms, starts) && froms[0] == at + |w|
    ensures Placed(s, Prepend(w, words), Prepend(from, froms), Prepend(at, starts))
  {
    var words', froms', starts' := Prepend(w, words), Prepend(from, froms), Prepend(at, starts);
    forall k | 0 <= k < |words'|
      ensures froms'[k] <= |s| && Find(s, words'[k], froms'[k]) == Some(starts'[k])
      ensures froms'[k + 1] == starts'[k] + |words'[k]|
    {
      if k > 0 {
        assert starts[k - 1] == starts'[k];
      }
    }
  }

  lemma ChosenFront(w: string, at: nat, words: seq<string>, starts: seq<nat>, wanted: string -> bool)
    requires |starts| == |words|
    ensures Chosen(Prepend(w, words), Prepend(at, starts), wanted)
      == if wanted(w) then Some(Range(at, at + |w|)) else Chosen(words, starts, wanted)
  {}

  lemma OffsetBehind(s: string, text: string, at: nat, size: string -> nat)
    requires OccursAt(s, text, at) && Measures(size)
    ensures Offset(s, at + |text|, size) == Offset(s, at, size) + size(text)
  {
    OffsetLater(s, at, at + |text|, size);
  }

  lemma OffsetOfStart(s: string, size: string -> nat)
    requires Measures(size)
    ensures Offset(s, 0, size) == 0
  {
    assert s[..0] == [] == [] + [];
    assert size([] + []) == size([]) + size([]);
  }

  /** `find` in the text from a place on. */
  method FindFrom(s: string, text: string, n: nat, size: string -> nat, ghost from: nat) returns (start: nat)
    requires Measures(size) && from <= |s| && n == Offset(s, from, size) && Find(s, text, from).Some?
    ensures start == Offset(s, Find(s, text, from).value, size)
    ensures start + size(text) == Offset(s, Find(s, text, from).value + |text|, size)
  {
    CharAtOffset(s, from, size, 0);
    OffsetBehind(s, text, Find(s, text, from).value, size);
    start := Offset(s, Find(s, text, CharAt(s, n, size, 0)).value, size);
  }

  /** Locates a word by searching for the text of each word from the end of the one before. */
  method LocateAmong(s: string, words: seq<string>, wanted: string -> bool, size: string -> nat,
                     ghost froms: seq<nat>, ghost starts: seq<nat>) returns (r: Option<Range>)
    requires Measures(size) && Placed(s, words, froms, starts) && froms[0] == 0
    ensures var place := Chosen(words, starts, wanted);
      && (place.Some? ==> place.value.start <= place.value.end <= |s|)
      && r == Measured(s, place, size)
  {
    var searchFrom: nat := 0;
    OffsetOfStart(s, size);
    for k := 0 to |words|
      invariant froms[k] <= |s| && searchFrom == Offset(s, froms[k], size)
      invariant forall j :: 0 <= j < k ==> !wanted(words[j])
    {
      assert Find(s, words[k], froms[k]) == Some(starts[k]);
      var start := FindFrom(s, words[k], searchFrom, size, froms[k]);
      searchFrom := start + size(words[k]);
      if wanted(words[k]) {
        FirstIs(words, wanted, k);
        return Some(Range(start, searchFrom));
      }
    }
    FirstIs(words, wanted, |words|);
    r := None;
  }

  /** The first wanted word, located. */
  method LocateWord(s: string, blank: char -> bool, wanted: string -> bool, size: string -> nat)
    returns (r: Option<Range>)
    requires Measures(size)
    ensures r == Measured(s, FindWord(s, blank, wanted, 0), size)
  {
    var words := Words(s, blank, 0);
    ghost var froms, starts := WordsPlaced(s, blank, wanted, 0, words, FindWord(s, blank, wanted, 0));
    r := LocateAmong(s, words, wanted, size, froms, starts);
  }
}
