/** DOMAIN-WILDCARD: the structural matcher against the meaning of the pattern. */
module Wildcard {
  import opened Common
  import opened DomainTrie

  predicate DotFree(s: string) {
    '.' !in s
  }

  /** `eq_ignore_ascii_case` */
  predicate EqFold(a: string, b: string) {
    Lower(a) == Lower(b)
  }

  /** What a pattern means: `*` stands for one or more characters of one label,
      any other character for itself, upper or lower case. */
  predicate Glob(pattern: string, host: string)
    decreases |pattern|
  {
    if pattern == [] then host == []
    else if pattern[0] == '*' then
      exists k :: 1 <= k <= |host| && DotFree(host[..k]) && Glob(pattern[1..], host[k..])
    else
      host != [] && LowerChar(host[0]) == LowerChar(pattern[0]) && Glob(pattern[1..], host[1..])
  }

  /** `split('*')` */
  function Pieces(pattern: string): (r: seq<string>)
    ensures |r| >= 1
  {
    if pattern == [] then [""]
    else
      var rest := Pieces(pattern[1..]);
      if pattern[0] == '*' then [""] + rest else [[pattern[0]] + rest[0]] + rest[1..]
  }

  /** The pieces fit the host from `pos` to its end, a gap before each but the first. */
  ghost predicate FitsAt(pieces: seq<string>, host: string, pos: nat)
    requires |pieces| >= 1 && pos <= |host|
    decreases |pieces|, 0
  {
    if |pieces| == 1 then EqFold(host[pos..], pieces[0])
    else
      var end := pos + |pieces[0]|;
      end <= |host| && EqFold(host[pos..end], pieces[0]) && RestFits(pieces[1..], host, end)
  }

  /** A non-empty gap inside one label, then the pieces. */
  ghost predicate RestFits(pieces: seq<string>, host: string, pos: nat)
    requires |pieces| >= 1 && pos <= |host|
    decreases |pieces|, 1
  {
    exists at :: GapTo(host, pos, at) && FitsAt(pieces, host, at)
  }

  predicate GapTo(host: string, pos: nat, at: int)
    requires pos <= |host|
  {
    pos < at <= |host| && DotFree(host[pos..at])
  }

  // ---- The pieces mean what the pattern means ----

  lemma {:induction false} PiecesMeanPattern(pattern: string, host: string, pos: nat)
    requires pos <= |host|
    ensures Glob(pattern, host[pos..]) <==> FitsAt(Pieces(pattern), host, pos)
    decreases |pattern|
  {
    if pattern == [] {
      assert EqFold(host[pos..], "") <==> host[pos..] == [];
    } else if pattern[0] == '*' {
      StarMeansGap(pattern, host, pos);
    } else {
      LiteralMeansItself(pattern, host, pos);
    }
  }

  /** An empty first piece only asks for the gap after it. */
  lemma EmptyPieceFits(rest: seq<string>, host: string, pos: nat)
    requires |rest| >= 1 && pos <= |host|
    ensures FitsAt([""] + rest, host, pos) <==> RestFits(rest, host, pos)
  {
    hide RestFits;
    assert ([""] + rest)[1..] == rest;
    assert EqFold(host[pos..pos + 0], "");
  }

  lemma StarMeansGap(pattern: string, host: string, pos: nat)
    requires pos <= |host| && pattern != [] && pattern[0] == '*'
    ensures Glob(pattern, host[pos..]) <==> FitsAt(Pieces(pattern), host, pos)
    decreases |pattern|, 0
  {
    hide FitsAt, EqFold, DotFree;
    var rest := Pieces(pattern[1..]);
    EmptyPieceFits(rest, host, pos);
    var h := host[pos..];
    forall k | 1 <= k <= |h|
      ensures Glob(pattern[1..], h[k..]) <==> FitsAt(rest, host, pos + k)
      ensures DotFree(h[..k]) <==> GapTo(host, pos, pos + k)
    {
      assert h[..k] == host[pos..pos + k] && h[k..] == host[pos + k..];
      PiecesMeanPattern(pattern[1..], host, pos + k);
    }
    if RestFits(rest, host, pos) {
      var at :| GapTo(host, pos, at) && FitsAt(rest, host, at);
      var k := at - pos;
      assert pos + k == at && DotFree(h[..k]);
    }
  }

  ghost predicate PieceThenRest(piece: string, rest: seq<string>, host: string, pos: nat)
    requires |rest| >= 1 && pos <= |host|
  {
    var end := pos + |piece|;
    end <= |host| && EqFold(host[pos..end], piece) && RestFits(rest, host, end)
  }

  lemma FitsMore(pieces: seq<string>, host: string, pos: nat)
    requires |pieces| > 1 && pos <= |host|
    ensures FitsAt(pieces, host, pos) <==> PieceThenRest(pieces[0], pieces[1..], host, pos)
  {
    hide RestFits, EqFold;
  }

  lemma LiteralThenPiece(c: char, piece: string, rest: seq<string>, host: string, pos: nat)
    requires |rest| >= 1 && pos < |host|
    ensures PieceThenRest([c] + piece, rest, host, pos) <==>
            LowerChar(host[pos]) == LowerChar(c) && PieceThenRest(piece, rest, host, pos + 1)
  {
    hide RestFits, EqFold, Lower;
    var longer := [c] + piece;
    var end := pos + |longer|;
    assert end == pos + 1 + |piece|;
    if end <= |host| {
      FoldHead(host[pos..end], longer);
      assert host[pos..end][1..] == host[pos + 1..end] && longer[1..] == piece;
    }
  }

  /** A literal at the front of a piece matches the character it faces. */
  lemma LiteralPieceFits(c: char, rest: seq<string>, host: string, pos: nat)
    requires |rest| >= 1 && pos < |host|
    ensures FitsAt([[c] + rest[0]] + rest[1..], host, pos) <==>
            LowerChar(host[pos]) == LowerChar(c) && FitsAt(rest, host, pos + 1)
  {
    hide RestFits, EqFold, Lower;
    var piece := [c] + rest[0];
    var all := [piece] + rest[1..];
    if |rest| == 1 {
      FoldHead(host[pos..], piece);
      assert host[pos..][1..] == host[pos + 1..] && piece[1..] == rest[0];
    } else {
      hide FitsAt, PieceThenRest;
      assert all[1..] == rest[1..];
      FitsMore(all, host, pos);
      FitsMore(rest, host, pos + 1);
      LiteralThenPiece(c, rest[0], rest[1..], host, pos);
    }
  }

  lemma LiteralMeansItself(pattern: string, host: string, pos: nat)
    requires pos <= |host| && pattern != [] && pattern[0] != '*'
    ensures Glob(pattern, host[pos..]) <==> FitsAt(Pieces(pattern), host, pos)
    decreases |pattern|, 0
  {
    var rest := Pieces(pattern[1..]);
    if pos < |host| {
      hide FitsAt;
      PiecesMeanPattern(pattern[1..], host, pos + 1);
      LiteralPieceFits(pattern[0], rest, host, pos);
      assert host[pos..][1..] == host[pos + 1..];
    } else {
      hide RestFits;
      assert |Lower(Pieces(pattern)[0])| > 0 && |Lower(host[pos..])| == 0;
    }
  }

  lemma FoldHead(a: string, b: string)
    requires a != [] && b != []
    ensures EqFold(a, b) <==> LowerChar(a[0]) == LowerChar(b[0]) && EqFold(a[1..], b[1..])
  {
    assert Lower(a) == [LowerChar(a[0])] + Lower(a[1..]);
    assert Lower(b) == [LowerChar(b[0])] + Lower(b[1..]);
  }

  // ---- The earliest place for a piece is the best ----

  /** The piece can stand at `at`: a gap leads there and it matches. */
  predicate Stands(host: string, pos: nat, piece: string, at: int)
    requires pos <= |host|
  {
    GapTo(host, pos, at) && at + |piece| <= |host| && EqFold(host[at..at + |piece|], piece)
  }

  lemma FoldDot(a: string, b: string, i: nat)
    requires EqFold(a, b) && i < |a|
    ensures |a| == |b| && (a[i] == '.' <==> b[i] == '.')
  {
    assert |Lower(a)| == |Lower(b)|;
    assert LowerChar(a[i]) == Lower(a)[i] == Lower(b)[i] == LowerChar(b[i]);
  }

  function FirstDot(s: string): (i: nat)
    requires !DotFree(s)
    ensures i < |s| && s[i] == '.' && forall j :: 0 <= j < i ==> s[j] != '.'
  {
    if s[0] == '.' then 0 else 1 + FirstDot(s[1..])
  }

  /** A piece with a dot in it has at most one place to stand. */
  lemma DottedPieceStandsOnce(host: string, pos: nat, piece: string, a: nat, b: nat)
    requires pos <= |host| && Stands(host, pos, piece, a) && Stands(host, pos, piece, b) && a < b
    ensures DotFree(piece)
  {
    if !DotFree(piece) {
      var j := FirstDot(piece);
      FoldDot(host[a..a + |piece|], piece, j);
      assert host[a + j] == '.';
      if b <= a + j {
        FoldDot(host[b..b + |piece|], piece, a + j - b);
      }
    }
  }

  /** Standing earlier leaves a gap that still stays inside its label. */
  lemma EarlierKeepsGap(host: string, pos: nat, piece: string, a: nat, b: nat, at: nat)
    requires pos <= |host| && Stands(host, pos, piece, a) && Stands(host, pos, piece, b) && a <= b
    requires GapTo(host, b + |piece|, at)
    ensures GapTo(host, a + |piece|, at)
  {
    if a < b {
      DottedPieceStandsOnce(host, pos, piece, a, b);
      forall i | a + |piece| <= i < at ensures host[i] != '.' {
        if i < b {
          assert host[pos..b][i - pos] == host[i];
        } else if i < b + |piece| {
          FoldDot(host[b..b + |piece|], piece, i - b);
        } else {
          assert host[b + |piece|..at][i - b - |piece|] == host[i];
        }
      }
    }
  }

  /** The rest of the pattern fits exactly when it fits after the earliest place. */
  lemma EarliestIsBest(pieces: seq<string>, host: string, pos: nat, a: nat)
    requires |pieces| > 1 && pos <= |host| && Stands(host, pos, pieces[0], a)
    requires forall b :: Stands(host, pos, pieces[0], b) ==> a <= b
    ensures RestFits(pieces, host, pos) <==> RestFits(pieces[1..], host, a + |pieces[0]|)
  {
    hide EqFold, DotFree, FitsAt;
    var piece, more := pieces[0], pieces[1..];
    if RestFits(pieces, host, pos) {
      var b :| GapTo(host, pos, b) && FitsAt(pieces, host, b);
      FitsMore(pieces, host, b);
      assert Stands(host, pos, piece, b);
      assert RestFits(more, host, b + |piece|);
      var at :| GapTo(host, b + |piece|, at) && FitsAt(more, host, at);
      EarlierKeepsGap(host, pos, piece, a, b, at);
    }
    if RestFits(more, host, a + |piece|) {
      FitsMore(pieces, host, a);
    }
  }

  lemma FitNeedsAPlace(pieces: seq<string>, host: string, pos: nat) returns (b: nat)
    requires |pieces| > 1 && pos <= |host| && RestFits(pieces, host, pos)
    ensures Stands(host, pos, pieces[0], b)
  {
    hide EqFold, DotFree, FitsAt;
    b :| GapTo(host, pos, b) && FitsAt(pieces, host, b);
    FitsMore(pieces, host, b);
  }

  /** The last piece has only one place: the end. */
  lemma LastPieceFits(last: string, host: string, pos: nat)
    requires pos <= |host|
    ensures RestFits([last], host, pos) <==> |last| <= |host| && Stands(host, pos, last, |host| - |last|)
  {
    hide DotFree;
    forall at | pos < at <= |host| ensures EqFold(host[at..], last) ==> at == |host| - |last| {
      if EqFold(host[at..], last) { assert |Lower(host[at..])| == |Lower(last)|; }
    }
    if |last| <= |host| && pos < |host| - |last| {
      var at := |host| - |last|;
      assert host[at..at + |last|] == host[at..];
      assert FitsAt([last], host, at) <==> EqFold(host[at..], last);
    }
  }

  // ---- The matcher ----

  method FindAfterDotfreeGap(host: string, pos: nat, needle: string) returns (r: Option<nat>)
    requires pos <= |host|
    ensures r.Some? ==> Stands(host, pos, needle, r.value)
    ensures r.Some? ==> forall b :: Stands(host, pos, needle, b) ==> r.value <= b
    ensures r.None? ==> forall b :: !Stands(host, pos, needle, b)
  {
    hide EqFold;
    var start := pos + 1;
    while start + |needle| <= |host|
      invariant pos < start <= |host| + 1
      invariant DotFree(host[pos..start - 1])
      invariant forall b :: Stands(host, pos, needle, b) ==> start <= b
    {
      assert host[pos..start] == host[pos..start - 1] + [host[start - 1]];
      if host[start - 1] == '.' {
        forall b | start <= b <= |host| ensures !DotFree(host[pos..b]) {
          assert host[pos..b][start - 1 - pos] == '.';
        }
        return None;
      }
      if EqFold(host[start..start + |needle|], needle) {
        return Some(start);
      }
      start := start + 1;
    }
    return None;
  }

  /** `GlobMatcher::matches` */
  method MatchPieces(pieces: seq<string>, host: string) returns (matched: bool)
    requires |pieces| >= 1
    ensures matched <==> FitsAt(pieces, host, 0)
  {
    hide EqFold, FitsAt, DotFree, RestFits;
    if |pieces| == 1 {
      SinglePiece(pieces, host);
      return EqFold(host, pieces[0]);
    }
    FitsMore(pieces, host, 0);
    var first := pieces[0];
    if |host| < |first| { return false; }
    assert host[..|first|] == host[0..|first|];
    if !EqFold(host[..|first|], first) { return false; }
    var pos: nat := |first|;
    var i := 1;
    while i < |pieces| - 1
      invariant 1 <= i <= |pieces| - 1 && pos <= |host|
      invariant FitsAt(pieces, host, 0) <==> RestFits(pieces[i..], host, pos)
    {
      assert pieces[i..][0] == pieces[i] && pieces[i..][1..] == pieces[i + 1..];
      var found := FindAfterDotfreeGap(host, pos, pieces[i]);
      match found {
        case Some(start) =>
          EarliestIsBest(pieces[i..], host, pos, start);
          pos := start + |pieces[i]|;
        case None =>
          if RestFits(pieces[i..], host, pos) { var _ := FitNeedsAPlace(pieces[i..], host, pos); }
          return false;
      }
      i := i + 1;
    }
    var last := pieces[|pieces| - 1];
    assert pieces[i..] == [last];
    LastPieceFits(last, host, pos);
    if |host| < |last| { return false; }
    var tail := |host| - |last|;
    if tail <= pos { return false; }
    assert host[tail..tail + |last|] == host[tail..];
    if !EqFold(host[tail..], last) { return false; }
    return DotFree(host[pos..tail]);
  }

  lemma SinglePiece(pieces: seq<string>, host: string)
    requires |pieces| == 1
    ensures FitsAt(pieces, host, 0) <==> EqFold(host, pieces[0])
  {
    assert host[0..] == host;
  }

  /** The structural matcher accepts exactly the hosts the pattern means. */
  method MatchWildcard(pattern: string, host: string) returns (matched: bool)
    ensures matched <==> Glob(pattern, host)
  {
    matched := MatchPieces(Pieces(pattern), host);
    assert host[0..] == host;
    PiecesMeanPattern(pattern, host, 0);
  }
}
