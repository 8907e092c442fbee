/** Leftmost, non-overlapping pattern matching, the way `re.sub` and
    `re.findall` walk a text: at each position the pattern is tried; on a
    match its replacement is emitted and the scan resumes after the match,
    otherwise the character is kept and the scan moves one position on. A
    pattern is given as a matcher that reports what it matches at the front
    of a text. */
module Scanner {
  import opened Wrappers

  /** What a pattern matched at the front of a text: the length of the match
      and what the match is replaced by. */
  datatype Match = Match(len: nat, repl: string)

  /** A matcher that never matches the empty string and never overruns the text. */
  ghost predicate Advances(m: string -> Option<Match>) {
    forall t :: m(t).Some? ==> 0 < m(t).value.len <= |t|
  }

  /** A kept character, or a matched text with its replacement. */
  datatype Piece = Keep(c: char) | Hit(text: string, repl: string)

  function Pieces(s: string, m: string -> Option<Match>): seq<Piece>
    requires Advances(m)
    decreases |s|
  {
    if s == [] then []
    else match m(s)
      case Some(h) => [Hit(s[..h.len], h.repl)] + Pieces(s[h.len..], m)
      case None => [Keep(s[0])] + Pieces(s[1..], m)
  }

  /** The text the pieces were cut from. */
  function Source(ps: seq<Piece>): string
    decreases |ps|
  {
    if ps == [] then ""
    else (match ps[0] case Keep(c) => [c] case Hit(t, _) => t) + Source(ps[1..])
  }

  /** The text with every match replaced (`re.sub`). */
  function Output(ps: seq<Piece>): string
    decreases |ps|
  {
    if ps == [] then ""
    else (match ps[0] case Keep(c) => [c] case Hit(_, r) => r) + Output(ps[1..])
  }

  /** The replacements of the matches, in order (`re.findall` with one group). */
  function Found(ps: seq<Piece>): seq<string>
    decreases |ps|
  {
    if ps == [] then []
    else (match ps[0] case Keep(_) => [] case Hit(_, r) => [r]) + Found(ps[1..])
  }

  function Sub(s: string, m: string -> Option<Match>): string
    requires Advances(m)
  {
    Output(Pieces(s, m))
  }

  function FindAll(s: string, m: string -> Option<Match>): seq<string>
    requires Advances(m)
  {
    Found(Pieces(s, m))
  }

  lemma SourceCons(p: Piece, ps: seq<Piece>)
    ensures Source([p] + ps) == (match p case Keep(c) => [c] case Hit(t, _) => t) + Source(ps)
  {
    assert ([p] + ps)[1..] == ps;
  }

  lemma LosslessHit(s: string, m: string -> Option<Match>, h: Match)
    requires Advances(m) && s != [] && m(s) == Some(h)
    requires Source(Pieces(s[h.len..], m)) == s[h.len..]
    ensures Source(Pieces(s, m)) == s
  {
    var rest := Pieces(s[h.len..], m);
    assert Pieces(s, m) == [Hit(s[..h.len], h.repl)] + rest;
    SourceCons(Hit(s[..h.len], h.repl), rest);
  }

  lemma LosslessKeep(s: string, m: string -> Option<Match>)
    requires Advances(m) && s != [] && m(s).None?
    requires Source(Pieces(s[1..], m)) == s[1..]
    ensures Source(Pieces(s, m)) == s
  {
    var rest := Pieces(s[1..], m);
    assert Pieces(s, m) == [Keep(s[0])] + rest;
    SourceCons(Keep(s[0]), rest);
    assert [s[0]] + s[1..] == s;
  }

  /** Cutting a text into pieces loses nothing. */
  lemma {:induction false} PiecesLossless(s: string, m: string -> Option<Match>)
    requires Advances(m)
    ensures Source(Pieces(s, m)) == s
    decreases |s|
  {
    if s != [] {
      match m(s)
      case Some(h) =>
        PiecesLossless(s[h.len..], m);
        LosslessHit(s, m, h);
      case None =>
        PiecesLossless(s[1..], m);
        LosslessKeep(s, m);
    }
  }

  /** Every suffix of the pieces is what scanning the text they came from gives. */
  lemma {:induction false} PiecesSuffix(s: string, m: string -> Option<Match>, i: nat)
    requires Advances(m)
    requires i <= |Pieces(s, m)|
    ensures Pieces(s, m)[i..] == Pieces(Source(Pieces(s, m)[i..]), m)
    decreases |s|
  {
    var ps := Pieces(s, m);
    if i == 0 {
      PiecesLossless(s, m);
      assert ps[0..] == ps;
    } else {
      match m(s)
      case Some(h) =>
        assert ps[1..] == Pieces(s[h.len..], m);
        PiecesSuffix(s[h.len..], m, i - 1);
        assert ps[i..] == ps[1..][i - 1..];
      case None =>
        assert ps[1..] == Pieces(s[1..], m);
        PiecesSuffix(s[1..], m, i - 1);
        assert ps[i..] == ps[1..][i - 1..];
    }
  }

  /** The scan is leftmost: a kept character is one where the pattern does
      not match, and a match is exactly what the pattern reports there. */
  lemma Leftmost(s: string, m: string -> Option<Match>, i: nat)
    requires Advances(m)
    requires i < |Pieces(s, m)|
    ensures var ps := Pieces(s, m);
            var rest := Source(ps[i..]);
            match ps[i]
            case Keep(c) => m(rest).None? && rest[0] == c
            case Hit(t, r) => m(rest) == Some(Match(|t|, r)) && rest[..|t|] == t
  {
    var ps := Pieces(s, m);
    PiecesSuffix(s, m, i);
    var rest := Source(ps[i..]);
    assert ps[i..][0] == ps[i];
  }

  /** Text in which the pattern matches nowhere is left unchanged and yields no match. */
  lemma {:induction false} NoMatchUnchanged(s: string, m: string -> Option<Match>)
    requires Advances(m)
    requires forall i :: 0 <= i < |s| ==> m(s[i..]).None?
    ensures Sub(s, m) == s
    ensures FindAll(s, m) == []
    decreases |s|
  {
    if s != [] {
      assert s[0..] == s;
      forall i | 0 <= i < |s[1..]|
        ensures m(s[1..][i..]).None?
      {
        assert s[1..][i..] == s[i + 1..];
      }
      NoMatchUnchanged(s[1..], m);
      assert [s[0]] + s[1..] == s;
    }
  }

  /** Conversely, when nothing is found, the pattern matches nowhere. */
  lemma {:induction false} NothingFoundNoMatch(s: string, m: string -> Option<Match>)
    requires Advances(m)
    requires FindAll(s, m) == []
    ensures forall i :: 0 <= i < |s| ==> m(s[i..]).None?
    decreases |s|
  {
    if s != [] {
      match m(s)
      case Some(h) =>
        assert false;
      case None =>
        assert FindAll(s, m) == FindAll(s[1..], m);
        NothingFoundNoMatch(s[1..], m);
        forall i | 0 <= i < |s|
          ensures m(s[i..]).None?
        {
          if i > 0 {
            assert s[i..] == s[1..][i - 1..];
          } else {
            assert s[0..] == s;
          }
        }
    }
  }

  lemma FindAllHit(s: string, m: string -> Option<Match>, h: Match)
    requires Advances(m)
    requires s != [] && m(s) == Some(h)
    ensures FindAll(s, m) == [h.repl] + FindAll(s[h.len..], m)
  {
    assert Pieces(s, m)[1..] == Pieces(s[h.len..], m);
  }

  lemma FindAllKeep(s: string, m: string -> Option<Match>)
    requires Advances(m)
    requires s != [] && m(s).None?
    ensures FindAll(s, m) == FindAll(s[1..], m)
  {
    assert Pieces(s, m)[1..] == Pieces(s[1..], m);
  }

  /** Every text `findall` reports is the replacement the pattern gave at
      some position of the text. */
  lemma {:induction false} FoundAtSomePosition(s: string, m: string -> Option<Match>, k: nat)
    requires Advances(m)
    requires k < |FindAll(s, m)|
    ensures exists j :: 0 <= j < |s| && m(s[j..]).Some? && m(s[j..]).value.repl == FindAll(s, m)[k]
    decreases |s|
  {
    assert s != [];
    match m(s)
    case Some(h) =>
      FindAllHit(s, m, h);
      if k == 0 {
        assert s[0..] == s;
      } else {
        var t := s[h.len..];
        FoundAtSomePosition(t, m, k - 1);
        var j :| 0 <= j < |t| && m(t[j..]).Some? && m(t[j..]).value.repl == FindAll(t, m)[k - 1];
        FoundShift(s, m, h.len, j, FindAll(s, m)[k]);
      }
    case None =>
      FindAllKeep(s, m);
      var t := s[1..];
      FoundAtSomePosition(t, m, k);
      var j :| 0 <= j < |t| && m(t[j..]).Some? && m(t[j..]).value.repl == FindAll(t, m)[k];
      FoundShift(s, m, 1, j, FindAll(s, m)[k]);
  }

  /** A match at position `j` of a suffix is a match at `d + j` of the text. */
  lemma FoundShift(s: string, m: string -> Option<Match>, d: nat, j: nat, r: string)
    requires d <= |s| && j < |s[d..]| && m(s[d..][j..]).Some? && m(s[d..][j..]).value.repl == r
    ensures d + j < |s| && m(s[d + j..]).Some? && m(s[d + j..]).value.repl == r
  {
    assert s[d..][j..] == s[d + j..];
  }

  /** A pattern matching the whole text replaces all of it. */
  lemma WholeMatch(s: string, m: string -> Option<Match>, r: string)
    requires Advances(m)
    requires s != [] && m(s) == Some(Match(|s|, r))
    ensures Sub(s, m) == r
  {
    assert s[..|s|] == s && s[|s|..] == [];
    assert Pieces(s, m) == [Hit(s, r)];
    assert Output([Hit(s, r)]) == r + Output([]);
  }
}
