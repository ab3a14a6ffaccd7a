/**
 * Team-name normalisation: the roster's team cell reads "City Name" and only
 * the word after the last space is kept. This is Python's `str.split(' ')`
 * with an explicit one-character separator, followed by taking the last piece.
 */
module TeamName {

  /** Python's `s.split(sep)` for a single-character separator: every
      occurrence of `sep` cuts, so adjacent, leading and trailing separators
      produce empty pieces, and there is always at least one piece. */
  function Split(s: string, sep: char): (pieces: seq<string>)
    ensures |pieces| >= 1
    ensures forall i :: 0 <= i < |pieces| ==> Lacks(pieces[i], sep)
    ensures |pieces| == Count(s, sep) + 1
    decreases |s|
  {
    if s == [] then [""]
    else
      var rest := Split(s[1..], sep);
      if s[0] == sep then [""] + rest
      else [[s[0]] + rest[0]] + rest[1..]
  }

  /** `sep.join(pieces)`, the inverse of `Split`. */
  function Join(pieces: seq<string>, sep: char): string
    requires |pieces| >= 1
    decreases |pieces|
  {
    if |pieces| == 1 then pieces[0]
    else pieces[0] + [sep] + Join(pieces[1..], sep)
  }

  /** `c` does not occur in `s`. */
  predicate Lacks(s: string, c: char)
  {
    forall j :: 0 <= j < |s| ==> s[j] != c
  }

  /** How many times `c` occurs in `s`. */
  function Count(s: string, c: char): nat
  {
    if s == [] then 0 else (if s[0] == c then 1 else 0) + Count(s[1..], c)
  }

  /** Joining the pieces of a split gives back the original string. */
  lemma {:induction false} JoinSplit(s: string, sep: char)
    ensures Join(Split(s, sep), sep) == s
    decreases |s|
  {
    if s != [] {
      var rest := Split(s[1..], sep);
      JoinSplit(s[1..], sep);
      if s[0] == sep {
        assert Split(s, sep) == [""] + rest;
        assert Join(Split(s, sep), sep) == "" + [sep] + Join(rest, sep);
      } else if |rest| == 1 {
        assert Split(s, sep) == [[s[0]] + rest[0]];
      } else {
        var pieces := Split(s, sep);
        assert pieces == [[s[0]] + rest[0]] + rest[1..];
        assert pieces[1..] == rest[1..];
        assert Join(rest, sep) == rest[0] + [sep] + Join(rest[1..], sep);
      }
    }
  }

  /** A string without the separator is a single piece. */
  lemma {:induction false} SplitWithoutSeparator(s: string, sep: char)
    requires Lacks(s, sep)
    ensures Split(s, sep) == [s]
    decreases |s|
  {
    if s != [] {
      SplitWithoutSeparator(s[1..], sep);
      assert s[0] != sep;
      assert s == [s[0]] + s[1..];
    }
  }

  /** A separator-free piece followed by the separator splits off as the first piece. */
  lemma {:induction false} SplitAfterPiece(p: string, sep: char, t: string)
    requires Lacks(p, sep)
    ensures Split(p + [sep] + t, sep) == [p] + Split(t, sep)
    decreases |p|
  {
    var s := p + [sep] + t;
    if p == [] {
      assert s[0] == sep && s[1..] == t;
    } else {
      SplitAfterPiece(p[1..], sep, t);
      assert s[0] == p[0] != sep;
      assert s[1..] == p[1..] + [sep] + t;
      var rest := Split(s[1..], sep);
      assert rest == [p[1..]] + Split(t, sep);
      assert [s[0]] + rest[0] == p;
      assert Split(s, sep) == [p] + rest[1..];
    }
  }

  /** Splitting a join of separator-free pieces gives back the pieces. */
  lemma {:induction false} SplitJoin(pieces: seq<string>, sep: char)
    requires |pieces| >= 1
    requires forall i :: 0 <= i < |pieces| ==> Lacks(pieces[i], sep)
    ensures Split(Join(pieces, sep), sep) == pieces
    decreases |pieces|
  {
    if |pieces| == 1 {
      SplitWithoutSeparator(pieces[0], sep);
    } else {
      SplitJoin(pieces[1..], sep);
      SplitAfterPiece(pieces[0], sep, Join(pieces[1..], sep));
    }
  }

  /** `r` is the text after the last `sep` of `s`: a suffix of `s` that is
      either all of `s` or is preceded by `sep`. */
  predicate FinalField(s: string, sep: char, r: string)
  {
    |r| <= |s| && s[|s| - |r|..] == r && (|r| < |s| ==> s[|s| - |r| - 1] == sep)
  }

  /** The first character of `s` keeps the final field of the rest when it is
      not part of it. */
  lemma FinalFieldCons(s: string, sep: char, r: string)
    requires |s| > 0 && FinalField(s[1..], sep, r) && (s[0] == sep || |r| < |s| - 1)
    ensures FinalField(s, sep, r)
  {
    assert s[|s| - |r|..] == s[1..][|s| - 1 - |r|..];
    if |r| < |s| - 1 {
      assert s[|s| - |r| - 1] == s[1..][|s| - 1 - |r| - 1];
    }
  }

  /** The last piece of a split is the text after the last separator. */
  lemma {:induction false} LastPieceIsFinalField(s: string, sep: char)
    ensures var pieces := Split(s, sep); FinalField(s, sep, pieces[|pieces| - 1])
    decreases |s|
  {
    if s != [] {
      var t := s[1..];
      LastPieceIsFinalField(t, sep);
      var rest := Split(t, sep);
      var r := rest[|rest| - 1];
      var pieces := Split(s, sep);
      if s[0] == sep {
        assert pieces == [""] + rest;
        assert pieces[|pieces| - 1] == r;
        FinalFieldCons(s, sep, r);
      } else if |rest| > 1 {
        assert pieces == [[s[0]] + rest[0]] + rest[1..];
        assert pieces[|pieces| - 1] == r;
        assert |r| < |t| by {
          if |r| == |t| {
            assert r == t;
            SplitWithoutSeparator(t, sep);
          }
        }
        FinalFieldCons(s, sep, r);
      } else {
        assert pieces == [[s[0]] + rest[0]];
        assert r == t by {
          if |r| < |t| {
            JoinSplit(t, sep);
          }
        }
        assert pieces[|pieces| - 1] == s;
      }
    }
  }

  /** Python's `team.split(' ')[-1]`: the team's last space-separated word. */
  function FormatTeam(team: string): (r: string)
    ensures |r| <= |team|
  {
    var pieces := Split(team, ' ');
    assert |pieces[|pieces| - 1]| <= |team| by {
      LastPieceIsFinalField(team, ' ');
    }
    pieces[|pieces| - 1]
  }

  /** The result of `FormatTeam` is the longest suffix of `team` that contains
      no space: it is all of `team`, or it follows the last space. */
  lemma FormatTeamIsLastWord(team: string)
    ensures Lacks(FormatTeam(team), ' ') && FinalField(team, ' ', FormatTeam(team))
  {
    LastPieceIsFinalField(team, ' ');
  }

  /** These facts pin the result down: any space-free suffix that is the whole
      string or follows a space is the result of `FormatTeam`. */
  lemma FormatTeamUnique(team: string, t: string)
    requires Lacks(t, ' ') && FinalField(team, ' ', t)
    ensures FormatTeam(team) == t
  {
    FormatTeamIsLastWord(team);
  }

  /** A team name without a space is kept as it is. */
  lemma FormatTeamKeepsSingleWord(team: string)
    requires Lacks(team, ' ')
    ensures FormatTeam(team) == team
  {
    FormatTeamUnique(team, team);
  }

  /** The city prefix is dropped. */
  lemma FormatTeamDropsCity()
    ensures FormatTeam("New England Patriots") == "Patriots"
  {
    FormatTeamUnique("New England Patriots", "Patriots");
  }

  /** A trailing space leaves an empty team name, as Python's split does. */
  lemma FormatTeamTrailingSpace()
    ensures FormatTeam("Bears ") == ""
  {
    FormatTeamUnique("Bears ", "");
  }
}
