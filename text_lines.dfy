/**
 * Line structure of note text.
 *
 * Two ways of cutting a string into lines meet in the comment node: the
 * inline `text` property is cut with Python's `str.splitlines`, and a host
 * text buffer holds its content as a list of lines. Both are modelled here
 * on top of one primitive, `Split`, which cuts at every newline and keeps
 * every piece.
 */
module TextLines {

  /** True when `s` is non-empty and its last character is a newline. */
  predicate EndsWithNewline(s: string) {
    |s| > 0 && s[|s| - 1] == '\n'
  }

  /**
   * The pieces of `s` between newline characters, empty pieces included:
   * a string with n newlines has n + 1 pieces. This is how a host text
   * buffer holds its lines (the empty buffer has one empty line).
   */
  function Split(s: string): (pieces: seq<string>)
    ensures |pieces| >= 1
    ensures forall i :: 0 <= i < |pieces| ==> '\n' !in pieces[i]
  {
    if s == "" then [""]
    else
      var rest := Split(s[1..]);
      if s[0] == '\n' then [""] + rest
      else [[s[0]] + rest[0]] + rest[1..]
  }

  /** The pieces glued back together with a newline between neighbours. */
  function Join(pieces: seq<string>): string
    requires |pieces| >= 1
  {
    if |pieces| == 1 then pieces[0]
    else pieces[0] + "\n" + Join(pieces[1..])
  }

  /**
   * Python's `str.splitlines` restricted to '\n': the pieces of `s`, except
   * that a newline ending the string does not start a further, empty line,
   * and the empty string has no lines at all.
   */
  function SplitLines(s: string): (lines: seq<string>)
    ensures s == "" <==> lines == []
    ensures forall i :: 0 <= i < |lines| ==> '\n' !in lines[i]
  {
    if s == "" then []
    else
      var pieces := Split(s);
      if EndsWithNewline(s) then
        assert s[|s| - 1] in s;
        JoinSplit(s);
        pieces[..|pieces| - 1]
      else pieces
  }

  /** Joining the pieces gives the string back. */
  lemma {:induction false} JoinSplit(s: string)
    ensures Join(Split(s)) == s
  {
    if s != "" {
      var rest := Split(s[1..]);
      JoinSplit(s[1..]);
      if s[0] == '\n' {
        assert Split(s) == [""] + rest;
        assert ([""] + rest)[1..] == rest;
        assert s == "\n" + s[1..];
      } else if |rest| == 1 {
        assert Split(s) == [[s[0]] + rest[0]];
        assert s == [s[0]] + s[1..];
      } else {
        var pieces := Split(s);
        assert pieces == [[s[0]] + rest[0]] + rest[1..];
        assert pieces[1..] == rest[1..];
        calc {
          Join(pieces);
          [s[0]] + rest[0] + "\n" + Join(rest[1..]);
          [s[0]] + (rest[0] + "\n" + Join(rest[1..]));
          [s[0]] + Join(rest);
          s;
        }
      }
    }
  }

  /** A string without newlines is a single piece. */
  lemma {:induction false} SplitSingle(s: string)
    requires '\n' !in s
    ensures Split(s) == [s]
  {
    if s != "" {
      assert s[0] in s;
      assert forall c :: c in s[1..] ==> c in s;
      SplitSingle(s[1..]);
      assert [s[0]] + s[1..] == s;
    }
  }

  /** Cutting at a newline that follows a newline-free prefix peels that prefix off. */
  lemma {:induction false} SplitAfterPrefix(a: string, b: string)
    requires '\n' !in a
    ensures Split(a + "\n" + b) == [a] + Split(b)
  {
    var s := a + "\n" + b;
    if a == "" {
      assert s == "\n" + b && s[1..] == b;
    } else {
      assert a[0] in a;
      assert forall c :: c in a[1..] ==> c in a;
      assert s[1..] == a[1..] + "\n" + b;
      SplitAfterPrefix(a[1..], b);
      assert [a[0]] + a[1..] == a;
    }
  }

  /** Splitting undoes joining, for pieces that contain no newline. */
  lemma {:induction false} SplitJoin(pieces: seq<string>)
    requires |pieces| >= 1
    requires forall i :: 0 <= i < |pieces| ==> '\n' !in pieces[i]
    ensures Split(Join(pieces)) == pieces
  {
    if |pieces| == 1 {
      SplitSingle(pieces[0]);
    } else {
      SplitJoin(pieces[1..]);
      SplitAfterPrefix(pieces[0], Join(pieces[1..]));
      assert [pieces[0]] + pieces[1..] == pieces;
    }
  }

  /** The last piece is empty exactly when the string is empty or ends in a newline. */
  lemma {:induction false} LastPieceEmpty(s: string)
    ensures Split(s)[|Split(s)| - 1] == "" <==> (s == "" || EndsWithNewline(s))
  {
    if s != "" {
      var rest := Split(s[1..]);
      LastPieceEmpty(s[1..]);
      if s[0] == '\n' || |rest| >= 2 {
        assert Split(s)[|Split(s)| - 1] == rest[|rest| - 1];
        if s[1..] != "" {
          assert s[|s| - 1] == s[1..][|s[1..]| - 1];
        }
      } else {
        JoinSplit(s[1..]);
        assert s[1..] == rest[0];
        if s[1..] != "" {
          assert s[|s| - 1] == rest[0][|rest[0]| - 1];
          assert s[|s| - 1] in rest[0];
        }
      }
    }
  }

  /**
   * What `SplitLines` promises: a non-empty string has at least one line,
   * no line holds a newline, and the lines joined back, with the final
   * newline when there was one, give the string again.
   */
  lemma SplitLinesRoundTrip(s: string)
    requires s != ""
    ensures |SplitLines(s)| >= 1
    ensures forall i :: 0 <= i < |SplitLines(s)| ==> '\n' !in SplitLines(s)[i]
    ensures Join(SplitLines(s)) + (if EndsWithNewline(s) then "\n" else "") == s
  {
    var pieces := Split(s);
    JoinSplit(s);
    if EndsWithNewline(s) {
      assert s[|s| - 1] in s;
      assert |pieces| >= 2;
      LastPieceEmpty(s);
      JoinDropEmptyLast(pieces);
    }
  }

  /** Joining pieces whose last one is empty equals joining the rest and adding a newline. */
  lemma {:induction false} JoinDropEmptyLast(pieces: seq<string>)
    requires |pieces| >= 2 && pieces[|pieces| - 1] == ""
    ensures Join(pieces[..|pieces| - 1]) + "\n" == Join(pieces)
  {
    if |pieces| > 2 {
      JoinDropEmptyLast(pieces[1..]);
      assert pieces[1..][..|pieces| - 2] == pieces[..|pieces| - 1][1..];
    }
  }

  /**
   * The lines of a host buffer and the lines `splitlines` gives for the same
   * non-empty content agree, except that a buffer whose content ends in a
   * newline has one more, empty, line at the end.
   */
  lemma BufferLinesVersusSplitLines(s: string)
    requires s != ""
    ensures Split(s) == SplitLines(s) + (if EndsWithNewline(s) then [""] else [])
  {
    var pieces := Split(s);
    if EndsWithNewline(s) {
      assert s[|s| - 1] in s;
      JoinSplit(s);
      assert |pieces| >= 2;
      LastPieceEmpty(s);
      assert pieces == pieces[..|pieces| - 1] + [pieces[|pieces| - 1]];
    }
  }
}
