/** The line counter: the number of lines Rust's `str::lines` yields for a
    file's text. */
module LineCount {
  import opened Text

  /** Removes one carriage return at the end of a line, if present. */
  function StripCr(l: string): (r: string)
    ensures '\n' !in l ==> '\n' !in r
    ensures '\r' !in l ==> r == l
  {
    if |l| > 0 && l[|l| - 1] == '\r' then l[..|l| - 1] else l
  }

  /** The lines of `s`: the text is cut at every '\n', a '\r' just before a
      '\n' is dropped with it, and an empty remainder after the last '\n'
      is not a line. An unterminated last line is kept as it is. */
  function Lines(s: string): (ls: seq<string>)
    ensures forall i :: 0 <= i < |ls| ==> '\n' !in ls[i]
  {
    var ps := Split(s, '\n');
    var last := ps[|ps| - 1];
    seq(|ps| - 1, i requires 0 <= i < |ps| - 1 => StripCr(ps[i]))
      + (if last == "" then [] else [last])
  }

  /** The number of lines is the number of '\n', plus one for a non-empty
      unterminated last line. */
  lemma LinesCount(s: string)
    ensures |Lines(s)| == Occurrences(s, '\n') + (if |s| > 0 && s[|s| - 1] != '\n' then 1 else 0)
  {
    var ps := Split(s, '\n');
    var last := ps[|ps| - 1];
    var init := seq(|ps| - 1, i requires 0 <= i < |ps| - 1 => StripCr(ps[i]));
    var rest: seq<string> := if last == "" then [] else [last];
    assert Lines(s) == init + rest;
    assert |init| == Occurrences(s, '\n');
    LastPieceEmpty(s, '\n');
    assert |rest| == (if |s| > 0 && s[|s| - 1] != '\n' then 1 else 0);
  }

  /** Counts the lines of `s` in one pass over its characters. */
  method CountLines(s: string) returns (n: nat)
    ensures n == |Lines(s)|
    ensures n == Occurrences(s, '\n') + (if |s| > 0 && s[|s| - 1] != '\n' then 1 else 0)
  {
    n := 0;
    var i := 0;
    while i < |s|
      invariant 0 <= i <= |s|
      invariant n == Occurrences(s[..i], '\n')
    {
      OccurrencesAppend(s[..i], [s[i]], '\n');
      assert s[..i + 1] == s[..i] + [s[i]];
      if s[i] == '\n' {
        n := n + 1;
      }
      i := i + 1;
    }
    assert s[..i] == s;
    if |s| > 0 && s[|s| - 1] != '\n' {
      n := n + 1;
    }
    LinesCount(s);
  }

  /** Characters other than '\n' — carriage returns included — never change
      the count: only the positions of '\n' and the length matter. */
  lemma CountIgnoresOtherChars(s: string, t: string)
    requires |s| == |t|
    requires forall i :: 0 <= i < |s| ==> (s[i] == '\n' <==> t[i] == '\n')
    ensures |Lines(s)| == |Lines(t)|
  {
    LinesCount(s);
    LinesCount(t);
    OccurrencesByPosition(s, t, '\n');
    if |s| > 0 {
      assert s[|s| - 1] == '\n' <==> t[|t| - 1] == '\n';
    }
  }

  /** A final line terminator is optional: adding one after a non-empty
      unterminated text without a trailing '\r' yields the same lines. */
  lemma TerminatorOptional(s: string)
    requires |s| > 0 && s[|s| - 1] != '\n' && s[|s| - 1] != '\r'
    ensures Lines(s + "\n") == Lines(s)
  {
    var ps := Split(s, '\n');
    var last := ps[|ps| - 1];
    LastPieceEnd(s, '\n');
    assert StripCr(last) == last;
    SplitAppendSep(s, '\n');
    var ps' := Split(s + "\n", '\n');
    assert ps' == ps + [""];
    var init := seq(|ps| - 1, i requires 0 <= i < |ps| - 1 => StripCr(ps[i]));
    var init' := seq(|ps'| - 1, i requires 0 <= i < |ps'| - 1 => StripCr(ps'[i]));
    assert init' == init + [StripCr(last)];
    assert Lines(s + "\n") == init';
    assert Lines(s) == init + [last];
  }

  /** When no piece but the last ends in '\r', the lines are the pieces
      themselves, without an empty last piece. */
  lemma NoCrPieces(s: string, ps: seq<string>)
    requires ps == Split(s, '\n')
    requires forall i :: 0 <= i < |ps| - 1 ==> |ps[i]| == 0 || ps[i][|ps[i]| - 1] != '\r'
    ensures Lines(s) == ps[..|ps| - 1] + (if ps[|ps| - 1] == "" then [] else [ps[|ps| - 1]])
  {
    var stripped := seq(|ps| - 1, i requires 0 <= i < |ps| - 1 => StripCr(ps[i]));
    assert stripped == ps[..|ps| - 1];
  }

  /** For text in which no '\r' comes right before a '\n', joining the
      lines with '\n' (and restoring a final terminator when the text had
      one) gives back the text. */
  lemma {:induction false} LinesRoundTrip(s: string)
    requires NeverBefore(s, '\r', '\n')
    ensures Join(Lines(s), '\n') + (if |s| > 0 && s[|s| - 1] == '\n' then "\n" else "") == s
  {
    var ps := Split(s, '\n');
    var last := ps[|ps| - 1];
    var init := ps[..|ps| - 1];
    PiecesNotEndingIn(s, '\r', '\n');
    NoCrPieces(s, ps);
    JoinSplit(s, '\n');
    LastPieceEmpty(s, '\n');
    assert ps == init + [last];
    if |ps| == 1 {
      assert s == last;
    } else {
      JoinSnoc(init, last, '\n');
      if last == "" {
        assert Lines(s) == init;
        assert s == Join(init, '\n') + "\n";
      } else {
        assert Lines(s) == init + [last];
      }
    }
  }

  /** Two texts have the same lines when their splits at '\n' agree on the
      last piece and on every other piece once one '\r' is stripped. */
  lemma LinesAgree(s: string, t: string, x: seq<string>, y: seq<string>)
    requires x == Split(s, '\n') && y == Split(t, '\n')
    requires |x| == |y| && x[|x| - 1] == y[|y| - 1]
    requires forall i :: 0 <= i < |x| - 1 ==> StripCr(x[i]) == StripCr(y[i])
    ensures Lines(s) == Lines(t)
  {
    var ix := seq(|x| - 1, i requires 0 <= i < |x| - 1 => StripCr(x[i]));
    var iy := seq(|y| - 1, i requires 0 <= i < |y| - 1 => StripCr(y[i]));
    assert ix == iy;
  }

  /** The last piece of `p` at '\n' does not end in '\r' when `p` does not. */
  lemma LastPieceKeeps(p: string)
    requires |p| == 0 || p[|p| - 1] != '\r'
    ensures var rp := Split(p, '\n'); StripCr(rp[|rp| - 1]) == rp[|rp| - 1]
  {
    if |p| > 0 && p[|p| - 1] != '\n' {
      LastPieceEnd(p, '\n');
    } else {
      LastPieceEmpty(p, '\n');
    }
  }

  /** Piece lists that differ only by a '\r' appended to one non-last piece
      that does not already end in '\r' agree once '\r' is stripped. */
  lemma CrPieceAgrees(x: seq<string>, y: seq<string>, a: seq<string>, l: string, b: seq<string>)
    requires StripCr(l) == l && |b| > 0
    requires x == a + [l + "\r"] + b && y == a + [l] + b
    ensures |x| == |y| && x[|x| - 1] == y[|y| - 1]
    ensures forall i :: 0 <= i < |x| - 1 ==> StripCr(x[i]) == StripCr(y[i])
  {
    forall i | 0 <= i < |x| - 1 ensures StripCr(x[i]) == StripCr(y[i]) {
      if i == |a| {
        assert x[i] == l + "\r";
      } else {
        assert x[i] == y[i];
      }
    }
  }

  /** Splitting around a '\n' and around a "\r\n": the pieces are those of
      the two sides, the '\r' staying on the last piece of the left side. */
  lemma SplitAroundNewline(p: string, q: string)
    ensures var rp := Split(p, '\n');
            && Split(p + "\n" + q, '\n') == rp[..|rp| - 1] + [rp[|rp| - 1]] + Split(q, '\n')
            && Split(p + "\r\n" + q, '\n') == rp[..|rp| - 1] + [rp[|rp| - 1] + "\r"] + Split(q, '\n')
  {
    var rp := Split(p, '\n');
    assert p + "\r\n" + q == (p + "\r") + ['\n'] + q;
    assert p + "\n" + q == p + ['\n'] + q;
    SplitConcat(p + "\r", q, '\n');
    SplitConcat(p, q, '\n');
    SplitSnoc(p, '\r', '\n');
    assert rp == rp[..|rp| - 1] + [rp[|rp| - 1]];
  }

  /** A "\r\n" terminator yields the same lines as a bare '\n', unless the
      text before it already ends in '\r' (only one '\r' is dropped). */
  lemma CrLfLikeLf(p: string, q: string)
    requires |p| == 0 || p[|p| - 1] != '\r'
    ensures Lines(p + "\r\n" + q) == Lines(p + "\n" + q)
  {
    var s, t := p + "\r\n" + q, p + "\n" + q;
    var rp := Split(p, '\n');
    var x, y := Split(s, '\n'), Split(t, '\n');
    SplitAroundNewline(p, q);
    LastPieceKeeps(p);
    CrPieceAgrees(x, y, rp[..|rp| - 1], rp[|rp| - 1], Split(q, '\n'));
    LinesAgree(s, t, x, y);
  }

  /** Sample texts: empty, unterminated and terminated. */
  lemma Examples()
    ensures |Lines("")| == 0
    ensures Lines("a\nb\nc") == ["a", "b", "c"]
    ensures |Lines("a\nb\nc\n")| == 3
  {
    var text := "a\nb\nc";
    ThreeLines();
    TerminatorOptional(text);
    assert text + "\n" == "a\nb\nc\n";
  }

  lemma ThreeLines()
    ensures Lines("a\nb\nc") == ["a", "b", "c"]
  {
    var ps := ["a", "b", "c"];
    assert Join(ps[2..], '\n') == "c";
    assert Join(ps[1..], '\n') == "b\nc" by { assert ps[1..][1..] == ps[2..]; }
    assert Join(ps, '\n') == "a\nb\nc";
    SplitJoin(ps, '\n');
    assert StripCr("a") == "a" && StripCr("b") == "b";
  }
}
