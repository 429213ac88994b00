/** Splitting a string on a single separator character, and joining pieces
    back. Both the extension list (split on ',') and the line counter (split
    on '\n') are built on this one definition. */
module Text {

  /** Number of occurrences of `c` in `s`. */
  function Occurrences(s: string, c: char): (n: nat)
    ensures n <= |s|
  {
    if |s| == 0 then 0
    else (if s[0] == c then 1 else 0) + Occurrences(s[1..], c)
  }

  /** The pieces of `s` between successive occurrences of `sep`, in order,
      including empty pieces; like Rust's `str::split` with a char pattern. */
  function Split(s: string, sep: char): (r: seq<string>)
    ensures |r| == Occurrences(s, sep) + 1
    ensures forall i :: 0 <= i < |r| ==> sep !in r[i]
  {
    if |s| == 0 then [""]
    else
      var rest := Split(s[1..], sep);
      if s[0] == sep then [""] + rest
      else [[s[0]] + rest[0]] + rest[1..]
  }

  /** The pieces concatenated with `sep` between neighbours. */
  function Join(ps: seq<string>, sep: char): (s: string)
  {
    if |ps| == 0 then ""
    else if |ps| == 1 then ps[0]
    else ps[0] + [sep] + Join(ps[1..], sep)
  }

  lemma OccurrencesAppend(a: string, b: string, c: char)
    ensures Occurrences(a + b, c) == Occurrences(a, c) + Occurrences(b, c)
  {
    if |a| > 0 {
      assert (a + b)[1..] == a[1..] + b;
      OccurrencesAppend(a[1..], b, c);
    } else {
      assert a + b == b;
    }
  }

  /** Joining the pieces of a split gives back the original string. */
  lemma {:induction false} JoinSplit(s: string, sep: char)
    ensures Join(Split(s, sep), sep) == s
  {
    if |s| > 0 {
      var rest := Split(s[1..], sep);
      JoinSplit(s[1..], sep);
      if s[0] == sep {
        assert Split(s, sep) == [""] + rest;
        assert ([""] + rest)[1..] == rest;
        assert Join(Split(s, sep), sep) == "" + [sep] + Join(rest, sep);
        assert s == [s[0]] + s[1..];
      } else {
        var r := Split(s, sep);
        assert r == [[s[0]] + rest[0]] + rest[1..];
        if |rest| == 1 {
          assert Join(r, sep) == [s[0]] + rest[0];
          assert Join(rest, sep) == rest[0];
        } else {
          assert r[1..] == rest[1..];
          assert Join(r, sep) == [s[0]] + rest[0] + [sep] + Join(rest[1..], sep);
          assert Join(rest, sep) == rest[0] + [sep] + Join(rest[1..], sep);
        }
        assert s == [s[0]] + s[1..];
      }
    }
  }

  /** Splitting a join of separator-free pieces gives back those pieces, so
      the split of a string is the only separator-free decomposition of it. */
  lemma {:induction false} SplitJoin(ps: seq<string>, sep: char)
    requires |ps| > 0
    requires forall i :: 0 <= i < |ps| ==> sep !in ps[i]
    ensures Split(Join(ps, sep), sep) == ps
  {
    if |ps| == 1 {
      SplitPieceFree(ps[0], sep);
    } else {
      SplitJoin(ps[1..], sep);
      SplitPrefixed(ps[0], Join(ps[1..], sep), sep);
      assert ps == [ps[0]] + ps[1..];
    }
  }

  /** A string free of the separator splits into itself alone. */
  lemma {:induction false} SplitPieceFree(p: string, sep: char)
    requires sep !in p
    ensures Split(p, sep) == [p]
  {
    if |p| > 0 {
      assert sep !in p[1..] by {
        forall i | 0 <= i < |p[1..]| ensures p[1..][i] != sep {
          assert p[1..][i] == p[i + 1];
        }
      }
      SplitPieceFree(p[1..], sep);
      assert [p[0]] + p[1..] == p;
    }
  }

  /** Splitting `p + [sep] + t`, where `p` is separator-free, yields `p`
      followed by the split of `t`. */
  lemma {:induction false} SplitPrefixed(p: string, t: string, sep: char)
    requires sep !in p
    ensures Split(p + [sep] + t, sep) == [p] + Split(t, sep)
  {
    if |p| == 0 {
      assert p + [sep] + t == [sep] + t;
      assert ([sep] + t)[1..] == t;
    } else {
      assert sep !in p[1..] by {
        forall i | 0 <= i < |p[1..]| ensures p[1..][i] != sep {
          assert p[1..][i] == p[i + 1];
        }
      }
      SplitPrefixed(p[1..], t, sep);
      var s := p + [sep] + t;
      assert s[0] == p[0];
      assert s[1..] == p[1..] + [sep] + t;
      assert [p[0]] + p[1..] == p;
    }
  }

  /** The last piece of a split is empty exactly when the string is empty or
      ends with the separator. */
  lemma {:induction false} LastPieceEmpty(s: string, sep: char)
    ensures var r := Split(s, sep);
            r[|r| - 1] == "" <==> (|s| == 0 || s[|s| - 1] == sep)
  {
    if |s| > 0 {
      LastPieceEmpty(s[1..], sep);
      var rest := Split(s[1..], sep);
      if s[0] != sep && |rest| == 1 {
        assert Split(s, sep) == [[s[0]] + rest[0]];
        if |s| == 1 {
          assert rest == [""];
        } else {
          assert s[|s| - 1] == s[1..][|s[1..]| - 1];
        }
      } else if |s| > 1 {
        assert s[|s| - 1] == s[1..][|s[1..]| - 1];
      }
    }
  }

  /** Appending a separator adds one empty piece at the end. */
  lemma {:induction false} SplitAppendSep(s: string, sep: char)
    ensures Split(s + [sep], sep) == Split(s, sep) + [""]
  {
    if |s| == 0 {
      assert s + [sep] == [sep];
      assert [sep][1..] == "";
    } else {
      var t := s + [sep];
      assert t[1..] == s[1..] + [sep];
      SplitAppendSep(s[1..], sep);
      var rest := Split(s[1..], sep);
      if s[0] != sep {
        assert (rest + [""])[0] == rest[0];
        assert (rest + [""])[1..] == rest[1..] + [""];
      }
    }
  }

  /** Joining with one more piece at the end. */
  lemma {:induction false} JoinSnoc(ps: seq<string>, x: string, sep: char)
    requires |ps| > 0
    ensures Join(ps + [x], sep) == Join(ps, sep) + [sep] + x
  {
    var qs := ps + [x];
    assert qs[0] == ps[0];
    if |ps| == 1 {
      assert qs[1..] == [x];
    } else {
      assert qs[1..] == ps[1..] + [x];
      JoinSnoc(ps[1..], x, sep);
    }
  }

  /** Two strings with the separator at the same positions have the same
      number of separators. */
  lemma {:induction false} OccurrencesByPosition(s: string, t: string, c: char)
    requires |s| == |t|
    requires forall i :: 0 <= i < |s| ==> (s[i] == c <==> t[i] == c)
    ensures Occurrences(s, c) == Occurrences(t, c)
  {
    if |s| > 0 {
      forall i | 0 <= i < |s[1..]| ensures s[1..][i] == c <==> t[1..][i] == c {
        assert s[1..][i] == s[i + 1] && t[1..][i] == t[i + 1];
      }
      OccurrencesByPosition(s[1..], t[1..], c);
    }
  }

  /** When `s` does not end with `sep`, its last piece is non-empty and ends
      with the last character of `s`. */
  lemma LastPieceEnd(s: string, sep: char)
    requires |s| > 0 && s[|s| - 1] != sep
    ensures var ps := Split(s, sep);
            |ps[|ps| - 1]| > 0 && ps[|ps| - 1][|ps[|ps| - 1]| - 1] == s[|s| - 1]
  {
    var ps := Split(s, sep);
    var last := ps[|ps| - 1];
    LastPieceEmpty(s, sep);
    JoinSplit(s, sep);
    assert |last| > 0;
    if |ps| == 1 {
      assert s == last;
    } else {
      var init := ps[..|ps| - 1];
      assert init + [last] == ps;
      JoinSnoc(init, last, sep);
      var front := Join(init, sep) + [sep];
      assert s == front + last;
      assert s[|s| - 1] == last[|last| - 1];
    }
  }

  /** Splitting at a separator placed between `a` and `b` gives the pieces
      of `a` followed by the pieces of `b`. */
  lemma SplitConcat(a: string, b: string, sep: char)
    ensures Split(a + [sep] + b, sep) == Split(a, sep) + Split(b, sep)
  {
    var ra, rb := Split(a, sep), Split(b, sep);
    JoinAppend(ra, rb, sep);
    JoinSplit(a, sep);
    JoinSplit(b, sep);
    SplitJoin(ra + rb, sep);
  }

  /** Joining two non-empty lists puts one separator between their joins. */
  lemma {:induction false} JoinAppend(x: seq<string>, y: seq<string>, sep: char)
    requires |x| > 0 && |y| > 0
    ensures Join(x + y, sep) == Join(x, sep) + [sep] + Join(y, sep)
  {
    var xy := x + y;
    assert xy[0] == x[0];
    if |x| == 1 {
      assert xy[1..] == y;
    } else {
      assert xy[1..] == x[1..] + y;
      JoinAppend(x[1..], y, sep);
    }
  }

  /** Appending a non-separator character extends the last piece. */
  lemma SplitSnoc(s: string, c: char, sep: char)
    requires c != sep
    ensures var r := Split(s, sep);
            Split(s + [c], sep) == r[..|r| - 1] + [r[|r| - 1] + [c]]
  {
    var r := Split(s, sep);
    var r' := r[..|r| - 1] + [r[|r| - 1] + [c]];
    JoinSplit(s, sep);
    JoinExtendLast(r, c, sep);
    assert forall i :: 0 <= i < |r'| ==> sep !in r'[i];
    SplitJoin(r', sep);
  }

  /** Extending the last piece extends the join by the same characters. */
  lemma JoinExtendLast(r: seq<string>, c: char, sep: char)
    requires |r| > 0
    ensures Join(r[..|r| - 1] + [r[|r| - 1] + [c]], sep) == Join(r, sep) + [c]
  {
    var init, last := r[..|r| - 1], r[|r| - 1];
    assert r == init + [last];
    if |r| > 1 {
      JoinSnoc(init, last, sep);
      JoinSnoc(init, last + [c], sep);
    }
  }

  /** No `c` in `s` comes directly before a `sep`. */
  predicate NeverBefore(s: string, c: char, sep: char)
  {
    forall i :: 0 <= i < |s| - 1 && s[i] == c ==> s[i + 1] != sep
  }

  /** Every piece followed by a separator ends with the character before
      that separator; so when no `c` comes right before a separator, no such
      piece ends with `c`. */
  lemma {:induction false} PiecesNotEndingIn(s: string, c: char, sep: char)
    requires c != sep
    requires NeverBefore(s, c, sep)
    ensures var r := Split(s, sep);
            forall i :: 0 <= i < |r| - 1 ==> |r[i]| == 0 || r[i][|r[i]| - 1] != c
  {
    if |s| > 0 {
      var r := Split(s, sep);
      var r' := Split(s[1..], sep);
      assert NeverBefore(s[1..], c, sep) by {
        forall i | 0 <= i < |s[1..]| - 1 && s[1..][i] == c ensures s[1..][i + 1] != sep {
          assert s[1..][i] == s[i + 1] && s[1..][i + 1] == s[i + 2];
        }
      }
      PiecesNotEndingIn(s[1..], c, sep);
      assert r' == Split(s[1..], sep);
      assert var q := Split(s[1..], sep); forall j :: 0 <= j < |q| - 1 ==> |q[j]| == 0 || q[j][|q[j]| - 1] != c;
      if s[0] == sep {
        assert r == [""] + r';
        forall i | 1 <= i < |r| - 1 ensures |r[i]| == 0 || r[i][|r[i]| - 1] != c {
          assert r[i] == r'[i - 1];
        }
      } else {
        assert r == [[s[0]] + r'[0]] + r'[1..];
        forall i | 1 <= i < |r| - 1 ensures |r[i]| == 0 || r[i][|r[i]| - 1] != c {
          assert r[i] == r'[i];
        }
        if |r| > 1 {
          var p := [s[0]] + r'[0];
          if |r'[0]| == 0 {
            FirstPieceEmpty(s[1..], sep);
            assert s[1] == sep;
            assert p[|p| - 1] == s[0];
          } else {
            assert 0 < |r'| - 1;
            assert p[|p| - 1] == r'[0][|r'[0]| - 1];
          }
        }
      }
    }
  }

  /** An empty first piece that is not the only piece means the string
      starts with the separator. */
  lemma FirstPieceEmpty(s: string, sep: char)
    requires |Split(s, sep)| > 1 && Split(s, sep)[0] == ""
    ensures |s| > 0 && s[0] == sep
  {
  }
}
