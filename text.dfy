/**
 * Splitting a string on '/', joining pieces with '/', and the lexicographic
 * orders Rust uses for `str` (byte-wise, which for UTF-8 text is code-point
 * order) and for `Vec<&str>` (element-wise).
 */
module Text {

  /** Number of occurrences of `c` in `s`. */
  function Count(s: string, c: char): nat {
    if |s| == 0 then 0 else Count(s[..|s| - 1], c) + (if s[|s| - 1] == c then 1 else 0)
  }

  predicate NoSlash(p: string) {
    forall i :: 0 <= i < |p| ==> p[i] != '/'
  }

  predicate AllNoSlash(ps: seq<string>) {
    forall k :: 0 <= k < |ps| ==> NoSlash(ps[k])
  }

  /** The pieces of `s` between '/' separators, as `str::split('/')` yields them. */
  function Pieces(s: string): (r: seq<string>)
    ensures |r| >= 1
  {
    if |s| == 0 then [""]
    else
      var ps := Pieces(s[..|s| - 1]);
      if s[|s| - 1] == '/' then ps + [""]
      else ps[..|ps| - 1] + [ps[|ps| - 1] + [s[|s| - 1]]]
  }

  /** `ps` joined with '/' separators, as `[String]::join("/")` does. */
  function Join(ps: seq<string>): string {
    if |ps| == 0 then ""
    else if |ps| == 1 then ps[0]
    else Join(ps[..|ps| - 1]) + "/" + ps[|ps| - 1]
  }

  lemma {:induction false} PiecesCount(s: string)
    ensures |Pieces(s)| == Count(s, '/') + 1
  {
    if |s| > 0 {
      PiecesCount(s[..|s| - 1]);
    }
  }

  lemma {:induction false} PiecesHaveNoSlash(s: string)
    ensures AllNoSlash(Pieces(s))
  {
    if |s| > 0 {
      PiecesHaveNoSlash(s[..|s| - 1]);
    }
  }

  /** Splitting then joining gives the string back. */
  lemma {:induction false} JoinPieces(s: string)
    ensures Join(Pieces(s)) == s
  {
    if |s| > 0 {
      var t, c := s[..|s| - 1], s[|s| - 1];
      JoinPieces(t);
      assert s == t + [c];
      if c == '/' {
        JoinPiecesSlash(t);
      } else {
        JoinPiecesChar(t, c);
      }
    }
  }

  lemma {:induction false} JoinPiecesSlash(t: string)
    requires Join(Pieces(t)) == t
    ensures Join(Pieces(t + ['/'])) == t + ['/']
  {
    PiecesSnoc(t, '/');
    var ps := Pieces(t);
    assert (ps + [""])[..|ps|] == ps;
  }

  lemma {:induction false} JoinPiecesChar(t: string, c: char)
    requires c != '/' && Join(Pieces(t)) == t
    ensures Join(Pieces(t + [c])) == t + [c]
  {
    PiecesSnoc(t, c);
    var ps := Pieces(t);
    var qs := ps[..|ps| - 1] + [ps[|ps| - 1] + [c]];
    assert qs[..|qs| - 1] == ps[..|ps| - 1];
    if |ps| > 1 {
      assert Join(ps) == Join(ps[..|ps| - 1]) + "/" + ps[|ps| - 1];
    }
  }

  lemma {:induction false} PiecesOfPlain(p: string)
    requires NoSlash(p)
    ensures Pieces(p) == [p]
  {
    if |p| > 0 {
      PiecesOfPlain(p[..|p| - 1]);
      assert p == p[..|p| - 1] + [p[|p| - 1]];
    }
  }

  /** One more character either starts a new piece (a '/') or extends the last piece. */
  lemma PiecesSnoc(t: string, c: char)
    ensures var ps := Pieces(t);
      Pieces(t + [c]) == if c == '/' then ps + [""] else ps[..|ps| - 1] + [ps[|ps| - 1] + [c]]
  {
    assert (t + [c])[..|t|] == t;
  }

  /** Extending the last piece of `p + y` extends the last piece of `y`. */
  lemma ExtendLast(p: seq<string>, y: seq<string>, c: char)
    requires |y| >= 1
    ensures var x := p + y;
      x[..|x| - 1] + [x[|x| - 1] + [c]] == p + (y[..|y| - 1] + [y[|y| - 1] + [c]])
  {
    var x := p + y;
    assert x[..|x| - 1] == p + y[..|y| - 1];
  }

  /** Splitting distributes over a separator. */
  lemma {:induction false} PiecesConcat(a: string, b: string)
    ensures Pieces(a + "/" + b) == Pieces(a) + Pieces(b)
  {
    if |b| == 0 {
      assert a + "/" + b == a + ['/'];
      PiecesSnoc(a, '/');
    } else {
      PiecesConcat(a, b[..|b| - 1]);
      PiecesConcatStep(a, b);
    }
  }

  /** The inductive step of `PiecesConcat`: `b` is one character longer than the case already shown. */
  lemma {:induction false} PiecesConcatStep(a: string, b: string)
    requires |b| > 0
    requires Pieces(a + "/" + b[..|b| - 1]) == Pieces(a) + Pieces(b[..|b| - 1])
    ensures Pieces(a + "/" + b) == Pieces(a) + Pieces(b)
  {
    var b', c := b[..|b| - 1], b[|b| - 1];
    assert a + "/" + b == (a + "/" + b') + [c];
    assert b == b' + [c];
    if c == '/' {
      PiecesSlash(a + "/" + b', Pieces(a), b');
    } else {
      PiecesChar(a + "/" + b', Pieces(a), b', c);
    }
  }

  /** A trailing '/' adds an empty piece after the pieces of `x`, whatever they are made of. */
  lemma {:induction false} PiecesSlash(x: string, p: seq<string>, b: string)
    requires Pieces(x) == p + Pieces(b)
    ensures Pieces(x + ['/']) == p + Pieces(b + ['/'])
  {
    PiecesSnoc(x, '/');
    PiecesSnoc(b, '/');
    assert (p + Pieces(b)) + [""] == p + (Pieces(b) + [""]);
  }

  /** Any other character extends the last piece. */
  lemma {:induction false} PiecesChar(x: string, p: seq<string>, b: string, c: char)
    requires c != '/' && Pieces(x) == p + Pieces(b)
    ensures Pieces(x + [c]) == p + Pieces(b + [c])
  {
    var y := Pieces(b);
    PiecesSnoc(x, c);
    assert Pieces(x + [c]) == (p + y)[..|p + y| - 1] + [(p + y)[|p + y| - 1] + [c]];
    PiecesSnoc(b, c);
    ExtendLast(p, y, c);
  }

  /** Joining pieces that hold no '/' then splitting gives the pieces back. */
  lemma {:induction false} PiecesJoin(ps: seq<string>)
    requires |ps| >= 1 && AllNoSlash(ps)
    ensures Pieces(Join(ps)) == ps
  {
    if |ps| == 1 {
      PiecesOfPlain(ps[0]);
    } else {
      var init := ps[..|ps| - 1];
      forall k | 0 <= k < |init| ensures NoSlash(init[k]) {
        assert init[k] == ps[k];
      }
      PiecesJoin(init);
      PiecesJoinStep(ps);
    }
  }

  /** The inductive step of `PiecesJoin`: one more piece at the end. */
  lemma {:induction false} PiecesJoinStep(ps: seq<string>)
    requires |ps| >= 2 && NoSlash(ps[|ps| - 1])
    requires Pieces(Join(ps[..|ps| - 1])) == ps[..|ps| - 1]
    ensures Pieces(Join(ps)) == ps
  {
    var init, last := ps[..|ps| - 1], ps[|ps| - 1];
    assert Join(ps) == Join(init) + "/" + last;
    PiecesOfPlain(last);
    PiecesConcat(Join(init), last);
    InitLast(ps);
  }

  lemma InitLast<T>(s: seq<T>)
    requires |s| > 0
    ensures s[..|s| - 1] + [s[|s| - 1]] == s
  {
  }

  /** Joining unfolds from the front as well as from the back. */
  lemma {:induction false} JoinFront(ps: seq<string>)
    requires |ps| >= 2
    ensures Join(ps) == ps[0] + "/" + Join(ps[1..])
  {
    if |ps| > 2 {
      JoinFront(ps[..|ps| - 1]);
      assert ps[..|ps| - 1][1..] == ps[1..][..|ps| - 2];
    }
  }

  lemma {:induction false} JoinAppend(ps: seq<string>, qs: seq<string>)
    requires |ps| >= 1 && |qs| >= 1
    ensures Join(ps + qs) == Join(ps) + "/" + Join(qs)
  {
    if |qs| == 1 {
      assert (ps + qs)[..|ps + qs| - 1] == ps;
    } else {
      JoinAppend(ps, qs[..|qs| - 1]);
      assert (ps + qs)[..|ps + qs| - 1] == ps + qs[..|qs| - 1];
    }
  }

  // ----- lexicographic orders -----

  /** Strict lexicographic order on strings. */
  predicate StrLess(a: string, b: string) {
    if |a| == 0 then |b| != 0
    else if |b| == 0 then false
    else a[0] < b[0] || (a[0] == b[0] && StrLess(a[1..], b[1..]))
  }

  /** Strict lexicographic order on component lists, comparing components with `StrLess`. */
  predicate ListLess(a: seq<string>, b: seq<string>) {
    if |a| == 0 then |b| != 0
    else if |b| == 0 then false
    else StrLess(a[0], b[0]) || (a[0] == b[0] && ListLess(a[1..], b[1..]))
  }

  lemma {:induction false} StrLessIrreflexive(a: string)
    ensures !StrLess(a, a)
  {
    if |a| > 0 { StrLessIrreflexive(a[1..]); }
  }

  lemma {:induction false} StrLessTransitive(a: string, b: string, c: string)
    requires StrLess(a, b) && StrLess(b, c)
    ensures StrLess(a, c)
  {
    if |a| > 0 && |b| > 0 && |c| > 0 && a[0] == b[0] == c[0] {
      StrLessTransitive(a[1..], b[1..], c[1..]);
    }
  }

  lemma {:induction false} StrLessTotal(a: string, b: string)
    ensures a == b || StrLess(a, b) || StrLess(b, a)
  {
    if |a| > 0 && |b| > 0 && a[0] == b[0] {
      StrLessTotal(a[1..], b[1..]);
      if a[1..] == b[1..] {
        assert a == [a[0]] + a[1..] && b == [b[0]] + b[1..];
      }
    }
  }

  lemma StrLessAsymmetric(a: string, b: string)
    requires StrLess(a, b)
    ensures !StrLess(b, a)
  {
    if StrLess(b, a) {
      StrLessTransitive(a, b, a);
      StrLessIrreflexive(a);
    }
  }

  lemma {:induction false} ListLessIrreflexive(a: seq<string>)
    ensures !ListLess(a, a)
  {
    if |a| > 0 {
      StrLessIrreflexive(a[0]);
      ListLessIrreflexive(a[1..]);
    }
  }

  lemma {:induction false} ListLessTransitive(a: seq<string>, b: seq<string>, c: seq<string>)
    requires ListLess(a, b) && ListLess(b, c)
    ensures ListLess(a, c)
  {
    if |a| > 0 && |b| > 0 && |c| > 0 {
      if StrLess(a[0], b[0]) && StrLess(b[0], c[0]) {
        StrLessTransitive(a[0], b[0], c[0]);
      } else if a[0] == b[0] == c[0] {
        ListLessTransitive(a[1..], b[1..], c[1..]);
      }
    }
  }

  lemma {:induction false} ListLessTotal(a: seq<string>, b: seq<string>)
    ensures a == b || ListLess(a, b) || ListLess(b, a)
  {
    if |a| > 0 && |b| > 0 {
      StrLessTotal(a[0], b[0]);
      if a[0] == b[0] {
        ListLessTotal(a[1..], b[1..]);
        if a[1..] == b[1..] {
          assert a == [a[0]] + a[1..] && b == [b[0]] + b[1..];
        }
      }
    }
  }

  lemma ListLessAsymmetric(a: seq<string>, b: seq<string>)
    requires ListLess(a, b)
    ensures !ListLess(b, a)
  {
    if ListLess(b, a) {
      ListLessTransitive(a, b, a);
      ListLessIrreflexive(a);
    }
  }

  /** A proper prefix sorts first. */
  lemma {:induction false} ListLessProperPrefix(a: seq<string>, b: seq<string>)
    requires |a| < |b| && a == b[..|a|]
    ensures ListLess(a, b)
  {
    if |a| > 0 {
      ListLessProperPrefix(a[1..], b[1..]);
    }
  }

  /**
   * Between two lists that both strictly extend `l`, every list in between (in
   * `ListLess` order) strictly extends `l` too: in a sorted list of names, the
   * names inside one directory are contiguous.
   */
  lemma {:induction false} ListBetweenExtends(l: seq<string>, a: seq<string>, b: seq<string>, c: seq<string>)
    requires |l| < |a| && l == a[..|l|]
    requires |l| < |c| && l == c[..|l|]
    requires !ListLess(b, a) && !ListLess(c, b)
    ensures |l| < |b| && l == b[..|l|]
  {
    if |l| > 0 && |b| > 0 {
      if b[0] == l[0] {
        ListBetweenExtends(l[1..], a[1..], b[1..], c[1..]);
        assert l == [l[0]] + l[1..] && b[..|l|] == [b[0]] + b[1..][..|l| - 1];
      } else {
        StrLessTotal(b[0], l[0]);
      }
    }
  }
}
