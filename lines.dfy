/**
  Text cut at newline characters as Python's `s.split('\n')` cuts it, the
  inverse `'\n'.join(pieces)`, and the tail `'\n'.join(s.split('\n')[-n:])`
  that keeps the last `n` pieces of a text.
 */
module Lines {

  const Newline: char := '\n'

  /** The number of newline characters in `s`. */
  function Newlines(s: string): nat
  {
    multiset(s)[Newline]
  }

  predicate NoNewlines(pieces: seq<string>)
  {
    forall i :: 0 <= i < |pieces| ==> Newline !in pieces[i]
  }

  /** `s.split('\n')`: the maximal newline-free pieces between newlines; one piece more than there are newlines. */
  function Split(s: string): (pieces: seq<string>)
    ensures |pieces| >= 1
    ensures NoNewlines(pieces)
  {
    if s == [] then [[]]
    else
      var rest := Split(s[1..]);
      if s[0] == Newline then [[]] + rest
      else [[s[0]] + rest[0]] + rest[1..]
  }

  /** `'\n'.join(pieces)`. */
  function Join(pieces: seq<string>): string
  {
    if pieces == [] then []
    else if |pieces| == 1 then pieces[0]
    else pieces[0] + [Newline] + Join(pieces[1..])
  }

  /** Python's slice `pieces[-n:]` for a positive `n`: the last `n` pieces, or all of them when there are fewer. */
  function LastPieces(pieces: seq<string>, n: nat): (r: seq<string>)
    requires n >= 1
    ensures |r| == if |pieces| > n then n else |pieces|
    ensures r == pieces[|pieces| - |r|..]
  {
    if |pieces| > n then pieces[|pieces| - n..] else pieces
  }

  /**
    `'\n'.join(s.split('\n')[-n:])`: the text of the last `n` pieces of `s`, a
    suffix of `s` that starts just after a newline or is the whole text.
   */
  function LastLines(s: string, n: nat): (t: string)
    requires n >= 1
    ensures |t| <= |s| && t == s[|s| - |t|..]
    ensures |t| < |s| ==> s[|s| - |t| - 1] == Newline
  {
    var pieces := Split(s);
    var last := LastPieces(pieces, n);
    var k := |pieces| - |last|;
    assert last == pieces[k..];
    JoinSplit(s);
    JoinSuffix(pieces, k);
    Join(last)
  }

  /** Joining the pieces of a split gives the text back. */
  lemma {:induction false} JoinSplit(s: string)
    ensures Join(Split(s)) == s
  {
    if s != [] {
      var rest := Split(s[1..]);
      JoinSplit(s[1..]);
      assert s == [s[0]] + s[1..];
      if s[0] == Newline {
        assert Split(s) == [[]] + rest;
        assert ([[]] + rest)[1..] == rest;
      } else if |rest| == 1 {
        assert Split(s) == [[s[0]] + rest[0]];
      } else {
        var pieces := Split(s);
        assert pieces[0] == [s[0]] + rest[0] && pieces[1..] == rest[1..];
        assert Join(rest) == rest[0] + [Newline] + Join(rest[1..]);
        assert Join(pieces) == pieces[0] + [Newline] + Join(rest[1..]);
      }
    }
  }

  /** Splitting text that starts with a newline-free piece `p`. */
  lemma {:induction false} SplitAfterPiece(p: string, t: string)
    requires Newline !in p
    ensures Split(p + t) == [p + Split(t)[0]] + Split(t)[1..]
  {
    var st := Split(t);
    if p == [] {
      calc {
        [p + st[0]] + st[1..];
        { assert p + st[0] == st[0]; }
        [st[0]] + st[1..];
        st;
        { assert t == p + t; }
        Split(p + t);
      }
    } else {
      assert (p + t)[0] == p[0] && (p + t)[1..] == p[1..] + t;
      SplitAfterPiece(p[1..], t);
      var rest := Split(p[1..] + t);
      assert rest[0] == p[1..] + st[0] && rest[1..] == st[1..];
      assert [p[0]] + (p[1..] + st[0]) == p + st[0];
    }
  }

  /** Splitting the join of newline-free pieces gives the pieces back. */
  lemma {:induction false} SplitJoin(pieces: seq<string>)
    requires |pieces| >= 1 && NoNewlines(pieces)
    ensures Split(Join(pieces)) == pieces
  {
    if |pieces| == 1 {
      SplitAfterPiece(pieces[0], []);
      assert pieces[0] + [] == pieces[0];
    } else {
      var rest := Join(pieces[1..]);
      SplitJoin(pieces[1..]);
      assert Join(pieces) == pieces[0] + ([Newline] + rest);
      SplitAfterPiece(pieces[0], [Newline] + rest);
      assert ([Newline] + rest)[1..] == rest;
      assert Split([Newline] + rest) == [[]] + pieces[1..];
      assert pieces[0] + [] == pieces[0];
      assert pieces == [pieces[0]] + pieces[1..];
    }
  }

  /** Joining two non-empty runs of pieces puts one newline between their texts. */
  lemma {:induction false} JoinAppend(a: seq<string>, b: seq<string>)
    requires a != [] && b != []
    ensures Join(a + b) == Join(a) + [Newline] + Join(b)
  {
    if |a| > 1 {
      assert (a + b)[1..] == a[1..] + b;
      JoinAppend(a[1..], b);
    } else {
      assert (a + b)[1..] == b;
    }
  }

  /** The join of newline-free pieces holds one newline fewer than there are pieces. */
  lemma {:induction false} NewlinesOfJoin(pieces: seq<string>)
    requires |pieces| >= 1 && NoNewlines(pieces)
    ensures Newlines(Join(pieces)) == |pieces| - 1
  {
    if |pieces| > 1 {
      NewlinesOfJoin(pieces[1..]);
      assert multiset(Join(pieces)) == multiset(pieces[0]) + multiset([Newline]) + multiset(Join(pieces[1..]));
    }
  }

  /** A text has one more piece than it has newlines. */
  lemma PiecesOfSplit(s: string)
    ensures |Split(s)| == Newlines(s) + 1
  {
    JoinSplit(s);
    NewlinesOfJoin(Split(s));
  }

  /**
    The join of the pieces from `k` on is a suffix of the join of all of them,
    preceded by the newline that ends piece `k - 1` when `k > 0`.
   */
  lemma JoinSuffix(pieces: seq<string>, k: nat)
    requires k < |pieces|
    ensures var s, t := Join(pieces), Join(pieces[k..]);
      && |t| <= |s|
      && t == s[|s| - |t|..]
      && (|t| < |s| ==> s[|s| - |t| - 1] == Newline)
  {
    if k == 0 {
      assert pieces[k..] == pieces;
    } else {
      assert pieces == pieces[..k] + pieces[k..];
      JoinAppend(pieces[..k], pieces[k..]);
    }
  }

  /** Splitting the tail gives exactly the last `n` pieces of the text. */
  lemma LastLinesPieces(s: string, n: nat)
    requires n >= 1
    ensures Split(LastLines(s, n)) == LastPieces(Split(s), n)
  {
    var last := LastPieces(Split(s), n);
    assert NoNewlines(last);
    SplitJoin(last);
  }

  /** The tail holds at most `n - 1` newlines: all of the text's when it has fewer. */
  lemma LastLinesNewlines(s: string, n: nat)
    requires n >= 1
    ensures Newlines(LastLines(s, n)) == if Newlines(s) < n then Newlines(s) else n - 1
  {
    var last := LastPieces(Split(s), n);
    assert NoNewlines(last);
    NewlinesOfJoin(last);
    PiecesOfSplit(s);
  }

  /** The tail is the whole text exactly when the text has at most `n` pieces. */
  lemma LastLinesWhole(s: string, n: nat)
    requires n >= 1
    ensures LastLines(s, n) == s <==> |Split(s)| <= n
  {
    JoinSplit(s);
    if |Split(s)| > n {
      LastLinesNewlines(s, n);
      PiecesOfSplit(s);
    }
  }
}
