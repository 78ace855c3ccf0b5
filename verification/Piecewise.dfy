/**
 * Rewriting a text piece by piece, left to right, when a piece is recognised from its own
 * characters alone: what the rewriting of a prefix has in common with that of the whole.
 */
module Piecewise {

  /** The first piece of a text: its length, what it is rewritten to, and whether that changes it. */
  datatype Step = Step(length: nat, out: string, changed: bool)

  datatype Rewriter = Rewriter(step: string -> Step)

  ghost predicate Advances(w: Rewriter, s: string) { s != "" ==> 1 <= w.step(s).length <= |s| }

  ghost predicate Total(w: Rewriter) { forall s {:trigger Advances(w, s)} :: Advances(w, s) }

  ghost function Rewrite(w: Rewriter, s: string): string
    requires Total(w)
    decreases |s|
  {
    if s == "" then ""
    else
      assert Advances(w, s);
      w.step(s).out + Rewrite(w, s[w.step(s).length..])
  }

  /** The first piece is recognised from any prefix that holds it. */
  ghost predicate Local(w: Rewriter, s: string, c: nat)
  {
    s != "" && w.step(s).length <= c <= |s| ==> w.step(s[..c]) == w.step(s)
  }

  /** A text cut inside its first piece is left as it is. */
  ghost predicate Inert(w: Rewriter, s: string, c: nat)
    requires Total(w)
  {
    s != "" && c < w.step(s).length && c <= |s| ==> Rewrite(w, s[..c]) == s[..c]
  }

  ghost predicate Verbatim(w: Rewriter, s: string)
  {
    s != "" && !w.step(s).changed && w.step(s).length <= |s| ==> w.step(s).out == s[..w.step(s).length]
  }

  ghost predicate Lawful(w: Rewriter)
  {
    && Total(w)
    && (forall s: string, c: nat {:trigger Local(w, s, c)} :: Local(w, s, c))
    && (forall s: string, c: nat {:trigger Inert(w, s, c)} :: Inert(w, s, c))
    && (forall s {:trigger Verbatim(w, s)} :: Verbatim(w, s))
  }

  /** Where the piece containing position c starts. */
  ghost function PieceStart(w: Rewriter, s: string, c: nat): (p: nat)
    requires Total(w) && c <= |s|
    ensures p <= c
    decreases |s|
  {
    assert Advances(w, s);
    if s == "" || c < w.step(s).length then 0
    else w.step(s).length + PieceStart(w, s[w.step(s).length..], c - w.step(s).length)
  }

  lemma {:induction false} PieceReaches(w: Rewriter, s: string, c: nat)
    requires Total(w) && c <= |s|
    ensures var p := PieceStart(w, s, c);
            p < |s| ==> c < p + w.step(s[p..]).length
    decreases |s|
  {
    assert Advances(w, s);
    if s == "" || c < w.step(s).length {
      assert s[0..] == s;
    } else {
      var n := w.step(s).length;
      PieceReaches(w, s[n..], c - n);
      assert forall q :: 0 <= q <= |s| - n ==> s[n..][q..] == s[n + q..];
    }
  }

  /** What is true of a text is true of what follows its first piece. */
  ghost predicate Inherits(w: Rewriter, good: string -> bool, s: string)
  {
    s != "" && w.step(s).length <= |s| && good(s) ==> good(s[w.step(s).length..])
  }

  lemma {:induction false} AtEveryPiece(w: Rewriter, good: string -> bool, s: string, c: nat)
    requires Total(w) && c <= |s| && good(s) && forall t {:trigger Inherits(w, good, t)} :: Inherits(w, good, t)
    ensures good(s[PieceStart(w, s, c)..])
    decreases |s|
  {
    var n := w.step(s).length;
    assert Advances(w, s) && Inherits(w, good, s);
    if s != "" && c >= n {
      AtEveryPiece(w, good, s[n..], c - n);
      assert s[n..][PieceStart(w, s[n..], c - n)..] == s[n + PieceStart(w, s[n..], c - n)..];
    } else {
      assert s[0..] == s;
    }
  }

  lemma RewritePrefix(w: Rewriter, s: string, c: nat)
    requires Lawful(w) && s != "" && w.step(s).length <= c <= |s|
    ensures Rewrite(w, s[..c]) == w.step(s).out + Rewrite(w, s[w.step(s).length..c])
  {
    assert Local(w, s, c) && Advances(w, s);
    var n := w.step(s).length;
    assert s[..c][n..] == s[n..c];
  }

  lemma Slices(s: string, n: nat, q: nat, c: nat)
    requires n + q <= c <= |s|
    ensures s[n..][..q] == s[n..n + q]
    ensures s[n..][q..c - n] == s[n + q..c]
    ensures s[n..][..c - n] == s[n..c]
  {
  }

  lemma Regroup(whole: string, early: string, head: string, x: string, y: string, z: string)
    requires whole == head + x && x == y + z && early == head + y
    ensures whole == early + z
  {
  }

  /** What precedes p is rewritten the same, whatever follows up to c. */
  ghost predicate SettledAt(w: Rewriter, s: string, p: nat, c: nat)
    requires Total(w)
  {
    p <= c <= |s| && Rewrite(w, s[..c]) == Rewrite(w, s[..p]) + Rewrite(w, s[p..c])
  }

  lemma SettledStep(w: Rewriter, s: string, q: nat, c: nat)
    requires Lawful(w) && s != "" && w.step(s).length <= c <= |s|
    requires SettledAt(w, s[w.step(s).length..], q, c - w.step(s).length)
    ensures SettledAt(w, s, w.step(s).length + q, c)
  {
    var n := w.step(s).length;
    Slices(s, n, q, c);
    RewritePrefix(w, s, n + q);
    RewritePrefix(w, s, c);
    Regroup(
      Rewrite(w, s[..c]), Rewrite(w, s[..n + q]), w.step(s).out,
      Rewrite(w, s[n..c]), Rewrite(w, s[n..n + q]), Rewrite(w, s[n + q..c]));
  }

  /** What precedes the piece at position b is settled: nothing that follows changes it. */
  lemma {:induction false} Settled(w: Rewriter, s: string, b: nat, c: nat)
    requires Lawful(w) && b <= c <= |s|
    ensures SettledAt(w, s, PieceStart(w, s, b), c)
    decreases |s|
  {
    assert Advances(w, s);
    if s == "" || b < w.step(s).length {
      assert s[..0] == "" && s[0..c] == s[..c];
    } else {
      var n := w.step(s).length;
      assert |s[n..]| == |s| - n;
      Settled(w, s[n..], b - n, c - n);
      SettledStep(w, s, PieceStart(w, s[n..], b - n), c);
    }
  }

  lemma UpTo(w: Rewriter, s: string, b: nat)
    requires Lawful(w) && b <= |s|
    ensures var p := PieceStart(w, s, b);
            Rewrite(w, s[..b]) == Rewrite(w, s[..p]) + s[p..b]
  {
    var p := PieceStart(w, s, b);
    Settled(w, s, b, b);
    PieceReaches(w, s, b);
    if p < |s| {
      assert Inert(w, s[p..], b - p);
      assert s[p..][..b - p] == s[p..b];
    }
  }

  /** Position c falls inside a piece that is rewritten. */
  ghost predicate Splits(w: Rewriter, s: string, c: nat)
    requires Total(w) && c <= |s|
  {
    PieceStart(w, s, c) < c && w.step(s[PieceStart(w, s, c)..]).changed
  }

  lemma JoinPrefix(a: string, x: string, y: string)
    requires x <= y
    ensures a + x <= a + y
  {
  }

  lemma LongerPrefix(t: string, k: nat, n: nat, rest: string)
    requires k <= n <= |t|
    ensures t[..k] <= t[..n] + rest
  {
  }

  /** A piece that is left alone appears, as far as it has arrived, in every rewriting. */
  lemma VerbatimPrefix(w: Rewriter, t: string, k: nat, c: nat)
    requires Lawful(w) && t != "" && k < w.step(t).length && k <= c <= |t| && !w.step(t).changed
    ensures t[..k] <= Rewrite(w, t[..c])
  {
    var n := w.step(t).length;
    assert Advances(w, t) && Verbatim(w, t);
    if c < n {
      assert Inert(w, t, c);
    } else {
      RewritePrefix(w, t, c);
      LongerPrefix(t, k, n, Rewrite(w, t[n..c]));
    }
  }

  /** Unless it stops inside a rewritten piece, the rewriting of a prefix is a prefix of the rewriting. */
  lemma WholePrefix(w: Rewriter, s: string, b: nat, c: nat)
    requires Lawful(w) && b <= c <= |s| && !Splits(w, s, b)
    ensures Rewrite(w, s[..b]) <= Rewrite(w, s[..c])
  {
    var p := PieceStart(w, s, b);
    UpTo(w, s, b);
    Settled(w, s, b, c);
    PieceReaches(w, s, b);
    Slices(s, p, b - p, b);
    Slices(s, p, c - p, c);
    if p < b {
      VerbatimPrefix(w, s[p..], b - p, c - p);
    } else {
      assert s[p..b] == "";
    }
    JoinPrefix(Rewrite(w, s[..p]), s[p..b], Rewrite(w, s[p..c]));
  }
}
