/** The backtracking search of `advance` as a pure function of the trace so far.

    `Search` keeps no captures: it reads them off the trace it is given.  It is
    the reference that the imperative matcher refines, and this module relates
    it to the meaning of patterns: it returns the lexicographically greatest of
    all the traces on which a run can come to an end. */
module Backtrack {
  import opened Bytes
  import opened Pattern

  /** Loop(tr): the search never returns, because at tr a starred back reference
      stands for the empty text and the source's scan of it does not advance. */
  datatype Outcome = Miss | Hit(tr: seq<nat>) | Loop(tr: seq<nat>)

  /** How many bytes from p on are accepted. */
  function RunLength(a: Atom, s: seq<byte>, p: nat): (r: nat)
    requires a.OneByte()
    ensures p + r <= |s| || r == 0
    ensures forall k :: p <= k < p + r ==> Accepts(a, s[k])
    ensures p + r < |s| ==> !Accepts(a, s[p + r])
    decreases |s| - p
  {
    if p < |s| && Accepts(a, s[p]) then 1 + RunLength(a, s, p + 1) else 0
  }

  /** top, top - 1, ..., bottom */
  function Down(top: int, bottom: nat): (qs: seq<nat>)
    ensures forall q :: q in qs <==> bottom <= q <= top
    ensures Descending(qs)
    decreases top - bottom
  {
    if top < bottom then []
    else
      var rest := Down(top - 1, bottom);
      assert forall i :: 0 <= i < |rest| ==> rest[i] in rest;
      [top] + rest
  }

  predicate Descending(qs: seq<nat>) {
    forall i, j :: 0 <= i < j < |qs| ==> qs[i] > qs[j]
  }

  /** The ends of zero or more copies of w from p on, furthest first. */
  function CopyEnds(s: seq<byte>, p: nat, w: seq<byte>): (qs: seq<nat>)
    requires w != []
    ensures |qs| > 0 && qs[|qs| - 1] == p
    ensures Descending(qs)
    ensures forall i :: 0 < i < |qs| ==> qs[i - 1] == qs[i] + |w|
    decreases |s| - p
  {
    if HasAt(s, p, w) then CopyEnds(s, p + |w|, w) + [p] else [p]
  }

  lemma {:induction false} CopyEndsExact(s: seq<byte>, p: nat, q: nat, w: seq<byte>)
    requires w != [] && p < |s|
    ensures q in CopyEnds(s, p, w) <==> q >= p && Copies(s, p, q, w)
    decreases |s| - p
  {
    if HasAt(s, p, w) {
      CopyEndsExact(s, p + |w|, q, w);
      if q != p && Copies(s, p, q, w) {
        CopiesAscend(s, p + |w|, q, w);
      }
    }
  }

  /** The fewest copies that the piece permits. */
  function Least(piece: Piece): nat {
    if piece.intervals != [] then piece.intervals[0].lo else if piece.star then 0 else 1
  }

  /** The most copies that the piece permits, out of a run of r. */
  function Most(piece: Piece, r: nat): nat {
    var limit :=
      if piece.intervals == [] then if piece.star then r else 1
      else if piece.intervals[0].hi == 255 then piece.intervals[0].lo + 20000
      else piece.intervals[0].hi;
    if r < limit then r else limit
  }

  /** Only the scan of a repeated one-byte piece looks at `locs`. */
  predicate Cuts(piece: Piece) {
    piece.atom.OneByte() && !piece.Bare()
  }

  predicate Stuck(ps: seq<Piece>, s: seq<byte>, tr: seq<nat>)
    requires 1 <= |tr|
  {
    && |tr| <= |ps|
    && ps[|tr| - 1].atom.Back? && ps[|tr| - 1].star
    && Captured(ps, s, tr, ps[|tr| - 1].atom.id) == []
  }

  /** The ends tried for piece |tr|-1, in the order in which they are tried. */
  function Tries(ps: seq<Piece>, s: seq<byte>, tr: seq<nat>): (qs: seq<nat>)
    requires 1 <= |tr| <= |ps| && !Stuck(ps, s, tr)
  {
    var piece, p := ps[|tr| - 1], tr[|tr| - 1];
    match piece.atom
    case Dollar => if p == |s| - 1 then [p] else []
    case Open(_) => [p]
    case Close(_) => [p]
    case Back(id) =>
      var w := Captured(ps, s, tr, id);
      if piece.star then CopyEnds(s, p, w) else if HasAt(s, p, w) then [p + |w|] else []
    case _ =>
      var r := RunLength(piece.atom, s, p);
      if r < Least(piece) then [] else Down(p + Most(piece, r), p + Least(piece))
  }

  function Search(ps: seq<Piece>, s: seq<byte>, locs: int, tr: seq<nat>): (o: Outcome)
    requires 1 <= |tr| <= |ps| + 1
    decreases |ps| + 1 - |tr|, 1, 0
  {
    if |tr| == |ps| + 1 then Hit(tr) else First(ps, s, locs, tr, 0)
  }

  /** Try the ends of piece |tr|-1, from the n-th on, until the search does not miss. */
  function First(ps: seq<Piece>, s: seq<byte>, locs: int, tr: seq<nat>, n: nat): (o: Outcome)
    requires 1 <= |tr| <= |ps|
    decreases |ps| + 1 - |tr|, 0, if Stuck(ps, s, tr) then 0 else |Tries(ps, s, tr)| - n
  {
    if Stuck(ps, s, tr) then Loop(tr)
    else
      var qs := Tries(ps, s, tr);
      if n >= |qs| || (Cuts(ps[|tr| - 1]) && qs[n] == locs) then Miss
      else
        var o := Search(ps, s, locs, tr + [qs[n]]);
        if o.Miss? then First(ps, s, locs, tr, n + 1) else o
  }

  /** The outcome at the first start, from p to the NUL, at which the search does not miss. */
  function Leftmost(ps: seq<Piece>, s: seq<byte>, locs: int, p: nat): (o: Outcome)
    requires p < |s|
    decreases |s| - p
  {
    var o := Search(ps, s, locs, [p]);
    if !o.Miss? || p == |s| - 1 then o else Leftmost(ps, s, locs, p + 1)
  }

  /** qs lists exactly the permitted ends of piece |tr|-1, greatest first. */
  ghost predicate Exact(ps: seq<Piece>, s: seq<byte>, tr: seq<nat>, qs: seq<nat>)
    requires 1 <= |tr| <= |ps|
  {
    Descending(qs) && forall q: nat :: q in qs <==> Ends(ps, s, tr, q)
  }

  lemma TriesExact(ps: seq<Piece>, s: seq<byte>, tr: seq<nat>)
    requires CString(s) && 1 <= |tr| <= |ps| && tr[|tr| - 1] < |s|
    requires SupportedPiece(ps[|tr| - 1]) && !Stuck(ps, s, tr)
    ensures Exact(ps, s, tr, Tries(ps, s, tr))
  {
    forall q: nat {
      TryExact(ps, s, tr, q);
    }
  }

  lemma TryExact(ps: seq<Piece>, s: seq<byte>, tr: seq<nat>, q: nat)
    requires CString(s) && 1 <= |tr| <= |ps| && tr[|tr| - 1] < |s|
    requires SupportedPiece(ps[|tr| - 1]) && !Stuck(ps, s, tr)
    ensures q in Tries(ps, s, tr) <==> Ends(ps, s, tr, q)
    ensures Descending(Tries(ps, s, tr))
  {
    var piece, p := ps[|tr| - 1], tr[|tr| - 1];
    if piece.atom.OneByte() {
      OneByteTriesExact(piece, s, p, q);
    } else if piece.atom.Back? && piece.star {
      CopyEndsExact(s, p, q, Captured(ps, s, tr, piece.atom.id));
    }
  }

  lemma OneByteTriesExact(piece: Piece, s: seq<byte>, p: nat, q: nat)
    requires CString(s) && p < |s| && piece.atom.OneByte() && SupportedPiece(piece)
    ensures var r := RunLength(piece.atom, s, p);
            (r >= Least(piece) && p + Least(piece) <= q <= p + Most(piece, r)) <==>
            (p <= q < |s| && piece.Permits(q - p) && forall k :: p <= k < q ==> Accepts(piece.atom, s[k]))
  {
    var r := RunLength(piece.atom, s, p);
    assert !Accepts(piece.atom, s[|s| - 1]);
    assert p + r < |s|;
    if p + r < q < |s| {
      assert !Accepts(piece.atom, s[p + r]);
    }
  }

  // ---- Runs ----

  /** `locs` does not keep q from being tried: it is not itself a permitted end at or after q. */
  predicate Allowed(ps: seq<Piece>, s: seq<byte>, locs: int, tr: seq<nat>, q: nat)
    requires 1 <= |tr| <= |ps|
  {
    Cuts(ps[|tr| - 1]) && q <= locs ==> !Ends(ps, s, tr, locs)
  }

  /** A trace that a run may follow: no step is kept back by `locs` or comes after a stuck piece. */
  predicate Path(ps: seq<Piece>, s: seq<byte>, locs: int, tr: seq<nat>) {
    && 1 <= |tr| <= |ps| + 1
    && if |tr| == 1 then tr[0] < |s|
       else
         var n := |tr| - 1;
         Path(ps, s, locs, tr[..n]) && PathStep(ps, s, locs, tr[..n], tr[n])
  }

  predicate PathStep(ps: seq<Piece>, s: seq<byte>, locs: int, tr: seq<nat>, q: nat)
    requires 1 <= |tr| <= |ps|
  {
    !Stuck(ps, s, tr) && Ends(ps, s, tr, q) && Allowed(ps, s, locs, tr, q)
  }

  /** A path on which a run comes to an end: a match, or a stuck piece. */
  predicate Terminal(ps: seq<Piece>, s: seq<byte>, locs: int, tr: seq<nat>) {
    Path(ps, s, locs, tr) && (|tr| == |ps| + 1 || Stuck(ps, s, tr))
  }

  /** Lexicographically greater: the first position at which they differ is larger in a. */
  predicate Above(a: seq<nat>, b: seq<nat>) {
    exists i :: 0 <= i < |a| && i < |b| && a[..i] == b[..i] && a[i] > b[i]
  }

  lemma {:induction false} PathIsTrace(ps: seq<Piece>, s: seq<byte>, locs: int, tr: seq<nat>)
    requires Path(ps, s, locs, tr)
    ensures Trace(ps, s, tr)
  {
    if |tr| == 1 {
    } else {
      PathIsTrace(ps, s, locs, tr[..|tr| - 1]);
    }
  }

  lemma PathHere(ps: seq<Piece>, s: seq<byte>, locs: int, tr: seq<nat>)
    requires Supported(ps) && Path(ps, s, locs, tr) && |tr| <= |ps|
    ensures tr[|tr| - 1] < |s| && SupportedPiece(ps[|tr| - 1])
  {
    SupportedAt(ps, |tr| - 1);
    PathIsTrace(ps, s, locs, tr);
    TraceAscends(ps, s, tr);
  }

  /** A path that goes on beyond tr takes a step from tr. */
  lemma {:induction false} PathGoesOn(ps: seq<Piece>, s: seq<byte>, locs: int, tr: seq<nat>, u: seq<nat>)
    requires Path(ps, s, locs, u) && 1 <= |tr| && tr < u
    ensures |tr| <= |ps| && PathStep(ps, s, locs, tr, u[|tr|])
    ensures Path(ps, s, locs, tr + [u[|tr|]]) && tr + [u[|tr|]] <= u
    decreases |u|
  {
    var n := |u| - 1;
    if |tr| == n {
      assert tr == u[..n] && tr + [u[n]] == u;
    } else {
      PathGoesOn(ps, s, locs, tr, u[..n]);
    }
  }

  lemma PathExtend(ps: seq<Piece>, s: seq<byte>, locs: int, tr: seq<nat>, q: nat)
    requires Path(ps, s, locs, tr) && |tr| <= |ps| && PathStep(ps, s, locs, tr, q)
    ensures Path(ps, s, locs, tr + [q])
  {
    assert (tr + [q])[..|tr|] == tr;
  }

  // ---- The search returns a terminal path ----

  ghost predicate Ended(ps: seq<Piece>, s: seq<byte>, locs: int, tr: seq<nat>, o: Outcome) {
    match o
    case Miss => true
    case Hit(t) => tr <= t && Path(ps, s, locs, t) && |t| == |ps| + 1
    case Loop(t) => tr <= t && Path(ps, s, locs, t) && |t| >= 1 && Stuck(ps, s, t)
  }

  lemma {:induction false} SearchSound(ps: seq<Piece>, s: seq<byte>, locs: int, tr: seq<nat>)
    requires CString(s) && Supported(ps) && Path(ps, s, locs, tr)
    ensures Ended(ps, s, locs, tr, Search(ps, s, locs, tr))
    decreases |ps| + 1 - |tr|
  {
    if |tr| <= |ps| && !Stuck(ps, s, tr) && !Search(ps, s, locs, tr).Miss? {
      var qs := Tries(ps, s, tr);
      var k := FirstPicks(ps, s, locs, tr, qs, 0);
      PathHere(ps, s, locs, tr);
      TriesExact(ps, s, tr);
      TryAllowed(ps, s, locs, tr, qs, k);
      PathExtend(ps, s, locs, tr, qs[k]);
      SearchSound(ps, s, locs, tr + [qs[k]]);
    }
  }

  /** First takes the earliest end that leads somewhere, unless `locs` comes before it. */
  lemma {:induction false} FirstPicks(
    ps: seq<Piece>, s: seq<byte>, locs: int, tr: seq<nat>, qs: seq<nat>, n: nat) returns (k: nat)
    requires 1 <= |tr| <= |ps| && !Stuck(ps, s, tr) && qs == Tries(ps, s, tr) && n <= |qs|
    requires Cuts(ps[|tr| - 1]) ==> locs !in qs[..n]
    ensures var o := First(ps, s, locs, tr, n);
            !o.Miss? ==> && k < |qs|
                         && (Cuts(ps[|tr| - 1]) ==> locs !in qs[..k + 1])
                         && o == Search(ps, s, locs, tr + [qs[k]])
    ensures forall m :: n <= m < |qs|
                        && (Cuts(ps[|tr| - 1]) ==> locs !in qs[..m + 1])
                        && !Search(ps, s, locs, tr + [qs[m]]).Miss? ==>
                        k <= m && !First(ps, s, locs, tr, n).Miss?
    decreases |qs| - n
  {
    hide Tries, Stuck;
    k := n;
    if n < |qs| {
      assert qs[..n + 1] == qs[..n] + [qs[n]];
      if !(Cuts(ps[|tr| - 1]) && qs[n] == locs) && Search(ps, s, locs, tr + [qs[n]]).Miss? {
        k := FirstPicks(ps, s, locs, tr, qs, n + 1);
      }
    }
  }

  lemma TryAllowed(ps: seq<Piece>, s: seq<byte>, locs: int, tr: seq<nat>, qs: seq<nat>, k: nat)
    requires 1 <= |tr| <= |ps| && Exact(ps, s, tr, qs) && k < |qs|
    requires Cuts(ps[|tr| - 1]) ==> locs !in qs[..k + 1]
    ensures Ends(ps, s, tr, qs[k]) && Allowed(ps, s, locs, tr, qs[k])
  {
    if Cuts(ps[|tr| - 1]) && qs[k] <= locs && Ends(ps, s, tr, locs) {
      assert false;
    }
  }

  // ---- ... and no terminal path is above it ----

  ghost predicate AtLeast(o: Outcome, u: seq<nat>) {
    !o.Miss? && (o.tr == u || Above(o.tr, u))
  }

  lemma {:induction false} SearchGreatest(
    ps: seq<Piece>, s: seq<byte>, locs: int, tr: seq<nat>, u: seq<nat>)
    requires CString(s) && Supported(ps) && Path(ps, s, locs, tr)
    requires Terminal(ps, s, locs, u) && tr <= u
    ensures AtLeast(Search(ps, s, locs, tr), u)
    decreases |ps| + 1 - |tr|
  {
    if |tr| == |u| {
      assert tr == u;
    } else {
      PathGoesOn(ps, s, locs, tr, u);
      SearchGreatest(ps, s, locs, tr + [u[|tr|]], u);
      FirstGreatest(ps, s, locs, tr, u);
    }
  }

  lemma FirstGreatest(ps: seq<Piece>, s: seq<byte>, locs: int, tr: seq<nat>, u: seq<nat>)
    requires CString(s) && Supported(ps) && Path(ps, s, locs, tr)
    requires |tr| <= |ps| && tr < u && PathStep(ps, s, locs, tr, u[|tr|])
    requires AtLeast(Search(ps, s, locs, tr + [u[|tr|]]), u)
    ensures AtLeast(First(ps, s, locs, tr, 0), u)
  {
    var qs, q := Tries(ps, s, tr), u[|tr|];
    PathHere(ps, s, locs, tr);
    TriesExact(ps, s, tr);
    var m :| 0 <= m < |qs| && qs[m] == q;
    NotCutBefore(ps, s, locs, tr, qs, m);
    var k := FirstPicks(ps, s, locs, tr, qs, 0);
    if k < m {
      TryAllowed(ps, s, locs, tr, qs, k);
      HigherTryWins(ps, s, locs, tr, u, qs[k]);
    }
  }

  lemma NotCutBefore(ps: seq<Piece>, s: seq<byte>, locs: int, tr: seq<nat>, qs: seq<nat>, m: nat)
    requires 1 <= |tr| <= |ps| && Exact(ps, s, tr, qs) && m < |qs| && Allowed(ps, s, locs, tr, qs[m])
    ensures Cuts(ps[|tr| - 1]) ==> locs !in qs[..m + 1]
  {
    forall n | 0 <= n <= m
      ensures qs[n] >= qs[m] && Ends(ps, s, tr, qs[n])
    {
    }
  }

  lemma HigherTryWins(ps: seq<Piece>, s: seq<byte>, locs: int, tr: seq<nat>, u: seq<nat>, q: nat)
    requires CString(s) && Supported(ps) && Path(ps, s, locs, tr) && |tr| <= |ps|
    requires PathStep(ps, s, locs, tr, q) && tr < u && q > u[|tr|]
    requires !Search(ps, s, locs, tr + [q]).Miss?
    ensures Above(Search(ps, s, locs, tr + [q]).tr, u)
  {
    PathExtend(ps, s, locs, tr, q);
    SearchSound(ps, s, locs, tr + [q]);
    AboveAt(Search(ps, s, locs, tr + [q]).tr, u, tr, q);
  }

  lemma AboveAt(t: seq<nat>, u: seq<nat>, common: seq<nat>, q: nat)
    requires common + [q] <= t && common < u && q > u[|common|]
    ensures Above(t, u)
  {
    assert t[..|common|] == common == u[..|common|] && t[|common|] == q;
  }
}
