/** What the outcome of the search says about the matches of a pattern. */
module Verdicts {
  import opened Bytes
  import opened Pattern
  import opened Backtrack

  /** The whole pattern matches, beginning at p. */
  predicate MatchFrom(ps: seq<Piece>, s: seq<byte>, p: nat, tr: seq<nat>) {
    Match(ps, s, tr) && tr[0] == p
  }

  /** A run that begins at p comes to a starred back reference to an empty text. */
  predicate StuckFrom(ps: seq<Piece>, s: seq<byte>, locs: int, p: nat, tr: seq<nat>) {
    Path(ps, s, locs, tr) && Stuck(ps, s, tr) && tr[0] == p
  }

  predicate Outside(s: seq<byte>, locs: int) {
    locs < 0 || locs >= |s|
  }

  lemma OutsideAllows(ps: seq<Piece>, s: seq<byte>, locs: int, tr: seq<nat>, q: nat)
    requires Outside(s, locs) && 1 <= |tr| <= |ps|
    ensures Allowed(ps, s, locs, tr, q)
  {
  }

  /** A trace is a path up to the first piece at which a run is stuck. */
  lemma {:induction false} TraceOrStuck(ps: seq<Piece>, s: seq<byte>, locs: int, tr: seq<nat>) returns (u: seq<nat>)
    requires Trace(ps, s, tr) && Outside(s, locs)
    ensures 1 <= |u| && u <= tr && Path(ps, s, locs, u)
    ensures u == tr || Stuck(ps, s, u)
  {
    if |tr| == 1 {
      u := tr;
    } else {
      var n := |tr| - 1;
      u := TraceOrStuck(ps, s, locs, tr[..n]);
      if u == tr[..n] && !Stuck(ps, s, u) {
        OutsideAllows(ps, s, locs, u, tr[n]);
        u := tr;
      }
    }
  }

  lemma AbovePrefix(t: seq<nat>, w: seq<nat>, u: seq<nat>)
    requires Above(t, w) && w <= u
    ensures Above(t, u)
  {
    var i :| 0 <= i < |t| && i < |w| && t[..i] == w[..i] && t[i] > w[i];
    assert u[..i] == w[..i];
  }

  lemma AboveAsymmetric(a: seq<nat>, b: seq<nat>)
    requires Above(a, b)
    ensures !Above(b, a) && !(a <= b) && !(b <= a)
  {
    var i :| 0 <= i < |a| && i < |b| && a[..i] == b[..i] && a[i] > b[i];
    forall j | 0 <= j < |a| && j < |b|
      ensures b[..j] == a[..j] ==> b[j] <= a[j]
    {
      if i < j {
        assert a[..j][i] != b[..j][i];
      } else if j < i {
        assert a[..i][j] == b[..i][j];
      }
    }
  }

  /** The outcome at p in terms of all matches from p.

      A hit is the greatest match: wherever another match first differs, the piece
      before that place takes less.  A miss means that there is no match.  A run that
      never returns is stuck on a trace that no match is above. */
  ghost predicate Means(ps: seq<Piece>, s: seq<byte>, locs: int, p: nat, o: Outcome) {
    match o
    case Miss => forall u :: !MatchFrom(ps, s, p, u)
    case Hit(t) => MatchFrom(ps, s, p, t) && forall u :: MatchFrom(ps, s, p, u) ==> u == t || Above(t, u)
    case Loop(t) => StuckFrom(ps, s, locs, p, t) && forall u :: MatchFrom(ps, s, p, u) ==> t <= u || Above(t, u)
  }

  lemma SearchDecides(ps: seq<Piece>, s: seq<byte>, locs: int, p: nat)
    requires CString(s) && Supported(ps) && p < |s| && Outside(s, locs)
    ensures Means(ps, s, locs, p, Search(ps, s, locs, [p]))
  {
    var o := Search(ps, s, locs, [p]);
    SearchSound(ps, s, locs, [p]);
    if !o.Miss? {
      PathIsTrace(ps, s, locs, o.tr);
    }
    forall u | MatchFrom(ps, s, p, u)
      ensures !o.Miss? && ((if o.Hit? then u == o.tr else o.tr <= u) || Above(o.tr, u))
    {
      MatchIsNotAbove(ps, s, locs, p, u);
    }
  }

  lemma MatchIsNotAbove(ps: seq<Piece>, s: seq<byte>, locs: int, p: nat, u: seq<nat>)
    requires CString(s) && Supported(ps) && p < |s| && Outside(s, locs) && MatchFrom(ps, s, p, u)
    ensures var o := Search(ps, s, locs, [p]);
            !o.Miss? && ((if o.Hit? then u == o.tr else o.tr <= u) || Above(o.tr, u))
  {
    var o := Search(ps, s, locs, [p]);
    var w := TraceOrStuck(ps, s, locs, u);
    assert Terminal(ps, s, locs, w);
    SearchSound(ps, s, locs, [p]);
    SearchGreatest(ps, s, locs, [p], w);
    if o.tr == w {
      assert o.Hit? ==> |w| == |u|;
    } else {
      AbovePrefix(o.tr, w, u);
    }
  }

  /** Whatever `locs` is, a hit is a match. */
  lemma HitIsMatch(ps: seq<Piece>, s: seq<byte>, locs: int, p: nat)
    requires CString(s) && Supported(ps) && p < |s|
    ensures var o := Search(ps, s, locs, [p]);
            o.Hit? ==> MatchFrom(ps, s, p, o.tr)
  {
    SearchSound(ps, s, locs, [p]);
    var o := Search(ps, s, locs, [p]);
    if o.Hit? {
      PathIsTrace(ps, s, locs, o.tr);
    }
  }

  /** The search does not return exactly when some run is stuck and no match is above it. */
  lemma LoopsExactlyWhen(ps: seq<Piece>, s: seq<byte>, locs: int, p: nat)
    requires CString(s) && Supported(ps) && p < |s| && Outside(s, locs)
    ensures Search(ps, s, locs, [p]).Loop? <==>
            exists t :: StuckFrom(ps, s, locs, p, t) &&
                        forall u :: MatchFrom(ps, s, p, u) ==> t <= u || Above(t, u)
  {
    var o := Search(ps, s, locs, [p]);
    SearchDecides(ps, s, locs, p);
    forall t | StuckFrom(ps, s, locs, p, t) && forall u :: MatchFrom(ps, s, p, u) ==> t <= u || Above(t, u)
      ensures o.Loop?
    {
      assert Terminal(ps, s, locs, t);
      SearchGreatest(ps, s, locs, [p], t);
      SearchSound(ps, s, locs, [p]);
      if o.Hit? {
        assert Above(o.tr, t);
        AboveAsymmetric(o.tr, t);
        assert false;
      }
    }
  }

  // ---- Leftmost ----

  /** No match begins at q. */
  ghost predicate NoMatchAt(ps: seq<Piece>, s: seq<byte>, q: nat) {
    forall u :: !MatchFrom(ps, s, q, u)
  }

  /** The unanchored search stops at the leftmost start at which it does not miss, the empty
      tail before the NUL included; to the left of it no match begins. */
  lemma {:induction false} LeftmostDecides(ps: seq<Piece>, s: seq<byte>, locs: int, p: nat)
    requires CString(s) && Supported(ps) && p < |s| && Outside(s, locs)
    ensures var o := Leftmost(ps, s, locs, p);
            if o.Miss? then forall q :: p <= q < |s| ==> NoMatchAt(ps, s, q)
            else
              && |o.tr| > 0 && p <= o.tr[0] < |s| && Means(ps, s, locs, o.tr[0], o)
              && forall q :: p <= q < o.tr[0] ==> NoMatchAt(ps, s, q)
    decreases |s| - p
  {
    SearchDecides(ps, s, locs, p);
    SearchSound(ps, s, locs, [p]);
    if Search(ps, s, locs, [p]).Miss? {
      assert NoMatchAt(ps, s, p);
      if p < |s| - 1 {
        LeftmostDecides(ps, s, locs, p + 1);
      }
    }
  }

  // ---- Any `locs` ----

  /** tr begins where a run may: at p1, or, if the pattern is not anchored, behind it. */
  predicate BeginsFrom(tr: seq<nat>, p1: nat, anchored: bool) {
    |tr| > 0 && p1 <= tr[0] && (anchored ==> tr[0] == p1)
  }

  /** Of all the paths on which a run can end, t begins first, and is the greatest from there. */
  ghost predicate Foremost(ps: seq<Piece>, s: seq<byte>, locs: int, p1: nat, anchored: bool, t: seq<nat>) {
    && Terminal(ps, s, locs, t) && BeginsFrom(t, p1, anchored)
    && forall u :: Terminal(ps, s, locs, u) && BeginsFrom(u, p1, anchored) ==>
         t[0] < u[0] || (t[0] == u[0] && (u == t || Above(t, u)))
  }

  /** No run from an admitted start can end otherwise than by failing. */
  ghost predicate Hopeless(ps: seq<Piece>, s: seq<byte>, locs: int, p1: nat, anchored: bool) {
    forall u :: Terminal(ps, s, locs, u) ==> !BeginsFrom(u, p1, anchored)
  }

  /** The outcome of a search over the admitted starts, for every `locs`. */
  ghost predicate Settles(ps: seq<Piece>, s: seq<byte>, locs: int, p1: nat, anchored: bool, o: Outcome) {
    match o
    case Miss => Hopeless(ps, s, locs, p1, anchored)
    case Hit(t) => Foremost(ps, s, locs, p1, anchored, t) && MatchFrom(ps, s, t[0], t)
    case Loop(t) => Foremost(ps, s, locs, p1, anchored, t) && StuckFrom(ps, s, locs, t[0], t)
  }

  lemma SearchSettles(ps: seq<Piece>, s: seq<byte>, locs: int, p: nat)
    requires CString(s) && Supported(ps) && p < |s|
    ensures Settles(ps, s, locs, p, true, Search(ps, s, locs, [p]))
  {
    hide Search, Supported, CString, Path, Stuck;
    var o := Search(ps, s, locs, [p]);
    assert Path(ps, s, locs, [p]) by { StartIsPath(ps, s, locs, p); }
    SearchSound(ps, s, locs, [p]);
    HitIsMatch(ps, s, locs, p);
    forall u | Terminal(ps, s, locs, u) && BeginsFrom(u, p, true)
      ensures AtLeast(o, u)
    {
      assert [p] <= u;
      SearchGreatest(ps, s, locs, [p], u);
    }
  }

  lemma StartIsPath(ps: seq<Piece>, s: seq<byte>, locs: int, p: nat)
    requires p < |s|
    ensures Path(ps, s, locs, [p])
  {
  }

  /** A search over all starts ends at the first start from which a run can end, whatever
      `locs` is, and in the greatest way from there. */
  lemma {:induction false} LeftmostSettles(ps: seq<Piece>, s: seq<byte>, locs: int, p: nat)
    requires CString(s) && Supported(ps) && p < |s|
    ensures Settles(ps, s, locs, p, false, Leftmost(ps, s, locs, p))
    decreases |s| - p
  {
    hide Search, Supported, CString, Path, Stuck, Match;
    var o := Search(ps, s, locs, [p]);
    SearchSettles(ps, s, locs, p);
    if !o.Miss? {
      forall u | Terminal(ps, s, locs, u) && BeginsFrom(u, p, false)
        ensures o.tr[0] < u[0] || (o.tr[0] == u[0] && (u == o.tr || Above(o.tr, u)))
      {
        assert u[0] == p ==> BeginsFrom(u, p, true);
      }
    } else {
      if p < |s| - 1 {
        LeftmostSettles(ps, s, locs, p + 1);
      }
      forall u | Terminal(ps, s, locs, u) && BeginsFrom(u, p, false)
        ensures p < |s| - 1 && BeginsFrom(u, p + 1, false)
      {
        PathStarts(ps, s, locs, u);
        assert u[0] == p ==> BeginsFrom(u, p, true);
      }
    }
  }

  lemma {:induction false} PathStarts(ps: seq<Piece>, s: seq<byte>, locs: int, tr: seq<nat>)
    requires Path(ps, s, locs, tr)
    ensures tr[0] < |s|
  {
    if |tr| == 1 {
    } else {
      PathStarts(ps, s, locs, tr[..|tr| - 1]);
    }
  }

  /** One repeated byte, alone: the run goes as far as it may, but it does not end at `locs`. */
  lemma RunEndsBeforeLocs(p: Piece, s: seq<byte>, locs: int, start: nat, end: nat)
    requires CString(s) && start < |s| && p.atom.OneByte() && SupportedPiece(p) && (p.star || p.intervals != [])
    requires Ends([p], s, [start], end) && forall q :: Ends([p], s, [start], q) ==> q <= end
    ensures Search([p], s, locs, [start]) == if end == locs then Miss else Hit([start, end])
  {
    var ps, tr := [p], [start];
    TriesExact(ps, s, tr);
    var qs := Tries(ps, s, tr);
    assert end in qs && qs[0] in qs;
    assert qs[0] == end;
    assert tr + [end] == [start, end];
    assert Search(ps, s, locs, [start, end]) == Hit([start, end]);
    assert Search(ps, s, locs, tr) == First(ps, s, locs, tr, 0);
  }

  /** Nothing but a repeated byte looks at `locs`. */
  lemma {:induction false} LocsIgnored(ps: seq<Piece>, s: seq<byte>, locs: int, locs': int, tr: seq<nat>)
    requires 1 <= |tr| <= |ps| + 1
    requires forall i :: |tr| - 1 <= i < |ps| && ps[i].atom.OneByte() ==> !ps[i].star && ps[i].intervals == []
    ensures Search(ps, s, locs, tr) == Search(ps, s, locs', tr)
    decreases |ps| + 1 - |tr|, 1, 0
  {
    if |tr| <= |ps| {
      FirstIgnores(ps, s, locs, locs', tr, 0);
    }
  }

  lemma {:induction false} FirstIgnores(ps: seq<Piece>, s: seq<byte>, locs: int, locs': int, tr: seq<nat>, n: nat)
    requires 1 <= |tr| <= |ps|
    requires forall i :: |tr| - 1 <= i < |ps| && ps[i].atom.OneByte() ==> !ps[i].star && ps[i].intervals == []
    ensures First(ps, s, locs, tr, n) == First(ps, s, locs', tr, n)
    decreases |ps| + 1 - |tr|, 0, if Stuck(ps, s, tr) then 0 else |Tries(ps, s, tr)| - n
  {
    if !Stuck(ps, s, tr) && n < |Tries(ps, s, tr)| {
      LocsIgnored(ps, s, locs, locs', tr + [Tries(ps, s, tr)[n]]);
      FirstIgnores(ps, s, locs, locs', tr, n + 1);
    }
  }

  // ---- A search that does not return ----

  lemma {:induction false} TraceAt(ps: seq<Piece>, s: seq<byte>, tr: seq<nat>, i: nat)
    requires Trace(ps, s, tr) && 1 <= i < |tr|
    ensures i <= |ps| && Ends(ps, s, tr[..i], tr[i])
  {
    var n := |tr| - 1;
    if i == n {
    } else {
      TraceAt(ps, s, tr[..n], i);
      assert tr[..n][..i] == tr[..i];
    }
  }

  /** The pieces of \(x*\)\1* */
  function CopiesOfRun(x: byte): seq<Piece> {
    [Piece(Open(0), false, []), Piece(Lit(x), true, []), Piece(Close(0), false, []), Piece(Back(0), true, [])]
  }

  lemma SupportedOnce(before: seq<Piece>, p: Piece)
    requires Supported(before) && SupportedPiece(p) && GroupsAllow(before, p)
    ensures Supported(before + [p])
  {
    var ps := before + [p];
    assert ps[..|ps| - 1] == before;
  }

  lemma CopiesOfRunSupported(x: byte)
    requires x != 0
    ensures Supported(CopiesOfRun(x))
  {
    var ps := CopiesOfRun(x);
    SupportedOnce([], ps[0]);
    SupportedOnce([] + [ps[0]], ps[1]);
    var two := [] + [ps[0]] + [ps[1]];
    assert two[0].atom == Open(0) && two[1].atom == Lit(x);
    SupportedOnce(two, ps[2]);
    var three := two + [ps[2]];
    assert three[2].atom == Close(0);
    SupportedOnce(three, ps[3]);
    assert ps == three + [ps[3]];
  }

  /** No path goes on behind a stuck piece. */
  lemma StuckEnds(ps: seq<Piece>, s: seq<byte>, locs: int, t: seq<nat>, u: seq<nat>)
    requires Path(ps, s, locs, u) && 1 <= |t| && Stuck(ps, s, t) && t <= u
    ensures u == t
  {
    if t != u {
      PathGoesOn(ps, s, locs, t, u);
    }
  }

  /** On the empty subject a run of \(x*\)\1* is stuck: not every search returns. */
  lemma EmptyCopiesLoop(x: byte)
    requires x != 0
    ensures Supported(CopiesOfRun(x))
    ensures Search(CopiesOfRun(x), [0], -1, [0]) == Loop([0, 0, 0, 0])
  {
    var ps, s, t: seq<nat> := CopiesOfRun(x), [0], [0, 0, 0, 0];
    CopiesOfRunSupported(x);
    RunIsStuck(ps, s, t, x);
    var o := Search(ps, s, -1, [0]);
    SearchGreatest(ps, s, -1, [0], t);
    SearchSound(ps, s, -1, [0]);
    PathIsTrace(ps, s, -1, o.tr);
    TraceAscends(ps, s, o.tr);
    forall i | 0 <= i < |o.tr|
      ensures o.tr[i] == 0
    {
      AscendingAt(s, o.tr, i, i);
    }
    assert |o.tr| >= 4;
    StuckEnds(ps, s, -1, t, o.tr);
  }

  lemma RunIsStuck(ps: seq<Piece>, s: seq<byte>, t: seq<nat>, x: byte)
    requires ps == CopiesOfRun(x) && s == [0] && t == [0, 0, 0, 0]
    ensures Path(ps, s, -1, t) && Stuck(ps, s, t)
  {
    PathExtend(ps, s, -1, [0], 0);
    PathExtend(ps, s, -1, [0] + [0], 0);
    PathExtend(ps, s, -1, [0] + [0] + [0], 0);
    assert t == [0] + [0] + [0] + [0];
  }
}
