/** Which patterns keep `advance` from returning on some subject.

    The shortest text that a piece can take is known from the pattern alone.  A
    starred back reference to a group whose shortest text is empty is what makes
    a search loop, provided that the pieces before it can be passed at all. */
module Termination {
  import opened Bytes
  import opened Pattern
  import opened Backtrack
  import opened Verdicts

  /** The length of the shortest text that the first i pieces can take. */
  function ShortestTo(ps: seq<Piece>, i: nat): (n: nat)
    requires i <= |ps|
    ensures forall j :: 0 <= j <= i ==> ShortestTo(ps, j) <= n
    decreases i, 0
  {
    if i == 0 then 0 else ShortestTo(ps, i - 1) + Shortest(ps, i - 1)
  }

  /** ... and that piece i can take: a back reference repeats what its group took. */
  function Shortest(ps: seq<Piece>, i: nat): (n: nat)
    requires i < |ps|
    decreases i, 1
  {
    var piece := ps[i];
    match piece.atom
    case Back(id) =>
      var o, c := Where(ps, Open(id)), Where(ps, Close(id));
      if piece.star || !(o <= c <= i) then 0 else ShortestTo(ps, c) - ShortestTo(ps, o)
    case _ => if piece.atom.OneByte() then Least(piece) else 0
  }

  /** The group can capture the empty text. */
  predicate CanBeEmpty(ps: seq<Piece>, id: byte) {
    ShortestTo(ps, Where(ps, Open(id))) >= ShortestTo(ps, Where(ps, Close(id)))
  }

  /** Every piece before piece i that must take a byte accepts one. */
  predicate Passable(ps: seq<Piece>, i: nat)
    requires i <= |ps|
  {
    forall j :: 0 <= j < i && ps[j].atom.OneByte() && Least(ps[j]) > 0 ==> exists b: byte :: Accepts(ps[j].atom, b)
  }

  /** Piece i is a starred back reference to a group that can be empty. */
  predicate RepeatsNothing(ps: seq<Piece>, i: nat)
    requires i < |ps|
  {
    ps[i].atom.Back? && ps[i].star && CanBeEmpty(ps, ps[i].atom.id)
  }

  predicate CanLoop(ps: seq<Piece>) {
    exists i :: 0 <= i < |ps| && RepeatsNothing(ps, i) && Passable(ps, i)
  }

  // ---- Traces take at least the shortest text ----

  lemma {:induction false} TakesAtLeast(ps: seq<Piece>, s: seq<byte>, tr: seq<nat>, i: nat, j: nat)
    requires Trace(ps, s, tr) && i <= j < |tr|
    ensures tr[j] - tr[i] >= ShortestTo(ps, j) - ShortestTo(ps, i)
    decreases j
  {
    if i == j {
    } else {
      TakesAtLeast(ps, s, tr, i, j - 1);
      TraceAt(ps, s, tr, j);
      StepTakes(ps, s, tr, j);
    }
  }

  lemma {:induction false} StepTakes(ps: seq<Piece>, s: seq<byte>, tr: seq<nat>, j: nat)
    requires Trace(ps, s, tr) && 1 <= j < |tr| && j <= |ps| && Ends(ps, s, tr[..j], tr[j])
    ensures tr[j] - tr[j - 1] >= Shortest(ps, j - 1)
    decreases j, 0
  {
    var piece, front := ps[j - 1], tr[..j];
    assert front[j - 1] == tr[j - 1];
    match piece.atom
    case Back(id) =>
      var o, c := Where(ps, Open(id)), Where(ps, Close(id));
      if !piece.star && o <= c <= j - 1 {
        TraceAscends(ps, s, tr);
        AscendingAt(s, tr, o, c);
        TakesAtLeast(ps, s, tr, o, c);
        assert front[o] == tr[o] && front[c] == tr[c];
      }
    case _ =>
  }

  /** A starred back reference to a group that cannot be empty is never stuck. */
  lemma StuckRepeats(ps: seq<Piece>, s: seq<byte>, tr: seq<nat>)
    requires Supported(ps) && Trace(ps, s, tr) && Stuck(ps, s, tr)
    ensures RepeatsNothing(ps, |tr| - 1) && Passable(ps, |tr| - 1)
  {
    var i, id := |tr| - 1, ps[|tr| - 1].atom.id;
    SupportedAt(ps, i);
    WhereInPrefix(ps, i, Close(id));
    var c := Where(ps, Close(id));
    SupportedAt(ps, c);
    WhereInPrefix(ps, c, Open(id));
    var o := Where(ps, Open(id));
    TraceAscends(ps, s, tr);
    AscendingAt(s, tr, o, c);
    TakesAtLeast(ps, s, tr, o, c);
    forall j | 0 <= j < i && ps[j].atom.OneByte() && Least(ps[j]) > 0
      ensures exists b: byte :: Accepts(ps[j].atom, b)
    {
      TraceAt(ps, s, tr, j + 1);
      assert tr[..j + 1][j] == tr[j];
      assert Accepts(ps[j].atom, s[tr[j]]);
    }
  }

  /** A pattern without such a reference returns on every subject, whatever `locs` is. */
  lemma AlwaysReturns(ps: seq<Piece>, s: seq<byte>, locs: int, p: nat)
    requires CString(s) && Supported(ps) && p < |s| && !CanLoop(ps)
    ensures !Search(ps, s, locs, [p]).Loop?
  {
    SearchSound(ps, s, locs, [p]);
    var o := Search(ps, s, locs, [p]);
    if o.Loop? {
      PathIsTrace(ps, s, locs, o.tr);
      StuckRepeats(ps, s, o.tr);
    }
  }

  // ---- A shortest subject ----

  /** A shortest text that the first i pieces take. */
  ghost function Sample(ps: seq<Piece>, i: nat): (w: seq<byte>)
    requires i <= |ps| && Passable(ps, i)
    ensures |w| == ShortestTo(ps, i)
    decreases i
  {
    if i == 0 then []
    else
      var front := Sample(ps, i - 1);
      front + SampleOf(ps, i - 1, front)
  }

  /** ... and what piece i adds to it. */
  ghost function SampleOf(ps: seq<Piece>, i: nat, front: seq<byte>): (w: seq<byte>)
    requires i < |ps| && Passable(ps, i + 1) && |front| == ShortestTo(ps, i)
    ensures |w| == Shortest(ps, i)
  {
    if ps[i].atom.Back? then
      var o, c := Where(ps, Open(ps[i].atom.id)), Where(ps, Close(ps[i].atom.id));
      if ps[i].star || !(o <= c <= i) then [] else front[ShortestTo(ps, o)..ShortestTo(ps, c)]
    else if ps[i].atom.OneByte() && Least(ps[i]) > 0 then
      assert 0 <= i < i + 1;
      var b: byte :| Accepts(ps[i].atom, b);
      seq(Least(ps[i]), _ => b)
    else []
  }

  lemma PassableEarlier(ps: seq<Piece>, i: nat, j: nat)
    requires i <= j <= |ps| && Passable(ps, j)
    ensures Passable(ps, i)
  {
  }

  lemma {:induction false} SamplePrefix(ps: seq<Piece>, i: nat, j: nat)
    requires i <= j <= |ps| && Passable(ps, i) && Passable(ps, j)
    ensures Sample(ps, i) <= Sample(ps, j)
    decreases j
  {
    hide SampleOf, ShortestTo, Passable;
    if i == j {
    } else {
      PassableEarlier(ps, j - 1, j);
      SamplePrefix(ps, i, j - 1);
      assert Sample(ps, j) == Sample(ps, j - 1) + SampleOf(ps, j - 1, Sample(ps, j - 1));
    }
  }

  lemma {:induction false} SampleHasNoNul(ps: seq<Piece>, i: nat)
    requires i <= |ps| && Passable(ps, i) && Supported(ps)
    ensures 0 !in Sample(ps, i)
  {
    hide SampleOf, ShortestTo, Passable, Supported;
    if i == 0 {
    } else {
      PassableEarlier(ps, i - 1, i);
      SampleHasNoNul(ps, i - 1);
      SupportedAt(ps, i - 1);
      var front := Sample(ps, i - 1);
      SampleOfHasNoNul(ps, i - 1, front);
      assert Sample(ps, i) == front + SampleOf(ps, i - 1, front);
    }
  }

  lemma SampleOfHasNoNul(ps: seq<Piece>, i: nat, front: seq<byte>)
    requires i < |ps| && Passable(ps, i + 1) && |front| == ShortestTo(ps, i)
    requires SupportedPiece(ps[i]) && 0 !in front
    ensures 0 !in SampleOf(ps, i, front)
  {
    hide ShortestTo;
    if ps[i].atom.Back? {
      var o, c := Where(ps, Open(ps[i].atom.id)), Where(ps, Close(ps[i].atom.id));
      if o <= c <= i {
        assert forall k :: ShortestTo(ps, o) <= k < ShortestTo(ps, c) ==> front[k] != 0;
      }
    }
  }

  /** The trace on which every piece takes its shortest text. */
  function ShortestTrace(ps: seq<Piece>, i: nat): (tr: seq<nat>)
    requires i <= |ps|
    ensures |tr| == i + 1 && forall j :: 0 <= j <= i ==> tr[j] == ShortestTo(ps, j)
  {
    seq(i + 1, j requires 0 <= j <= i => ShortestTo(ps, j))
  }

  /** Where the pieces of the sample stand in the subject made of it. */
  lemma SampleAt(ps: seq<Piece>, s: seq<byte>, b: nat, i: nat)
    requires i < b <= |ps| && Passable(ps, b) && s == Sample(ps, b) + [0]
    ensures Passable(ps, i) && Passable(ps, i + 1) && Sample(ps, i) <= s
    ensures ShortestTo(ps, i + 1) == ShortestTo(ps, i) + Shortest(ps, i) < |s|
    ensures s[ShortestTo(ps, i)..ShortestTo(ps, i + 1)] == SampleOf(ps, i, Sample(ps, i))
  {
    hide SampleOf, Passable, Sample, ShortestTo;
    PassableEarlier(ps, i, b);
    PassableEarlier(ps, i + 1, b);
    SamplePrefix(ps, i + 1, b);
    SampleNext(ps, i);
    var front := Sample(ps, i);
    var w := SampleOf(ps, i, front);
    assert s[..|front + w|] == front + w;
  }

  lemma SampleNext(ps: seq<Piece>, i: nat)
    requires i < |ps| && Passable(ps, i) && Passable(ps, i + 1)
    ensures ShortestTo(ps, i + 1) == ShortestTo(ps, i) + Shortest(ps, i)
    ensures Sample(ps, i + 1) == Sample(ps, i) + SampleOf(ps, i, Sample(ps, i))
  {
    hide SampleOf, Passable, Shortest;
  }

  lemma ShortestEnds(ps: seq<Piece>, s: seq<byte>, b: nat, i: nat)
    requires i < b <= |ps| && Passable(ps, b) && SupportedPiece(ps[i]) && !ps[i].atom.Dollar?
    requires s == Sample(ps, b) + [0]
    ensures Ends(ps, s, ShortestTrace(ps, i), ShortestTo(ps, i + 1))
  {
    hide Passable, Sample, ShortestTo;
    SampleAt(ps, s, b, i);
    var tr, p, q := ShortestTrace(ps, i), ShortestTo(ps, i), ShortestTo(ps, i + 1);
    if ps[i].atom.OneByte() {
      SampleAccepted(ps, i, Sample(ps, i), s, p, q);
    } else if ps[i].atom.Back? && !ps[i].star {
      SampleRepeats(ps, i, Sample(ps, i), s, tr);
    }
  }

  lemma SampleAccepted(ps: seq<Piece>, i: nat, front: seq<byte>, s: seq<byte>, p: nat, q: nat)
    requires i < |ps| && Passable(ps, i + 1) && |front| == ShortestTo(ps, i) && ps[i].atom.OneByte()
    requires p <= q <= |s| && s[p..q] == SampleOf(ps, i, front)
    ensures forall k :: p <= k < q ==> Accepts(ps[i].atom, s[k])
  {
    hide ShortestTo;
    var w := SampleOf(ps, i, front);
    forall k | p <= k < q
      ensures Accepts(ps[i].atom, s[k])
    {
      assert s[k] == s[p..q][k - p] == w[k - p];
    }
  }

  lemma SampleRepeats(ps: seq<Piece>, i: nat, front: seq<byte>, s: seq<byte>, tr: seq<nat>)
    requires i < |ps| && Passable(ps, i + 1) && |front| == ShortestTo(ps, i)
    requires ps[i].atom.Back? && !ps[i].star && front <= s && tr == ShortestTrace(ps, i)
    ensures Captured(ps, s, tr, ps[i].atom.id) == SampleOf(ps, i, front)
  {
    hide ShortestTo;
    var o, c := Where(ps, Open(ps[i].atom.id)), Where(ps, Close(ps[i].atom.id));
    if o <= c <= i {
      assert tr[o] <= tr[c] <= |front|;
      assert front[tr[o]..tr[c]] == s[tr[o]..tr[c]];
    } else if c < o <= i {
      assert tr[c] <= tr[o];
    }
  }

  /** No piece before piece b is a dollar or repeats nothing. */
  ghost predicate FirstRepeat(ps: seq<Piece>, b: nat)
    requires b <= |ps|
  {
    forall j :: 0 <= j < b ==> !ps[j].atom.Dollar? && !RepeatsNothing(ps, j)
  }

  lemma {:induction false} ShortestPath(ps: seq<Piece>, s: seq<byte>, b: nat, i: nat)
    requires i <= b <= |ps| && Supported(ps) && Passable(ps, b) && FirstRepeat(ps, b)
    requires s == Sample(ps, b) + [0]
    ensures Path(ps, s, -1, ShortestTrace(ps, i))
    decreases i
  {
    hide Sample, Supported, Passable, RepeatsNothing;
    var tr := ShortestTrace(ps, i);
    if i == 0 {
      assert tr == [0];
    } else {
      var front := ShortestTrace(ps, i - 1);
      ShortestPath(ps, s, b, i - 1);
      PathIsTrace(ps, s, -1, front);
      SupportedAt(ps, i - 1);
      ShortestEnds(ps, s, b, i - 1);
      OutsideAllows(ps, s, -1, front, tr[i]);
      if Stuck(ps, s, front) {
        StuckRepeats(ps, s, front);
      }
      assert tr == front + [tr[i]];
      PathExtend(ps, s, -1, front, tr[i]);
    }
  }

  /** On the shortest subject every trace that gets as far as piece b is the shortest one. */
  lemma NoOtherTrace(ps: seq<Piece>, s: seq<byte>, b: nat, tr: seq<nat>)
    requires b <= |ps| && Trace(ps, s, tr) && tr[0] == 0 && b < |tr| && |s| == ShortestTo(ps, b) + 1
    ensures ShortestTrace(ps, b) <= tr
  {
    hide ShortestTo;
    TraceAscends(ps, s, tr);
    AscendingAt(s, tr, b, b);
    forall i | 0 <= i <= b
      ensures tr[i] == ShortestTo(ps, i)
    {
      TakesAtLeast(ps, s, tr, 0, i);
      TakesAtLeast(ps, s, tr, i, b);
      assert ShortestTo(ps, 0) == 0 by { ShortestToNone(ps); }
    }
  }

  lemma ShortestToNone(ps: seq<Piece>)
    ensures ShortestTo(ps, 0) == 0
  {
  }

  lemma SampleLoops(ps: seq<Piece>, s: seq<byte>, b: nat)
    requires b < |ps| && Supported(ps) && Passable(ps, b) && FirstRepeat(ps, b) && RepeatsNothing(ps, b)
    requires s == Sample(ps, b) + [0]
    ensures CString(s) && Search(ps, s, -1, [0]) == Loop(ShortestTrace(ps, b))
  {
    hide Sample, Supported, Passable, ShortestTo, Search;
    var t := ShortestTrace(ps, b);
    SampleHasNoNul(ps, b);
    ShortestPath(ps, s, b, b);
    ShortestToNone(ps);
    SampleStuck(ps, s, b, t);
    SearchGreatest(ps, s, -1, [0], t);
    SearchSound(ps, s, -1, [0]);
    var o := Search(ps, s, -1, [0]);
    PathIsTrace(ps, s, -1, o.tr);
    LongEnough(ps, s, b, o, t);
    NoOtherTrace(ps, s, b, o.tr);
    StuckEnds(ps, s, -1, t, o.tr);
  }

  lemma SampleStuck(ps: seq<Piece>, s: seq<byte>, b: nat, t: seq<nat>)
    requires b < |ps| && Supported(ps) && RepeatsNothing(ps, b) && t == ShortestTrace(ps, b)
    requires ShortestTo(ps, b) < |s|
    ensures Stuck(ps, s, t)
  {
    hide ShortestTo;
    var id := ps[b].atom.id;
    SupportedAt(ps, b);
    WhereInPrefix(ps, b, Close(id));
    var c := Where(ps, Close(id));
    SupportedAt(ps, c);
    WhereInPrefix(ps, c, Open(id));
  }

  /** A run cannot be stuck before piece b. */
  lemma LongEnough(ps: seq<Piece>, s: seq<byte>, b: nat, o: Outcome, t: seq<nat>)
    requires b < |ps| && Supported(ps) && FirstRepeat(ps, b) && Ended(ps, s, -1, [0], o) && !o.Miss?
    ensures b < |o.tr|
  {
    hide Supported, RepeatsNothing;
    if o.Loop? {
      PathIsTrace(ps, s, -1, o.tr);
      StuckRepeats(ps, s, o.tr);
    }
  }

  // ---- The exact condition ----

  /** A subject, a `locs` and a start on which the search does not return. */
  ghost predicate LoopsOn(ps: seq<Piece>, s: seq<byte>, locs: int, p: nat) {
    CString(s) && p < |s| && Search(ps, s, locs, [p]).Loop?
  }

  lemma {:induction false} FindFirstRepeat(ps: seq<Piece>, i: nat) returns (b: nat)
    requires i < |ps| && RepeatsNothing(ps, i) && forall j :: 0 <= j < i ==> !ps[j].atom.Dollar?
    ensures b <= i && RepeatsNothing(ps, b) && FirstRepeat(ps, b)
  {
    hide RepeatsNothing;
    if FirstRepeat(ps, i) {
      b := i;
    } else {
      var j :| 0 <= j < i && RepeatsNothing(ps, j);
      b := FindFirstRepeat(ps, j);
    }
  }

  lemma LoopsWhere(ps: seq<Piece>) returns (s: seq<byte>)
    requires Supported(ps) && CanLoop(ps) && forall i :: 0 <= i < |ps| - 1 ==> !ps[i].atom.Dollar?
    ensures LoopsOn(ps, s, -1, 0)
  {
    hide Supported, RepeatsNothing, Passable, Sample, FirstRepeat;
    var i :| 0 <= i < |ps| && RepeatsNothing(ps, i) && Passable(ps, i);
    var b := FindFirstRepeat(ps, i);
    PassableEarlier(ps, b, i);
    s := Sample(ps, b) + [0];
    SampleLoops(ps, s, b);
  }

  /** A pattern keeps the search from returning on some subject if and only if it has a starred
      back reference to a group that can be empty, behind pieces that can be passed. */
  lemma LoopsSomewhere(ps: seq<Piece>)
    requires Supported(ps) && forall i :: 0 <= i < |ps| - 1 ==> !ps[i].atom.Dollar?
    ensures CanLoop(ps) <==> exists s, locs, p :: LoopsOn(ps, s, locs, p)
  {
    hide Supported, CanLoop, Search;
    if CanLoop(ps) {
      var s := LoopsWhere(ps);
    }
    forall s, locs, p | LoopsOn(ps, s, locs, p)
      ensures CanLoop(ps)
    {
      if !CanLoop(ps) {
        AlwaysReturns(ps, s, locs, p);
      }
    }
  }
}
