/** From pattern text and subject to the match that is reported. */
module EndToEnd {
  import opened Bytes
  import opened Pattern
  import opened Code
  import opened Syntax
  import opened Space
  import opened State
  import opened Backtrack
  import opened Verdicts
  import opened Termination
  import opened Compiler
  import opened Matcher

  /** The verdict on a pattern, and what is left in the globals.

      Yes: loc1 and loc2 are the ends of the greatest match from the leftmost start at which
      one begins (from p1 only, if the pattern is anchored), and the groups are noted.
      No: no match begins.  Forever: the run from a start q is stuck, no match begins before q,
      and none from q is above the stuck trace; and the pattern is one that can loop. */
  ghost predicate Decided(g: Globals, anchored: bool, ps: seq<Piece>, s: seq<byte>, p1: nat, v: Verdict)
    requires g.Valid()
    reads g, g.braslist, g.braelist
  {
    match v
    case Yes =>
      && p1 <= g.loc1 < |s| && (anchored ==> g.loc1 == p1)
      && (forall q :: p1 <= q < g.loc1 ==> NoMatchAt(ps, s, q))
      && exists t :: && MatchFrom(ps, s, g.loc1, t) && g.loc2 == t[|ps|] && Agrees(g, ps, t)
                     && forall u :: MatchFrom(ps, s, g.loc1, u) ==> u == t || Above(t, u)
    case No => forall q :: p1 <= q < |s| && (anchored ==> q == p1) ==> NoMatchAt(ps, s, q)
    case Forever =>
      && CanLoop(ps)
      && exists q, t :: && p1 <= q < |s| && (anchored ==> q == p1) && StuckFrom(ps, s, g.locs, q, t)
                        && (forall q' :: p1 <= q' < q ==> NoMatchAt(ps, s, q'))
                        && forall u :: MatchFrom(ps, s, q, u) ==> t <= u || Above(t, u)
  }

  /** The globals that `step` leaves behind decide the pattern. */
  lemma ReportDecides(g: Globals, anchored: bool, ps: seq<Piece>, s: seq<byte>, p1: nat, o: Outcome, v: Verdict,
                      before: int)
    requires g.Valid() && CString(s) && Supported(ps) && p1 < |s| && Outside(s, g.locs)
    requires o == if anchored then Search(ps, s, g.locs, [p1]) else Leftmost(ps, s, g.locs, p1)
    requires Reported(g, ps, o, v, before)
    requires if anchored then g.loc1 == p1 else o.Hit? ==> g.loc1 == o.tr[0]
    ensures Decided(g, anchored, ps, s, p1, v)
  {
    hide Search, Leftmost, CString, Agrees, Match;
    if anchored {
      SearchDecides(ps, s, g.locs, p1);
      assert o.Miss? ==> NoMatchAt(ps, s, p1);
    } else {
      LeftmostDecides(ps, s, g.locs, p1);
    }
    if o.Loop? {
      PathIsTrace(ps, s, g.locs, o.tr);
      StuckRepeats(ps, s, o.tr);
      assert StuckFrom(ps, s, g.locs, o.tr[0], o.tr);
    } else if o.Hit? {
      var t := o.tr;
      assert MatchFrom(ps, s, g.loc1, t);
      MatchLength(ps, s, t);
    }
  }

  lemma MatchLength(ps: seq<Piece>, s: seq<byte>, t: seq<nat>)
    requires Match(ps, s, t)
    ensures |t| == |ps| + 1
  {
  }

  /** compile, and then step from p1 on. */
  method CompileAndStep(g: Globals, text: seq<byte>, at: nat, eof: int, buf: array<byte>, ep: nat, endbuf: nat,
                        s: seq<byte>, p1: nat)
    returns (r: Result, v: Verdict)
    requires g.Valid() && CString(s) && p1 < |s| && ep <= endbuf <= buf.Length
    requires endbuf == buf.Length ==> SpillOf(text, at, eof, g.sed, endbuf - ep) == None
    requires Parse(text, at, eof, g.sed).Regular?
    requires var rest := Parse(text, at, eof, g.sed).rest; rest.Good? ==> Supported(rest.pieces)
    modifies g`circf, g`nbra, g`nodelim, g`loc1, g`loc2, g`low, g`size, g.braslist, g.braelist, buf
    ensures var rest := Parse(text, at, eof, g.sed).rest;
            if rest.Good? && ep + |EncodeAll(rest.pieces)| < endbuf then
              && r.Returned? && (g.circf != 0 <==> Parse(text, at, eof, g.sed).anchored)
              && Found(g, rest.pieces, s, p1, v)
              && (Outside(s, g.locs) ==> Decided(g, Parse(text, at, eof, g.sed).anchored, rest.pieces, s, p1, v))
            else r.Failed? && FaultOf(rest, r.fault, ep, endbuf)
  {
    hide Search, Leftmost, CString, EncodeAll, Supported, Found, Decided;
    var next: nat;
    ghost var e := Parse(text, at, eof, g.sed);
    r, next := Compile(g, text, at, buf, ep, endbuf, eof);
    v := No;
    if r.Returned? {
      ghost var ps := e.rest.pieces;
      var prog := buf[..];
      assert ps[0..] == ps;
      assert prog[ep..r.end] == prog[ep..][..r.end - ep];
      ProgramIsCode(prog, ep, ps, 0);
      v := Step(g, s, p1, prog, ep, ps);
      ghost var o := if g.circf != 0 then Search(ps, s, g.locs, [p1]) else Leftmost(ps, s, g.locs, p1);
      if Outside(s, g.locs) {
        ReportDecides(g, e.anchored, ps, s, p1, o, v, old(g.loc2));
      }
    }
  }
}
