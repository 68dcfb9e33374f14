/** `advance` and `step`, executed over the program bytes.

    Each method carries, as ghost parameters, the pieces that the program
    encodes and the trace of the run so far. */
module Matcher {
  import opened Bytes
  import opened Pattern
  import opened Code
  import opened Backtrack
  import opened Verdicts
  import opened State

  /** What a call does: return 0, return 1, or never return. */
  datatype Verdict = No | Yes | Forever

  function VerdictOf(o: Outcome): Verdict {
    match o
    case Miss => No
    case Hit(_) => Yes
    case Loop(_) => Forever
  }

  /** braslist and braelist hold the position of every bracket passed on the trace. */
  ghost predicate Agrees(g: Globals, ps: seq<Piece>, tr: seq<nat>)
    requires g.Valid()
    reads g.braslist, g.braelist
  {
    forall i :: 0 <= i < |tr| - 1 && i < |ps| ==>
      && (ps[i].atom.Open? && ps[i].atom.id < NBRA ==> g.braslist[ps[i].atom.id] == tr[i])
      && (ps[i].atom.Close? && ps[i].atom.id < NBRA ==> g.braelist[ps[i].atom.id] == tr[i])
  }

  /** The marks of groups that the pattern does not have are left alone. */
  twostate predicate Spared(g: Globals, ps: seq<Piece>)
    requires g.Valid()
    reads g.braslist, g.braelist
  {
    forall id: byte :: id < NBRA ==>
      && (!Occurs(ps, Open(id)) ==> g.braslist[id] == old(g.braslist[id]))
      && (!Occurs(ps, Close(id)) ==> g.braelist[id] == old(g.braelist[id]))
  }

  /** A run has followed tr; its cursors are lp in the subject and ep in the program. */
  ghost predicate Follows(s: seq<byte>, prog: seq<byte>, ps: seq<Piece>, tr: seq<nat>, lp: nat, ep: nat) {
    && CString(s) && Supported(ps)
    && 1 <= |tr| <= |ps| + 1 && Ascending(s, tr) && tr[|tr| - 1] == lp
    && CodeAt(prog, ep, ps, |tr| - 1)
  }

  /** The globals after a call with outcome o that was made when loc2 was before. */
  ghost predicate Reported(g: Globals, ps: seq<Piece>, o: Outcome, r: Verdict, before: int)
    requires g.Valid()
    reads g`loc2, g.braslist, g.braelist
  {
    && r == VerdictOf(o)
    && (if o.Hit? then |o.tr| > 0 && g.loc2 == o.tr[|o.tr| - 1] && Agrees(g, ps, o.tr)
        else g.loc2 == before)
  }

  // ---- The reference search, one step at a time ----

  /** The n-th try and what comes of it. */
  lemma NthTry(ps: seq<Piece>, s: seq<byte>, locs: int, tr: seq<nat>, n: nat, q: nat)
    requires 1 <= |tr| <= |ps| && !Stuck(ps, s, tr)
    requires n < |Tries(ps, s, tr)| && q == Tries(ps, s, tr)[n]
    ensures First(ps, s, locs, tr, n) ==
            if Cuts(ps[|tr| - 1]) && q == locs then Miss
            else if Search(ps, s, locs, tr + [q]).Miss? then First(ps, s, locs, tr, n + 1)
            else Search(ps, s, locs, tr + [q])
  {
  }

  lemma NoMoreTries(ps: seq<Piece>, s: seq<byte>, locs: int, tr: seq<nat>, n: nat)
    requires 1 <= |tr| <= |ps| && !Stuck(ps, s, tr) && n >= |Tries(ps, s, tr)|
    ensures First(ps, s, locs, tr, n) == Miss
  {
  }

  /** The one place where a piece without a suffix can end; -1 if there is none. */
  function SoleEnd(ps: seq<Piece>, s: seq<byte>, tr: seq<nat>): (q: int)
    requires 1 <= |tr| <= |ps| && tr[|tr| - 1] < |s|
  {
    var a, p := ps[|tr| - 1].atom, tr[|tr| - 1];
    match a
    case Dollar => if p == |s| - 1 then p else -1
    case Open(_) => p
    case Close(_) => p
    case Back(id) =>
      var w := Captured(ps, s, tr, id);
      if HasAt(s, p, w) then p + |w| else -1
    case _ => if Accepts(a, s[p]) then p + 1 else -1
  }

  lemma SoleTry(ps: seq<Piece>, s: seq<byte>, tr: seq<nat>)
    requires 1 <= |tr| <= |ps| && tr[|tr| - 1] < |s| && ps[|tr| - 1].Bare()
    ensures var q := SoleEnd(ps, s, tr);
            Tries(ps, s, tr) == if q < 0 then [] else [q]
  {
    hide Captured, HasAt, RunLength, Down;
    if ps[|tr| - 1].atom.OneByte() {
      ByteTry(ps[|tr| - 1], s, tr[|tr| - 1]);
    }
  }

  lemma ByteTry(piece: Piece, s: seq<byte>, p: nat)
    requires piece.atom.OneByte() && piece.Bare() && p < |s|
    ensures var r := RunLength(piece.atom, s, p);
            && (r < 1 <==> !Accepts(piece.atom, s[p]))
            && (r >= 1 ==> Most(piece, r) == 1 && Down(p + 1, p + 1) == [p + 1])
  {
    assert Down(p + 1, p + 1) == [p + 1] + Down(p, p + 1);
  }

  lemma SoleStep(ps: seq<Piece>, s: seq<byte>, locs: int, tr: seq<nat>)
    requires 1 <= |tr| <= |ps| && tr[|tr| - 1] < |s| && ps[|tr| - 1].Bare()
    ensures var q := SoleEnd(ps, s, tr);
            Search(ps, s, locs, tr) == if q < 0 then Miss else Search(ps, s, locs, tr + [q])
  {
    SoleTry(ps, s, tr);
    var q := SoleEnd(ps, s, tr);
    if q >= 0 {
      NthTry(ps, s, locs, tr, 0, q);
      NoMoreTries(ps, s, locs, tr, 1);
    }
  }

  lemma FollowOn(s: seq<byte>, prog: seq<byte>, ps: seq<Piece>, tr: seq<nat>, lp: nat, ep: nat, q: nat)
    requires Follows(s, prog, ps, tr, lp, ep) && |tr| <= |ps| && lp <= q < |s|
    ensures Follows(s, prog, ps, tr + [q], q, ep + |Encode(ps[|tr| - 1])|)
  {
    hide Encode, Supported, CString;
    assert (tr + [q])[..|tr|] == tr;
  }

  lemma AgreesOn(g: Globals, ps: seq<Piece>, tr: seq<nat>, q: nat)
    requires g.Valid() && 1 <= |tr| <= |ps| && !ps[|tr| - 1].atom.Bracket()
    ensures Agrees(g, ps, tr + [q]) <==> Agrees(g, ps, tr)
  {
    forall i | 0 <= i < |tr|
      ensures (tr + [q])[i] == tr[i]
    {
    }
  }

  // ---- Executable steps ----

  /** strncmp(s + a, s + b, n) == 0, for a text s[a..a+n] without NUL. */
  method Ecmp(s: seq<byte>, a: nat, b: nat, n: nat) returns (same: bool)
    requires CString(s) && a + n < |s| && b < |s|
    ensures same <==> HasAt(s, b, s[a..a + n])
  {
    ghost var w := s[a..a + n];
    var i := 0;
    while i < n
      invariant i <= n && b + i < |s|
      invariant forall k :: 0 <= k < i ==> w[k] == s[b + k]
    {
      if s[a + i] != s[b + i] {
        assert b + n < |s| ==> s[b..b + n][i] != w[i];
        return false;
      }
      i := i + 1;
    }
    assert s[b..b + n] == w;
    return true;
  }

  /** The opcodes CCHR, CDOT, CXCL, NCCL and CCL: test one byte and pass it. */
  method StepByte(s: seq<byte>, prog: seq<byte>, lp0: nat, ep0: nat, ghost p: Piece)
    returns (ok: bool, lp: nat, ep: nat)
    requires CString(s) && lp0 < |s| && CodedAt(prog, ep0, p) && p.Bare() && p.atom.OneByte()
    ensures ok <==> Accepts(p.atom, s[lp0])
    ensures lp == lp0 + 1 && ep == ep0 + |Encode(p)| && (ok ==> lp < |s|)
  {
    OpcodeTells(p);
    TakesAccepts(p, prog, ep0, s[lp0]);
    var op := prog[ep0];
    assert op == Encode(p)[0];
    lp, ep := lp0 + 1, ep0 + 1;
    ok := Takes(op, prog, ep, s[lp0]);
    ep := ep + Width(op);
  }

  /** The family of a repeating opcode: op with STAR or RNGE taken off. */
  function Family(op: byte): byte {
    op - op % 4
  }

  /** At ep the program holds the operand of family op, and its test is that of atom a. */
  ghost predicate TestAt(op: byte, prog: seq<byte>, ep: nat, a: Atom) {
    && a.OneByte() && !Accepts(a, 0)
    && op in {CCHR, CDOT, CXCL, CCL, NCCL}
    && ep + Width(op) <= |prog|
    && forall b: byte :: Takes(op, prog, ep, b) <==> Accepts(a, b)
  }

  /** The scan of a starred opcode: pass accepted bytes, and one more. */
  method ScanStar(op: byte, s: seq<byte>, prog: seq<byte>, lp0: nat, ep: nat, ghost a: Atom)
    returns (lp: nat)
    requires CString(s) && lp0 < |s| && TestAt(op, prog, ep, a)
    ensures lp == lp0 + RunLength(a, s, lp0) + 1 <= |s|
  {
    lp := lp0;
    while true
      invariant lp0 <= lp < |s|
      invariant RunLength(a, s, lp0) == lp - lp0 + RunLength(a, s, lp)
      decreases |s| - lp
    {
      var c := s[lp];
      lp := lp + 1;
      if !Takes(op, prog, ep, c) {
        break;
      }
    }
  }

  /** The first bound, and how far the second is above it; 255 stands for no second bound. */
  method Getrnge(g: Globals, prog: seq<byte>, str: nat)
    requires str + 1 < |prog|
    modifies g`low, g`size
    ensures g.low == prog[str]
    ensures g.size == if prog[str + 1] == 255 then 20000 else prog[str + 1] as int - prog[str]
    ensures prog[str] <= 254 && prog[str] <= prog[str + 1] ==>
              0 <= g.low <= 254 && (0 <= g.size <= 254 || g.size == 20000)
  {
    g.low := prog[str];
    g.size := if prog[str + 1] == 255 then 20000 else prog[str + 1] - g.low;
  }

  /** Pass exactly `low` accepted bytes, or fail; `low` counts down. */
  method ScanLow(g: Globals, op: byte, s: seq<byte>, prog: seq<byte>, lp0: nat, ep: nat, ghost a: Atom)
    returns (ok: bool, lp: nat)
    requires CString(s) && lp0 < |s| && TestAt(op, prog, ep, a) && g.low >= 0
    modifies g`low
    ensures ok <==> RunLength(a, s, lp0) >= old(g.low)
    ensures ok ==> lp == lp0 + old(g.low) < |s|
    ensures ok ==> RunLength(a, s, lp) == RunLength(a, s, lp0) - old(g.low)
  {
    lp := lp0;
    while g.low > 0
      invariant 0 <= g.low <= old(g.low)
      invariant lp == lp0 + old(g.low) - g.low < |s|
      invariant RunLength(a, s, lp0) == lp - lp0 + RunLength(a, s, lp)
    {
      g.low := g.low - 1;
      var c := s[lp];
      lp := lp + 1;
      if !Takes(op, prog, ep, c) {
        return false, lp;
      }
    }
    g.low := g.low - 1;
    return true, lp;
  }

  /** Pass at most `size` accepted bytes, counting `size` down, and then one more position,
      whether the scan stopped at a byte or ran out of count. */
  method ScanSize(g: Globals, op: byte, s: seq<byte>, prog: seq<byte>, lp0: nat, ep: nat, ghost a: Atom)
    returns (lp: nat)
    requires CString(s) && lp0 < |s| && TestAt(op, prog, ep, a) && g.size >= 0
    modifies g`size
    ensures var r := RunLength(a, s, lp0);
            lp == lp0 + (if r < old(g.size) then r else old(g.size)) + 1 <= |s|
  {
    lp := lp0;
    while true
      invariant 0 <= g.size <= old(g.size)
      invariant lp == lp0 + old(g.size) - g.size < |s|
      invariant RunLength(a, s, lp0) == lp - lp0 + RunLength(a, s, lp)
      decreases g.size
    {
      g.size := g.size - 1;
      if g.size == -1 {
        break;
      }
      var c := s[lp];
      lp := lp + 1;
      if !Takes(op, prog, ep, c) {
        break;
      }
    }
    if g.size < 0 {
      lp := lp + 1;
    }
  }

  lemma OperandTest(prog: seq<byte>, ep: nat, p: Piece)
    requires CodedAt(prog, ep, p) && p.atom.OneByte() && !p.Bare()
    ensures prog[ep] == Opcode(p) && Family(Opcode(p)) == Base(p.atom)
    ensures Opcode(p) % 4 == (if p.intervals == [] then STAR else RNGE)
    ensures |Encode(p)| == 1 + Width(Base(p.atom)) + 2 * |p.intervals|
    ensures TestAt(Base(p.atom), prog, ep + 1, p.atom)
    ensures p.intervals != [] ==> && prog[ep + 1 + Width(Base(p.atom))] == p.intervals[0].lo
                                  && prog[ep + 2 + Width(Base(p.atom))] == p.intervals[0].hi
  {
    OpcodeTells(p);
    assert prog[ep] == Encode(p)[0];
    forall b: byte {
      TakesAccepts(p, prog, ep, b);
    }
    var w := Width(Base(p.atom));
    assert |Operand(p.atom)| == w;
    if p.intervals != [] {
      assert p.intervals[..0] == [];
      assert BoundBytes(p.intervals) == [p.intervals[0].lo, p.intervals[0].hi];
      assert prog[ep + 1 + w] == Encode(p)[1 + w] && prog[ep + 2 + w] == Encode(p)[2 + w];
    }
  }

  /** The starred and interval forms of CCHR, CDOT, CXCL, NCCL and CCL, up to `goto star`:
      curlp is the shortest permitted run and lp is one past the longest. */
  method Scan(g: Globals, s: seq<byte>, prog: seq<byte>, lp0: nat, ep0: nat, ghost p: Piece)
    returns (ok: bool, curlp: nat, lp: nat, ep: nat)
    requires CString(s) && lp0 < |s| && CodedAt(prog, ep0, p) && p.atom.OneByte() && !p.Bare()
    modifies g`low, g`size
    ensures var r := RunLength(p.atom, s, lp0);
            && (ok <==> r >= Least(p))
            && (ok ==> curlp == lp0 + Least(p) && lp == lp0 + Most(p, r) + 1)
    ensures ok ==> curlp < lp <= |s| && ep == ep0 + |Encode(p)|
  {
    OperandTest(prog, ep0, p);
    var op := prog[ep0];
    var family := Family(op);
    ep := ep0 + 1;
    if op % 4 == STAR {
      ok, curlp := true, lp0;
      lp := ScanStar(family, s, prog, lp0, ep, p.atom);
      ep := ep + Width(family);
    } else {
      Getrnge(g, prog, ep + Width(family));
      ok, lp := ScanLow(g, family, s, prog, lp0, ep, p.atom);
      curlp := lp;
      if ok {
        lp := ScanSize(g, family, s, prog, curlp, ep, p.atom);
        ep := ep + Width(family) + 2;
      }
    }
  }

  lemma PieceHere(s: seq<byte>, prog: seq<byte>, ps: seq<Piece>, tr: seq<nat>, lp: nat, ep: nat)
    requires Follows(s, prog, ps, tr, lp, ep) && |tr| <= |ps|
    ensures lp < |s| && CodedAt(prog, ep, ps[|tr| - 1]) && prog[ep] == Opcode(ps[|tr| - 1])
    ensures !ps[|tr| - 1].atom.OneByte() && ps[|tr| - 1].atom != Dollar ==>
              |Encode(ps[|tr| - 1])| == 2 && prog[ep + 1] == ps[|tr| - 1].atom.id
  {
    var p := ps[|tr| - 1];
    SupportedAt(ps, |tr| - 1);
    assert prog[ep] == Encode(p)[0];
    if !p.atom.OneByte() && p.atom != Dollar {
      assert prog[ep + 1] == Encode(p)[1];
    }
  }

  /** A group that is referred to has been opened and closed before, on the trace. */
  lemma CapturedSpan(s: seq<byte>, ps: seq<Piece>, tr: seq<nat>, id: byte) returns (o: nat, c: nat)
    requires Supported(ps) && Ascending(s, tr) && 1 <= |tr| <= |ps| && ps[|tr| - 1].atom == Back(id)
    ensures o < c < |tr| - 1 && ps[o].atom == Open(id) && ps[c].atom == Close(id) && id < NBRA
    ensures tr[o] <= tr[c] < |s| && Captured(ps, s, tr, id) == s[tr[o]..tr[c]]
  {
    SupportedAt(ps, |tr| - 1);
    WhereInPrefix(ps, |tr| - 1, Close(id));
    c := Where(ps, Close(id));
    SupportedAt(ps, c);
    WhereInPrefix(ps, c, Open(id));
    o := Where(ps, Open(id));
    AscendingAt(s, tr, o, c);
  }

  /** Although failed branches leave their marks in braslist and braelist, a back
      reference finds there the text that its group has captured on this trace. */
  lemma CapturedIsCurrent(g: Globals, s: seq<byte>, ps: seq<Piece>, tr: seq<nat>, id: byte)
    requires g.Valid() && Agrees(g, ps, tr) && Supported(ps) && Ascending(s, tr)
    requires 1 <= |tr| <= |ps| && ps[|tr| - 1].atom == Back(id)
    ensures id < NBRA && 0 <= g.braslist[id] <= g.braelist[id] < |s|
    ensures Captured(ps, s, tr, id) == s[g.braslist[id]..g.braelist[id]]
  {
    var o, c := CapturedSpan(s, ps, tr, id);
    assert g.braslist[id] == tr[o] && g.braelist[id] == tr[c];
  }

  /** CBRA and CKET: note the position of bracket `id`, which occurs nowhere else. */
  method NoteBracket(g: Globals, op: byte, id: byte, lp: nat, ghost ps: seq<Piece>, ghost tr: seq<nat>)
    requires g.Valid() && Agrees(g, ps, tr) && 1 <= |tr| <= |ps|
    requires GroupsAllow(ps[..|tr| - 1], ps[|tr| - 1])
    requires ps[|tr| - 1].atom == (if op == CBRA then Open(id) else Close(id)) && tr[|tr| - 1] == lp
    modifies g.braslist, g.braelist
    ensures Agrees(g, ps, tr + [lp]) && Spared(g, ps)
  {
    assert Occurs(ps, ps[|tr| - 1].atom);
    ghost var before := ps[..|tr| - 1];
    assert forall i :: 0 <= i < |before| ==> before[i] == ps[i] && before[i].atom != ps[|tr| - 1].atom;
    if op == CBRA {
      g.braslist[id] := lp;
    } else {
      g.braelist[id] := lp;
    }
  }

  /** CBACK: compare with the captured text and pass it. */
  method StepBack(g: Globals, s: seq<byte>, id: byte, lp0: nat, ghost ps: seq<Piece>, ghost tr: seq<nat>)
    returns (ok: bool, lp: nat)
    requires g.Valid() && Agrees(g, ps, tr) && CString(s) && Supported(ps) && Ascending(s, tr)
    requires 1 <= |tr| <= |ps| && ps[|tr| - 1].atom == Back(id) && tr[|tr| - 1] == lp0
    ensures SoleEnd(ps, s, tr) == if ok then lp else -1
    ensures ok ==> lp0 <= lp < |s|
  {
    CapturedIsCurrent(g, s, ps, tr, id);
    var bbeg := g.braslist[id];
    var ct := g.braelist[id] - bbeg;
    lp := lp0;
    ok := Ecmp(s, bbeg, lp, ct);
    if ok {
      lp := lp + ct;
    }
  }

  /** The opcodes after which the switch goes on: all without STAR or RNGE. */
  method StepOnce(g: Globals, s: seq<byte>, prog: seq<byte>, lp0: nat, ep0: nat,
                  ghost ps: seq<Piece>, ghost tr: seq<nat>)
    returns (ok: bool, lp: nat, ep: nat)
    requires g.Valid() && Agrees(g, ps, tr) && Follows(s, prog, ps, tr, lp0, ep0)
    requires |tr| <= |ps| && ps[|tr| - 1].Bare()
    modifies g.braslist, g.braelist
    ensures ok ==> lp0 <= lp < |s| && ep == ep0 + |Encode(ps[|tr| - 1])|
    ensures Agrees(g, ps, tr + [lp]) && Spared(g, ps)
    ensures SoleEnd(ps, s, tr) == if ok then lp else -1
  {
    ghost var p := ps[|tr| - 1];
    PieceHere(s, prog, ps, tr, lp0, ep0);
    OpcodeTells(p);
    SupportedAt(ps, |tr| - 1);
    var op := prog[ep0];
    lp, ep := lp0, ep0 + 1;
    if op == CBRA || op == CKET {
      NoteBracket(g, op, prog[ep], lp, ps, tr);
      return true, lp, ep + 1;
    }
    if op == CDOL {
      ok := s[lp] == 0;
    } else if op == CBACK {
      ok, lp := StepBack(g, s, prog[ep], lp, ps, tr);
      ep := ep + 1;
    } else {
      ok, lp, ep := StepByte(s, prog, lp, ep0, p);
    }
    AgreesOn(g, ps, tr, lp);
  }

  // ---- advance ----

  /** advance(lp, ep) behind piece |tr|-1, which is to end at lp. */
  method GoOn(g: Globals, s: seq<byte>, prog: seq<byte>, lp: nat, ep: nat,
              ghost ps: seq<Piece>, ghost tr: seq<nat>, ghost p: nat, ghost ep0: nat)
    returns (r: Verdict)
    requires g.Valid() && Agrees(g, ps, tr) && 1 <= |tr| <= |ps| && !ps[|tr| - 1].atom.Bracket()
    requires Follows(s, prog, ps, tr, p, ep0) && ep == ep0 + |Encode(ps[|tr| - 1])| && p <= lp < |s|
    modifies g`loc2, g`low, g`size, g.braslist, g.braelist
    ensures Agrees(g, ps, tr) && Spared(g, ps)
    ensures Reported(g, ps, Search(ps, s, g.locs, tr + [lp]), r, old(g.loc2))
    decreases |ps| + 1 - |tr|, 0
  {
    hide Search, CodeAt, Encode, Supported, Ascending, CString;
    FollowOn(s, prog, ps, tr, p, ep0, lp);
    AgreesOn(g, ps, tr, lp);
    r := Advance(g, s, prog, lp, ep, ps, tr + [lp]);
    AgreesOn(g, ps, tr, lp);
  }

  /** The label star: from lp0 - 1 down to curlp, go on behind the repeated piece. */
  method Star(g: Globals, s: seq<byte>, prog: seq<byte>, curlp: nat, lp0: nat, ep: nat,
              ghost ps: seq<Piece>, ghost tr: seq<nat>, ghost ep0: nat, ghost qs: seq<nat>)
    returns (r: Verdict)
    requires g.Valid() && Agrees(g, ps, tr) && 1 <= |tr| <= |ps| && Cuts(ps[|tr| - 1])
    requires Follows(s, prog, ps, tr, tr[|tr| - 1], ep0) && ep == ep0 + |Encode(ps[|tr| - 1])|
    requires tr[|tr| - 1] <= curlp < lp0 <= |s|
    requires qs == Tries(ps, s, tr) && |qs| == lp0 - curlp
    requires forall n :: 0 <= n < |qs| ==> qs[n] == lp0 - 1 - n
    modifies g`loc2, g`low, g`size, g.braslist, g.braelist
    ensures Agrees(g, ps, tr) && Spared(g, ps)
    ensures Reported(g, ps, Search(ps, s, g.locs, tr), r, old(g.loc2))
    decreases |ps| + 1 - |tr|, 1
  {
    var lp := lp0;
    ghost var locs, p := g.locs, tr[|tr| - 1];
    while true
      invariant curlp < lp <= lp0 && Agrees(g, ps, tr) && g.loc2 == old(g.loc2) && g.locs == locs && Spared(g, ps)
      invariant First(ps, s, locs, tr, 0) == First(ps, s, locs, tr, lp0 - lp)
      decreases lp
    {
      lp := lp - 1;
      NthTry(ps, s, locs, tr, lp0 - 1 - lp, lp);
      if lp == g.locs {
        return No;
      }
      r := GoOn(g, s, prog, lp, ep, ps, tr, p, ep0);
      if r != No {
        return r;
      }
      if lp <= curlp {
        NoMoreTries(ps, s, locs, tr, lp0 - lp);
        return No;
      }
    }
  }

  /** CBACK|STAR: as many copies of the captured text as there are, then fewer.
      The copies of an empty text never end. */
  method BackStar(g: Globals, s: seq<byte>, prog: seq<byte>, id: byte, lp0: nat, ep: nat,
                  ghost ps: seq<Piece>, ghost tr: seq<nat>, ghost ep0: nat)
    returns (r: Verdict)
    requires g.Valid() && Agrees(g, ps, tr) && 1 <= |tr| <= |ps|
    requires ps[|tr| - 1].atom == Back(id) && ps[|tr| - 1].star
    requires Follows(s, prog, ps, tr, lp0, ep0) && ep == ep0 + |Encode(ps[|tr| - 1])|
    modifies g`loc2, g`low, g`size, g.braslist, g.braelist
    ensures Agrees(g, ps, tr) && Spared(g, ps)
    ensures Reported(g, ps, Search(ps, s, g.locs, tr), r, old(g.loc2))
    decreases |ps| + 1 - |tr|, 2
  {
    hide Search, CodeAt, Encode, Supported, Ascending, CString, Captured, Tries, CopyEnds, HasAt, Stuck;
    PieceHere(s, prog, ps, tr, lp0, ep0);
    CapturedIsCurrent(g, s, ps, tr, id);
    var bbeg := g.braslist[id];
    var ct := g.braelist[id] - bbeg;
    ghost var w := s[bbeg..bbeg + ct];
    CopyTries(ps, s, g.locs, tr, w);
    if ct == 0 {
      return Forever;
    }
    ghost var qs := CopyEnds(s, lp0, w);
    assert |w| == ct;
    var lp := ScanCopies(s, bbeg, ct, lp0);
    r := BackDown(g, s, prog, ct, lp0, lp, ep, ps, tr, ep0, qs);
  }

  lemma CopyTries(ps: seq<Piece>, s: seq<byte>, locs: int, tr: seq<nat>, w: seq<byte>)
    requires 1 <= |tr| <= |ps| && ps[|tr| - 1].atom.Back? && ps[|tr| - 1].star
    requires w == Captured(ps, s, tr, ps[|tr| - 1].atom.id)
    ensures w == [] ==> Search(ps, s, locs, tr) == Loop(tr)
    ensures w != [] ==> !Stuck(ps, s, tr) && Tries(ps, s, tr) == CopyEnds(s, tr[|tr| - 1], w)
  {
  }

  /** Pass copies of the captured text as long as there are any. */
  method ScanCopies(s: seq<byte>, bbeg: nat, ct: nat, lp0: nat) returns (lp: nat)
    requires CString(s) && ct > 0 && bbeg + ct < |s| && lp0 < |s|
    ensures lp < |s| && lp == CopyEnds(s, lp0, s[bbeg..bbeg + ct])[0]
  {
    ghost var w := s[bbeg..bbeg + ct];
    lp := lp0;
    var same := Ecmp(s, bbeg, lp, ct);
    while same
      invariant lp < |s| && (same <==> HasAt(s, lp, w))
      invariant CopyEnds(s, lp0, w)[0] == CopyEnds(s, lp, w)[0]
      decreases |s| - lp
    {
      lp := lp + ct;
      same := Ecmp(s, bbeg, lp, ct);
    }
  }

  /** Go on behind fewer and fewer copies, down to none. */
  method BackDown(g: Globals, s: seq<byte>, prog: seq<byte>, ct: nat, curlp: nat, lp0: nat, ep: nat,
                  ghost ps: seq<Piece>, ghost tr: seq<nat>, ghost ep0: nat, ghost qs: seq<nat>)
    returns (r: Verdict)
    requires g.Valid() && Agrees(g, ps, tr) && 1 <= |tr| <= |ps| && ct > 0
    requires !Cuts(ps[|tr| - 1]) && !ps[|tr| - 1].atom.Bracket() && !Stuck(ps, s, tr)
    requires Follows(s, prog, ps, tr, curlp, ep0) && ep == ep0 + |Encode(ps[|tr| - 1])|
    requires qs == Tries(ps, s, tr) && |qs| > 0 && qs[0] == lp0 < |s| && qs[|qs| - 1] == curlp
    requires forall n :: 0 < n < |qs| ==> qs[n - 1] == qs[n] + ct
    requires Descending(qs)
    modifies g`loc2, g`low, g`size, g.braslist, g.braelist
    ensures Agrees(g, ps, tr) && Spared(g, ps)
    ensures Reported(g, ps, Search(ps, s, g.locs, tr), r, old(g.loc2))
    decreases |ps| + 1 - |tr|, 1
  {
    var lp: int := lp0;
    ghost var locs, n := g.locs, 0;
    while lp >= curlp
      invariant 0 <= n <= |qs| && Agrees(g, ps, tr) && g.loc2 == old(g.loc2) && g.locs == locs && Spared(g, ps)
      invariant if n < |qs| then lp == qs[n] else lp == curlp - ct
      invariant First(ps, s, locs, tr, 0) == First(ps, s, locs, tr, n)
    {
      NthTry(ps, s, locs, tr, n, lp);
      r := GoOn(g, s, prog, lp, ep, ps, tr, curlp, ep0);
      if r != No {
        return r;
      }
      lp := lp - ct;
      n := n + 1;
    }
    NoMoreTries(ps, s, locs, tr, n);
    return No;
  }

  lemma {:induction false} DownAt(top: int, bottom: nat)
    requires top >= bottom
    ensures |Down(top, bottom)| == top - bottom + 1
    ensures forall n :: 0 <= n < |Down(top, bottom)| ==> Down(top, bottom)[n] == top - n
    decreases top - bottom
  {
    if top <= bottom {
    } else {
      DownAt(top - 1, bottom);
    }
  }

  lemma RepeatTries(ps: seq<Piece>, s: seq<byte>, locs: int, tr: seq<nat>)
    requires 1 <= |tr| <= |ps| && Cuts(ps[|tr| - 1])
    ensures var p, piece := tr[|tr| - 1], ps[|tr| - 1];
            var r := RunLength(piece.atom, s, p);
            if r < Least(piece) then Search(ps, s, locs, tr) == Miss
            else Tries(ps, s, tr) == Down(p + Most(piece, r), p + Least(piece))
  {
    var p, piece := tr[|tr| - 1], ps[|tr| - 1];
    if RunLength(piece.atom, s, p) < Least(piece) {
      NoMoreTries(ps, s, locs, tr, 0);
    }
  }

  /** The starred and interval forms of the one-byte opcodes. */
  method Repeat(g: Globals, s: seq<byte>, prog: seq<byte>, lp0: nat, ep0: nat,
                ghost ps: seq<Piece>, ghost tr: seq<nat>)
    returns (r: Verdict)
    requires g.Valid() && Agrees(g, ps, tr) && Follows(s, prog, ps, tr, lp0, ep0)
    requires |tr| <= |ps| && Cuts(ps[|tr| - 1])
    modifies g`loc2, g`low, g`size, g.braslist, g.braelist
    ensures Agrees(g, ps, tr) && Spared(g, ps)
    ensures Reported(g, ps, Search(ps, s, g.locs, tr), r, old(g.loc2))
    decreases |ps| + 1 - |tr|, 2
  {
    hide Search, CodeAt, Encode, Supported, Ascending, CString, RunLength, Tries, Down;
    PieceHere(s, prog, ps, tr, lp0, ep0);
    RepeatTries(ps, s, g.locs, tr);
    var ok, curlp, lp, ep := Scan(g, s, prog, lp0, ep0, ps[|tr| - 1]);
    if !ok {
      return No;
    }
    DownAt(lp - 1, curlp);
    r := Star(g, s, prog, curlp, lp, ep, ps, tr, ep0, Down(lp - 1, curlp));
  }

  /** What a run that has followed tr finds, beginning at byte ep0 of the program. */
  method Advance(g: Globals, s: seq<byte>, prog: seq<byte>, lp0: nat, ep0: nat,
                 ghost ps: seq<Piece>, ghost tr0: seq<nat>)
    returns (r: Verdict)
    requires g.Valid() && Agrees(g, ps, tr0) && Follows(s, prog, ps, tr0, lp0, ep0)
    modifies g`loc2, g`low, g`size, g.braslist, g.braelist
    ensures Agrees(g, ps, tr0) && Spared(g, ps)
    ensures Reported(g, ps, Search(ps, s, g.locs, tr0), r, old(g.loc2))
    decreases |ps| + 1 - |tr0|, 3
  {
    hide CodeAt, Encode, Supported, Ascending, CString, First;
    var lp, ep := lp0, ep0;
    ghost var tr, locs := tr0, g.locs;
    while true
      invariant tr0 <= tr && Agrees(g, ps, tr) && Follows(s, prog, ps, tr, lp, ep)
      invariant g.loc2 == old(g.loc2) && g.locs == locs && Spared(g, ps)
      invariant Search(ps, s, locs, tr0) == Search(ps, s, locs, tr)
      decreases |ps| + 1 - |tr|
    {
      OpcodeHere(s, prog, ps, tr, lp, ep);
      var op := prog[ep];
      if op == CCEOF {
        g.loc2 := lp;
        return Yes;
      } else if op == OrStar(CBACK) {
        r := BackStar(g, s, prog, prog[ep + 1], lp, ep + 2, ps, tr, ep);
        return;
      } else if op % 4 == STAR || op % 4 == RNGE {
        r := Repeat(g, s, prog, lp, ep, ps, tr);
        return;
      }
      SoleStep(ps, s, locs, tr);
      var ok, lp', ep' := StepOnce(g, s, prog, lp, ep, ps, tr);
      if !ok {
        return No;
      }
      FollowOn(s, prog, ps, tr, lp, ep, lp');
      lp, ep, tr := lp', ep', tr + [lp'];
    }
  }

  /** The opcode at ep tells what is left of the pattern. */
  lemma OpcodeHere(s: seq<byte>, prog: seq<byte>, ps: seq<Piece>, tr: seq<nat>, lp: nat, ep: nat)
    requires Follows(s, prog, ps, tr, lp, ep)
    ensures ep < |prog| && lp < |s|
    ensures prog[ep] == CCEOF <==> |tr| == |ps| + 1
    ensures |tr| <= |ps| ==>
              var p := ps[|tr| - 1];
              && (prog[ep] == OrStar(CBACK) <==> p.atom.Back? && p.star)
              && (p.atom.Back? ==> ep + 1 < |prog| && prog[ep + 1] == p.atom.id && |Encode(p)| == 2)
              && (prog[ep] % 4 == STAR || prog[ep] % 4 == RNGE <==> !p.Bare())
              && (p.Bare() || Cuts(p) || (p.atom.Back? && p.star))
  {
    hide Supported, CString, Opcode, Base, Operand;
    if |tr| <= |ps| {
      PieceHere(s, prog, ps, tr, lp, ep);
      OpcodeKind(ps[|tr| - 1]);
      OpcodeTells(ps[|tr| - 1]);
    }
  }

  // ---- step ----

  lemma StartFollows(s: seq<byte>, prog: seq<byte>, ps: seq<Piece>, p: nat, ep: nat)
    requires CString(s) && Supported(ps) && p < |s| && CodeAt(prog, ep, ps, 0)
    ensures Follows(s, prog, ps, [p], p, ep)
  {
    var tr := [p];
    assert tr[..0] == [];
  }

  lemma HitStartsAt(ps: seq<Piece>, s: seq<byte>, locs: int, p: nat)
    requires CString(s) && Supported(ps) && p < |s|
    ensures var o := Search(ps, s, locs, [p]);
            o.Hit? ==> |o.tr| > 0 && o.tr[0] == p
  {
    SearchSound(ps, s, locs, [p]);
  }

  /** A program that begins with CCHR misses wherever its character does not stand. */
  lemma FirstCharMisses(s: seq<byte>, prog: seq<byte>, ps: seq<Piece>, locs: int, p: nat, ep: nat)
    requires CString(s) && Supported(ps) && p < |s| && CodeAt(prog, ep, ps, 0)
    requires ep < |prog| && prog[ep] == CCHR
    ensures ep + 1 < |prog|
    ensures s[p] != prog[ep + 1] ==> Search(ps, s, locs, [p]) == Miss
  {
    hide Search, Supported, CString, CodeAt, Ascending;
    StartFollows(s, prog, ps, p, ep);
    OpcodeHere(s, prog, ps, [p], p, ep);
    PieceHere(s, prog, ps, [p], p, ep);
    OpcodeTells(ps[0]);
    assert prog[ep + 1] == Encode(ps[0])[1];
    SoleStep(ps, s, locs, [p]);
  }

  /** What `step` finds, for every `locs`: the match that begins first, and is the greatest from
      there, of those that `locs` leaves; or none; or a run that never ends. */
  ghost predicate Found(g: Globals, ps: seq<Piece>, s: seq<byte>, p1: nat, r: Verdict)
    requires g.Valid()
    reads g, g.braslist, g.braelist
  {
    var anchored := g.circf != 0;
    match r
    case Yes =>
      exists t :: && Foremost(ps, s, g.locs, p1, anchored, t) && MatchFrom(ps, s, t[0], t)
                  && g.loc1 == t[0] && g.loc2 == t[|ps|] && Agrees(g, ps, t)
    case No => Hopeless(ps, s, g.locs, p1, anchored)
    case Forever => exists t :: Foremost(ps, s, g.locs, p1, anchored, t) && StuckFrom(ps, s, g.locs, t[0], t)
  }

  lemma OutcomeFound(g: Globals, ps: seq<Piece>, s: seq<byte>, p1: nat, o: Outcome, r: Verdict, before: int)
    requires g.Valid() && CString(s) && Supported(ps) && p1 < |s| && Reported(g, ps, o, r, before)
    requires o == if g.circf != 0 then Search(ps, s, g.locs, [p1]) else Leftmost(ps, s, g.locs, p1)
    requires o.Hit? ==> |o.tr| > 0 && g.loc1 == o.tr[0]
    ensures Found(g, ps, s, p1, r)
  {
    hide Search, Leftmost, Supported, CString, Foremost, Path, Agrees;
    if g.circf != 0 {
      SearchSettles(ps, s, g.locs, p1);
    } else {
      LeftmostSettles(ps, s, g.locs, p1);
    }
    if !o.Miss? {
      assert Foremost(ps, s, g.locs, p1, g.circf != 0, o.tr);
    }
  }

  method Step(g: Globals, s: seq<byte>, p1: nat, prog: seq<byte>, p2: nat, ghost ps: seq<Piece>)
    returns (r: Verdict)
    requires g.Valid() && CString(s) && Supported(ps) && p1 < |s| && CodeAt(prog, p2, ps, 0)
    modifies g`loc1, g`loc2, g`low, g`size, g.braslist, g.braelist
    ensures Spared(g, ps) && Found(g, ps, s, p1, r)
    ensures var o := if g.circf != 0 then Search(ps, s, g.locs, [p1]) else Leftmost(ps, s, g.locs, p1);
            && Reported(g, ps, o, r, old(g.loc2))
            && g.loc1 == if g.circf != 0 then p1 else if o.Hit? then o.tr[0] else old(g.loc1)
  {
    hide Search, Leftmost, Supported, CString, Encode, CodeAt, Found;
    ghost var o := if g.circf != 0 then Search(ps, s, g.locs, [p1]) else Leftmost(ps, s, g.locs, p1);
    if g.circf != 0 {
      g.loc1 := p1;
      StartFollows(s, prog, ps, p1, p2);
      HitStartsAt(ps, s, g.locs, p1);
      r := Advance(g, s, prog, p1, p2, ps, [p1]);
    } else {
      StartsSomewhere(ps, s, g.locs, p1);
      r := StepAnywhere(g, s, p1, prog, p2, ps);
    }
    OutcomeFound(g, ps, s, p1, o, r, old(g.loc2));
  }

  lemma StartsSomewhere(ps: seq<Piece>, s: seq<byte>, locs: int, p: nat)
    requires CString(s) && Supported(ps) && p < |s|
    ensures Leftmost(ps, s, locs, p).Hit? ==> |Leftmost(ps, s, locs, p).tr| > 0
  {
    LeftmostSettles(ps, s, locs, p);
  }

  /** An unanchored pattern: the loop over the starts, with or without a first character to look for. */
  method StepAnywhere(g: Globals, s: seq<byte>, p1: nat, prog: seq<byte>, p2: nat, ghost ps: seq<Piece>)
    returns (r: Verdict)
    requires g.Valid() && CString(s) && Supported(ps) && p1 < |s| && CodeAt(prog, p2, ps, 0) && g.circf == 0
    modifies g`loc1, g`loc2, g`low, g`size, g.braslist, g.braelist
    ensures Spared(g, ps)
    ensures var o := Leftmost(ps, s, g.locs, p1);
            && Reported(g, ps, o, r, old(g.loc2))
            && (o.Hit? ==> |o.tr| > 0) && g.loc1 == if o.Hit? then o.tr[0] else old(g.loc1)
  {
    hide Search, Supported, CString, Encode, CodeAt;
    StartFollows(s, prog, ps, p1, p2);
    OpcodeHere(s, prog, ps, [p1], p1, p2);
    var p := p1;
    ghost var locs := g.locs;
    if prog[p2] == CCHR {
      while true
        invariant p1 <= p < |s| && g.loc1 == old(g.loc1) && g.loc2 == old(g.loc2)
        invariant g.locs == locs && g.circf == 0 && Spared(g, ps)
        invariant Leftmost(ps, s, locs, p1) == Leftmost(ps, s, locs, p)
        decreases |s| - p
      {
        FirstCharMisses(s, prog, ps, locs, p, p2);
        if s[p] == prog[p2 + 1] {
          r := TryStart(g, s, p, prog, p2, ps);
          if r != No {
            return;
          }
        }
        if s[p] == 0 {
          EndOfSubject(s, p);
          return No;
        }
        EndOfSubject(s, p);
        p := p + 1;
      }
    }
    while true
      invariant p1 <= p < |s| && g.loc1 == old(g.loc1) && g.loc2 == old(g.loc2)
      invariant g.locs == locs && g.circf == 0 && Spared(g, ps)
      invariant Leftmost(ps, s, locs, p1) == Leftmost(ps, s, locs, p)
      decreases |s| - p
    {
      r := TryStart(g, s, p, prog, p2, ps);
      if r != No {
        return;
      }
      EndOfSubject(s, p);
      if s[p] == 0 {
        return No;
      }
      p := p + 1;
    }
  }

  lemma EndOfSubject(s: seq<byte>, p: nat)
    requires CString(s) && p < |s|
    ensures s[p] == 0 <==> p == |s| - 1
  {
  }

  /** Try one start, and note it if it succeeds. */
  method TryStart(g: Globals, s: seq<byte>, p: nat, prog: seq<byte>, p2: nat, ghost ps: seq<Piece>)
    returns (r: Verdict)
    requires g.Valid() && CString(s) && Supported(ps) && p < |s| && CodeAt(prog, p2, ps, 0)
    modifies g`loc1, g`loc2, g`low, g`size, g.braslist, g.braelist
    ensures Spared(g, ps)
    ensures var o := Search(ps, s, g.locs, [p]);
            && Reported(g, ps, o, r, old(g.loc2))
            && g.loc1 == if o.Hit? then o.tr[0] else old(g.loc1)
  {
    hide Search, Supported, CString, Encode, CodeAt;
    StartFollows(s, prog, ps, p, p2);
    HitStartsAt(ps, s, g.locs, p);
    r := Advance(g, s, prog, p, p2, ps, [p]);
    if r == Yes {
      g.loc1 := p;
    }
  }
}
