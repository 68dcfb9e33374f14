/** The program bytes: opcodes, the encoding of pieces, and the class tests.

    `Encode` is total: it says what `compile` writes for every piece, including
    the pieces that `advance` has no case for. */
module Code {
  import opened Bytes
  import opened Pattern

  const CBRA: byte := 2
  const CCHR: byte := 4
  const CDOT: byte := 8
  const CCL: byte := 12
  const CXCL: byte := 16
  const CDOL: byte := 20
  const CCEOF: byte := 22
  const CKET: byte := 24
  const CBACK: byte := 36
  const NCCL: byte := 40

  const STAR: byte := 1
  const RNGE: byte := 3

  /** x | STAR */
  function OrStar(x: byte): byte {
    x - x % 2 + 1
  }

  /** x | RNGE */
  function OrRnge(x: byte): byte {
    x - x % 4 + 3
  }

  /** A class is wide when a member does not fit in seven bits. */
  predicate Wide(members: set<byte>) {
    exists m :: m in members && m >= 128
  }

  /** The members whose bits are set in the program. */
  function Marked(members: set<byte>, negated: bool): set<byte> {
    if !negated then members
    else if Wide(members) then set b: byte | 0 < b < 256 && b !in members
    else members + {0}
  }

  function ClassBytes(members: set<byte>, negated: bool): (bits: seq<byte>)
    ensures |bits| == if Wide(members) then 32 else 16
  {
    Bitmap(Marked(members, negated), if Wide(members) then 32 else 16)
  }

  function Base(a: Atom): byte {
    match a
    case Lit(_) => CCHR
    case Dot => CDOT
    case Class(members, negated) => if Wide(members) then CXCL else if negated then NCCL else CCL
    case Dollar => CDOL
    case Open(_) => CBRA
    case Close(_) => CKET
    case Back(_) => CBACK
  }

  function Operand(a: Atom): seq<byte> {
    match a
    case Lit(c) => [c]
    case Class(members, negated) => ClassBytes(members, negated)
    case Open(id) => [id]
    case Close(id) => [id]
    case Back(id) => [id]
    case _ => []
  }

  /** The number of operand bytes of an opcode. */
  function Width(op: byte): nat {
    if op == CDOT || op == CDOL then 0 else if op == CXCL then 32 else if op == CCL || op == NCCL then 16 else 1
  }

  function Opcode(p: Piece): byte {
    var op := if p.star then OrStar(Base(p.atom)) else Base(p.atom);
    if p.intervals != [] then OrRnge(op) else op
  }

  function BoundBytes(intervals: seq<Interval>): seq<byte> {
    if intervals == [] then []
    else
      var n := |intervals| - 1;
      BoundBytes(intervals[..n]) + [intervals[n].lo, intervals[n].hi]
  }

  function Encode(p: Piece): (bytes: seq<byte>)
    ensures |bytes| > 0 && bytes[0] == Opcode(p)
  {
    [Opcode(p)] + Operand(p.atom) + BoundBytes(p.intervals)
  }

  function EncodeAll(ps: seq<Piece>): seq<byte> {
    if ps == [] then [] else Encode(ps[0]) + EncodeAll(ps[1..])
  }

  /** The whole program of a pattern. */
  function Program(ps: seq<Piece>): seq<byte> {
    EncodeAll(ps) + [CCEOF]
  }

  // ---- What `*` and `\{..\}` do to the code of the piece before them ----

  lemma SuffixOpcode(p: Piece, i: Interval)
    ensures Opcode(p.(star := true)) == OrStar(Opcode(p))
    ensures Opcode(p.(intervals := p.intervals + [i])) == OrRnge(Opcode(p))
  {
    hide Base, OrStar, OrRnge;
    OrTwice(Base(p.atom));
  }

  lemma OrTwice(x: byte)
    ensures OrStar(OrStar(x)) == OrStar(x)
    ensures OrRnge(OrRnge(x)) == OrRnge(OrStar(x)) == OrStar(OrRnge(x)) == OrRnge(x)
  {
    var y := x / 4;
    assert x == 4 * y || x == 4 * y + 1 || x == 4 * y + 2 || x == 4 * y + 3;
    assert (4 * y + 3) % 4 == 3 && (4 * y + 1) % 4 == 1 && (4 * y + 3) % 2 == 1 && (4 * y + 1) % 2 == 1;
  }

  lemma AfterOpcode(p: Piece)
    ensures Encode(p)[1..] == Operand(p.atom) + BoundBytes(p.intervals)
  {
    hide Opcode, Operand, BoundBytes;
    var rest := Operand(p.atom) + BoundBytes(p.intervals);
    assert Encode(p) == [Opcode(p)] + rest;
  }

  lemma StarEncoded(p: Piece)
    ensures Encode(p.(star := true)) == [OrStar(Encode(p)[0])] + Encode(p)[1..]
  {
    hide Opcode, Operand, BoundBytes;
    SuffixOpcode(p, Interval(0, 0));
    AfterOpcode(p);
  }

  lemma IntervalEncoded(p: Piece, i: Interval)
    ensures Encode(p.(intervals := p.intervals + [i])) ==
            [OrRnge(Encode(p)[0])] + Encode(p)[1..] + [i.lo, i.hi]
  {
    hide Opcode, Operand;
    var q := p.(intervals := p.intervals + [i]);
    SuffixOpcode(p, i);
    AfterOpcode(p);
    assert q.intervals[..|p.intervals|] == p.intervals;
    assert BoundBytes(q.intervals) == BoundBytes(p.intervals) + [i.lo, i.hi];
  }

  /** The program bytes in numbers: the opcodes, with 1 or 3 or-ed in for a suffix, and the end mark. */
  lemma OpcodeNumbers(p: Piece, c: byte, members: set<byte>)
    ensures Base(Open(c)) == 2 && Base(Lit(c)) == 4 && Base(Dot) == 8 && Base(Dollar) == 20
    ensures Base(Close(c)) == 24 && Base(Back(c)) == 36
    ensures (exists m :: m in members && m >= 128) ==> Base(Class(members, false)) == Base(Class(members, true)) == 16
    ensures (forall m :: m in members ==> m < 128) ==>
              Base(Class(members, false)) == 12 && Base(Class(members, true)) == 40
    ensures Opcode(p) == Base(p.atom) + if p.Bare() then 0
                                        else if p.intervals == [] then 1 else if p.atom.Open? then 1 else 3
    ensures Program([]) == [22]
  {
    assert Base(p.atom) % 4 == 0 || (p.atom.Open? && Base(p.atom) == 2);
  }

  /** The operands in order: the opcode, the character, and the lower and the upper bound. */
  lemma CodeBytes(c: byte, lo: byte, hi: byte)
    ensures Encode(Piece(Lit(c), false, [Interval(lo, hi)])) == [7, c, lo, hi]
    ensures Encode(Piece(Dot, true, [])) == [9] && Encode(Piece(Back(c), true, [])) == [37, c]
  {
    assert [Interval(lo, hi)][..0] == [] && BoundBytes([]) == [];
    assert BoundBytes([Interval(lo, hi)]) == [lo, hi];
  }

  lemma BracketOpcode(p: Piece)
    ensures Opcode(p) == CBRA || Opcode(p) == CKET <==> p.atom.Bracket() && p.Bare()
  {
  }

  /** From ep on, prog holds the code of pieces i, i+1, ... and the end mark. */
  predicate CodeAt(prog: seq<byte>, ep: nat, ps: seq<Piece>, i: nat)
    requires i <= |ps|
    decreases |ps| - i
  {
    if i == |ps| then ep < |prog| && prog[ep] == CCEOF
    else
      var next := ep + |Encode(ps[i])|;
      next <= |prog| && prog[ep..next] == Encode(ps[i]) && CodeAt(prog, next, ps, i + 1)
  }

  lemma {:induction false} EncodeAllConcat(ps: seq<Piece>, qs: seq<Piece>)
    ensures EncodeAll(ps + qs) == EncodeAll(ps) + EncodeAll(qs)
  {
    if ps == [] {
      assert ps + qs == qs;
    } else {
      calc {
        EncodeAll(ps + qs);
        { assert (ps + qs)[0] == ps[0] && (ps + qs)[1..] == ps[1..] + qs; }
        Encode(ps[0]) + EncodeAll(ps[1..] + qs);
        { EncodeAllConcat(ps[1..], qs); }
        Encode(ps[0]) + (EncodeAll(ps[1..]) + EncodeAll(qs));
        Encode(ps[0]) + EncodeAll(ps[1..]) + EncodeAll(qs);
        EncodeAll(ps) + EncodeAll(qs);
      }
    }
  }

  /** The bounds of a second interval are executed as code: with the bounds 4 and d it is the
      program of the same pattern with the character d in place of that interval. */
  lemma SecondIntervalIsCode(before: seq<Piece>, p: Piece, d: byte, after: seq<Piece>)
    requires p.intervals != []
    ensures var q := p.(intervals := p.intervals + [Interval(CCHR, d)]);
            && !SupportedPiece(q)
            && Program(before + [q] + after) == Program(before + [p, Piece(Lit(d), false, [])] + after)
  {
    hide Opcode, Encode, EncodeAll;
    var q, lit := p.(intervals := p.intervals + [Interval(CCHR, d)]), Piece(Lit(d), false, []);
    SecondInterval(p, d);
    OneEncoded(p);
    OneEncoded(q);
    OneEncoded(lit);
    EncodeAllConcat([p], [lit]);
    assert [p] + [lit] == [p, lit];
    EncodeAllConcat(before, [q]);
    EncodeAllConcat(before, [p, lit]);
    EncodeAllConcat(before + [q], after);
    EncodeAllConcat(before + [p, lit], after);
  }

  lemma SecondInterval(p: Piece, d: byte)
    requires p.intervals != []
    ensures Encode(p.(intervals := p.intervals + [Interval(CCHR, d)])) == Encode(p) + Encode(Piece(Lit(d), false, []))
  {
    hide Encode;
    IntervalEncoded(p, Interval(CCHR, d));
    RngeStays(p);
    LiteralCode(d);
    assert [Encode(p)[0]] + Encode(p)[1..] == Encode(p);
  }

  lemma RngeStays(p: Piece)
    requires p.intervals != []
    ensures OrRnge(Opcode(p)) == Opcode(p)
  {
    hide OrStar, OrRnge, Base;
    OrTwice(if p.star then OrStar(Base(p.atom)) else Base(p.atom));
  }

  lemma LiteralCode(d: byte)
    ensures Encode(Piece(Lit(d), false, [])) == [CCHR, d]
  {
  }

  lemma OneEncoded(p: Piece)
    ensures EncodeAll([p]) == Encode(p)
  {
    hide Encode;
    assert [p][1..] == [];
    assert EncodeAll([p]) == Encode(p) + EncodeAll([]);
  }

  /** A program in place can be read back piece by piece. */
  lemma {:induction false} ProgramIsCode(prog: seq<byte>, ep: nat, ps: seq<Piece>, i: nat)
    requires ep <= |prog| && i <= |ps|
    requires Program(ps[i..]) <= prog[ep..]
    ensures CodeAt(prog, ep, ps, i)
    decreases |ps| - i
  {
    hide Encode;
    if i == |ps| {
    } else {
      var first, rest := Encode(ps[i]), Program(ps[i + 1..]);
      assert ps[i..][1..] == ps[i + 1..];
      assert Program(ps[i..]) == first + rest;
      TakePrefix(prog, ep, first, rest);
      ProgramIsCode(prog, ep + |first|, ps, i + 1);
    }
  }

  lemma TakePrefix(prog: seq<byte>, ep: nat, first: seq<byte>, rest: seq<byte>)
    requires ep <= |prog| && first + rest <= prog[ep..]
    ensures ep + |first| <= |prog| && prog[ep..ep + |first|] == first
    ensures rest <= prog[ep + |first|..]
  {
    assert prog[ep..][..|first|] == prog[ep..ep + |first|];
    assert prog[ep..][|first|..] == prog[ep + |first|..];
    assert (first + rest)[..|first|] == first && (first + rest)[|first|..] == rest;
  }

  /** An opcode of a supported piece tells its family and its suffix. */
  lemma OpcodeTells(p: Piece)
    requires SupportedPiece(p)
    ensures Opcode(p) == Base(p.atom) + (if p.Bare() then 0 else if p.intervals == [] then STAR else RNGE)
    ensures p.Bare() || p.atom.OneByte() || (p.atom.Back? && p.intervals == [])
  {
    assert Base(p.atom) % 4 == 0 || p.Bare();
  }

  /** What the switch of `advance` can learn from the opcode of a supported piece. */
  lemma OpcodeKind(p: Piece)
    requires SupportedPiece(p)
    ensures Opcode(p) != CCEOF
    ensures Opcode(p) == OrStar(CBACK) <==> p.atom.Back? && p.star
    ensures Opcode(p) % 4 == STAR || Opcode(p) % 4 == RNGE <==> !p.Bare()
  {
    OpcodeTells(p);
  }

  // ---- Class tests ----

  /** ISTHERE(b) on the bit map of n bytes at ep */
  predicate IsThere(prog: seq<byte>, ep: nat, n: nat, b: byte)
    requires ep + n <= |prog| && b < 8 * n
  {
    Has(prog[ep..ep + n], b)
  }

  /** The test that the opcode family op applies to one subject byte; ep is its operand. */
  predicate Takes(op: byte, prog: seq<byte>, ep: nat, b: byte)
    requires op == CCHR ==> ep < |prog|
    requires op == CXCL ==> ep + 32 <= |prog|
    requires op == CCL || op == NCCL ==> ep + 16 <= |prog|
  {
    if op == CCHR then prog[ep] == b
    else if op == CDOT then b != 0
    else if op == CXCL then IsThere(prog, ep, 32, b)
    else if op == NCCL then !(b < 128 && IsThere(prog, ep, 16, b))
    else if op == CCL then b < 128 && IsThere(prog, ep, 16, b)
    else false
  }

  /** Under all three encodings the bit test is membership in the class as written,
      and NUL is accepted exactly when it is a member of a class that is not negated. */
  lemma ClassTest(members: set<byte>, negated: bool, prog: seq<byte>, ep: nat, b: byte)
    requires ep + |ClassBytes(members, negated)| <= |prog|
    requires prog[ep..ep + |ClassBytes(members, negated)|] == ClassBytes(members, negated)
    ensures Takes(Base(Class(members, negated)), prog, ep, b) <==>
            if b == 0 then !negated && 0 in members else (b in members) != negated
  {
    var n := |ClassBytes(members, negated)|;
    if b < 8 * n {
      BitmapHas(Marked(members, negated), n, b);
    }
  }

  lemma TakesAccepts(p: Piece, prog: seq<byte>, ep: nat, b: byte)
    requires p.atom.OneByte() && SupportedPiece(p)
    requires ep + |Encode(p)| <= |prog| && prog[ep..ep + |Encode(p)|] == Encode(p)
    ensures Takes(Base(p.atom), prog, ep + 1, b) <==> Accepts(p.atom, b)
  {
    var n := |Operand(p.atom)|;
    Slice(prog, ep, ep + |Encode(p)|, 1, 1 + n);
    assert Encode(p)[1..1 + n] == Operand(p.atom);
    match p.atom
    case Lit(c) => assert prog[ep + 1] == c;
    case Dot =>
    case Class(members, negated) => ClassTest(members, negated, prog, ep + 1, b);
  }

  // ---- Reading a program back ----

  /** The two pieces match the same texts; they may differ in how a class is written,
      and in a star that an interval overrides. */
  ghost predicate Equivalent(p: Piece, q: Piece) {
    && (forall n: nat :: p.Permits(n) <==> q.Permits(n))
    && if p.atom.OneByte() then q.atom.OneByte() && forall b: byte :: Accepts(p.atom, b) <==> Accepts(q.atom, b)
       else p == q
  }

  ghost predicate CodedAt(prog: seq<byte>, ep: nat, p: Piece) {
    && SupportedPiece(p)
    && ep + |Encode(p)| <= |prog| && prog[ep..ep + |Encode(p)|] == Encode(p)
  }

  lemma EncodedSize(p: Piece)
    requires SupportedPiece(p)
    ensures |Encode(p)| == 1 + |Operand(p.atom)| + 2 * |p.intervals|
    ensures |Operand(p.atom)| == Width(Base(p.atom))
    ensures p.intervals != [] ==>
              |p.intervals| == 1 && BoundBytes(p.intervals) == [p.intervals[0].lo, p.intervals[0].hi]
  {
    if p.intervals != [] {
      assert |p.intervals| == 1 && p.intervals[..0] == [];
      assert BoundBytes(p.intervals) == [p.intervals[0].lo, p.intervals[0].hi];
    }
  }

  /** Two supported pieces with the same opcode have the same family and the same suffix. */
  lemma SameOpcode(p: Piece, q: Piece)
    requires SupportedPiece(p) && SupportedPiece(q) && Opcode(p) == Opcode(q)
    ensures Base(p.atom) == Base(q.atom) && p.Bare() == q.Bare() && |p.intervals| == |q.intervals|
    ensures |Encode(p)| == |Encode(q)|
  {
    OpcodeTells(p);
    OpcodeTells(q);
    EncodedSize(p);
    EncodedSize(q);
  }

  lemma SamePiece(prog: seq<byte>, ep: nat, p: Piece, q: Piece)
    requires CodedAt(prog, ep, p) && CodedAt(prog, ep, q)
    ensures |Encode(p)| == |Encode(q)| && Equivalent(p, q)
  {
    assert prog[ep] == Encode(p)[0] == Encode(q)[0];
    SameOpcode(p, q);
    EncodedSize(p);
    EncodedSize(q);
    assert Encode(p) == Encode(q);
    var w := |Operand(p.atom)|;
    if p.intervals != [] {
      assert Encode(p)[1 + w] == p.intervals[0].lo && Encode(p)[2 + w] == p.intervals[0].hi;
      assert Encode(q)[1 + w] == q.intervals[0].lo && Encode(q)[2 + w] == q.intervals[0].hi;
    }
    if p.atom.OneByte() {
      forall b: byte
        ensures Accepts(p.atom, b) <==> Accepts(q.atom, b)
      {
        TakesAccepts(p, prog, ep, b);
        TakesAccepts(q, prog, ep, b);
      }
    } else if w == 1 {
      assert Encode(p)[1] == Operand(p.atom)[0] && Encode(q)[1] == Operand(q.atom)[0];
    }
  }

  lemma MoreOrEnd(prog: seq<byte>, ep: nat, ps: seq<Piece>, i: nat)
    requires i <= |ps| && CodeAt(prog, ep, ps, i) && (i < |ps| ==> SupportedPiece(ps[i]))
    ensures ep < |prog| && (prog[ep] == CCEOF <==> i == |ps|)
  {
    if i < |ps| {
      OpcodeKind(ps[i]);
      assert prog[ep] == Encode(ps[i])[0];
    }
  }

  /** A program has one meaning: whatever it encodes has the same pieces, up to equivalence. */
  lemma {:induction false} UniqueReading(prog: seq<byte>, ep: nat, ps: seq<Piece>, qs: seq<Piece>, i: nat)
    requires i <= |ps| && i <= |qs| && CodeAt(prog, ep, ps, i) && CodeAt(prog, ep, qs, i)
    requires forall j :: i <= j < |ps| ==> SupportedPiece(ps[j])
    requires forall j :: i <= j < |qs| ==> SupportedPiece(qs[j])
    ensures |ps| == |qs| && forall j :: i <= j < |ps| ==> Equivalent(ps[j], qs[j])
    decreases |ps| - i
  {
    hide Encode, Opcode, Equivalent, SupportedPiece;
    MoreOrEnd(prog, ep, ps, i);
    MoreOrEnd(prog, ep, qs, i);
    if i == |ps| {
    } else {
      SamePiece(prog, ep, ps[i], qs[i]);
      UniqueReading(prog, ep + |Encode(ps[i])|, ps, qs, i + 1);
    }
  }
}
