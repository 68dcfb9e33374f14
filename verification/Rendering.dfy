/** Patterns written out as text.

    `Render` chooses a spelling for any pattern whose brackets are balanced; reading
    that text gives the pattern back. */
module Rendering {
  import opened Bytes
  import opened Pattern
  import opened Syntax
  import opened Grouping
  import opened Grammar

  /** A delimiter that has no other meaning in the notation. */
  predicate Delimiter(eof: byte) {
    !Operator(eof) && eof !in {LPAREN, RPAREN, LBRACE, NEWLINE, LOWER_N} && !(49 <= eof <= 57)
  }

  predicate Operator(c: byte) {
    c in {PERIOD, ASTERISK, LBRACKET, BACKSLASH, DOLLAR, CARET}
  }

  // ---- Writing ----

  predicate Ordinary(c: int) {
    c !in {0, 10, 45, 93, 94}
  }

  /** The ordinary members from x on, in ascending order. */
  function OrdinaryFrom(members: set<byte>, x: nat): seq<byte>
    decreases 256 - x
  {
    if x >= 256 then []
    else (if x in members && Ordinary(x) then [x] else []) + OrdinaryFrom(members, x + 1)
  }

  function Only(c: byte, members: set<byte>): seq<byte> {
    if c in members then [c] else []
  }

  /** A right bracket comes first and a caret comes last. */
  function Front(members: set<byte>): seq<byte> {
    Only(RBRACKET, members) + (OrdinaryFrom(members, 1) + Only(CARET, members))
  }

  function Ones(bs: seq<byte>): (es: seq<Element>)
    ensures |es| == |bs| && forall i :: 0 <= i < |bs| ==> es[i] == One(bs[i])
  {
    if bs == [] then [] else [One(bs[0])] + Ones(bs[1..])
  }

  /** ... and a dash comes at the very end. */
  function ClassWord(members: set<byte>, negated: bool): Word {
    if Front(members) == [] then Bracketed(negated, [One(DASH)], false)
    else Bracketed(negated, Ones(Front(members)), DASH in members)
  }

  function Digits(n: byte): (w: seq<byte>)
    ensures |w| == 3
  {
    [48 + n / 100, 48 + n / 10 % 10, 48 + n % 10]
  }

  function IntervalWord(i: Interval): Word {
    Times(Digits(i.lo), if i.hi == 255 then Unbounded else Bound(Digits(i.hi)))
  }

  function IntervalWords(intervals: seq<Interval>): seq<Word> {
    if intervals == [] then [] else [IntervalWord(intervals[0])] + IntervalWords(intervals[1..])
  }

  function AtomWord(a: Atom, eof: byte): Word
    requires a.Back? ==> a.id < NBRA
  {
    match a
    case Lit(c) => if c == NEWLINE then QuotedNewline else if Operator(c) || c == eof then Quoted(c) else Plain(c)
    case Dot => Any
    case Class(members, negated) => ClassWord(members, negated)
    case Dollar => AtEnd
    case Open(_) => Begin
    case Close(_) => End
    case Back(id) => Again(49 + id)
  }

  /** A class that can be written: not empty, without NUL and newline, and with something
      to put before a caret, unless the class is negated. */
  predicate WritableClass(members: set<byte>, negated: bool) {
    && members != {} && 0 !in members && NEWLINE !in members
    && (negated || CARET !in members || exists m :: m in members && m != CARET && m != DASH)
  }

  predicate WritablePiece(p: Piece) {
    && Formed(p)
    && (p.atom.Class? ==> WritableClass(p.atom.members, p.atom.negated))
    && (p.atom.Bracket() ==> !p.star)
    && (p.atom.Back? ==> p.atom.id < NBRA)
  }

  function PieceWords(p: Piece, eof: byte): seq<Word>
    requires WritablePiece(p)
  {
    [AtomWord(p.atom, eof)] + ((if p.star then [Star] else []) + IntervalWords(p.intervals))
  }

  predicate Writable(ps: seq<Piece>) {
    forall i :: 0 <= i < |ps| ==> WritablePiece(ps[i]) && (ps[i].atom.Dollar? ==> i == |ps| - 1)
  }

  function Words(ps: seq<Piece>, eof: byte): seq<Word>
    requires Writable(ps)
  {
    if ps == [] then [] else PieceWords(ps[0], eof) + Words(ps[1..], eof)
  }

  function Render(anchored: bool, ps: seq<Piece>, eof: byte): seq<byte>
    requires Writable(ps)
  {
    (if anchored then [CARET] else []) + Text(Words(ps, eof)) + [eof]
  }

  // ---- Classes ----

  function Members(bs: seq<byte>): set<byte> {
    set b | b in bs
  }

  lemma {:induction false} OnesMeant(bs: seq<byte>, lc: byte)
    ensures Meant(Ones(bs), lc) == Members(bs)
  {
    if bs == [] {
    } else {
      OnesMeant(bs[1..], bs[0]);
      assert Ones(bs)[1..] == Ones(bs[1..]);
      assert bs == [bs[0]] + bs[1..];
    }
  }

  lemma {:induction false} OnesFit(bs: seq<byte>, lc: byte, first: bool)
    requires forall i :: 0 <= i < |bs| ==> bs[i] !in {0, NEWLINE, DASH} && (bs[i] == RBRACKET ==> i == 0 && first)
    ensures ElementsFit(Ones(bs), lc, first) && (lc != 0 || bs != [] ==> Latest(Ones(bs), lc) != 0)
  {
    if bs == [] {
    } else {
      OnesFit(bs[1..], bs[0], false);
      assert Ones(bs)[1..] == Ones(bs[1..]);
    }
  }

  lemma {:induction false} OrdinaryIs(members: set<byte>, x: nat, y: byte)
    ensures y in OrdinaryFrom(members, x) <==> y in members && Ordinary(y) && y >= x
    decreases 256 - x
  {
    if x >= 256 {
    } else {
      OrdinaryIs(members, x + 1, y);
    }
  }

  lemma OrdinaryOnly(members: set<byte>, i: nat)
    requires i < |OrdinaryFrom(members, 1)|
    ensures Ordinary(OrdinaryFrom(members, 1)[i])
  {
    OrdinaryIs(members, 1, OrdinaryFrom(members, 1)[i]);
  }

  lemma FrontHas(members: set<byte>, y: byte)
    requires 0 !in members && NEWLINE !in members
    ensures y in Front(members) <==> y in members && y != DASH
  {
    hide OrdinaryFrom;
    OrdinaryIs(members, 1, y);
    assert y in Front(members) <==>
           y in Only(RBRACKET, members) || y in OrdinaryFrom(members, 1) || y in Only(CARET, members);
  }

  lemma FrontOrder(members: set<byte>)
    ensures forall i :: 1 <= i < |Front(members)| ==> Front(members)[i] != RBRACKET
    ensures Front(members) != [] && Front(members)[0] == CARET ==> Front(members) == [CARET]
  {
    hide OrdinaryFrom;
    var mid := OrdinaryFrom(members, 1);
    forall i | 0 <= i < |mid|
      ensures Ordinary(mid[i])
    {
      OrdinaryOnly(members, i);
    }
  }

  /** The word of a class may stand anywhere, and means its members. */
  lemma ClassWritten(members: set<byte>, negated: bool, g: Groups)
    requires WritableClass(members, negated)
    ensures var w := ClassWord(members, negated);
            ClassFits(negated, w.elements, w.dash) && AtomOf(w, g) == Class(members, negated)
  {
    hide Front;
    var front := Front(members);
    forall y: byte
      ensures y in front <==> y in members && y != DASH
    {
      FrontHas(members, y);
    }
    FrontOrder(members);
    if front == [] {
      OnlyDash(members, front);
      assert [One(DASH)][1..] == [];
      assert Meant([], DASH) == {} && {DASH} + {} == {DASH};
      assert Meant([One(DASH)], 0) == {DASH} + Meant([One(DASH)][1..], DASH);
      assert ElementsFit([One(DASH)], 0, true) && Latest([One(DASH)], 0) != 0;
    } else {
      FrontShape(members, negated, front);
      OnesFit(front, 0, true);
      OnesMeant(front, 0);
      assert Members(front) + (if DASH in members then {DASH} else {}) == members;
    }
  }

  lemma OnlyDash(members: set<byte>, front: seq<byte>)
    requires members != {} && front == [] && forall y: byte :: y in front <==> y in members && y != DASH
    ensures members == {DASH}
  {
    forall m | m in members
      ensures m == DASH
    {
      assert m !in front;
    }
  }

  lemma FrontShape(members: set<byte>, negated: bool, front: seq<byte>)
    requires WritableClass(members, negated) && front != []
    requires forall y: byte :: y in front <==> y in members && y != DASH
    requires forall i :: 1 <= i < |front| ==> front[i] != RBRACKET
    requires front[0] == CARET ==> front == [CARET]
    ensures !negated ==> front[0] != CARET
    ensures forall i :: 0 <= i < |front| ==> front[i] !in {0, NEWLINE, DASH} && (front[i] == RBRACKET ==> i == 0)
  {
    forall i | 0 <= i < |front|
      ensures front[i] in members && front[i] != DASH
    {
      assert front[i] in front;
    }
    if !negated && CARET in members {
      var m :| m in members && m != CARET && m != DASH;
      assert m in front && front != [CARET];
    }
  }

  // ---- Pieces ----

  lemma DigitsValue(n: byte)
    ensures AllDigits(Digits(n)) && Value(Digits(n)) == n
  {
    var w := Digits(n);
    var x, y := n / 100, 10 * (n / 100) + n / 10 % 10;
    assert w[..2][..1] == [w[0]] && [w[0]][..0] == [] && w[..2][1] == w[1];
    assert Value([w[0]]) == x by { assert Value([]) == 0; }
    assert Value(w[..2]) == 10 * Value([w[0]]) + w[1] - 48 == y;
    assert 10 * y + n % 10 == n;
  }

  lemma {:induction false} IntervalsWritten(more: seq<Interval>, ws: seq<Word>, p: Piece, g: Groups, eof: byte)
    requires Delimiter(eof) && forall i :: 0 <= i < |more| ==> more[i].lo <= 254 && more[i].lo <= more[i].hi
    ensures Denoted(IntervalWords(more) + ws, Some(p), g, eof, eof) ==
            Denoted(ws, Some(p.(intervals := p.intervals + more)), g, eof, eof)
    decreases |more|
  {
    hide IntervalWord, IntervalWords, Denoted, MayStand, Read, Text, WordText;
    FirstInterval(more, ws);
    if more == [] {
      assert p.intervals + more == p.intervals;
    } else {
      var i, rest := more[0], IntervalWords(more[1..]) + ws;
      var w := IntervalWord(i);
      IntervalWritten(i, p, g, eof, FirstOf(Text(rest), eof));
      DenotedFirst(w, rest, Some(p), g, eof, eof);
      IntervalsWritten(more[1..], ws, p.(intervals := p.intervals + [i]), g, eof);
      assert p.intervals + [i] + more[1..] == p.intervals + more;
    }
  }

  lemma FirstInterval(more: seq<Interval>, ws: seq<Word>)
    ensures IntervalWords(more) + ws ==
            if more == [] then ws else [IntervalWord(more[0])] + (IntervalWords(more[1..]) + ws)
  {
    hide IntervalWord;
  }

  lemma IntervalWritten(i: Interval, p: Piece, g: Groups, eof: byte, behind: int)
    requires Delimiter(eof) && i.lo <= 254 && i.lo <= i.hi
    ensures MayStand(IntervalWord(i), Some(p), g, eof, behind)
    ensures Read(IntervalWord(i), Some(p), g, 0) == Suffix(p.(intervals := p.intervals + [i]), 0)
  {
    hide Digits, Value;
    DigitsValue(i.lo);
    DigitsValue(i.hi);
  }

  lemma AtomWritten(a: Atom, last: Option<Piece>, g: Groups, eof: byte, behind: int)
    requires Delimiter(eof) && Next(g, a).Some? && (a.Back? ==> a.id < NBRA)
    requires (a.Class? ==> WritableClass(a.members, a.negated)) && (a.Dollar? ==> behind == eof)
    ensures MayStand(AtomWord(a, eof), last, g, eof, behind)
    ensures Read(AtomWord(a, eof), last, g, 0) == Fresh(a, Next(g, a).value, 0)
  {
    hide ClassFits, ClassWord, Meant;
    if a.Class? {
      ClassWritten(a.members, a.negated, g);
    }
  }

  lemma PieceWritten(p: Piece, ws: seq<Word>, last: Option<Piece>, g: Groups, eof: byte)
    requires Delimiter(eof) && WritablePiece(p) && Next(g, p.atom).Some? && (p.atom.Dollar? ==> ws == [])
    ensures Denoted(PieceWords(p, eof) + ws, last, g, eof, eof) ==
            var rest := Denoted(ws, Some(p), Next(g, p.atom).value, eof, eof);
            if rest.None? then None else Some(AsSeq(last) + rest.value)
  {
    hide AtomWord, IntervalWords, MayStand, Read, Next, WordText, Denoted, Text;
    var w, h := AtomWord(p.atom, eof), Next(g, p.atom).value;
    var star: seq<Word> := if p.star then [Star] else [];
    var more := IntervalWords(p.intervals) + ws;
    var tail := star + more;
    assert PieceWords(p, eof) + ws == [w] + tail;
    if p.atom.Dollar? {
      DollarAlone(p);
      assert tail == [];
    }
    AtomWritten(p.atom, last, g, eof, FirstOf(Text(tail), eof));
    DenotedFirst(w, tail, last, g, eof, eof);
    StarWritten(p.atom, p.star, more, h, eof);
    IntervalsWritten(p.intervals, ws, Piece(p.atom, p.star, []), h, eof);
    assert [] + p.intervals == p.intervals;
  }

  lemma DollarAlone(p: Piece)
    requires WritablePiece(p) && p.atom.Dollar?
    ensures !p.star && IntervalWords(p.intervals) == [] && Text([]) == []
  {
  }

  lemma StarWritten(a: Atom, star: bool, more: seq<Word>, g: Groups, eof: byte)
    requires Delimiter(eof) && (star ==> !a.Bracket())
    ensures Denoted((if star then [Star] else []) + more, Some(Piece(a, false, [])), g, eof, eof) ==
            Denoted(more, Some(Piece(a, star, [])), g, eof, eof)
  {
    var ws: seq<Word> := (if star then [Star] else []) + more;
    if star {
      assert ws[0] == Star && ws[1..] == more;
    } else {
      assert ws == more;
    }
  }

  lemma {:induction false} AllWritten(ps: seq<Piece>, last: Option<Piece>, g: Groups, eof: byte)
    requires Delimiter(eof) && Writable(ps) && After(g, ps).Some? && After(g, ps).value.open == []
    ensures Denoted(Words(ps, eof), last, g, eof, eof) == Some(AsSeq(last) + ps)
    decreases |ps|
  {
    hide PieceWords, WritablePiece, Next, MayStand, Read, Text;
    if ps == [] {
      assert [] + AsSeq(last) == AsSeq(last) + ps;
    } else {
      var p, rest := ps[0], ps[1..];
      AllWritten(rest, Some(p), Next(g, p.atom).value, eof);
      PieceWritten(p, Words(rest, eof), last, g, eof);
      assert AsSeq(last) + ([p] + rest) == AsSeq(last) + ps;
    }
  }

  /** Reading undoes writing: the text of a pattern is accepted and gives the pattern. */
  lemma ParseRendered(anchored: bool, ps: seq<Piece>, eof: byte, sed: bool)
    requires Delimiter(eof) && Writable(ps) && Balanced(ps) && (anchored || ps != [])
    ensures Parse(Render(anchored, ps, eof), 0, eof, sed) ==
            Regular(anchored, Good(ps, false, |Render(anchored, ps, eof)|))
  {
    hide WritablePiece, Denoted, After, Words, Text, ParseFrom, At;
    var text, ws := Render(anchored, ps, eof), Words(ps, eof);
    var k := if anchored then 1 else 0;
    assert text == (if anchored then [CARET] else []) + (Text(ws) + [eof]);
    AtSelf(text, k, k + |Text(ws)|);
    assert text[k..k + |Text(ws)|] == Text(ws) && text[k + |Text(ws)|] == eof;
    AllWritten(ps, None, NO_GROUPS, eof);
    assert AsSeq(None) + ps == ps;
    if !anchored {
      FirstByte(ps, eof);
    }
    assert Notation(text, 0, eof, sed, anchored, ws, ps, false, |text|);
    AcceptedIffSpelled(text, 0, eof, sed, anchored, ps, false, |text|);
  }

  lemma FirstByte(ps: seq<Piece>, eof: byte)
    requires Delimiter(eof) && Writable(ps) && ps != []
    ensures Text(Words(ps, eof)) != [] && Text(Words(ps, eof))[0] !in {CARET, NEWLINE, eof}
  {
    hide IntervalWords, Front, Ones, BodyText;
    var w := AtomWord(ps[0].atom, eof);
    assert Words(ps, eof)[0] == w;
    assert Text(Words(ps, eof))[0] == WordText(w)[0];
  }

  // ---- A back reference into a group that is still open ----

  /** The pieces of \(\(x\)\1\) */
  function NamesOpenGroup(x: byte): seq<Piece> {
    [Piece(Open(0), false, []), Piece(Open(1), false, []), Piece(Lit(x), false, []),
     Piece(Close(1), false, []), Piece(Back(0), false, []), Piece(Close(0), false, [])]
  }

  lemma AfterOne(g: Groups, a: Atom, rest: seq<Piece>)
    requires Next(g, a).Some?
    ensures After(g, [Piece(a, false, [])] + rest) == After(Next(g, a).value, rest)
  {
    hide Next;
    assert ([Piece(a, false, [])] + rest)[1..] == rest;
  }

  lemma OpenGroupBalanced(x: byte)
    ensures Balanced(NamesOpenGroup(x))
  {
    hide After, Next;
    var p5 := [Piece(Close(0), false, [])];
    var p4 := [Piece(Back(0), false, [])] + p5;
    var p3 := [Piece(Close(1), false, [])] + p4;
    var p2 := [Piece(Lit(x), false, [])] + p3;
    var p1 := [Piece(Open(1), false, [])] + p2;
    var g1, g2, g4 := Groups(1, [0], 0), Groups(2, [0, 1], 0), Groups(2, [0], 1);
    NestedSteps(x);
    AfterOne(NO_GROUPS, Open(0), p1);
    AfterOne(g1, Open(1), p2);
    AfterOne(g2, Lit(x), p3);
    AfterOne(g2, Close(1), p4);
    AfterOne(g4, Back(0), p5);
    AfterOne(g4, Close(0), []);
    assert p5 + [] == p5;
    AfterNone(Groups(2, [], 2));
    assert NamesOpenGroup(x) == [Piece(Open(0), false, [])] + p1;
  }

  lemma NestedSteps(x: byte)
    ensures Next(NO_GROUPS, Open(0)) == Some(Groups(1, [0], 0))
    ensures Next(Groups(1, [0], 0), Open(1)) == Next(Groups(2, [0, 1], 0), Lit(x)) == Some(Groups(2, [0, 1], 0))
    ensures Next(Groups(2, [0, 1], 0), Close(1)) == Next(Groups(2, [0], 1), Back(0)) == Some(Groups(2, [0], 1))
    ensures Next(Groups(2, [0], 1), Close(0)) == Some(Groups(2, [], 2))
  {
    assert [] + [0] == [0] && [0] + [1] == [0, 1] && [0, 1][..1] == [0] && [0][..0] == [];
  }

  lemma AfterNone(g: Groups)
    ensures After(g, []) == Some(g)
  {
  }

  /** Counting closed groups is not enough: \(\(x\)\1\) is accepted, although \1 names
      a group that is not closed. */
  lemma OpenGroupAccepted(x: byte, eof: byte, sed: bool)
    requires Delimiter(eof)
    ensures Writable(NamesOpenGroup(x)) && !Supported(NamesOpenGroup(x))
    ensures Parse(Render(false, NamesOpenGroup(x), eof), 0, eof, sed) ==
            Regular(false, Good(NamesOpenGroup(x), false, |Render(false, NamesOpenGroup(x), eof)|))
  {
    var ps := NamesOpenGroup(x);
    OpenGroupBalanced(x);
    ParseRendered(false, ps, eof, sed);
    assert !Occurs(ps[..4], Close(0));
    if Supported(ps) {
      SupportedAt(ps, 4);
    }
  }
}
