/** The byte at `endbuf`.

    `compile` looks for space once for each token.  A token that begins on the last
    free byte and puts a second one writes it at `endbuf`, behind the space that it
    was given.  `Spill` tells from the text and the space whether this happens, and
    what is written. */
module Space {
  import opened Bytes
  import opened Pattern
  import opened Code
  import opened Syntax
  import opened Grammar

  /** The second bound byte of an interval that begins at k, if it is written at all; it is
      written before faults 44, 45 (behind a comma) and 46 are found. */
  function BoundByte(text: seq<byte>, k: nat): Option<byte> {
    match NumberFrom(text, k, 0)
    case BadNumber(_) => None
    case Number(lo, j) =>
      if lo >= 255 then None
      else if text[j] == BACKSLASH then
        if j + 1 < |text| && text[j + 1] == RBRACE then Some(lo) else None
      else if j + 1 >= |text| then None
      else if text[j + 1] == BACKSLASH then Some(255)
      else
        match NumberFrom(text, j + 1, 0)
        case BadNumber(_) => None
        case Number(hi, _) => if hi >= 255 then None else Some(hi)
  }

  /** The bounds low and top stand at k, and so much behind them that the second is written. */
  predicate SecondBoundAt(text: seq<byte>, k: nat, low: seq<byte>, top: Upper) {
    var i := k + |low| + |UpperText(top)|;
    && Numeral(low) && (top.Bound? ==> Numeral(top.digits)) && At(text, k, low) && At(text, k + |low|, UpperText(top))
    && match top
       case Same => ByteAt(text, i) == Byte('\\') && ByteAt(text, i + 1) == Byte('}')
       case Unbounded => ByteAt(text, i) == Byte('\\')
       case Bound(_) => ByteAt(text, i) == Byte('\\') || ByteAt(text, i) == Byte(',')
  }

  lemma SecondBoundWritten(text: seq<byte>, k: nat, low: seq<byte>, top: Upper)
    requires SecondBoundAt(text, k, low, top)
    ensures BoundByte(text, k) == Some(Highest(low, top))
  {
    hide At, NumberFrom, Value, UpperText;
    var j := k + |low|;
    UpperFirst(text, j, top);
    NumeralStops(text, k, low);
    if top.Bound? {
      NumeralStops(text, j + 1, top.digits);
    }
  }

  /** The second bound is written as soon as both are known, whatever comes then. */
  lemma BoundByteWhen(text: seq<byte>, k: nat, v: byte)
    requires k <= |text|
    ensures BoundByte(text, k) == Some(v) <==>
            exists low, top :: SecondBoundAt(text, k, low, top) && Highest(low, top) == v
  {
    hide BoundByte, SecondBoundAt;
    forall low, top | SecondBoundAt(text, k, low, top)
      ensures BoundByte(text, k) == Some(Highest(low, top))
    {
      SecondBoundWritten(text, k, low, top);
    }
    if BoundByte(text, k) == Some(v) {
      var low, top := BoundsOf(text, k);
      SecondBoundWritten(text, k, low, top);
    }
  }

  lemma BoundsOf(text: seq<byte>, k: nat) returns (low: seq<byte>, top: Upper)
    requires k <= |text| && BoundByte(text, k).Some?
    ensures SecondBoundAt(text, k, low, top)
  {
    hide NumberFrom, Value, At, UpperText, AllDigits, Accumulates;
    low := RunAt(text, k);
    top := Same;
    RunRead(text, k, low);
    var j := k + |low|;
    if text[j] == Byte('\\') {
    } else if text[j + 1] == Byte('\\') {
      top := Unbounded;
    } else {
      var high := RunAt(text, j + 1);
      RunRead(text, j + 1, high);
      top := Bound(high);
    }
    AtUpper(text, j, top);
  }

  /** The operand of an atom that takes two bytes. */
  function OperandByte(a: Atom): Option<byte> {
    if |Operand(a)| == 1 then Some(Operand(a)[0]) else None
  }

  function AtomSecond(t: Token): Option<byte> {
    if t.Fresh? then OperandByte(t.atom) else None
  }

  lemma ClassSecond(text: seq<byte>, k: nat, g: Groups)
    ensures AtomSecond(ClassAt(text, k, g)) == None
  {
    hide ClassBytes;
  }

  /** The second byte that is put for what stands behind a backslash. */
  function EscapeSecond(text: seq<byte>, k: nat, last: Option<Piece>, g: Groups): Option<byte>
    requires k < |text|
  {
    if text[k] == LBRACE && last.Some? then BoundByte(text, k + 1) else AtomSecond(EscapeAt(text, k, last, g))
  }

  /** The second byte that is put for the token at k. */
  function Second(text: seq<byte>, k: nat, eof: int, sed: bool, last: Option<Piece>, g: Groups): Option<byte> {
    if k + 1 < |text| && text[k] == BACKSLASH && text[k] != eof then EscapeSecond(text, k + 1, last, g)
    else AtomSecond(TokenAt(text, k, eof, sed, last, g))
  }

  /** The bytes by which a token makes the program longer. */
  function Growth(t: Token, last: Option<Piece>): int
    requires t.Fresh? || (t.Suffix? && last.Some?)
  {
    if t.Fresh? then |Encode(Piece(t.atom, false, []))| else |Encode(t.piece)| - |Encode(last.value)|
  }

  /** What is written at `endbuf` when `room` bytes are free in front of it. */
  function Spill(text: seq<byte>, k: nat, eof: int, sed: bool, last: Option<Piece>, g: Groups, room: int): Option<byte>
    decreases |text| - k
  {
    if room <= 0 then None
    else if room == 1 && Second(text, k, eof, sed, last, g).Some? then Second(text, k, eof, sed, last, g)
    else
      var t := TokenAt(text, k, eof, sed, last, g);
      match t
      case Suffix(p, next) => Spill(text, next, eof, sed, Some(p), g, room - Growth(t, last))
      case Fresh(a, groups, next) =>
        Spill(text, next, eof, sed, Some(Piece(a, false, [])), groups, room - Growth(t, last))
      case _ => None
  }

  lemma NoRoom(text: seq<byte>, k: nat, eof: int, sed: bool, last: Option<Piece>, g: Groups, room: int)
    ensures room <= 0 ==> Spill(text, k, eof, sed, last, g, room) == None
  {
    hide Encode, TokenAt, Second, Growth;
  }

  lemma CanSpill(text: seq<byte>, k: nat, eof: int, sed: bool, last: Option<Piece>, g: Groups, room: int)
    ensures room == 1 && Second(text, k, eof, sed, last, g).Some? ==> Spill(text, k, eof, sed, last, g, room).Some?
  {
    hide Encode, TokenAt, Second, Growth;
  }

  /** A token behind which nothing is written. */
  lemma SpillLast(text: seq<byte>, k: nat, eof: int, sed: bool, last: Option<Piece>, g: Groups, room: int)
    requires 0 < room
    requires var t := TokenAt(text, k, eof, sed, last, g);
             t.Finish? || t.Reject? || (t.Fresh? && room <= Growth(t, last))
    ensures Spill(text, k, eof, sed, last, g, room) == if room == 1 then Second(text, k, eof, sed, last, g) else None
  {
    hide Encode, TokenAt, Second, Growth;
  }

  /** A token that stays in front of `endbuf`. */
  lemma SpillNext(text: seq<byte>, k: nat, eof: int, sed: bool, last: Option<Piece>, g: Groups, room: int)
    requires 0 < room && (room == 1 ==> Second(text, k, eof, sed, last, g) == None)
    requires var t := TokenAt(text, k, eof, sed, last, g); t.Fresh? || t.Suffix?
    ensures var t := TokenAt(text, k, eof, sed, last, g);
            Spill(text, k, eof, sed, last, g, room) ==
            Spill(text, t.next, eof, sed, Some(if t.Fresh? then Piece(t.atom, false, []) else t.piece),
                  if t.Fresh? then t.groups else g, room - Growth(t, last))
  {
    hide Encode, TokenAt, Second, Growth;
  }

  function SpillOf(text: seq<byte>, at: nat, eof: int, sed: bool, room: int): Option<byte> {
    if !Parse(text, at, eof, sed).Regular? then None
    else Spill(text, if text[at] == CARET then at + 1 else at, eof, sed, None, NO_GROUPS, room)
  }

  // ---- The byte that is spilt is the byte of the program that belongs there ----

  /** Two bytes that are put together begin n bytes into the code of p: an opcode with its
      operand, or the bounds of an interval. */
  predicate PairIn(p: Piece, n: int) {
    var w := 1 + |Operand(p.atom)|;
    (n == 0 && w == 2) || (w <= n < |Encode(p)| && (n - w) % 2 == 0)
  }

  predicate PairAt(ps: seq<Piece>, n: int) {
    ps != [] && if n < |Encode(ps[0])| then PairIn(ps[0], n) else PairAt(ps[1..], n - |Encode(ps[0])|)
  }

  /** The spill, told from the pieces of the whole pattern. */
  function SpillIn(ps: seq<Piece>, room: int): Option<byte> {
    if 0 < room && PairAt(ps, room - 1) && room < |EncodeAll(ps)| then Some(EncodeAll(ps)[room]) else None
  }

  function CodeSize(last: Option<Piece>): nat {
    if last.None? then 0 else |Encode(last.value)|
  }

  lemma {:induction false} BoundsSize(intervals: seq<Interval>)
    ensures |BoundBytes(intervals)| == 2 * |intervals|
  {
    if intervals == [] {
    } else {
      BoundsSize(intervals[..|intervals| - 1]);
    }
  }

  lemma PieceSize(p: Piece)
    ensures |Encode(p)| == 1 + |Operand(p.atom)| + 2 * |p.intervals|
  {
    hide Operand, Opcode;
    BoundsSize(p.intervals);
  }

  /** q is p, perhaps with more suffixes. */
  predicate Extends(q: Piece, p: Piece) {
    q.atom == p.atom && p.intervals <= q.intervals
  }

  lemma {:induction false} BoundsPrefix(a: seq<Interval>, b: seq<Interval>)
    requires a <= b
    ensures BoundBytes(a) <= BoundBytes(b)
  {
    if a == b {
    } else {
      BoundsPrefix(a, b[..|b| - 1]);
    }
  }

  /** Suffixes change no byte of the code of a piece but its opcode. */
  lemma ExtendsCode(q: Piece, p: Piece)
    requires Extends(q, p)
    ensures |Encode(p)| <= |Encode(q)| && forall i :: 0 < i < |Encode(p)| ==> Encode(q)[i] == Encode(p)[i]
  {
    hide Operand, Opcode;
    BoundsPrefix(p.intervals, q.intervals);
  }

  lemma {:induction false} FirstExtends(text: seq<byte>, k: nat, eof: int, sed: bool, p: Piece, g: Groups)
    ensures var ps := ParseFrom(text, k, eof, sed, Some(p), g).pieces; ps != [] && Extends(ps[0], p)
    decreases |text| - k
  {
    hide EscapeAt, AtomAt;
    match TokenAt(text, k, eof, sed, Some(p), g)
    case Finish(_, _) =>
    case Reject(_, _, _) =>
    case Suffix(q, next) =>
      SuffixKind(text, k, eof, sed, Some(p), g);
      FirstExtends(text, next, eof, sed, q, g);
    case Fresh(_, _, _) =>
  }

  /** A suffix is a star, or an interval whose second bound is the second byte put. */
  lemma SuffixKind(text: seq<byte>, k: nat, eof: int, sed: bool, last: Option<Piece>, g: Groups)
    requires TokenAt(text, k, eof, sed, last, g).Suffix?
    ensures var q, p := TokenAt(text, k, eof, sed, last, g).piece, last.value;
            var second := Second(text, k, eof, sed, last, g);
            if second.None? then q == p.(star := true)
            else exists lo: byte :: q == p.(intervals := p.intervals + [Interval(lo, second.value)])
  {
    if text[k] == BACKSLASH {
      var lo := IntervalFrom(text, k + 2).interval.lo;
      assert BoundByte(text, k + 2) == Some(IntervalFrom(text, k + 2).interval.hi);
    }
  }

  lemma SecondKind(text: seq<byte>, k: nat, eof: int, sed: bool, last: Option<Piece>, g: Groups)
    ensures var t := TokenAt(text, k, eof, sed, last, g);
            t.Fresh? || t.Finish? ==> Second(text, k, eof, sed, last, g) == AtomSecond(t)
  {
    hide AtomAt, AtomSecond, BoundByte;
  }

  lemma SkipLast(last: Option<Piece>, tail: seq<Piece>, room: int)
    requires 0 < room
    ensures SpillIn(AsSeq(last) + tail, CodeSize(last) + room) == SpillIn(tail, room)
  {
    hide Encode, PairIn;
    var ps := AsSeq(last) + tail;
    if last.Some? {
      assert ps[0] == last.value && ps[1..] == tail;
    } else {
      assert ps == tail;
    }
  }

  /** The bytes of the first piece that may be spilt. */
  lemma FirstSpill(ps: seq<Piece>, room: int)
    requires ps != [] && 0 < room <= |Encode(ps[0])|
    ensures SpillIn(ps, room) ==
            if PairIn(ps[0], room - 1) && room < |Encode(ps[0])| then Some(Encode(ps[0])[room]) else None
  {
    hide Operand, Opcode, BoundBytes;
    PieceSize(ps[0]);
  }

  lemma FreshSpill(a: Atom, tail: seq<Piece>, room: int)
    requires tail != [] && Extends(tail[0], Piece(a, false, [])) && 0 < room <= |Encode(Piece(a, false, []))|
    ensures SpillIn(tail, room) == if room == 1 then OperandByte(a) else None
  {
    hide Operand, Opcode, SpillIn, BoundBytes;
    var bare := Piece(a, false, []);
    ExtendsCode(tail[0], bare);
    PieceSize(bare);
    PieceSize(tail[0]);
    FirstSpill(tail, room);
    if |Operand(a)| == 1 {
      assert Encode(bare)[1] == Operand(a)[0];
    }
  }

  lemma BoundsSpill(p: Piece, i: Interval, ps: seq<Piece>, room: int)
    requires ps != [] && Extends(ps[0], p.(intervals := p.intervals + [i])) && 1 <= room <= 2
    ensures SpillIn(ps, |Encode(p)| + room) == if room == 1 then Some(i.hi) else None
  {
    hide Operand, Opcode, SpillIn, Encode, BoundBytes;
    var q := p.(intervals := p.intervals + [i]);
    ExtendsCode(ps[0], q);
    PieceSize(p);
    PieceSize(q);
    PieceSize(ps[0]);
    FirstSpill(ps, |Encode(p)| + room);
    if room == 1 {
      IntervalEncoded(p, i);
      assert Encode(q)[|Encode(p)| + 1] == i.hi;
    }
  }

  /** For a good pattern the spill is the byte of its program that belongs at `endbuf`, and
      there is one exactly when two bytes that are put together straddle `endbuf`. */
  lemma {:induction false} SpillIsCode(text: seq<byte>, k: nat, eof: int, sed: bool, last: Option<Piece>, g: Groups,
                                       room: int)
    requires ParseFrom(text, k, eof, sed, last, g).Good? && 0 < room
    ensures Spill(text, k, eof, sed, last, g, room) ==
            SpillIn(ParseFrom(text, k, eof, sed, last, g).pieces, CodeSize(last) + room)
    decreases |text| - k
  {
    hide TokenAt, Second, SpillIn, Encode, Extends, OperandByte, EncodeAll;
    var t := TokenAt(text, k, eof, sed, last, g);
    SecondKind(text, k, eof, sed, last, g);
    match t
    case Finish(_, _) =>
      SkipLast(last, [], room);
      assert AsSeq(last) + [] == AsSeq(last);
      NothingSpilt(room);
    case Suffix(q, next) =>
      SuffixSpill(text, k, eof, sed, last, g, room);
      if room > Growth(t, last) {
        SpillIsCode(text, next, eof, sed, Some(q), g, room - Growth(t, last));
      }
    case Fresh(a, groups, next) =>
      var bare := Piece(a, false, []);
      var tail := ParseFrom(text, next, eof, sed, Some(bare), groups).pieces;
      SkipLast(last, tail, room);
      if room > |Encode(bare)| {
        SpillIsCode(text, next, eof, sed, Some(bare), groups, room - |Encode(bare)|);
      } else {
        FirstExtends(text, next, eof, sed, bare, groups);
        FreshSpill(a, tail, room);
      }
  }

  lemma NothingSpilt(room: int)
    ensures SpillIn([], room) == None
  {
  }

  lemma SuffixSpill(text: seq<byte>, k: nat, eof: int, sed: bool, last: Option<Piece>, g: Groups, room: int)
    requires TokenAt(text, k, eof, sed, last, g).Suffix? && 0 < room
    ensures var t := TokenAt(text, k, eof, sed, last, g);
            var ps := ParseFrom(text, t.next, eof, sed, Some(t.piece), g).pieces;
            var second := Second(text, k, eof, sed, last, g);
            && Growth(t, last) == (if second.None? then 0 else 2)
            && (second.Some? && room <= 2 ==>
                  SpillIn(ps, |Encode(last.value)| + room) == if room == 1 then second else None)
  {
    hide TokenAt, Second, SpillIn, Encode, Extends, Operand;
    var t, p := TokenAt(text, k, eof, sed, last, g), last.value;
    var second := Second(text, k, eof, sed, last, g);
    SuffixKind(text, k, eof, sed, last, g);
    PieceSize(p);
    PieceSize(t.piece);
    if second.Some? {
      var lo: byte :| t.piece == p.(intervals := p.intervals + [Interval(lo, second.value)]);
      FirstExtends(text, t.next, eof, sed, t.piece, g);
      if room <= 2 {
        BoundsSpill(p, Interval(lo, second.value), ParseFrom(text, t.next, eof, sed, Some(t.piece), g).pieces, room);
      }
    }
  }

  lemma FitsInside(ps: seq<Piece>, room: int)
    ensures room <= 0 || |Program(ps)| <= room ==> SpillIn(ps, room) == None
  {
    hide EncodeAll, PairAt;
  }

  /** The same for the whole text; a program that fits spills nothing. */
  lemma GoodSpill(text: seq<byte>, at: nat, eof: int, sed: bool, room: int)
    requires Parse(text, at, eof, sed).Regular? && Parse(text, at, eof, sed).rest.Good?
    ensures SpillOf(text, at, eof, sed, room) == SpillIn(Parse(text, at, eof, sed).rest.pieces, room)
    ensures |Program(Parse(text, at, eof, sed).rest.pieces)| <= room ==> SpillOf(text, at, eof, sed, room) == None
  {
    hide ParseFrom, SpillIn, Spill, EncodeAll;
    var ps := Parse(text, at, eof, sed).rest.pieces;
    FitsInside(ps, room);
    var k := if text[at] == CARET then at + 1 else at;
    if room > 0 {
      SpillIsCode(text, k, eof, sed, None, NO_GROUPS, room);
    } else {
      NoRoom(text, k, eof, sed, None, NO_GROUPS, room);
    }
  }
}
