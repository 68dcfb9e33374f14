/** From pattern text to pieces, without a buffer.

    The text is a sequence of bytes read from position k on.  Every fault that
    `compile` reports is reported here, at the same character.  Two outcomes
    stand for what the source leaves undefined: reading past the text, and
    overflowing the `int` in which an interval bound is accumulated. */
module Syntax {
  import opened Bytes
  import opened Pattern

  const NEWLINE: byte := 10
  const DOLLAR: byte := 36
  const LPAREN: byte := 40
  const RPAREN: byte := 41
  const ASTERISK: byte := 42
  const COMMA: byte := 44
  const DASH: byte := 45
  const PERIOD: byte := 46
  const LBRACKET: byte := 91
  const BACKSLASH: byte := 92
  const RBRACKET: byte := 93
  const CARET: byte := 94
  const LOWER_N: byte := 110
  const LBRACE: byte := 123
  const RBRACE: byte := 125

  const INT_MAX := 0x7fff_ffff

  datatype Fault = Code(n: int) | Exhausted | Overflow

  predicate Digit(c: byte) {
    48 <= c <= 57
  }

  // ---- Bracket classes ----

  /** A class, or a fault in it and the members read before. */
  datatype ClassText = ClassText(members: set<byte>, next: nat) | BadClass(fault: Fault, members: set<byte>)

  /** lo, lo + 1, ..., hi; or only hi, when hi is not above lo */
  function Range(lo: byte, hi: byte): (members: set<byte>)
    ensures forall b :: b in members <==> lo <= b < hi || b == hi
    decreases hi - lo
  {
    if lo < hi then {lo} + Range(lo + 1, hi) else {hi}
  }

  /** The rest of a class whose next element begins at k.  Before it came the members
      acc, the last of them lc; at the beginning there is none and lc is 0. */
  function ClassFrom(text: seq<byte>, k: nat, lc: byte, acc: set<byte>): (r: ClassText)
    ensures acc <= r.members && (r.ClassText? ==> k + 1 < r.next <= |text|)
    decreases |text| - k, 1
  {
    if k >= |text| then BadClass(Exhausted, acc)
    else if text[k] == 0 || text[k] == NEWLINE then BadClass(Code(49), acc)
    else if text[k] == DASH && lc != 0 then
      if k + 1 >= |text| then BadClass(Exhausted, acc)
      else if text[k + 1] == RBRACKET then ClassText(acc + {DASH}, k + 2)
      else ClassRest(text, k + 2, text[k + 1], acc + Range(lc, text[k + 1]))
    else ClassRest(text, k + 1, text[k], acc + {text[k]})
  }

  function ClassRest(text: seq<byte>, k: nat, lc: byte, acc: set<byte>): (r: ClassText)
    ensures acc <= r.members && (r.ClassText? ==> k < r.next <= |text|)
    decreases |text| - k, 2
  {
    if k >= |text| then BadClass(Exhausted, acc)
    else if text[k] == RBRACKET then ClassText(acc, k + 1)
    else ClassFrom(text, k, lc, acc)
  }

  // ---- Intervals ----

  datatype Number = Number(value: nat, stop: nat) | BadNumber(fault: Fault)

  /** A decimal number at k, ended by a backslash or a comma, where `stop` is. */
  function NumberFrom(text: seq<byte>, k: nat, acc: nat): (r: Number)
    ensures r.Number? ==> k < r.stop < |text| && (text[r.stop] == BACKSLASH || text[r.stop] == COMMA)
    decreases |text| - k
  {
    if k >= |text| then BadNumber(Exhausted)
    else if !Digit(text[k]) then BadNumber(Code(16))
    else if 10 * acc + text[k] > INT_MAX then BadNumber(Overflow)
    else
      var value := 10 * acc + text[k] - 48;
      if k + 1 >= |text| then BadNumber(Exhausted)
      else if text[k + 1] == BACKSLASH || text[k + 1] == COMMA then Number(value, k + 1)
      else NumberFrom(text, k + 1, value)
  }

  datatype IntervalText = IntervalText(interval: Interval, next: nat) | BadInterval(fault: Fault)

  /** The bounds of an interval whose first digit is at k. */
  function IntervalFrom(text: seq<byte>, k: nat): (r: IntervalText)
    ensures r.IntervalText? ==> k < r.next <= |text|
    ensures r.IntervalText? ==> r.interval.lo <= 254 && r.interval.lo <= r.interval.hi
  {
    match NumberFrom(text, k, 0)
    case BadNumber(fault) => BadInterval(fault)
    case Number(lo, j) =>
      if lo >= 255 then BadInterval(Code(11))
      else if text[j] == BACKSLASH then IntervalEnd(text, j + 1, lo, lo)
      else if j + 1 >= |text| then BadInterval(Exhausted)
      else if text[j + 1] == BACKSLASH then IntervalEnd(text, j + 2, lo, 255)
      else
        match NumberFrom(text, j + 1, 0)
        case BadNumber(fault) => BadInterval(fault)
        case Number(hi, i) =>
          if hi >= 255 then BadInterval(Code(11))
          else if text[i] == COMMA then BadInterval(Code(44))
          else IntervalEnd(text, i + 1, lo, hi)
  }

  function IntervalEnd(text: seq<byte>, k: nat, lo: byte, hi: byte): (r: IntervalText)
    ensures r.IntervalText? ==> r.interval == Interval(lo, hi) && r.next == k + 1 <= |text| && lo <= hi
  {
    if k >= |text| then BadInterval(Exhausted)
    else if text[k] != RBRACE then BadInterval(Code(45))
    else if hi < lo then BadInterval(Code(46))
    else IntervalText(Interval(lo, hi), k + 1)
  }

  // ---- Tokens ----

  /** Groups opened so far, those still open, innermost last, and the number closed. */
  datatype Groups = Groups(nbra: nat, open: seq<byte>, closed: nat)

  const NO_GROUPS := Groups(0, [], 0)

  datatype Option<T> = None | Some(value: T)

  /** The groups behind an atom, if it may stand there: groups are numbered as they
      open, the innermost closes first, and \d needs d groups that are closed. */
  function Next(g: Groups, a: Atom): Option<Groups> {
    match a
    case Open(id) =>
      if id == g.nbra < NBRA then Some(Groups(g.nbra + 1, g.open + [id], g.closed)) else None
    case Close(id) =>
      if g.open != [] && g.open[|g.open| - 1] == id
      then Some(Groups(g.nbra, g.open[..|g.open| - 1], g.closed + 1)) else None
    case Back(id) => if id < g.closed then Some(g) else None
    case _ => Some(g)
  }

  /** What stands at one place of the text: the end of the pattern, by a newline or not;
      a fault, with the bytes that must be free for it to be found, and whether a newline
      has been taken for the end; a suffix that turns the last piece into another; or an
      atom that begins a new piece. */
  datatype Token =
    | Finish(newline: bool, next: nat)
    | Reject(fault: Fault, need: nat := 0, newline: bool := false)
    | Suffix(piece: Piece, next: nat)
    | Fresh(atom: Atom, groups: Groups, next: nat)

  function TokenAt(text: seq<byte>, k: nat, eof: int, sed: bool, last: Option<Piece>, g: Groups): (t: Token)
    ensures t.Suffix? || t.Fresh? ==> k < t.next <= |text|
    ensures t.Suffix? ==> last.Some? && t.piece.atom == last.value.atom
    ensures t.Fresh? ==> Next(g, t.atom) == Some(t.groups)
    ensures t.Reject? && t.newline ==> t.fault == Code(42) && t.need == 0
  {
    if k >= |text| || (text[k] == BACKSLASH && k + 1 >= |text|) then Reject(Exhausted)
    else if text[k] == eof then Ending(g, false, k + 1)
    else if text[k] == NEWLINE then if sed then Reject(Code(36)) else Ending(g, true, k)
    else if text[k] == ASTERISK then
      if last.None? || (last.value.atom.Bracket() && last.value.Bare()) then Fresh(Lit(ASTERISK), g, k + 1)
      else Suffix(last.value.(star := true), k + 1)
    else if text[k] == BACKSLASH then EscapeAt(text, k + 1, last, g)
    else AtomAt(text, k, eof, g)
  }

  /** A character that is no suffix, no end and no backslash. */
  function AtomAt(text: seq<byte>, k: nat, eof: int, g: Groups): (t: Token)
    requires k < |text|
    ensures t.Fresh? ==> k < t.next <= |text| && Next(g, t.atom) == Some(t.groups)
    ensures t.Fresh? || (t.Reject? && !t.newline)
  {
    if text[k] == PERIOD then Fresh(Dot, g, k + 1)
    else if text[k] == DOLLAR then
      if k + 1 >= |text| then Reject(Exhausted)
      else Fresh(if text[k + 1] == eof || text[k + 1] == NEWLINE then Dollar else Lit(DOLLAR), g, k + 1)
    else if text[k] == LBRACKET then ClassAt(text, k + 1, g)
    else Fresh(Lit(text[k]), g, k + 1)
  }

  function Ending(g: Groups, newline: bool, next: nat): (t: Token)
    ensures t.Finish? || t.Reject?
  {
    if g.open != [] then Reject(Code(42), 0, newline) else Finish(newline, next)
  }

  function ClassAt(text: seq<byte>, k: nat, g: Groups): (t: Token)
    ensures t.Fresh? ==> k < t.next <= |text| && Next(g, t.atom) == Some(t.groups)
    ensures t.Fresh? || (t.Reject? && !t.newline)
  {
    if k >= |text| then Reject(Exhausted, 17)
    else
      var negated := text[k] == CARET;
      match ClassFrom(text, if negated then k + 1 else k, 0, {})
      case BadClass(fault, members) =>
        Reject(fault, if exists m :: m in members && m >= 128 then 33 else 17)
      case ClassText(members, next) => Fresh(Class(members, negated), g, next)
  }

  /** The character at k stands behind a backslash. */
  function EscapeAt(text: seq<byte>, k: nat, last: Option<Piece>, g: Groups): (t: Token)
    requires k < |text|
    ensures t.Suffix? || t.Fresh? ==> k < t.next <= |text|
    ensures t.Suffix? ==> last.Some? && t.piece.atom == last.value.atom
    ensures t.Fresh? ==> Next(g, t.atom) == Some(t.groups)
    ensures !t.Finish? && (t.Reject? ==> t.need == 0 && !t.newline)
  {
    var c := text[k];
    if c == LPAREN then
      if g.nbra >= NBRA then Reject(Code(43))
      else Fresh(Open(g.nbra), Groups(g.nbra + 1, g.open + [g.nbra], g.closed), k + 1)
    else if c == RPAREN then
      if g.open == [] then Reject(Code(42))
      else
        var n := |g.open| - 1;
        Fresh(Close(g.open[n]), Groups(g.nbra, g.open[..n], g.closed + 1), k + 1)
    else if c == LBRACE then
      if last.None? then Fresh(Lit(LBRACE), g, k + 1)
      else
        match IntervalFrom(text, k + 1)
        case BadInterval(fault) => Reject(fault)
        case IntervalText(interval, next) =>
          Suffix(last.value.(intervals := last.value.intervals + [interval]), next)
    else EscapedAtom(c, g, k + 1)
  }

  /** A newline is refused, n stands for it, a digit refers back, and others lose their meaning. */
  function EscapedAtom(c: byte, g: Groups, next: nat): (t: Token)
    ensures t.Fresh? ==> t.next == next && t.groups == g && Next(g, t.atom) == Some(g)
    ensures t.Fresh? || (t.Reject? && t.need == 0 && !t.newline)
  {
    if c == NEWLINE then Reject(Code(36))
    else if c == LOWER_N then Fresh(Lit(NEWLINE), g, next)
    else if 49 <= c <= 57 then
      if c - 49 >= g.closed then Reject(Code(25)) else Fresh(Back(c - 49), g, next)
    else Fresh(Lit(c), g, next)
  }

  // ---- Patterns ----

  /** Bad also tells the pieces read before the fault, the bytes needed to find it, and
      whether it lies behind a newline. */
  datatype Parsed =
    | Good(pieces: seq<Piece>, newline: bool, next: nat)
    | Bad(fault: Fault, pieces: seq<Piece>, need: nat, newline: bool)

  /** The pieces from `last` on: it may still get suffixes at k, and others follow. */
  function ParseFrom(text: seq<byte>, k: nat, eof: int, sed: bool, last: Option<Piece>, g: Groups): (r: Parsed)
    decreases |text| - k
  {
    match TokenAt(text, k, eof, sed, last, g)
    case Finish(newline, next) => Good(AsSeq(last), newline, next)
    case Reject(fault, need, newline) => Bad(fault, AsSeq(last), need, newline)
    case Suffix(piece, next) => ParseFrom(text, next, eof, sed, Some(piece), g)
    case Fresh(atom, groups, next) =>
      Attach(AsSeq(last), ParseFrom(text, next, eof, sed, Some(Piece(atom, false, [])), groups))
  }

  function AsSeq(last: Option<Piece>): seq<Piece> {
    if last.None? then [] else [last.value]
  }

  function Attach(front: seq<Piece>, r: Parsed): Parsed {
    r.(pieces := front + r.pieces)
  }

  lemma AttachNothing(r: Parsed)
    ensures Attach([], r) == r
  {
    assert [] + r.pieces == r.pieces;
  }

  lemma AttachTwice(a: seq<Piece>, b: seq<Piece>, r: Parsed)
    ensures Attach(a, Attach(b, r)) == Attach(a + b, r)
  {
    assert a + (b + r.pieces) == a + b + r.pieces;
  }

  /** Empty: there is no pattern; the one compiled before is meant. */
  datatype Expression =
    | Empty(newline: bool, next: nat)
    | Regular(anchored: bool, rest: Parsed)
    | Missing

  function Parse(text: seq<byte>, k: nat, eof: int, sed: bool): (e: Expression) {
    if k >= |text| then Missing
    else if text[k] == NEWLINE then Empty(true, k)
    else if text[k] == eof then Empty(false, k + 1)
    else if text[k] == CARET then Regular(true, ParseFrom(text, k + 1, eof, sed, None, NO_GROUPS))
    else Regular(false, ParseFrom(text, k, eof, sed, None, NO_GROUPS))
  }
}
