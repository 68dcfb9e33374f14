/** The notation of patterns, as a grammar.

    A pattern is spelled by words.  `WordText` says what each word looks like,
    `MayStand` where it may stand, and `Denoted` what the words stand for; none of
    them follows the way in which text is read.  A text is accepted exactly when it is spelled by
    words, and gives the pieces that they denote. */
module Grammar {
  import opened Bytes
  import opened Pattern
  import opened Syntax

  /** Inside a class: a byte, or a range from the element before up to c. */
  datatype Element = One(c: byte) | UpTo(c: byte)

  /** The part of an interval behind its first number. */
  datatype Upper = Same | Unbounded | Bound(digits: seq<byte>)

  datatype Word =
    | Plain(c: byte)
    | Quoted(c: byte)
    | QuotedNewline
    | Any
    | Bracketed(negated: bool, elements: seq<Element>, dash: bool)
    | AtEnd
    | Begin
    | End
    | Again(digit: byte)
    | Star
    | Times(low: seq<byte>, top: Upper)
  {
    predicate Suffixed() {
      Star? || Times?
    }
  }

  // ---- What words look like ----

  function ElementText(e: Element): seq<byte> {
    match e
    case One(c) => [c]
    case UpTo(c) => [Byte('-'), c]
  }

  function ElementsText(es: seq<Element>): seq<byte> {
    if es == [] then [] else ElementText(es[0]) + ElementsText(es[1..])
  }

  /** Elements, perhaps a dash that stands for itself, and the closing bracket. */
  function BodyText(es: seq<Element>, dash: bool): seq<byte> {
    ElementsText(es) + ((if dash then [Byte('-')] else []) + [Byte(']')])
  }

  function UpperText(t: Upper): (text: seq<byte>)
    ensures |text| == if t.Same? then 0 else if t.Unbounded? then 1 else 1 + |t.digits|
  {
    match t
    case Same => []
    case Unbounded => [Byte(',')]
    case Bound(digits) => [Byte(',')] + digits
  }

  function WordText(w: Word): (text: seq<byte>)
    ensures |text| > 0
  {
    match w
    case Plain(c) => [c]
    case Quoted(c) => [Byte('\\'), c]
    case QuotedNewline => [Byte('\\'), Byte('n')]
    case Any => [Byte('.')]
    case Bracketed(negated, es, dash) => [Byte('[')] + ((if negated then [Byte('^')] else []) + BodyText(es, dash))
    case AtEnd => [Byte('$')]
    case Begin => [Byte('\\'), Byte('(')]
    case End => [Byte('\\'), Byte(')')]
    case Again(digit) => [Byte('\\'), digit]
    case Star => [Byte('*')]
    case Times(low, top) => [Byte('\\'), Byte('{')] + (low + (UpperText(top) + [Byte('\\'), Byte('}')]))
  }

  function Text(ws: seq<Word>): seq<byte> {
    if ws == [] then [] else WordText(ws[0]) + Text(ws[1..])
  }

  // ---- What words stand for ----

  /** The members that elements add behind the element lc. */
  function Meant(es: seq<Element>, lc: byte): set<byte> {
    if es == [] then {}
    else (if es[0].One? then {es[0].c} else Range(lc, es[0].c)) + Meant(es[1..], es[0].c)
  }

  function Latest(es: seq<Element>, lc: byte): byte {
    if es == [] then lc else Latest(es[1..], es[0].c)
  }

  predicate IsDigit(c: int) {
    Byte('0') <= c <= Byte('9')
  }

  predicate AllDigits(digits: seq<byte>) {
    forall i :: 0 <= i < |digits| ==> IsDigit(digits[i])
  }

  function Value(digits: seq<byte>): (v: int)
    ensures AllDigits(digits) ==> v >= 0
  {
    if digits == [] then 0
    else
      var n := |digits| - 1;
      10 * Value(digits[..n]) + digits[n] - Byte('0')
  }

  function Pow10(n: nat): nat {
    if n == 0 then 1 else 10 * Pow10(n - 1)
  }

  /** The value by place: a digit in front of n others counts 10^n. */
  lemma {:induction false} PlaceValue(d: byte, digits: seq<byte>)
    ensures Value([d] + digits) == (d as int - '0' as int) * Pow10(|digits|) + Value(digits)
  {
    var x := d as int - '0' as int;
    if digits == [] {
      assert ([d] + digits)[..0] == [] && ([d] + digits)[0] == d;
      assert Value([]) == 0 && Pow10(0) == 1;
    } else {
      var n := |digits| - 1;
      var front, c, all := digits[..n], digits[n], [d] + digits;
      assert all[..n + 1] == [d] + front && all[n + 1] == c && |all| == n + 2;
      PlaceValue(d, front);
      TenTimes(x, Pow10(n), Value(front));
      assert Value(all) == 10 * Value([d] + front) + c - Byte('0');
      assert Value(digits) == 10 * Value(front) + c - Byte('0') && Pow10(n + 1) == 10 * Pow10(n);
    }
  }

  lemma TenTimes(x: int, p: int, v: int)
    ensures 10 * (x * p + v) == x * (10 * p) + 10 * v
  {
    assert 10 * (x * p) == x * (10 * p);
  }

  /** A bound of an interval. */
  predicate Numeral(digits: seq<byte>) {
    digits != [] && AllDigits(digits) && Value(digits) < 255
  }

  function Highest(low: seq<byte>, top: Upper): int {
    match top
    case Same => Value(low)
    case Unbounded => 255
    case Bound(digits) => Value(digits)
  }

  /** An atom that a word stands for, behind the groups g. */
  function AtomOf(w: Word, g: Groups): Atom
    requires !w.Suffixed() && (w.Begin? ==> g.nbra < 9) && (w.End? ==> g.open != [])
  {
    match w
    case Plain(c) => Lit(c)
    case Quoted(c) => Lit(c)
    case QuotedNewline => Lit(Byte('\n'))
    case Any => Dot
    case Bracketed(negated, es, dash) => Class(Meant(es, 0) + (if dash then {Byte('-')} else {}), negated)
    case AtEnd => Dollar
    case Begin => Open(g.nbra)
    case End => Close(g.open[|g.open| - 1])
    case Again(digit) => Back(if digit < Byte('1') then 0 else digit - Byte('1'))
  }

  function WithSuffix(p: Piece, w: Word): Piece
    requires w.Star? || (w.Times? && Numeral(w.low) && 0 <= Highest(w.low, w.top) <= 255)
  {
    if w.Star? then p.(star := true)
    else p.(intervals := p.intervals + [Interval(Value(w.low), Highest(w.low, w.top))])
  }

  // ---- Where words may stand ----

  /** A right bracket may only come first, a dash that stands for itself comes first (or
      behind a NUL that ends a range), and NUL and newline only end a range. */
  predicate ElementsFit(es: seq<Element>, lc: byte, first: bool) {
    if es == [] then true
    else
      && (match es[0]
          case One(c) => c != 0 && c != Byte('\n') && (c == Byte('-') ==> lc == 0) && (c == Byte(']') ==> first)
          case UpTo(c) => lc != 0 && c != Byte(']'))
      && ElementsFit(es[1..], es[0].c, false)
  }

  predicate ClassFits(negated: bool, es: seq<Element>, dash: bool) {
    && es != [] && ElementsFit(es, 0, true)
    && (!negated ==> es[0].c != Byte('^')) && (dash ==> Latest(es, 0) != 0)
  }

  predicate NothingToRepeat(last: Option<Piece>) {
    last.None? || (last.value.atom.Bracket() && last.value.Bare())
  }

  predicate IntervalFits(low: seq<byte>, top: Upper) {
    Numeral(low) && (top.Bound? ==> Numeral(top.digits)) && Value(low) <= Highest(low, top)
  }

  /** The word has something to refer to. */
  predicate Usable(w: Word, last: Option<Piece>, g: Groups) {
    match w
    case Begin => g.nbra < 9
    case End => g.open != []
    case Again(digit) => Byte('1') <= digit <= Byte('9') && digit - Byte('1') < g.closed
    case Star => last.Some?
    case Times(low, top) => last.Some? && Numeral(low) && 0 <= Highest(low, top) <= 255
    case _ => true
  }

  /** w may stand behind the piece `last` and the groups g, in front of the byte `behind`;
      `behind` is -1 at the end of the text. */
  predicate MayStand(w: Word, last: Option<Piece>, g: Groups, eof: int, behind: int): (b: bool)
    ensures b ==> Usable(w, last, g)
  {
    && WordText(w)[0] != eof
    && match w
       case Plain(c) =>
         && c != Byte('\n') && c != Byte('.') && c != Byte('[') && c != Byte('\\')
         && (c == Byte('*') ==> NothingToRepeat(last))
         && (c == Byte('$') ==> 0 <= behind && behind != eof && behind != Byte('\n'))
       case Quoted(c) =>
         && c != Byte('\n') && c != Byte('n') && c != Byte('(') && c != Byte(')')
         && !(Byte('1') <= c <= Byte('9')) && (c == Byte('{') ==> last.None?)
       case QuotedNewline => true
       case Any => true
       case Bracketed(negated, es, dash) => ClassFits(negated, es, dash)
       case AtEnd => 0 <= behind && (behind == eof || behind == Byte('\n'))
       case Begin => g.nbra < 9
       case End => g.open != []
       case Again(digit) => Byte('1') <= digit <= Byte('9') && digit - Byte('1') < g.closed
       case Star => !NothingToRepeat(last)
       case Times(low, top) => last.Some? && IntervalFits(low, top)
  }

  /** The token that a word is. */
  function Read(w: Word, last: Option<Piece>, g: Groups, next: nat): (t: Token)
    requires Usable(w, last, g)
    ensures if w.Suffixed() then t.Suffix? && t.next == next else t.Fresh? && t.next == next
  {
    if w.Suffixed() then Suffix(WithSuffix(last.value, w), next)
    else Fresh(AtomOf(w, g), Next(g, AtomOf(w, g)).value, next)
  }

  /** Where words lead: the pieces that are complete, the last piece, and the groups. */
  datatype Place = Place(done: seq<Piece>, last: Option<Piece>, groups: Groups)

  /** Where words lead that begin behind `last` and g and stand in front of the byte `end`. */
  function Reached(ws: seq<Word>, last: Option<Piece>, g: Groups, eof: int, end: int): Option<Place> {
    if ws == [] then Some(Place([], last, g))
    else if !MayStand(ws[0], last, g, eof, FirstOf(Text(ws[1..]), end)) then None
    else
      match Read(ws[0], last, g, 0)
      case Suffix(p, _) => Reached(ws[1..], Some(p), g, eof, end)
      case Fresh(a, groups, _) =>
        var rest := Reached(ws[1..], Some(Piece(a, false, [])), groups, eof, end);
        if rest.None? then None else Some(rest.value.(done := AsSeq(last) + rest.value.done))
  }

  function FirstOf(text: seq<byte>, end: int): int {
    if text == [] then end else text[0]
  }

  /** The pieces that words stand for, if they are the words of a whole pattern. */
  function Denoted(ws: seq<Word>, last: Option<Piece>, g: Groups, eof: int, end: int): Option<seq<Piece>> {
    var r := Reached(ws, last, g, eof, end);
    if r.Some? && r.value.groups.open == [] then Some(r.value.done + AsSeq(r.value.last)) else None
  }

  lemma TextFirst(w: Word, ws: seq<Word>)
    ensures Text([w] + ws) == WordText(w) + Text(ws)
  {
    assert ([w] + ws)[1..] == ws;
  }

  lemma ReachedFirst(w: Word, ws: seq<Word>, last: Option<Piece>, g: Groups, eof: int, end: int)
    requires MayStand(w, last, g, eof, FirstOf(Text(ws), end))
    ensures var t, r := Read(w, last, g, 0), Reached([w] + ws, last, g, eof, end);
            if t.Suffix? then r == Reached(ws, Some(t.piece), g, eof, end)
            else
              var rest := Reached(ws, Some(Piece(t.atom, false, [])), t.groups, eof, end);
              r == if rest.None? then None else Some(rest.value.(done := AsSeq(last) + rest.value.done))
  {
    hide MayStand, Read, Usable, Text;
    assert ([w] + ws)[1..] == ws;
  }

  lemma DenotedFirst(w: Word, ws: seq<Word>, last: Option<Piece>, g: Groups, eof: int, end: int)
    requires MayStand(w, last, g, eof, FirstOf(Text(ws), end))
    ensures var t, r := Read(w, last, g, 0), Denoted([w] + ws, last, g, eof, end);
            if t.Suffix? then r == Denoted(ws, Some(t.piece), g, eof, end)
            else
              var rest := Denoted(ws, Some(Piece(t.atom, false, [])), t.groups, eof, end);
              r == if rest.None? then None else Some(AsSeq(last) + rest.value)
  {
    hide MayStand, Read, Usable, Reached, Text;
    ReachedFirst(w, ws, last, g, eof, end);
    var t := Read(w, last, g, 0);
    if t.Fresh? {
      var rest := Reached(ws, Some(Piece(t.atom, false, [])), t.groups, eof, end);
      if rest.Some? {
        var done, more := rest.value.done, AsSeq(rest.value.last);
        assert AsSeq(last) + done + more == AsSeq(last) + (done + more);
      }
    }
  }

  /** The delimiter, or a newline in its place. */
  predicate Ended(text: seq<byte>, k: nat, eof: int, sed: bool, newline: bool) {
    && k < |text|
    && if newline then text[k] == Byte('\n') && text[k] != eof && !sed
       else text[k] == eof && (text[k] == Byte('\\') ==> k + 1 < |text|)
  }

  /** From k on, the text is spelled by ws, which denote ps, and goes on at next. */
  predicate Spells(text: seq<byte>, k: nat, eof: int, sed: bool, last: Option<Piece>, g: Groups,
                   ws: seq<Word>, ps: seq<Piece>, newline: bool, next: nat) {
    var end := k + |Text(ws)|;
    && At(text, k, Text(ws)) && Ended(text, end, eof, sed, newline)
    && next == (if newline then end else end + 1)
    && Denoted(ws, last, g, eof, text[end]) == Some(ps)
  }

  // ---- Spelled texts are read ----

  lemma ElementRead(text: seq<byte>, k: nat, lc: byte, acc: set<byte>, e: Element)
    requires At(text, k, ElementText(e)) && ElementsFit([e], lc, false)
    ensures ClassRest(text, k, lc, acc) ==
            ClassRest(text, k + |ElementText(e)|, e.c, acc + if e.One? then {e.c} else Range(lc, e.c))
  {
    hide At;
    AtFirst(text, k, ElementText(e));
  }

  lemma {:induction false} ElementsRead(text: seq<byte>, k: nat, lc: byte, acc: set<byte>, es: seq<Element>)
    requires At(text, k, ElementsText(es)) && ElementsFit(es, lc, false)
    ensures ClassRest(text, k, lc, acc) ==
            ClassRest(text, k + |ElementsText(es)|, Latest(es, lc), acc + Meant(es, lc))
    decreases |es|
  {
    hide At, ClassRest, ElementText;
    if es == [] {
      assert acc + Meant(es, lc) == acc;
    } else {
      var e, more := es[0], es[1..];
      AtSplit(text, k, ElementText(e), ElementsText(more));
      assert [e][1..] == [] && ElementsFit([], e.c, false);
      ElementRead(text, k, lc, acc, e);
      var acc' := acc + if e.One? then {e.c} else Range(lc, e.c);
      ElementsRead(text, k + |ElementText(e)|, e.c, acc', more);
      assert acc + Meant(es, lc) == acc' + Meant(more, e.c);
    }
  }

  /** The first element of a class, and those behind it. */
  lemma MembersRead(text: seq<byte>, k: nat, es: seq<Element>)
    requires es != [] && ElementsFit(es, 0, true) && At(text, k, ElementsText(es))
    ensures ClassFrom(text, k, 0, {}) == ClassRest(text, k + |ElementsText(es)|, Latest(es, 0), Meant(es, 0))
  {
    hide At;
    var c, more := es[0].c, es[1..];
    assert ElementsText(es) == [c] + ElementsText(more);
    AtFirst(text, k, ElementsText(es));
    AtSplit(text, k, [c], ElementsText(more));
    ElementsRead(text, k + 1, c, {c}, more);
    assert {} + {c} == {c};
  }

  lemma BodyRead(text: seq<byte>, k: nat, es: seq<Element>, dash: bool)
    requires es != [] && ElementsFit(es, 0, true) && (dash ==> Latest(es, 0) != 0) && At(text, k, BodyText(es, dash))
    ensures ClassFrom(text, k, 0, {}) ==
            ClassText(Meant(es, 0) + (if dash then {Byte('-')} else {}), k + |BodyText(es, dash)|)
  {
    hide At, ElementsText;
    var tail: seq<byte> := (if dash then [Byte('-')] else []) + [Byte(']')];
    AtSplit(text, k, ElementsText(es), tail);
    AtFirst(text, k + |ElementsText(es)|, tail);
    MembersRead(text, k, es);
    assert Meant(es, 0) + {} == Meant(es, 0);
  }

  lemma ClassRead(text: seq<byte>, k: nat, g: Groups, negated: bool, es: seq<Element>, dash: bool)
    requires ClassFits(negated, es, dash) && At(text, k, WordText(Bracketed(negated, es, dash)))
    ensures var w := Bracketed(negated, es, dash); ClassAt(text, k + 1, g) == Fresh(AtomOf(w, g), g, k + |WordText(w)|)
  {
    hide At, ClassFrom;
    var caret: seq<byte> := if negated then [Byte('^')] else [];
    var body := BodyText(es, dash);
    AtSplit(text, k, [Byte('[')], caret + body);
    AtSplit(text, k + 1, caret, body);
    AtFirst(text, k + 1, caret + body);
    BodyRead(text, k + 1 + |caret|, es, dash);
  }

  /** The digits can be accumulated in an int of 32 bits, each as 10 * i + c - '0' from the left. */
  predicate Accumulates(digits: seq<byte>) {
    digits == [] ||
    var n := |digits| - 1;
    Accumulates(digits[..n]) && 10 * Value(digits[..n]) + digits[n] <= 0x7fff_ffff
  }

  lemma {:induction false} NumeralAccumulates(digits: seq<byte>)
    requires AllDigits(digits) && Value(digits) < 255
    ensures Accumulates(digits)
  {
    if digits == [] {
    } else {
      var n := |digits| - 1;
      assert IsDigit(digits[n]);
      assert 10 * Value(digits[..n]) <= Value(digits);
      NumeralAccumulates(digits[..n]);
    }
  }

  /** Up to its last digit a number is accumulated without a fault. */
  lemma {:induction false} DigitsRead(text: seq<byte>, k: nat, digits: seq<byte>)
    requires digits != [] && At(text, k, digits) && AllDigits(digits) && Accumulates(digits)
    ensures var n := |digits| - 1; NumberFrom(text, k, 0) == NumberFrom(text, k + n, Value(digits[..n]))
  {
    hide At;
    var n := |digits| - 1;
    if n == 0 {
      assert digits[..0] == [];
    } else {
      var front := digits[..n];
      assert digits == front + [digits[n]];
      AtSplit(text, k, front, [digits[n]]);
      AtFirst(text, k + n, [digits[n]]);
      DigitsRead(text, k, front);
      AtIndex(text, k, front, n - 1);
      assert IsDigit(digits[n]) && IsDigit(front[n - 1]);
    }
  }

  lemma AtIndex(text: seq<byte>, k: nat, w: seq<byte>, i: nat)
    requires At(text, k, w) && i < |w|
    ensures k + i < |text| && text[k + i] == w[i]
  {
    assert text[k + i] == text[k..k + |w|][i];
  }

  /** A number is read up to a backslash or a comma. */
  lemma NumberStops(text: seq<byte>, k: nat, digits: seq<byte>)
    requires digits != [] && AllDigits(digits) && Accumulates(digits) && At(text, k, digits) && k + |digits| < |text|
    requires text[k + |digits|] == Byte('\\') || text[k + |digits|] == Byte(',')
    ensures NumberFrom(text, k, 0) == Number(Value(digits), k + |digits|)
  {
    hide At;
    var n := |digits| - 1;
    DigitsRead(text, k, digits);
    AtIndex(text, k, digits, n);
    assert IsDigit(digits[n]) && AllDigits(digits[..n]);
  }

  lemma NumeralStops(text: seq<byte>, k: nat, digits: seq<byte>)
    requires Numeral(digits) && At(text, k, digits) && k + |digits| < |text|
    requires text[k + |digits|] == Byte('\\') || text[k + |digits|] == Byte(',')
    ensures NumberFrom(text, k, 0) == Number(Value(digits), k + |digits|)
  {
    NumeralAccumulates(digits);
    NumberStops(text, k, digits);
  }

  lemma UpperFirst(text: seq<byte>, k: nat, top: Upper)
    requires At(text, k, UpperText(top)) && (top.Bound? ==> top.digits != [] && AllDigits(top.digits))
    ensures !top.Same? ==> k < |text| && text[k] == Byte(',')
    ensures top.Bound? ==> At(text, k + 1, top.digits) && k + 1 < |text| && IsDigit(text[k + 1])
  {
    hide At;
    if top.Bound? {
      AtSplit(text, k, [Byte(',')], top.digits);
      AtFirst(text, k + 1, top.digits);
    }
    if !top.Same? {
      AtFirst(text, k, UpperText(top));
    }
  }

  /** The bounds of an interval are read up to what stands behind the backslash. */
  lemma BoundsRead(text: seq<byte>, k: nat, low: seq<byte>, top: Upper)
    requires Numeral(low) && (top.Bound? ==> Numeral(top.digits))
    requires At(text, k, low + (UpperText(top) + [Byte('\\')]))
    ensures IntervalFrom(text, k) ==
            IntervalEnd(text, k + |low| + |UpperText(top)| + 1, Value(low), Highest(low, top))
  {
    hide At, NumberFrom, Value, UpperText, IntervalEnd;
    var upper, end := UpperText(top), [Byte('\\')];
    var j := k + |low|;
    AtSplit(text, k, low, upper + end);
    AtSplit(text, j, upper, end);
    AtFirst(text, j + |upper|, end);
    UpperFirst(text, j, top);
    NumeralStops(text, k, low);
    if top.Bound? {
      NumeralStops(text, j + 1, top.digits);
    }
  }

  lemma IntervalRead(text: seq<byte>, k: nat, low: seq<byte>, top: Upper)
    requires IntervalFits(low, top) && At(text, k, low + (UpperText(top) + [Byte('\\'), Byte('}')]))
    ensures IntervalFrom(text, k) ==
            IntervalText(Interval(Value(low), Highest(low, top)), k + |low| + |UpperText(top)| + 2)
  {
    hide At, IntervalFrom, UpperText, Value;
    var bounds := low + (UpperText(top) + [Byte('\\')]);
    assert low + (UpperText(top) + [Byte('\\'), Byte('}')]) == bounds + [Byte('}')];
    AtSplit(text, k, bounds, [Byte('}')]);
    AtFirst(text, k + |bounds|, [Byte('}')]);
    BoundsRead(text, k, low, top);
  }

  lemma WordRead(text: seq<byte>, k: nat, eof: int, sed: bool, last: Option<Piece>, g: Groups, w: Word)
    requires At(text, k, WordText(w)) && MayStand(w, last, g, eof, ByteAt(text, k + |WordText(w)|))
    ensures TokenAt(text, k, eof, sed, last, g) == Read(w, last, g, k + |WordText(w)|)
  {
    hide At, ClassAt, IntervalFrom, ClassFits, BodyText, Value, Meant, UpperText;
    AtFirst(text, k, WordText(w));
    if w.Bracketed? {
      ClassRead(text, k, g, w.negated, w.elements, w.dash);
    } else if w.Times? {
      var bounds := w.low + (UpperText(w.top) + [Byte('\\'), Byte('}')]);
      AtSplit(text, k, [Byte('\\'), Byte('{')], bounds);
      IntervalRead(text, k + 2, w.low, w.top);
    }
  }

  /** Behind the token t the last piece is `last` and the groups are h, and the text goes on at j. */
  predicate LeadsTo(t: Token, g: Groups, j: nat, last: Option<Piece>, h: Groups) {
    match t
    case Suffix(p, next) => next == j && last == Some(p) && h == g
    case Fresh(a, groups, next) => next == j && last == Some(Piece(a, false, [])) && h == groups
    case _ => false
  }

  lemma ParsedNext(text: seq<byte>, k: nat, eof: int, sed: bool, last: Option<Piece>, g: Groups,
                   j: nat, last': Option<Piece>, h: Groups)
    requires LeadsTo(TokenAt(text, k, eof, sed, last, g), g, j, last', h)
    ensures ParseFrom(text, k, eof, sed, last, g) ==
            Attach(if TokenAt(text, k, eof, sed, last, g).Fresh? then AsSeq(last) else [],
                   ParseFrom(text, j, eof, sed, last', h))
  {
    hide TokenAt;
    AttachNothing(ParseFrom(text, j, eof, sed, last', h));
  }

  /** The same step through words: w leads from `last` and g to last' and h. */
  lemma ReachedNext(w: Word, ws: seq<Word>, last: Option<Piece>, g: Groups, eof: int, end: int, place: Place)
    returns (last': Option<Piece>, h: Groups, inner: Place)
    requires Reached([w] + ws, last, g, eof, end) == Some(place)
    ensures MayStand(w, last, g, eof, FirstOf(Text(ws), end)) && LeadsTo(Read(w, last, g, 0), g, 0, last', h)
    ensures Reached(ws, last', h, eof, end) == Some(inner)
    ensures place == inner.(done := (if Read(w, last, g, 0).Fresh? then AsSeq(last) else []) + inner.done)
  {
    hide MayStand, Read, Usable, Text;
    assert ([w] + ws)[1..] == ws && ([w] + ws)[0] == w;
    match Read(w, last, g, 0)
    case Suffix(p, _) =>
      last', h := Some(p), g;
      inner := Reached(ws, last', h, eof, end).value;
      assert [] + inner.done == inner.done;
    case Fresh(a, groups, _) =>
      last', h := Some(Piece(a, false, [])), groups;
      inner := Reached(ws, last', h, eof, end).value;
  }

  /** Words lead where they say: what is parsed is what they stand for, and what follows. */
  lemma {:induction false} PrefixRead(text: seq<byte>, k: nat, eof: int, sed: bool, last: Option<Piece>, g: Groups,
                                      ws: seq<Word>, place: Place)
    requires At(text, k, Text(ws)) && Reached(ws, last, g, eof, ByteAt(text, k + |Text(ws)|)) == Some(place)
    ensures ParseFrom(text, k, eof, sed, last, g) ==
            Attach(place.done, ParseFrom(text, k + |Text(ws)|, eof, sed, place.last, place.groups))
    decreases |ws|
  {
    hide At, WordText, MayStand, Read, TokenAt, Usable, Reached, ParseFrom, Attach, Text;
    var end := k + |Text(ws)|;
    if ws == [] {
      NothingReached(last, g, eof, ByteAt(text, end));
      AttachNothing(ParseFrom(text, k, eof, sed, last, g));
    } else {
      var w, more := ws[0], ws[1..];
      assert ws == [w] + more;
      TextFirst(w, more);
      AtSplit(text, k, WordText(w), Text(more));
      var j := k + |WordText(w)|;
      FirstBehind(text, j, Text(more));
      var last', h, inner := ReachedNext(w, more, last, g, eof, ByteAt(text, end), place);
      WordRead(text, k, eof, sed, last, g, w);
      ReadAt(w, last, g, 0, j);
      ParsedNext(text, k, eof, sed, last, g, j, last', h);
      PrefixRead(text, j, eof, sed, last', h, more, inner);
      var front := if Read(w, last, g, 0).Fresh? then AsSeq(last) else [];
      AttachTwice(front, inner.done, ParseFrom(text, end, eof, sed, place.last, place.groups));
    }
  }

  lemma NothingReached(last: Option<Piece>, g: Groups, eof: int, end: int)
    ensures Text([]) == [] && Reached([], last, g, eof, end) == Some(Place([], last, g))
  {
  }

  lemma ReadAt(w: Word, last: Option<Piece>, g: Groups, i: nat, j: nat)
    requires Usable(w, last, g)
    ensures var t := Read(w, last, g, i);
            Read(w, last, g, j) == if t.Suffix? then Suffix(t.piece, j) else Fresh(t.atom, t.groups, j)
  {
  }

  lemma FirstBehind(text: seq<byte>, k: nat, w: seq<byte>)
    requires At(text, k, w)
    ensures FirstOf(w, ByteAt(text, k + |w|)) == ByteAt(text, k)
  {
    if w == [] {
    } else {
      AtFirst(text, k, w);
    }
  }

  /** A text that is spelled by words is accepted, and gives what they denote. */
  lemma SpelledRead(text: seq<byte>, k: nat, eof: int, sed: bool, last: Option<Piece>, g: Groups,
                    ws: seq<Word>, ps: seq<Piece>, newline: bool, next: nat)
    requires Spells(text, k, eof, sed, last, g, ws, ps, newline, next)
    ensures ParseFrom(text, k, eof, sed, last, g) == Good(ps, newline, next)
  {
    hide At, Text, Reached, TokenAt;
    var end := k + |Text(ws)|;
    var place := Reached(ws, last, g, eof, text[end]).value;
    PrefixRead(text, k, eof, sed, last, g, ws, place);
    EndToken(text, end, eof, sed, place.last, place.groups, newline);
  }

  lemma EndToken(text: seq<byte>, k: nat, eof: int, sed: bool, last: Option<Piece>, g: Groups, newline: bool)
    requires Ended(text, k, eof, sed, newline) && g.open == []
    ensures TokenAt(text, k, eof, sed, last, g) == Finish(newline, if newline then k else k + 1)
  {
  }

  // ---- Texts that are read are spelled ----

  /** No further element stands at k behind the element lc. */
  predicate ElementsStop(text: seq<byte>, k: nat, lc: byte) {
    || k >= |text| || text[k] == Byte(']') || text[k] == 0 || text[k] == Byte('\n')
    || (text[k] == Byte('-') && lc != 0 && (k + 1 >= |text| || text[k + 1] == Byte(']')))
  }

  /** All the elements from k on, behind the element lc. */
  lemma {:induction false} ElementsOf(text: seq<byte>, k: nat, lc: byte) returns (es: seq<Element>)
    requires k <= |text|
    ensures At(text, k, ElementsText(es)) && ElementsFit(es, lc, false)
    ensures ElementsStop(text, k + |ElementsText(es)|, Latest(es, lc))
    decreases |text| - k
  {
    hide At;
    if ElementsStop(text, k, lc) {
      es := [];
      AtNone(text, k);
    } else {
      var e := if text[k] == Byte('-') && lc != 0 then UpTo(text[k + 1]) else One(text[k]);
      var w := ElementText(e);
      if e.One? {
        AtOne(text, k);
      } else {
        AtTwo(text, k);
      }
      es := ElementsOf(text, k + |w|, e.c);
      es := ElementsWith(text, k, lc, e, es);
    }
  }

  lemma ElementsWith(text: seq<byte>, k: nat, lc: byte, e: Element, more: seq<Element>) returns (es: seq<Element>)
    requires At(text, k, ElementText(e)) && At(text, k + |ElementText(e)|, ElementsText(more))
    requires ElementsFit(more, e.c, false)
    requires match e
             case One(c) => c != 0 && c != Byte('\n') && (c == Byte('-') ==> lc == 0) && c != Byte(']')
             case UpTo(c) => lc != 0 && c != Byte(']')
    ensures At(text, k, ElementsText(es)) && ElementsFit(es, lc, false) && Latest(es, lc) == Latest(more, e.c)
    ensures |ElementsText(es)| == |ElementText(e)| + |ElementsText(more)|
  {
    hide At, ElementText;
    es := [e] + more;
    assert es[0] == e && es[1..] == more;
    AtJoin(text, k, ElementText(e), ElementsText(more));
  }

  /** The elements of a class from its first on. */
  lemma MembersOf(text: seq<byte>, k: nat) returns (es: seq<Element>)
    requires k < |text| && text[k] != 0 && text[k] != Byte('\n')
    ensures es != [] && es[0] == One(text[k]) && At(text, k, ElementsText(es)) && ElementsFit(es, 0, true)
    ensures ElementsStop(text, k + |ElementsText(es)|, Latest(es, 0))
  {
    hide At;
    var more := ElementsOf(text, k + 1, text[k]);
    es := [One(text[k])] + more;
    assert es[1..] == more;
    AtOne(text, k);
    AtJoin(text, k, [text[k]], ElementsText(more));
  }

  lemma ClassOf(text: seq<byte>, k: nat, g: Groups) returns (w: Word)
    requires k < |text| && text[k] == Byte('[') && ClassAt(text, k + 1, g).Fresh?
    ensures w.Bracketed? && ClassFits(w.negated, w.elements, w.dash) && At(text, k, WordText(w))
  {
    hide At, BodyText, ElementsFit, Latest, Meant, ElementsStop, ClassFrom;
    var negated := text[k + 1] == Byte('^');
    var caret: seq<byte> := if negated then [Byte('^')] else [];
    var j := k + 1 + |caret|;
    AtOne(text, k);
    AtCaret(text, k + 1);
    var es, dash := BodyOf(text, j);
    AtJoin(text, k + 1, caret, BodyText(es, dash));
    AtJoin(text, k, [Byte('[')], caret + BodyText(es, dash));
    w := Bracketed(negated, es, dash);
  }

  lemma AtCaret(text: seq<byte>, k: nat)
    requires k <= |text|
    ensures At(text, k, if ByteAt(text, k) == Byte('^') then [Byte('^')] else [])
  {
    hide At;
    if k < |text| && text[k] == Byte('^') {
      AtOne(text, k);
    } else {
      AtNone(text, k);
    }
  }

  lemma BodyOf(text: seq<byte>, k: nat) returns (es: seq<Element>, dash: bool)
    requires ClassFrom(text, k, 0, {}).ClassText?
    ensures At(text, k, BodyText(es, dash)) && es != [] && es[0] == One(text[k])
    ensures ElementsFit(es, 0, true) && (dash ==> Latest(es, 0) != 0)
  {
    hide At, ElementsText, ElementsFit, Latest, Meant;
    es := MembersOf(text, k);
    var i := k + |ElementsText(es)|;
    MembersRead(text, k, es);
    dash := text[i] == Byte('-');
    var tail: seq<byte> := (if dash then [Byte('-')] else []) + [Byte(']')];
    if dash {
      AtTwo(text, i);
      assert tail == [text[i], text[i + 1]];
    } else {
      AtOne(text, i);
      assert tail == [text[i]];
    }
    AtJoin(text, k, ElementsText(es), tail);
  }

  /** digits are all the digits from k on that can be accumulated. */
  predicate DigitRun(text: seq<byte>, k: nat, digits: seq<byte>) {
    var end := k + |digits|;
    && At(text, k, digits) && AllDigits(digits) && Accumulates(digits)
    && (end < |text| && IsDigit(text[end]) ==> 10 * Value(digits) + text[end] > 0x7fff_ffff)
  }

  lemma {:induction false} DigitsOf(text: seq<byte>, k: nat, front: seq<byte>) returns (digits: seq<byte>)
    requires At(text, k, front) && AllDigits(front) && Accumulates(front)
    ensures DigitRun(text, k, digits)
    decreases |text| - |front|
  {
    hide At;
    var end := k + |front|;
    AtEnds(text, k, front);
    if end < |text| && IsDigit(text[end]) && 10 * Value(front) + text[end] <= 0x7fff_ffff {
      digits := front + [text[end]];
      assert digits[..|front|] == front;
      AtOne(text, end);
      AtJoin(text, k, front, [text[end]]);
      digits := DigitsOf(text, k, digits);
    } else {
      digits := front;
    }
  }

  lemma AtEnds(text: seq<byte>, k: nat, w: seq<byte>)
    requires At(text, k, w)
    ensures k + |w| <= |text|
  {
  }

  predicate StopsNumber(c: byte) {
    c == Byte('\\') || c == Byte(',')
  }

  /** What is read of a run of digits, told from what stands behind it. */
  lemma RunRead(text: seq<byte>, k: nat, digits: seq<byte>)
    requires DigitRun(text, k, digits)
    ensures var end := k + |digits|;
            NumberFrom(text, k, 0) ==
            if end >= |text| then BadNumber(Exhausted)
            else if digits != [] && StopsNumber(text[end]) then Number(Value(digits), end)
            else if IsDigit(text[end]) then BadNumber(Overflow)
            else BadNumber(Fault.Code(16))
  {
    hide At;
    AtEnds(text, k, digits);
    if digits == [] {
    } else {
      var n := |digits| - 1;
      DigitsRead(text, k, digits);
      AtIndex(text, k, digits, n);
      assert IsDigit(digits[n]) && AllDigits(digits[..n]);
    }
  }

  lemma IntervalOf(text: seq<byte>, k: nat) returns (low: seq<byte>, top: Upper)
    requires IntervalFrom(text, k).IntervalText?
    ensures IntervalFits(low, top) && At(text, k, low + (UpperText(top) + [Byte('\\'), Byte('}')]))
  {
    hide NumberFrom, Value, At, UpperText, AllDigits, Accumulates;
    low := RunAt(text, k);
    top := Same;
    RunRead(text, k, low);
    var j := k + |low|;
    if text[j] == Byte('\\') {
    } else if text[j + 1] == Byte('\\') {
      top := Unbounded;
    } else {
      var high := RunAt(text, j + 1);
      RunRead(text, j + 1, high);
      top := Bound(high);
    }
    AtUpper(text, j, top);
    AtInterval(text, k, low, top);
  }

  lemma RunAt(text: seq<byte>, k: nat) returns (digits: seq<byte>)
    requires k <= |text|
    ensures DigitRun(text, k, digits)
  {
    AtNone(text, k);
    digits := DigitsOf(text, k, []);
  }

  lemma AtUpper(text: seq<byte>, k: nat, top: Upper)
    requires k + |UpperText(top)| <= |text|
    requires top.Same? || (text[k] == Byte(',') && (top.Bound? ==> At(text, k + 1, top.digits)))
    ensures At(text, k, UpperText(top))
  {
    hide At;
    if top.Same? {
      AtNone(text, k);
    } else {
      AtOne(text, k);
      if top.Bound? {
        AtJoin(text, k, [Byte(',')], top.digits);
      }
    }
  }

  lemma AtInterval(text: seq<byte>, k: nat, low: seq<byte>, top: Upper)
    requires At(text, k, low) && At(text, k + |low|, UpperText(top))
    requires var i := k + |low| + |UpperText(top)|;
             i + 1 < |text| && text[i] == Byte('\\') && text[i + 1] == Byte('}')
    ensures At(text, k, low + (UpperText(top) + [Byte('\\'), Byte('}')]))
  {
    hide At, UpperText;
    var j := k + |low|;
    var i := j + |UpperText(top)|;
    AtTwo(text, i);
    AtJoin(text, j, UpperText(top), [Byte('\\'), Byte('}')]);
    AtJoin(text, k, low, UpperText(top) + [Byte('\\'), Byte('}')]);
  }

  /** The word at k, in front of whatever comes next. */
  lemma WordAt(text: seq<byte>, k: nat, eof: int, sed: bool, last: Option<Piece>, g: Groups) returns (w: Word)
    requires var t := TokenAt(text, k, eof, sed, last, g); t.Fresh? || t.Suffix?
    ensures At(text, k, WordText(w)) && MayStand(w, last, g, eof, ByteAt(text, k + |WordText(w)|))
  {
    hide At, ClassFits, ClassAt, IntervalFrom, EscapedAtom, Value, BodyText, UpperText;
    var c := text[k];
    AtOne(text, k);
    if c == Byte('\\') {
      w := EscapeOf(text, k, last, g);
    } else if c == Byte('[') {
      w := ClassOf(text, k, g);
    } else if c == Byte('*') && !NothingToRepeat(last) {
      w := Star;
    } else if c == Byte('.') {
      w := Any;
    } else if c == Byte('$') && (text[k + 1] == eof || text[k + 1] == Byte('\n')) {
      w := AtEnd;
    } else {
      w := Plain(c);
    }
  }

  lemma EscapeOf(text: seq<byte>, k: nat, last: Option<Piece>, g: Groups) returns (w: Word)
    requires k + 1 < |text| && text[k] == Byte('\\')
    requires var t := EscapeAt(text, k + 1, last, g); t.Fresh? || t.Suffix?
    ensures At(text, k, WordText(w)) && WordText(w)[0] == Byte('\\')
    ensures forall eof: int, behind: int :: eof != Byte('\\') ==> MayStand(w, last, g, eof, behind)
  {
    hide At, IntervalFrom, Value, UpperText, Numeral;
    var c := text[k + 1];
    AtTwo(text, k);
    if c == Byte('(') {
      w := Begin;
    } else if c == Byte(')') {
      w := End;
    } else if c == Byte('{') && last.Some? {
      var low, top := IntervalOf(text, k + 2);
      AtJoin(text, k, [Byte('\\'), Byte('{')], low + (UpperText(top) + [Byte('\\'), Byte('}')]));
      w := Times(low, top);
    } else if c == Byte('n') {
      w := QuotedNewline;
    } else if Byte('1') <= c <= Byte('9') {
      w := Again(c);
    } else {
      w := Quoted(c);
    }
  }

  /** All the words from k on: behind them comes the end or something that is no word. */
  lemma {:induction false} WordsOf(text: seq<byte>, k: nat, eof: int, sed: bool, last: Option<Piece>, g: Groups)
    returns (ws: seq<Word>, place: Place)
    requires k <= |text|
    ensures At(text, k, Text(ws)) && Reached(ws, last, g, eof, ByteAt(text, k + |Text(ws)|)) == Some(place)
    ensures var t := TokenAt(text, k + |Text(ws)|, eof, sed, place.last, place.groups); t.Finish? || t.Reject?
    decreases |text| - k
  {
    hide At, WordText, MayStand, Read, Usable, TokenAt, Reached, Text;
    var t := TokenAt(text, k, eof, sed, last, g);
    match t
    case Finish(_, _) =>
      ws, place := NoWords(text, k, eof, last, g);
    case Reject(_, _, _) =>
      ws, place := NoWords(text, k, eof, last, g);
    case Suffix(p, j) =>
      ws, place := WordsOf(text, j, eof, sed, Some(p), g);
      ws, place := WordsWith(text, k, eof, sed, last, g, j, Some(p), g, ws, place);
    case Fresh(a, groups, j) =>
      ws, place := WordsOf(text, j, eof, sed, Some(Piece(a, false, [])), groups);
      ws, place := WordsWith(text, k, eof, sed, last, g, j, Some(Piece(a, false, [])), groups, ws, place);
  }

  lemma NoWords(text: seq<byte>, k: nat, eof: int, last: Option<Piece>, g: Groups) returns (ws: seq<Word>, place: Place)
    requires k <= |text|
    ensures Text(ws) == [] && At(text, k, []) && place == Place([], last, g)
    ensures Reached(ws, last, g, eof, ByteAt(text, k)) == Some(place)
  {
    ws, place := [], Place([], last, g);
    AtNone(text, k);
  }

  /** One word more in front. */
  lemma WordsWith(text: seq<byte>, k: nat, eof: int, sed: bool, last: Option<Piece>, g: Groups,
                  j: nat, last': Option<Piece>, h: Groups, more: seq<Word>, inner: Place)
    returns (ws: seq<Word>, place: Place)
    requires LeadsTo(TokenAt(text, k, eof, sed, last, g), g, j, last', h) && At(text, j, Text(more))
    requires Reached(more, last', h, eof, ByteAt(text, j + |Text(more)|)) == Some(inner)
    ensures At(text, k, Text(ws)) && k + |Text(ws)| == j + |Text(more)|
    ensures place.last == inner.last && place.groups == inner.groups
    ensures Reached(ws, last, g, eof, ByteAt(text, k + |Text(ws)|)) == Some(place)
  {
    hide At, WordText, MayStand, Read, Usable, TokenAt, Reached, Text;
    var w := WordAt(text, k, eof, sed, last, g);
    WordRead(text, k, eof, sed, last, g, w);
    ReadAt(w, last, g, j, 0);
    AtJoin(text, k, WordText(w), Text(more));
    TextFirst(w, more);
    FirstBehind(text, j, Text(more));
    ws := [w] + more;
    var end := ByteAt(text, j + |Text(more)|);
    ReachedFirst(w, more, last, g, eof, end);
    place := if Read(w, last, g, 0).Fresh? then inner.(done := AsSeq(last) + inner.done) else inner;
  }

  /** A text that is accepted is spelled by words that denote what it gives. */
  lemma ReadSpelled(text: seq<byte>, k: nat, eof: int, sed: bool, last: Option<Piece>, g: Groups)
    returns (ws: seq<Word>)
    requires k <= |text| && ParseFrom(text, k, eof, sed, last, g).Good?
    ensures var r := ParseFrom(text, k, eof, sed, last, g);
            Spells(text, k, eof, sed, last, g, ws, r.pieces, r.newline, r.next)
  {
    hide At, Text, Reached, TokenAt;
    var place: Place;
    ws, place := WordsOf(text, k, eof, sed, last, g);
    var end := k + |Text(ws)|;
    PrefixRead(text, k, eof, sed, last, g, ws, place);
    EndOf(text, end, eof, sed, place.last, place.groups);
  }

  lemma EndOf(text: seq<byte>, k: nat, eof: int, sed: bool, last: Option<Piece>, g: Groups)
    requires TokenAt(text, k, eof, sed, last, g).Finish?
    ensures var t := TokenAt(text, k, eof, sed, last, g);
            g.open == [] && Ended(text, k, eof, sed, t.newline) && t.next == if t.newline then k else k + 1
  {
  }

  // ---- The whole text ----

  /** The text from `at` on is a pattern: perhaps a caret, and then words; without the caret
      there is at least one word, and it does not begin with one. */
  predicate Notation(text: seq<byte>, at: nat, eof: int, sed: bool, anchored: bool,
                     ws: seq<Word>, ps: seq<Piece>, newline: bool, next: nat) {
    && BeginsPattern(text, at, eof, anchored)
    && Spells(text, if anchored then at + 1 else at, eof, sed, None, NO_GROUPS, ws, ps, newline, next)
  }

  /** A pattern, with a caret in front or not, and not the delimiter or a newline at once. */
  predicate BeginsPattern(text: seq<byte>, at: nat, eof: int, anchored: bool) {
    && at < |text| && text[at] != eof && text[at] != Byte('\n')
    && (anchored <==> text[at] == Byte('^'))
  }

  /** What a text is, told from its first byte. */
  lemma KindOfText(text: seq<byte>, at: nat, eof: int, sed: bool)
    ensures Parse(text, at, eof, sed) == Missing <==> at >= |text|
    ensures forall newline, next :: Parse(text, at, eof, sed) == Empty(newline, next) <==>
              && at < |text|
              && if newline then text[at] == Byte('\n') && next == at
                 else text[at] == eof && text[at] != Byte('\n') && next == at + 1
    ensures forall anchored, rest :: Parse(text, at, eof, sed) == Regular(anchored, rest) <==>
              && BeginsPattern(text, at, eof, anchored)
              && rest == ParseFrom(text, if anchored then at + 1 else at, eof, sed, None, NO_GROUPS)
  {
    hide ParseFrom;
  }

  /** The accepted texts are those of the grammar, with the pieces that it gives them. */
  lemma AcceptedIffSpelled(text: seq<byte>, at: nat, eof: int, sed: bool, anchored: bool,
                           ps: seq<Piece>, newline: bool, next: nat)
    ensures Parse(text, at, eof, sed) == Regular(anchored, Good(ps, newline, next)) <==>
            exists ws :: Notation(text, at, eof, sed, anchored, ws, ps, newline, next)
  {
    hide ParseFrom, Spells;
    KindOfText(text, at, eof, sed);
    var k := if anchored then at + 1 else at;
    if Parse(text, at, eof, sed) == Regular(anchored, Good(ps, newline, next)) {
      var ws := ReadSpelled(text, k, eof, sed, None, NO_GROUPS);
      assert Notation(text, at, eof, sed, anchored, ws, ps, newline, next);
    }
    forall ws | Notation(text, at, eof, sed, anchored, ws, ps, newline, next)
      ensures Parse(text, at, eof, sed) == Regular(anchored, Good(ps, newline, next))
    {
      SpelledRead(text, k, eof, sed, None, NO_GROUPS, ws, ps, newline, next);
    }
  }
}
