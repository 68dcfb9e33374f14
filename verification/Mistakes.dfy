/** The texts that are refused, and with which error.

    A refused text is spelled by words up to some place, and there something stands
    that is wrong.  `Stands` says what each mistake looks like, and `Wrong` which
    error it is; neither follows the way in which text is read. */
module Mistakes {
  import opened Bytes
  import opened Pattern
  import opened Syntax
  import opened Grammar

  /** In an interval `first` is the first bound, if the second is being read, and `digits` are
      the digits of the bound that is wrong. */
  datatype Mistake =
    | CutShort
    | OpenAtEnd(newline: bool)
    | NewlineInside
    | NewlineQuoted
    | TenthGroup
    | NothingToClose
    | NoSuchGroup
    | NoDigit(first: Option<seq<byte>>, digits: seq<byte>)
    | TooLarge(first: Option<seq<byte>>, digits: seq<byte>)
    | TooLong(first: Option<seq<byte>>, digits: seq<byte>)
    | CutNumber(first: Option<seq<byte>>, digits: seq<byte>)
    | ThirdBound(low: seq<byte>, high: seq<byte>)
    | NoBrace(low: seq<byte>, top: Upper)
    | CutBrace(low: seq<byte>, top: Upper)
    | OutOfOrder(low: seq<byte>, top: Upper)
    | InClass(negated: bool, elements: seq<Element>)
    | CutClass(negated: bool, elements: seq<Element>)
  {
    predicate InInterval() {
      NoDigit? || TooLarge? || TooLong? || CutNumber? || ThirdBound? || NoBrace? || CutBrace? || OutOfOrder?
    }
  }

  function Wrong(m: Mistake): Fault {
    match m
    case CutShort => Exhausted
    case OpenAtEnd(_) => Fault.Code(42)
    case NewlineInside => Fault.Code(36)
    case NewlineQuoted => Fault.Code(36)
    case TenthGroup => Fault.Code(43)
    case NothingToClose => Fault.Code(42)
    case NoSuchGroup => Fault.Code(25)
    case NoDigit(_, _) => Fault.Code(16)
    case TooLarge(_, _) => Fault.Code(11)
    case TooLong(_, _) => Overflow
    case CutNumber(_, _) => Exhausted
    case ThirdBound(_, _) => Fault.Code(44)
    case NoBrace(_, _) => Fault.Code(45)
    case CutBrace(_, _) => Exhausted
    case OutOfOrder(_, _) => Fault.Code(46)
    case InClass(_, _) => Fault.Code(49)
    case CutClass(_, _) => Exhausted
  }

  /** The bytes that must be free for the mistake to be found: those of the class read so far. */
  function Need(m: Mistake): nat {
    if m.InClass? || m.CutClass? then
      if exists c :: c in Meant(m.elements, 0) && c >= 128 then 33 else 17
    else 0
  }

  function Lead(first: Option<seq<byte>>): seq<byte> {
    if first.None? then [] else first.value + [Byte(',')]
  }

  /** The number that begins behind the braces and the first bound; `end` is behind its digits. */
  predicate NumberAt(text: seq<byte>, k: nat, first: Option<seq<byte>>, digits: seq<byte>, end: nat) {
    && (first.Some? ==> Numeral(first.value)) && At(text, k, Lead(first))
    && DigitRun(text, k + |Lead(first)|, digits) && end == k + |Lead(first)| + |digits|
    && (first.Some? && digits == [] && end < |text| ==> text[end] != Byte('\\'))
  }

  predicate BoundsAt(text: seq<byte>, k: nat, low: seq<byte>, top: Upper, end: nat) {
    && Numeral(low) && (top.Bound? ==> Numeral(top.digits))
    && At(text, k, low + (UpperText(top) + [Byte('\\')])) && end == k + |low| + |UpperText(top)| + 1
  }

  /** What is wrong in an interval, from behind its brace on. */
  predicate IntervalStands(m: Mistake, text: seq<byte>, k: nat)
    requires m.InInterval()
  {
    match m
    case NoDigit(first, digits) =>
      var end := k + |Lead(first)| + |digits|;
      && NumberAt(text, k, first, digits, end)
      && end < |text| && !IsDigit(text[end]) && (digits != [] ==> !StopsNumber(text[end]))
    case TooLarge(first, digits) =>
      var end := k + |Lead(first)| + |digits|;
      && NumberAt(text, k, first, digits, end)
      && digits != [] && Value(digits) >= 255 && end < |text| && StopsNumber(text[end])
    case TooLong(first, digits) =>
      var end := k + |Lead(first)| + |digits|;
      NumberAt(text, k, first, digits, end) && end < |text| && IsDigit(text[end])
    case CutNumber(first, digits) => NumberAt(text, k, first, digits, |text|)
    case ThirdBound(low, high) =>
      var end := k + |low| + 1 + |high|;
      && NumberAt(text, k, Some(low), high, end)
      && Numeral(high) && end < |text| && text[end] == Byte(',')
    case NoBrace(low, top) =>
      var end := k + |low| + |UpperText(top)| + 1;
      BoundsAt(text, k, low, top, end) && end < |text| && text[end] != Byte('}')
    case CutBrace(low, top) => BoundsAt(text, k, low, top, |text|)
    case OutOfOrder(low, top) =>
      var end := k + |low| + |UpperText(top)| + 1;
      BoundsAt(text, k, low, top, end) && end < |text| && text[end] == Byte('}') && Highest(low, top) < Value(low)
  }

  /** The elements read before something is wrong in a class; `end` is behind them. */
  predicate ClassUpTo(text: seq<byte>, k: nat, negated: bool, es: seq<Element>, end: nat) {
    var caret: seq<byte> := if negated then [Byte('^')] else [];
    && At(text, k, [Byte('[')] + (caret + ElementsText(es))) && end == k + 1 + |caret| + |ElementsText(es)|
    && ElementsFit(es, 0, true) && (!negated ==> ByteAt(text, k + 1) != Byte('^'))
  }

  /** m stands at k, behind the piece `last` and the groups g. */
  predicate Stands(m: Mistake, text: seq<byte>, k: nat, eof: int, sed: bool, last: Option<Piece>, g: Groups) {
    if m.CutShort? then
      || k >= |text| || (text[k] == Byte('\\') && k + 1 >= |text|)
      || (text[k] == Byte('$') && text[k] != eof && k + 1 >= |text|)
    else if m.OpenAtEnd? then Ended(text, k, eof, sed, m.newline) && g.open != []
    else
      && k < |text| && text[k] != eof
      && if m.NewlineInside? then text[k] == Byte('\n') && sed
         else if m.InClass? then
           var end := k + (if m.negated then 2 else 1) + |ElementsText(m.elements)|;
           && ClassUpTo(text, k, m.negated, m.elements, end)
           && end < |text| && (text[end] == 0 || text[end] == Byte('\n'))
         else if m.CutClass? then
           var end := k + (if m.negated then 2 else 1) + |ElementsText(m.elements)|;
           && ClassUpTo(text, k, m.negated, m.elements, end)
           && (end >= |text| || (text[end] == Byte('-') && Latest(m.elements, 0) != 0 && end + 1 >= |text|))
         else
           && text[k] == Byte('\\') && k + 1 < |text|
           && if m.NewlineQuoted? then text[k + 1] == Byte('\n')
              else if m.TenthGroup? then text[k + 1] == Byte('(') && g.nbra >= 9
              else if m.NothingToClose? then text[k + 1] == Byte(')') && g.open == []
              else if m.NoSuchGroup? then Byte('1') <= text[k + 1] <= Byte('9') && text[k + 1] - Byte('1') >= g.closed
              else text[k + 1] == Byte('{') && last.Some? && IntervalStands(m, text, k + 2)
  }

  // ---- A mistake is refused ----

  lemma LeadRead(text: seq<byte>, k: nat, first: Option<seq<byte>>, digits: seq<byte>, end: nat)
    requires NumberAt(text, k, first, digits, end)
    ensures first.None? ==> NumberFrom(text, k, 0) == NumberFrom(text, end - |digits|, 0)
    ensures first.Some? ==>
              var j := k + |first.value|;
              && NumberFrom(text, k, 0) == Number(Value(first.value), j) && j < |text| && text[j] == Byte(',')
              && end - |digits| == j + 1
  {
    hide At, NumberFrom, Value, DigitRun;
    if first.Some? {
      AtSplit(text, k, first.value, [Byte(',')]);
      AtFirst(text, k + |first.value|, [Byte(',')]);
      NumeralStops(text, k, first.value);
    }
  }

  /** Behind the first bound and a comma: a backslash, or another number. */
  lemma SecondRead(text: seq<byte>, k: nat, low: seq<byte>, high: seq<byte>, end: nat)
    requires NumberAt(text, k, Some(low), high, end)
    ensures var j := k + |low| + 1;
            j < |text| ==> text[j] != Byte('\\')
  {
    hide At, Value, Accumulates;
    var j := k + |low| + 1;
    if high != [] {
      AtFirst(text, j, high);
      assert IsDigit(high[0]);
    }
  }

  lemma IntervalRefused(m: Mistake, text: seq<byte>, k: nat)
    requires m.InInterval() && IntervalStands(m, text, k)
    ensures IntervalFrom(text, k) == BadInterval(Wrong(m))
  {
    hide IntervalFrom, At, NumberFrom, Value, Accumulates, UpperText, DigitRun;
    if m.NoBrace? || m.CutBrace? || m.OutOfOrder? {
      BoundsRead(text, k, m.low, m.top);
    } else if m.ThirdBound? {
      NumberRefused(text, k, Some(m.low), m.high, k + |m.low| + 1 + |m.high|);
    } else {
      NumberRefused(text, k, m.first, m.digits, k + |Lead(m.first)| + |m.digits|);
    }
  }

  lemma NumberRefused(text: seq<byte>, k: nat, first: Option<seq<byte>>, digits: seq<byte>, end: nat)
    requires NumberAt(text, k, first, digits, end)
    ensures end >= |text| ==> IntervalFrom(text, k) == BadInterval(Exhausted)
    ensures end < |text| && !(digits != [] && StopsNumber(text[end])) ==>
              IntervalFrom(text, k) == BadInterval(if IsDigit(text[end]) then Overflow else Fault.Code(16))
    ensures end < |text| && digits != [] && StopsNumber(text[end]) ==>
              && (Value(digits) >= 255 ==> IntervalFrom(text, k) == BadInterval(Fault.Code(11)))
              && (Value(digits) < 255 && first.Some? && text[end] == Byte(',') ==>
                    IntervalFrom(text, k) == BadInterval(Fault.Code(44)))
  {
    hide At, NumberFrom, Value, Accumulates, IntervalEnd;
    LeadRead(text, k, first, digits, end);
    RunRead(text, end - |digits|, digits);
    if first.Some? {
      SecondRead(text, k, first.value, digits, end);
    }
  }

  lemma ClassRefused(m: Mistake, text: seq<byte>, k: nat, eof: int, sed: bool, last: Option<Piece>, g: Groups)
    requires (m.InClass? || m.CutClass?) && Stands(m, text, k, eof, sed, last, g)
    ensures text[k] == Byte('[') && ClassAt(text, k + 1, g) == Reject(Wrong(m), Need(m))
  {
    hide At, ElementsFit, Meant, Latest, ElementsText, ClassFrom;
    var caret: seq<byte> := if m.negated then [Byte('^')] else [];
    var es := m.elements;
    AtSplit(text, k, [Byte('[')], caret + ElementsText(es));
    AtFirst(text, k, [Byte('[')]);
    AtSplit(text, k + 1, caret, ElementsText(es));
    if m.negated {
      AtFirst(text, k + 1, caret);
    }
    var j := k + 1 + |caret|;
    ElementsRefused(text, j, es);
    if j >= |text| {
      NoMembers(text, j, es);
    }
  }

  /** What is read of a class that goes wrong behind the elements es. */
  lemma ElementsRefused(text: seq<byte>, k: nat, es: seq<Element>)
    requires At(text, k, ElementsText(es)) && ElementsFit(es, 0, true)
    ensures var end, lc := k + |ElementsText(es)|, Latest(es, 0);
            && (end >= |text| || (text[end] == Byte('-') && lc != 0 && end + 1 >= |text|) ==>
                  ClassFrom(text, k, 0, {}) == BadClass(Exhausted, Meant(es, 0)))
            && (end < |text| && (text[end] == 0 || text[end] == Byte('\n')) ==>
                  ClassFrom(text, k, 0, {}) == BadClass(Fault.Code(49), Meant(es, 0)))
  {
    hide At;
    if es == [] {
    } else {
      hide Meant, Latest, ElementsText, ElementsFit;
      MembersRead(text, k, es);
    }
  }

  lemma NoMembers(text: seq<byte>, k: nat, es: seq<Element>)
    requires At(text, k, ElementsText(es)) && k >= |text|
    ensures Meant(es, 0) == {}
  {
  }

  lemma MistakeRefused(m: Mistake, text: seq<byte>, k: nat, eof: int, sed: bool, last: Option<Piece>, g: Groups)
    requires Stands(m, text, k, eof, sed, last, g)
    ensures TokenAt(text, k, eof, sed, last, g) == Reject(Wrong(m), Need(m), m == OpenAtEnd(true))
  {
    hide ClassAt, IntervalFrom, ClassUpTo, IntervalStands, ElementsText;
    if m.InClass? || m.CutClass? {
      ClassRefused(m, text, k, eof, sed, last, g);
    } else if m.InInterval() {
      IntervalRefused(m, text, k + 2);
    }
  }

  // ---- What is refused is a mistake ----

  lemma IntervalMistake(text: seq<byte>, k: nat) returns (m: Mistake)
    requires k <= |text| && IntervalFrom(text, k).BadInterval?
    ensures m.InInterval() && IntervalStands(m, text, k)
  {
    hide At, NumberFrom, Value, Accumulates, AllDigits, UpperText, IntervalFrom;
    var low := RunAt(text, k);
    RunRead(text, k, low);
    var j := k + |low|;
    assert NumberAt(text, k, None, low, j) by { NoLead(text, k, low); }
    AtEnds(text, k, low);
    if j >= |text| {
      m := CutNumber(None, low);
    } else if low == [] || !StopsNumber(text[j]) {
      m := if IsDigit(text[j]) then TooLong(None, low) else NoDigit(None, low);
    } else if Value(low) >= 255 {
      m := TooLarge(None, low);
    } else if text[j] == Byte('\\') {
      m := BraceMistake(text, k, low, Same);
    } else if j + 1 < |text| && text[j + 1] == Byte('\\') {
      m := BraceMistake(text, k, low, Unbounded);
    } else {
      m := SecondMistake(text, k, low);
    }
  }

  lemma NoLead(text: seq<byte>, k: nat, digits: seq<byte>)
    requires k <= |text| && DigitRun(text, k, digits)
    ensures NumberAt(text, k, None, digits, k + |digits|)
  {
    hide DigitRun;
    assert text[k..k] == [];
  }

  lemma BraceMistake(text: seq<byte>, k: nat, low: seq<byte>, top: Upper) returns (m: Mistake)
    requires Numeral(low) && (top.Bound? ==> Numeral(top.digits)) && At(text, k, low)
    requires var i := k + |low| + |UpperText(top)|; i < |text| && text[i] == Byte('\\')
    requires top.Same? || (text[k + |low|] == Byte(',') && (top.Bound? ==> At(text, k + |low| + 1, top.digits)))
    requires IntervalFrom(text, k).BadInterval?
    ensures m.InInterval() && IntervalStands(m, text, k)
  {
    hide At, Value, UpperText, IntervalFrom, Numeral;
    var i := k + |low| + |UpperText(top)|;
    AtUpper(text, k + |low|, top);
    AtOne(text, i);
    AtJoin(text, k + |low|, UpperText(top), [Byte('\\')]);
    AtJoin(text, k, low, UpperText(top) + [Byte('\\')]);
    BoundsRead(text, k, low, top);
    m := if i + 1 >= |text| then CutBrace(low, top)
         else if text[i + 1] != Byte('}') then NoBrace(low, top) else OutOfOrder(low, top);
  }

  lemma SecondMistake(text: seq<byte>, k: nat, low: seq<byte>) returns (m: Mistake)
    requires Numeral(low) && At(text, k, low) && IntervalFrom(text, k).BadInterval?
    requires var j := k + |low|; j < |text| && text[j] == Byte(',') && (j + 1 < |text| ==> text[j + 1] != Byte('\\'))
    ensures m.InInterval() && IntervalStands(m, text, k)
  {
    hide At, NumberFrom, Value, Accumulates, AllDigits, UpperText, IntervalFrom;
    var j := k + |low|;
    var high := RunAt(text, j + 1);
    var end := j + 1 + |high|;
    AtOne(text, j);
    AtJoin(text, k, low, [Byte(',')]);
    AtEnds(text, j + 1, high);
    assert NumberAt(text, k, Some(low), high, end);
    if end >= |text| {
      m := CutNumber(Some(low), high);
    } else if high == [] || !StopsNumber(text[end]) {
      m := if IsDigit(text[end]) then TooLong(Some(low), high) else NoDigit(Some(low), high);
    } else if Value(high) >= 255 {
      m := TooLarge(Some(low), high);
    } else if text[end] == Byte(',') {
      m := ThirdBound(low, high);
    } else {
      m := BraceMistake(text, k, low, Bound(high));
    }
  }

  lemma ClassMistake(text: seq<byte>, k: nat, eof: int, sed: bool, last: Option<Piece>, g: Groups) returns (m: Mistake)
    requires k < |text| && text[k] == Byte('[') && text[k] != eof && ClassAt(text, k + 1, g).Reject?
    ensures Stands(m, text, k, eof, sed, last, g)
  {
    hide At, ElementsFit, Meant, ClassFrom;
    var negated := ByteAt(text, k + 1) == Byte('^');
    var caret: seq<byte> := if negated then [Byte('^')] else [];
    var j := k + 1 + |caret|;
    AtOne(text, k);
    AtCaret(text, k + 1);
    var es := MembersSoFar(text, j);
    AtJoin(text, k + 1, caret, ElementsText(es));
    AtJoin(text, k, [Byte('[')], caret + ElementsText(es));
    var end := j + |ElementsText(es)|;
    m := if end < |text| && (text[end] == 0 || text[end] == Byte('\n')) then InClass(negated, es)
         else CutClass(negated, es);
  }

  /** The elements of a class in which something is wrong. */
  lemma MembersSoFar(text: seq<byte>, k: nat) returns (es: seq<Element>)
    requires k <= |text| && ClassFrom(text, k, 0, {}).BadClass?
    ensures At(text, k, ElementsText(es)) && ElementsFit(es, 0, true)
    ensures var end := k + |ElementsText(es)|;
            || end >= |text| || text[end] == 0 || text[end] == Byte('\n')
            || (text[end] == Byte('-') && Latest(es, 0) != 0 && end + 1 >= |text|)
  {
    hide At;
    if k >= |text| || text[k] == 0 || text[k] == Byte('\n') {
      es := [];
      AtNone(text, k);
    } else {
      hide Latest, ElementsText, ElementsFit, Meant;
      es := MembersOf(text, k);
      MembersRead(text, k, es);
    }
  }

  lemma MistakeAt(text: seq<byte>, k: nat, eof: int, sed: bool, last: Option<Piece>, g: Groups) returns (m: Mistake)
    requires TokenAt(text, k, eof, sed, last, g).Reject?
    ensures Stands(m, text, k, eof, sed, last, g)
  {
    hide ClassAt, IntervalFrom, ClassUpTo, IntervalStands, ElementsText;
    if k >= |text| || (text[k] == Byte('\\') && k + 1 >= |text|) {
      m := CutShort;
    } else if text[k] == eof {
      m := OpenAtEnd(false);
    } else if text[k] == Byte('\n') {
      m := if sed then NewlineInside else OpenAtEnd(true);
    } else if text[k] == Byte('$') {
      m := CutShort;
    } else if text[k] == Byte('[') {
      m := ClassMistake(text, k, eof, sed, last, g);
    } else if text[k + 1] == Byte('{') {
      m := IntervalMistake(text, k + 2);
    } else {
      m := if text[k + 1] == Byte('(') then TenthGroup
           else if text[k + 1] == Byte(')') then NothingToClose
           else if text[k + 1] == Byte('\n') then NewlineQuoted else NoSuchGroup;
    }
  }

  // ---- The whole text ----

  /** From k on the text is spelled by ws up to the mistake m; the words denote ps. */
  predicate Misspelt(text: seq<byte>, k: nat, eof: int, sed: bool, last: Option<Piece>, g: Groups,
                     ws: seq<Word>, m: Mistake, ps: seq<Piece>) {
    var end := k + |Text(ws)|;
    At(text, k, Text(ws)) &&
    var r := Reached(ws, last, g, eof, ByteAt(text, end));
    && r.Some? && ps == r.value.done + AsSeq(r.value.last)
    && Stands(m, text, end, eof, sed, r.value.last, r.value.groups)
  }

  lemma MisspeltRead(text: seq<byte>, k: nat, eof: int, sed: bool, last: Option<Piece>, g: Groups,
                     ws: seq<Word>, m: Mistake, ps: seq<Piece>)
    requires Misspelt(text, k, eof, sed, last, g, ws, m, ps)
    ensures ParseFrom(text, k, eof, sed, last, g) == Bad(Wrong(m), ps, Need(m), m == OpenAtEnd(true))
  {
    hide At, Text, Reached, TokenAt, Stands, Wrong, Need;
    var end := k + |Text(ws)|;
    var place := Reached(ws, last, g, eof, ByteAt(text, end)).value;
    PrefixRead(text, k, eof, sed, last, g, ws, place);
    MistakeRefused(m, text, end, eof, sed, place.last, place.groups);
  }

  lemma ReadMisspelt(text: seq<byte>, k: nat, eof: int, sed: bool, last: Option<Piece>, g: Groups)
    returns (ws: seq<Word>, m: Mistake)
    requires k <= |text| && ParseFrom(text, k, eof, sed, last, g).Bad?
    ensures Misspelt(text, k, eof, sed, last, g, ws, m, ParseFrom(text, k, eof, sed, last, g).pieces)
  {
    hide At, Text, Reached, TokenAt, Stands;
    var place: Place;
    ws, place := WordsOf(text, k, eof, sed, last, g);
    var end := k + |Text(ws)|;
    PrefixRead(text, k, eof, sed, last, g, ws, place);
    m := MistakeAt(text, end, eof, sed, place.last, place.groups);
  }

  predicate Mistaken(text: seq<byte>, at: nat, eof: int, sed: bool, anchored: bool,
                     ws: seq<Word>, m: Mistake, ps: seq<Piece>) {
    && BeginsPattern(text, at, eof, anchored)
    && Misspelt(text, if anchored then at + 1 else at, eof, sed, None, NO_GROUPS, ws, m, ps)
  }

  /** The refused texts are those with a mistake behind words of the grammar; the error is that
      of the mistake, and the pieces read before it are those that the words denote. */
  lemma RefusedIffMisspelt(text: seq<byte>, at: nat, eof: int, sed: bool, anchored: bool,
                           fault: Fault, ps: seq<Piece>, need: nat, newline: bool)
    ensures Parse(text, at, eof, sed) == Regular(anchored, Bad(fault, ps, need, newline)) <==>
            exists ws, m :: && Mistaken(text, at, eof, sed, anchored, ws, m, ps)
                            && fault == Wrong(m) && need == Need(m) && (newline <==> m == OpenAtEnd(true))
  {
    hide ParseFrom, Misspelt, Wrong, Need;
    KindOfText(text, at, eof, sed);
    var k := if anchored then at + 1 else at;
    if Parse(text, at, eof, sed) == Regular(anchored, Bad(fault, ps, need, newline)) {
      var ws, m := ReadMisspelt(text, k, eof, sed, None, NO_GROUPS);
      MisspeltRead(text, k, eof, sed, None, NO_GROUPS, ws, m, ps);
      assert Mistaken(text, at, eof, sed, anchored, ws, m, ps);
    }
    forall ws, m | Mistaken(text, at, eof, sed, anchored, ws, m, ps)
      ensures ParseFrom(text, k, eof, sed, None, NO_GROUPS) == Bad(Wrong(m), ps, Need(m), m == OpenAtEnd(true))
    {
      MisspeltRead(text, k, eof, sed, None, NO_GROUPS, ws, m, ps);
    }
  }
}
