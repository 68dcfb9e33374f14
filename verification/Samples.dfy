/** Texts written out as strings: what the words look like, how many groups there may be,
    and samples of what is accepted and of each error. */
module Samples {
  import opened Bytes
  import opened Pattern
  import opened Syntax
  import opened Grouping
  import opened Backtrack
  import opened Verdicts
  import opened Grammar
  import opened Mistakes

  // ---- Words ----

  /** Every word as it is written. */
  lemma WordStrings(c: byte)
    ensures WordText(Any) == Ascii(".") && WordText(Star) == Ascii("*") && WordText(AtEnd) == Ascii("$")
    ensures WordText(Begin) == Ascii("\\(") && WordText(End) == Ascii("\\)") && WordText(QuotedNewline) == Ascii("\\n")
    ensures WordText(Plain(c)) == [c] && WordText(Quoted(c)) == WordText(Again(c)) == Ascii("\\") + [c]
  {
  }

  lemma ClassStrings(negated: bool, es: seq<Element>, dash: bool, c: byte)
    ensures WordText(Bracketed(negated, es, dash)) ==
            Ascii(if negated then "[^" else "[") + ElementsText(es) + Ascii(if dash then "-]" else "]")
    ensures ElementText(One(c)) == [c] && ElementText(UpTo(c)) == Ascii("-") + [c]
  {
    hide ElementsText, Ascii;
    var caret: seq<byte> := if negated then [Byte('^')] else [];
    var tail: seq<byte> := (if dash then [Byte('-')] else []) + [Byte(']')];
    BracketStrings();
    assert Ascii(if negated then "[^" else "[") == [Byte('[')] + caret && Ascii(if dash then "-]" else "]") == tail;
    JoinFour([Byte('[')], caret, ElementsText(es), tail);
  }

  lemma BracketStrings()
    ensures Ascii("[") == [Byte('[')] && Ascii("[^") == [Byte('[')] + [Byte('^')] && Ascii("-") == [Byte('-')]
    ensures Ascii("]") == [Byte(']')] && Ascii("-]") == [Byte('-')] + [Byte(']')]
  {
  }

  lemma IntervalStrings(low: seq<byte>, top: Upper)
    ensures WordText(Times(low, top)) == Ascii("\\{") + low + UpperText(top) + Ascii("\\}")
    ensures UpperText(top) == if top.Same? then [] else if top.Unbounded? then Ascii(",") else Ascii(",") + top.digits
  {
    var open, close := [Byte('\\'), Byte('{')], [Byte('\\'), Byte('}')];
    assert Ascii("\\{") == open && Ascii("\\}") == close && Ascii(",") == [Byte(',')];
    JoinFour(open, low, UpperText(top), close);
  }

  lemma JoinFour(a: seq<byte>, b: seq<byte>, c: seq<byte>, d: seq<byte>)
    ensures a + (b + (c + d)) == a + b + c + d
  {
  }

  // ---- Groups in a row ----

  /** n times \(a\) */
  function RowString(n: nat): string {
    if n == 0 then "" else "\\(a\\)" + RowString(n - 1)
  }

  /** One such group in front of other words. */
  function GroupWords(ws: seq<Word>): seq<Word> {
    [Begin] + ([Plain('a' as int)] + ([End] + ws))
  }

  function RowWords(n: nat): seq<Word> {
    if n == 0 then [] else GroupWords(RowWords(n - 1))
  }

  function BarePiece(a: Atom): Piece {
    Piece(a, false, [])
  }

  /** The pieces of n groups, numbered from i on. */
  function RowPieces(i: nat, n: nat): (ps: seq<Piece>)
    requires i + n <= 9
    ensures |ps| == 3 * n
    decreases n
  {
    if n == 0 then []
    else [BarePiece(Open(i)), BarePiece(Lit('a' as int)), BarePiece(Close(i))] + RowPieces(i + 1, n - 1)
  }

  lemma GroupText(ws: seq<Word>)
    ensures Text(GroupWords(ws)) == Ascii("\\(a\\)") + Text(ws)
  {
    hide Text;
    var a := Plain('a' as int);
    TextFirst(End, ws);
    TextFirst(a, [End] + ws);
    TextFirst(Begin, [a] + ([End] + ws));
    assert Ascii("\\(a\\)") == WordText(Begin) + WordText(a) + WordText(End);
  }

  lemma NoText()
    ensures Text([]) == [] == Ascii("")
  {
  }

  lemma {:induction false} RowText(n: nat)
    ensures Text(RowWords(n)) == Ascii(RowString(n)) && |RowString(n)| == 5 * n
  {
    hide Text, Ascii, GroupWords;
    if n == 0 {
      NoText();
    } else {
      GroupText(RowWords(n - 1));
      RowText(n - 1);
      AsciiConcat("\\(a\\)", RowString(n - 1));
    }
  }

  /** A delimiter that does not occur in the samples. */
  predicate Foreign(eof: int) {
    eof != Byte('\\') && eof != Byte('a') && eof != Byte('\n') && eof != Byte('^')
  }

  lemma GroupStands(i: nat, last: Option<Piece>, eof: int, behind: int)
    requires i < 9 && Foreign(eof)
    ensures var g0, g1, g2 := Groups(i, [], i), Groups(i + 1, [i], i), Groups(i + 1, [], i + 1);
            var a, p := 'a' as int, Some(BarePiece(Open(i)));
            && MayStand(Begin, last, g0, eof, behind) && Read(Begin, last, g0, 0) == Fresh(Open(i), g1, 0)
            && MayStand(Plain(a), p, g1, eof, behind) && Read(Plain(a), p, g1, 0) == Fresh(Lit(a), g1, 0)
            && MayStand(End, Some(BarePiece(Lit(a))), g1, eof, behind)
            && Read(End, Some(BarePiece(Lit(a))), g1, 0) == Fresh(Close(i), g2, 0)
  {
    assert [] + [i] == [i] && [i][..0] == [];
  }

  lemma GroupReached(i: nat, last: Option<Piece>, ws: seq<Word>, eof: int, end: int)
    requires i < 9 && Foreign(eof)
    ensures var r := Reached(GroupWords(ws), last, Groups(i, [], i), eof, end);
            var rest := Reached(ws, Some(BarePiece(Close(i))), Groups(i + 1, [], i + 1), eof, end);
            var front := AsSeq(last) + [BarePiece(Open(i)), BarePiece(Lit('a' as int))];
            r == if rest.None? then None else Some(rest.value.(done := front + rest.value.done))
  {
    hide Reached, Text, MayStand, Read, Usable;
    var a := 'a' as int;
    var w2 := [End] + ws;
    var w1 := [Plain(a)] + w2;
    var p0, p1 := BarePiece(Open(i)), BarePiece(Lit(a));
    GroupStands(i, last, eof, FirstOf(Text(w1), end));
    GroupStands(i, last, eof, FirstOf(Text(w2), end));
    GroupStands(i, last, eof, FirstOf(Text(ws), end));
    ReachedFirst(Begin, w1, last, Groups(i, [], i), eof, end);
    ReachedFirst(Plain(a), w2, Some(p0), Groups(i + 1, [i], i), eof, end);
    ReachedFirst(End, ws, Some(p1), Groups(i + 1, [i], i), eof, end);
    var rest := Reached(ws, Some(BarePiece(Close(i))), Groups(i + 1, [], i + 1), eof, end);
    if rest.Some? {
      assert AsSeq(last) + ([p0] + ([p1] + rest.value.done)) == AsSeq(last) + [p0, p1] + rest.value.done;
    }
  }

  lemma {:induction false} RowReached(n: nat, i: nat, last: Option<Piece>, eof: int, end: int) returns (place: Place)
    requires i + n <= 9 && Foreign(eof)
    ensures Reached(RowWords(n), last, Groups(i, [], i), eof, end) == Some(place)
    ensures place.groups == Groups(i + n, [], i + n)
    ensures place.done + AsSeq(place.last) == AsSeq(last) + RowPieces(i, n)
    decreases n
  {
    hide Reached, GroupWords, RowPieces;
    RowFirst(i, n);
    if n == 0 {
      NothingReached(last, Groups(i, [], i), eof, end);
      place := Place([], last, Groups(i, [], i));
      assert [] + AsSeq(last) == AsSeq(last) + [];
    } else {
      var p2 := BarePiece(Close(i));
      GroupReached(i, last, RowWords(n - 1), eof, end);
      var inner := RowReached(n - 1, i + 1, Some(p2), eof, end);
      var two, more := [BarePiece(Open(i)), BarePiece(Lit('a' as int))], RowPieces(i + 1, n - 1);
      place := inner.(done := AsSeq(last) + two + inner.done);
      JoinRow(AsSeq(last), two, inner.done, AsSeq(inner.last), p2, more);
    }
  }

  lemma RowFirst(i: nat, n: nat)
    requires i + n <= 9
    ensures if n == 0 then RowPieces(i, n) == []
            else RowPieces(i, n) == [BarePiece(Open(i)), BarePiece(Lit('a' as int))] +
                                    ([BarePiece(Close(i))] + RowPieces(i + 1, n - 1))
  {
  }

  lemma JoinRow(a: seq<Piece>, b: seq<Piece>, c: seq<Piece>, d: seq<Piece>, p: Piece, e: seq<Piece>)
    requires c + d == [p] + e
    ensures a + b + c + d == a + (b + ([p] + e))
  {
    assert a + b + c + d == a + (b + (c + d));
  }

  /** A row of groups in front of any text: they are read, and then what follows. */
  lemma RowRead(n: nat, tail: seq<byte>, eof: int, sed: bool) returns (place: Place)
    requires n <= 9 && Foreign(eof)
    ensures place.groups == Groups(n, [], n) && place.done + AsSeq(place.last) == RowPieces(0, n)
    ensures var text := Ascii(RowString(n)) + tail;
            && |text| == 5 * n + |tail| && text[5 * n..] == tail && (n > 0 ==> text[0] == Byte('\\'))
            && ParseFrom(text, 0, eof, sed, None, NO_GROUPS) ==
               Attach(place.done, ParseFrom(text, 5 * n, eof, sed, place.last, place.groups))
  {
    hide Reached, ParseFrom, Text, RowPieces, Attach;
    var ws, text := RowWords(n), Ascii(RowString(n)) + tail;
    RowText(n);
    assert At(text, 0, Text(ws));
    place := RowReached(n, 0, None, eof, ByteAt(text, 5 * n));
    PrefixRead(text, 0, eof, sed, None, NO_GROUPS, ws, place);
    assert AsSeq(None) + RowPieces(0, n) == RowPieces(0, n);
    if n > 0 {
      assert RowString(n)[0] == '\\';
    }
  }

  /** Up to nine groups in a row are accepted and numbered from 0 on. */
  lemma GroupsAccepted(n: nat, eof: byte, sed: bool)
    requires 1 <= n <= 9 && Foreign(eof)
    ensures Parse(Ascii(RowString(n)) + [eof], 0, eof, sed) == Regular(false, Good(RowPieces(0, n), false, 5 * n + 1))
    ensures Opens(RowPieces(0, n)) == n
    ensures forall i :: 0 <= i < n ==>
              RowPieces(0, n)[3 * i].atom == Open(i) && RowPieces(0, n)[3 * i + 2].atom == Close(i)
  {
    hide RowPieces, RowString, Opens;
    var text := Ascii(RowString(n)) + [eof];
    var place := RowRead(n, [eof], eof, sed);
    assert text[5 * n] == eof;
    EndToken(text, 5 * n, eof, sed, place.last, place.groups, false);
    RowOpens(0, n);
    forall i | 0 <= i < n
      ensures RowPieces(0, n)[3 * i].atom == Open(i) && RowPieces(0, n)[3 * i + 2].atom == Close(i)
    {
      RowNumbered(0, n, i);
    }
  }

  lemma {:induction false} RowOpens(i: nat, n: nat)
    requires i + n <= 9
    ensures Opens(RowPieces(i, n)) == n
    decreases n
  {
    hide Opens;
    if n == 0 {
      NoOpens();
    } else {
      var p, q, r, more := BarePiece(Open(i)), BarePiece(Lit('a' as int)), BarePiece(Close(i)), RowPieces(i + 1, n - 1);
      RowOpens(i + 1, n - 1);
      NoOpens();
      OpensOneMore([], p);
      OpensOneMore([] + [p], q);
      OpensOneMore([] + [p] + [q], r);
      assert [] + [p] + [q] + [r] == [p, q, r];
      OpensConcat([p, q, r], more);
    }
  }

  lemma NoOpens()
    ensures Opens([]) == 0
  {
  }

  /** The j-th of the groups in a row. */
  lemma {:induction false} RowNumbered(i: nat, n: nat, j: nat)
    requires i + n <= 9 && j < n
    ensures RowPieces(i, n)[3 * j].atom == Open(i + j) && RowPieces(i, n)[3 * j + 2].atom == Close(i + j)
    decreases n
  {
    if j == 0 {
    } else {
      var more := RowPieces(i + 1, n - 1);
      RowNumbered(i + 1, n - 1, j - 1);
      assert RowPieces(i, n)[3 * j] == more[3 * (j - 1)] && RowPieces(i, n)[3 * j + 2] == more[3 * (j - 1) + 2];
    }
  }

  lemma {:induction false} OpensConcat(ps: seq<Piece>, qs: seq<Piece>)
    ensures Opens(ps + qs) == Opens(ps) + Opens(qs)
    decreases |qs|
  {
    if qs == [] {
      assert ps + qs == ps;
    } else {
      var n := |qs| - 1;
      OpensConcat(ps, qs[..n]);
      assert ps + qs == ps + qs[..n] + [qs[n]] && qs == qs[..n] + [qs[n]];
      OpensOneMore(ps + qs[..n], qs[n]);
      OpensOneMore(qs[..n], qs[n]);
    }
  }

  /** More than nine are refused at the tenth. */
  lemma TenGroupsRefused(n: nat, eof: byte, sed: bool)
    requires n >= 10 && Foreign(eof)
    ensures Parse(Ascii(RowString(n)) + [eof], 0, eof, sed) ==
            Regular(false, Bad(Fault.Code(43), RowPieces(0, 9), 0, false))
  {
    hide RowPieces, Attach, RowString, Ascii, TokenAt, Parse;
    var text, tail := Ascii(RowString(n)) + [eof], Ascii(RowString(n - 9)) + [eof];
    RowSplit(9, n - 9);
    AsciiConcat(RowString(9), RowString(n - 9));
    assert text == Ascii(RowString(9)) + tail;
    var place := RowRead(9, tail, eof, sed);
    RowBegins(n - 9);
    assert text[45] == text[45..][0] == tail[0] && text[46] == text[45..][1] == tail[1];
    GroupRefused(text, 45, eof, sed, place);
    AttachPieces(place.done, Bad(Fault.Code(43), AsSeq(place.last), 0, false));
    KindOfText(text, 0, eof, sed);
  }

  lemma RowBegins(n: nat)
    requires n > 0
    ensures |Ascii(RowString(n))| >= 2
    ensures Ascii(RowString(n))[0] == Byte('\\') && Ascii(RowString(n))[1] == Byte('(')
  {
    assert RowString(n)[0] == '\\' && RowString(n)[1] == '(';
  }

  lemma GroupRefused(text: seq<byte>, k: nat, eof: int, sed: bool, place: Place)
    requires k + 1 < |text| && text[k] == Byte('\\') && text[k + 1] == Byte('(') && Foreign(eof)
    requires place.groups == Groups(9, [], 9)
    ensures ParseFrom(text, k, eof, sed, place.last, place.groups) == Bad(Fault.Code(43), AsSeq(place.last), 0, false)
  {
    assert TokenAt(text, k, eof, sed, place.last, place.groups) == Reject(Fault.Code(43));
  }

  lemma AttachPieces(front: seq<Piece>, r: Parsed)
    ensures Attach(front, r) == r.(pieces := front + r.pieces)
  {
  }

  lemma {:induction false} RowSplit(m: nat, n: nat)
    ensures RowString(m + n) == RowString(m) + RowString(n)
  {
    if m == 0 {
    } else {
      RowSplit(m - 1, n);
      assert "\\(a\\)" + (RowString(m - 1) + RowString(n)) == "\\(a\\)" + RowString(m - 1) + RowString(n);
    }
  }

  /** Behind n groups \d is accepted exactly when d is at most n; nine can be reached. */
  lemma ReferenceBehindGroups(n: nat, d: nat, eof: byte, sed: bool)
    requires n <= 9 && 1 <= d <= 9 && Foreign(eof)
    ensures Parse(Ascii(RowString(n)) + ['\\' as int, '0' as int + d, eof], 0, eof, sed) ==
            Regular(false, if d <= n then Good(RowPieces(0, n) + [BarePiece(Back(d - 1))], false, 5 * n + 3)
                           else Bad(Fault.Code(25), RowPieces(0, n), 0, false))
  {
    hide RowPieces, Attach, RowString, Ascii, Parse;
    var tail: seq<byte> := ['\\' as int, '0' as int + d, eof];
    var text := Ascii(RowString(n)) + tail;
    var place := RowRead(n, tail, eof, sed);
    var k := 5 * n;
    assert text[k] == text[k..][0] && text[k + 1] == text[k..][1] && text[k + 2] == text[k..][2];
    ReferenceRead(text, k, d, eof, sed, place, n);
    var p, rest := BarePiece(Back(d - 1)), ParseFrom(text, k, eof, sed, place.last, place.groups);
    AttachPieces(place.done, rest);
    assert place.done + (AsSeq(place.last) + [p]) == RowPieces(0, n) + [p];
    KindOfText(text, 0, eof, sed);
    assert BeginsPattern(text, 0, eof, false);
  }

  lemma ReferenceRead(text: seq<byte>, k: nat, d: nat, eof: byte, sed: bool, place: Place, n: nat)
    requires k + 3 == |text| && text[k..] == ['\\' as int, '0' as int + d, eof]
    requires n <= 9 && 1 <= d <= 9 && Foreign(eof) && place.groups == Groups(n, [], n)
    ensures ParseFrom(text, k, eof, sed, place.last, place.groups) ==
            if d <= n then Good(AsSeq(place.last) + [BarePiece(Back(d - 1))], false, k + 3)
            else Bad(Fault.Code(25), AsSeq(place.last), 0, false)
  {
    assert text[k] == text[k..][0] && text[k + 1] == text[k..][1] && text[k + 2] == text[k..][2];
    var p := BarePiece(Back(d - 1));
    if d <= n {
      EndToken(text, k + 2, eof, sed, Some(p), place.groups, false);
      assert TokenAt(text, k, eof, sed, place.last, place.groups) == Fresh(Back(d - 1), place.groups, k + 2);
    } else {
      assert TokenAt(text, k, eof, sed, place.last, place.groups) == Reject(Fault.Code(25));
    }
  }

  /** No accepted pattern has more than nine groups. */
  lemma AtMostNineGroups(text: seq<byte>, at: nat, eof: int, sed: bool)
    requires var e := Parse(text, at, eof, sed); e.Regular? && e.rest.Good?
    ensures Opens(Parse(text, at, eof, sed).rest.pieces) <= 9
  {
    hide Parse;
    var ps := Parse(text, at, eof, sed).rest.pieces;
    AcceptedPattern(text, at, eof, sed);
    GroupsCounted(ps, |ps|);
    assert ps[..|ps|] == ps;
    GroupsMeaning(ps, |ps|);
  }

  // ---- Patterns ----

  const SLASH: byte := '/' as int

  /** The text s is accepted up to a slash as the one piece p. */
  predicate ReadAs(s: string, p: Piece, sed: bool) {
    Parse(Ascii(s), 0, SLASH, sed) == Regular(false, Good([p], false, |s|))
  }

  /** An atom that fills the text up to the slash. */
  lemma AtomAlone(s: string, a: Atom, sed: bool)
    requires |s| > 1 && s[|s| - 1] == '/' && s[0] != '^' && s[0] != '\n' && s[0] as int < 256
    requires TokenAt(Ascii(s), 0, SLASH, sed, None, NO_GROUPS) == Fresh(a, NO_GROUPS, |s| - 1)
    ensures ReadAs(s, BarePiece(a), sed)
  {
    hide TokenAt;
    var text, p := Ascii(s), BarePiece(a);
    EndToken(text, |s| - 1, SLASH, sed, Some(p), NO_GROUPS, false);
    assert ParseFrom(text, |s| - 1, SLASH, sed, Some(p), NO_GROUPS) == Good([p], false, |s|);
    AttachNothing(Good([p], false, |s|));
    assert text[0] != SLASH by { SlashEnds(text, sed); }
  }

  lemma SlashEnds(text: seq<byte>, sed: bool)
    ensures |text| > 0 && text[0] == SLASH ==> TokenAt(text, 0, SLASH, sed, None, NO_GROUPS).Finish?
  {
  }

  lemma AtomsRead(sed: bool)
    ensures ReadAs("./", BarePiece(Dot), sed) && ReadAs("$/", BarePiece(Dollar), sed)
    ensures ReadAs("*/", BarePiece(Lit('*' as int)), sed)
    ensures ReadAs("\\n/", BarePiece(Lit('\n' as int)), sed) && ReadAs("\\./", BarePiece(Lit('.' as int)), sed)
    ensures ReadAs("\\{/", BarePiece(Lit('{' as int)), sed)
  {
    hide ReadAs;
    AtomAlone("./", Dot, sed);
    AtomAlone("$/", Dollar, sed);
    AtomAlone("*/", Lit('*' as int), sed);
    AtomAlone("\\n/", Lit('\n' as int), sed);
    AtomAlone("\\./", Lit('.' as int), sed);
    AtomAlone("\\{/", Lit('{' as int), sed);
  }

  lemma ClassReadAs(sed: bool)
    ensures ReadAs("[^b-d]/", BarePiece(Class({'b' as int, 'c' as int, 'd' as int}, true)), sed)
  {
    hide ReadAs;
    var text := Ascii("[^b-d]/");
    var b, members := 'b' as int, {'b' as int, 'c' as int, 'd' as int};
    assert text[1] == '^' as int && text[2] == b && text[3] == '-' as int;
    assert text[4] == 'd' as int && text[5] == ']' as int;
    assert Range(b, 'd' as int) == members && {} + {b} + members == members;
    assert ClassFrom(text, 2, 0, {}) == ClassRest(text, 3, b, {} + {b});
    assert ClassRest(text, 3, b, {} + {b}) == ClassRest(text, 5, 'd' as int, {} + {b} + Range(b, 'd' as int));
    assert ClassRest(text, 5, 'd' as int, members) == ClassText(members, 6);
    AtomAlone("[^b-d]/", Class(members, true), sed);
  }

  /** A letter and a suffix. */
  lemma SuffixReadAs(s: string, p: Piece, sed: bool)
    requires |s| > 2 && s[0] == 'a' && s[|s| - 1] == '/'
    requires TokenAt(Ascii(s), 1, SLASH, sed, Some(BarePiece(Lit('a' as int))), NO_GROUPS) == Suffix(p, |s| - 1)
    ensures ReadAs(s, p, sed)
  {
    var text, a := Ascii(s), BarePiece(Lit('a' as int));
    assert TokenAt(text, 0, SLASH, sed, None, NO_GROUPS) == Fresh(Lit('a' as int), NO_GROUPS, 1);
    EndToken(text, |s| - 1, SLASH, sed, Some(p), NO_GROUPS, false);
    assert ParseFrom(text, |s| - 1, SLASH, sed, Some(p), NO_GROUPS) == Good([p], false, |s|);
    assert ParseFrom(text, 1, SLASH, sed, Some(a), NO_GROUPS) == Good([p], false, |s|);
    AttachNothing(Good([p], false, |s|));
  }

  lemma SuffixesRead(sed: bool)
    ensures ReadAs("a*/", Piece(Lit('a' as int), true, []), sed)
    ensures ReadAs("a\\{2,\\}/", Piece(Lit('a' as int), false, [Interval(2, 255)]), sed)
  {
    hide ReadAs;
    SuffixReadAs("a*/", Piece(Lit('a' as int), true, []), sed);
    var text := Ascii("a\\{2,\\}/");
    assert text[3] == '2' as int && text[4] == ',' as int && text[5] == '\\' as int && text[6] == '}' as int;
    assert NumberFrom(text, 3, 0) == Number(2, 4);
    assert [] + [Interval(2, 255)] == [Interval(2, 255)];
    SuffixReadAs("a\\{2,\\}/", Piece(Lit('a' as int), false, [Interval(2, 255)]), sed);
  }

  /** What atoms and intervals permit, in numbers: a dot takes a newline too, and \{m,\} stops at m + 20000. */
  lemma MeaningInNumbers(b: byte, m: byte, n: nat)
    ensures Accepts(Dot, b) <==> b != 0
    ensures Piece(Dot, false, [Interval(m, 255)]).Permits(n) <==> m <= n <= m + 20000
    ensures m < 255 ==> (Piece(Dot, false, [Interval(m, m)]).Permits(n) <==> n == m)
    ensures Piece(Dot, true, []).Permits(n) && (Piece(Dot, false, []).Permits(n) <==> n == 1)
  {
  }

  /** a* on aaa takes all of it, and a\{2,\} does too. */
  lemma RunTakesAll(p: Piece, locs: int)
    requires p == Piece(Lit('a' as int), true, []) || p == Piece(Lit('a' as int), false, [Interval(2, 255)])
    requires locs != 3
    ensures Leftmost([p], Ascii("aaa") + [0], locs, 0) == Hit([0, 3])
  {
    var s := Ascii("aaa") + [0];
    assert s == ['a' as int, 'a' as int, 'a' as int, 0];
    assert Ends([p], s, [0], 3);
    RunEndsBeforeLocs(p, s, locs, 0, 3);
  }

  // ---- Errors ----

  /** What follows a letter is refused. */
  lemma LetterThen(text: seq<byte>, fault: Fault, need: nat, sed: bool)
    requires |text| > 1 && text[0] == 'a' as int
    requires TokenAt(text, 1, '/' as int, sed, Some(BarePiece(Lit('a' as int))), NO_GROUPS) == Reject(fault, need)
    ensures Parse(text, 0, '/' as int, sed) == Regular(false, Bad(fault, [BarePiece(Lit('a' as int))], need, false))
  {
    var p := BarePiece(Lit('a' as int));
    assert TokenAt(text, 0, '/' as int, sed, None, NO_GROUPS) == Fresh(Lit('a' as int), NO_GROUPS, 1);
    assert ParseFrom(text, 1, '/' as int, sed, Some(p), NO_GROUPS) == Bad(fault, [p], need, false);
    AttachNothing(Bad(fault, [p], need, false));
  }

  /** A text that begins with a letter, refused behind it with error n. */
  predicate Refused(s: string, n: int, need: nat, sed: bool) {
    Parse(Ascii(s), 0, '/' as int, sed) == Regular(false, Bad(Fault.Code(n), [BarePiece(Lit('a' as int))], need, false))
  }

  lemma BackslashErrors(sed: bool)
    ensures Refused("a\\)/", 42, 0, sed) && Refused("a\\1/", 25, 0, sed) && Refused("a\\\n/", 36, 0, sed)
  {
    hide Parse;
    LetterThen(Ascii("a\\)/"), Fault.Code(42), 0, sed);
    LetterThen(Ascii("a\\1/"), Fault.Code(25), 0, sed);
    LetterThen(Ascii("a\\\n/"), Fault.Code(36), 0, sed);
  }

  lemma NewlineErrors(sed: bool)
    ensures Refused("a[b\n", 49, 17, sed) && Refused("a\n", 36, 0, true)
  {
    hide Parse;
    var text := Ascii("a[b\n");
    assert text[1] == '[' as int && text[2] == 'b' as int && text[3] == '\n' as int;
    assert ClassFrom(text, 2, 0, {}) == ClassRest(text, 3, 'b' as int, {} + {'b' as int});
    assert ClassFrom(text, 2, 0, {}) == BadClass(Fault.Code(49), {'b' as int});
    LetterThen(text, Fault.Code(49), 17, sed);
    LetterThen(Ascii("a\n"), Fault.Code(36), 0, true);
  }

  /** An interval behind a letter is refused. */
  lemma IntervalThen(text: seq<byte>, m: Mistake, sed: bool)
    requires |text| > 3 && text[..3] == ['a' as int, '\\' as int, '{' as int]
    requires m.InInterval() && IntervalStands(m, text, 3)
    ensures Parse(text, 0, '/' as int, sed) == Regular(false, Bad(Wrong(m), [BarePiece(Lit('a' as int))], 0, false))
  {
    hide Parse, IntervalFrom, IntervalStands;
    IntervalRefused(m, text, 3);
    LetterThen(text, Wrong(m), 0, sed);
  }

  lemma OneDigit(text: seq<byte>, k: nat, d: byte)
    requires k + 1 < |text| && text[k] == d && IsDigit(d) && !IsDigit(text[k + 1])
    ensures Numeral([d]) && Value([d]) == d - Byte('0') && DigitRun(text, k, [d]) && At(text, k, [d])
  {
    assert [d][..0] == [] && Value([]) == 0 && text[k..k + 1] == [d];
  }

  lemma NotANumber(sed: bool)
    ensures Refused("a\\{x\\}/", 16, 0, sed)
  {
    hide Parse, IntervalStands, Ascii;
    var text := Ascii("a\\{x\\}/");
    SampleBytes();
    LetterInside(text);
    IntervalThen(text, NoDigit(None, []), sed);
  }

  lemma SampleBytes()
    ensures Ascii("a\\{x\\}/") == ['a' as int, '\\' as int, '{' as int, 'x' as int, '\\' as int, '}' as int, '/' as int]
    ensures Ascii("a\\{2,1\\}/") ==
            ['a' as int, '\\' as int, '{' as int, '2' as int, ',' as int, '1' as int, '\\' as int, '}' as int, '/' as int]
  {
  }

  lemma LetterInside(text: seq<byte>)
    requires |text| > 3 && text[3] == 'x' as int
    ensures IntervalStands(NoDigit(None, []), text, 3)
  {
    AtNone(text, 3);
  }

  lemma NotClosed(sed: bool)
    ensures Refused("a\\{1\\)/", 45, 0, sed)
  {
    hide Parse, Value;
    var text := Ascii("a\\{1\\)/");
    assert text[..3] == ['a' as int, '\\' as int, '{' as int] && text[5] == ')' as int;
    OneDigit(text, 3, '1' as int);
    assert text[3..5] == ['1' as int] + ([] + ['\\' as int]);
    IntervalThen(text, NoBrace(['1' as int], Same), sed);
  }

  lemma TwoBounds(text: seq<byte>, d: byte, e: byte)
    requires |text| > 7 && text[3..7] == [d, ',' as int, e, '\\' as int]
    requires Numeral([d]) && Numeral([e])
    ensures BoundsAt(text, 3, [d], Bound([e]), 7)
  {
    hide Numeral;
    assert [d] + ([',' as int] + [e] + ['\\' as int]) == [d, ',' as int, e, '\\' as int];
  }

  lemma NotAscending(sed: bool)
    ensures Refused("a\\{2,1\\}/", 46, 0, sed)
  {
    hide Parse, Value, IntervalStands, Ascii, Numeral, DigitRun, At;
    var text := Ascii("a\\{2,1\\}/");
    SampleBytes();
    OneDigit(text, 3, '2' as int);
    OneDigit(text, 5, '1' as int);
    TwoBounds(text, '2' as int, '1' as int);
    Disordered(text, '2' as int, '1' as int);
    IntervalThen(text, OutOfOrder(['2' as int], Bound(['1' as int])), sed);
  }

  lemma Disordered(text: seq<byte>, d: byte, e: byte)
    requires |text| > 7 && BoundsAt(text, 3, [d], Bound([e]), 7) && text[7] == Byte('}') && Value([e]) < Value([d])
    ensures IntervalStands(OutOfOrder([d], Bound([e])), text, 3)
  {
    hide BoundsAt, Value;
  }

  lemma ThreeBounds(sed: bool)
    ensures Refused("a\\{1,2,3\\}/", 44, 0, sed)
  {
    hide Parse, Value;
    var text := Ascii("a\\{1,2,3\\}/");
    assert text[..3] == ['a' as int, '\\' as int, '{' as int] && text[6] == ',' as int;
    OneDigit(text, 3, '1' as int);
    OneDigit(text, 5, '2' as int);
    assert text[3..5] == ['1' as int] + [',' as int];
    IntervalThen(text, ThirdBound(['1' as int], ['2' as int]), sed);
  }

  lemma TooMany(sed: bool)
    ensures Refused("a\\{300\\}/", 11, 0, sed)
  {
    hide Parse;
    var text := Ascii("a\\{300\\}/");
    var digits := ['3' as int, '0' as int, '0' as int];
    assert text[..3] == ['a' as int, '\\' as int, '{' as int] && text[6] == '\\' as int;
    assert text[3..6] == digits && text[3..3] == [];
    assert digits[..2] == ['3' as int, '0' as int] && digits[..2][..1] == ['3' as int] && ['3' as int][..0] == [];
    assert Value(['3' as int]) == 3 && Accumulates(['3' as int]);
    assert Value(digits[..2]) == 30 && Accumulates(digits[..2]);
    assert Value(digits) == 300 && Accumulates(digits);
    IntervalThen(text, TooLarge(None, digits), sed);
  }

  /** A group that is still open at the end, behind the delimiter or a newline. */
  lemma NotAllClosed()
    ensures Parse(Ascii("\\(/"), 0, '/' as int, false) ==
            Regular(false, Bad(Fault.Code(42), [BarePiece(Open(0))], 0, false))
    ensures Parse(Ascii("\\(\n"), 0, '/' as int, false) ==
            Regular(false, Bad(Fault.Code(42), [BarePiece(Open(0))], 0, true))
  {
    var p, g := BarePiece(Open(0)), Groups(1, [0], 0);
    var slash, line := Ascii("\\(/"), Ascii("\\(\n");
    assert [] + [0] == [0];
    assert TokenAt(slash, 0, '/' as int, false, None, NO_GROUPS) == Fresh(Open(0), g, 2);
    assert ParseFrom(slash, 2, '/' as int, false, Some(p), g) == Bad(Fault.Code(42), [p], 0, false);
    AttachNothing(Bad(Fault.Code(42), [p], 0, false));
    assert TokenAt(line, 0, '/' as int, false, None, NO_GROUPS) == Fresh(Open(0), g, 2);
    assert ParseFrom(line, 2, '/' as int, false, Some(p), g) == Bad(Fault.Code(42), [p], 0, true);
    AttachNothing(Bad(Fault.Code(42), [p], 0, true));
  }
}
