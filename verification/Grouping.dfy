/** Brackets and back references of the patterns that `compile` accepts. */
module Grouping {
  import opened Bytes
  import opened Pattern
  import opened Syntax

  /** The groups behind the pieces ps, if they may stand behind g. */
  function After(g: Groups, ps: seq<Piece>): Option<Groups>
    decreases |ps|
  {
    if ps == [] then Some(g)
    else
      match Next(g, ps[0].atom)
      case None => None
      case Some(h) => After(h, ps[1..])
  }

  lemma {:induction false} AfterSplit(g: Groups, ps: seq<Piece>, i: nat)
    requires i <= |ps| && After(g, ps).Some?
    ensures After(g, ps[..i]).Some?
    ensures After(After(g, ps[..i]).value, ps[i..]) == After(g, ps)
    decreases |ps|
  {
    if i == 0 {
      assert ps[..0] == [] && ps[0..] == ps;
    } else {
      assert ps[..i][1..] == ps[1..][..i - 1];
      assert ps[1..][i - 1..] == ps[i..];
      AfterSplit(Next(g, ps[0].atom).value, ps[1..], i - 1);
    }
  }

  /** A pattern in which brackets are balanced and numbered as `compile` does it. */
  predicate Balanced(ps: seq<Piece>) {
    After(NO_GROUPS, ps).Some? && After(NO_GROUPS, ps).value.open == []
  }

  /** The groups in front of piece i. */
  function GroupsAt(ps: seq<Piece>, i: nat): (g: Groups)
    requires After(NO_GROUPS, ps).Some? && i <= |ps|
  {
    AfterSplit(NO_GROUPS, ps, i);
    After(NO_GROUPS, ps[..i]).value
  }

  lemma GroupsStep(ps: seq<Piece>, i: nat)
    requires After(NO_GROUPS, ps).Some? && i < |ps|
    ensures Next(GroupsAt(ps, i), ps[i].atom) == Some(GroupsAt(ps, i + 1))
  {
    AfterSplit(NO_GROUPS, ps, i + 1);
    var front := ps[..i + 1];
    AfterSplit(NO_GROUPS, front, i);
    assert front[..i] == ps[..i] && front[i..] == [ps[i]] && front[i..][1..] == [];
  }

  /** The number of groups that are opened. */
  function Opens(ps: seq<Piece>): nat {
    if ps == [] then 0
    else Opens(ps[..|ps| - 1]) + if ps[|ps| - 1].atom.Open? then 1 else 0
  }

  lemma OpensOneMore(ps: seq<Piece>, p: Piece)
    ensures Opens(ps + [p]) == Opens(ps) + if p.atom.Open? then 1 else 0
  {
    assert (ps + [p])[..|ps|] == ps;
  }

  /** The groups are numbered up to the number of brackets that open them. */
  lemma {:induction false} GroupsCounted(ps: seq<Piece>, i: nat)
    requires After(NO_GROUPS, ps).Some? && i <= |ps|
    ensures GroupsAt(ps, i).nbra == Opens(ps[..i])
  {
    if i == 0 {
      assert ps[..0] == [];
    } else {
      GroupsCounted(ps, i - 1);
      GroupsStep(ps, i - 1);
      assert ps[..i][..i - 1] == ps[..i - 1];
    }
  }

  predicate Increasing(ids: seq<byte>) {
    forall i, j :: 0 <= i < j < |ids| ==> ids[i] < ids[j]
  }

  /** The stack holds groups that were opened, in the order in which they were. */
  ghost predicate StackOk(g: Groups) {
    && g.nbra == |g.open| + g.closed <= NBRA
    && Increasing(g.open)
    && forall id :: id in g.open ==> id < g.nbra
  }

  /** What the bracket stack means: the groups opened are numbered from 0 on, and
      those that are not on the stack are closed. */
  ghost predicate Meaning(before: seq<Piece>, g: Groups) {
    && StackOk(g)
    && (forall id: byte :: Occurs(before, Open(id)) <==> id < g.nbra)
    && (forall id: byte :: Occurs(before, Close(id)) <==> id < g.nbra && id !in g.open)
  }

  lemma Pushed(g: Groups, id: byte)
    requires StackOk(g) && Next(g, Open(id)).Some?
    ensures var h := Next(g, Open(id)).value;
            StackOk(h) && forall x :: x in h.open <==> x in g.open || x == id
  {
    var h := Next(g, Open(id)).value;
    assert h.open == g.open + [id];
    forall i | 0 <= i < |g.open|
      ensures g.open[i] < id
    {
      assert g.open[i] in g.open;
    }
  }

  lemma Popped(g: Groups, id: byte)
    requires StackOk(g) && Next(g, Close(id)).Some?
    ensures var h := Next(g, Close(id)).value;
            StackOk(h) && forall x :: x in h.open <==> x in g.open && x != id
    ensures id in g.open
  {
    var h, n := Next(g, Close(id)).value, |g.open| - 1;
    assert g.open == h.open + [id] && h.open == g.open[..n];
    assert id in g.open;
    forall i | 0 <= i < n
      ensures h.open[i] == g.open[i] < id
    {
    }
  }

  lemma OccursNext(before: seq<Piece>, p: Piece, a: Atom)
    ensures Occurs(before + [p], a) <==> Occurs(before, a) || p.atom == a
  {
    var ps := before + [p];
    if Occurs(before, a) {
      var i :| 0 <= i < |before| && before[i].atom == a;
      assert ps[i].atom == a;
    }
    if p.atom == a {
      assert ps[|before|].atom == a;
    }
  }

  lemma MeaningNext(before: seq<Piece>, p: Piece, g: Groups)
    requires Meaning(before, g) && Next(g, p.atom).Some?
    ensures Meaning(before + [p], Next(g, p.atom).value)
  {
    var h := Next(g, p.atom).value;
    forall id: byte
      ensures Occurs(before + [p], Open(id)) <==> Occurs(before, Open(id)) || p.atom == Open(id)
      ensures Occurs(before + [p], Close(id)) <==> Occurs(before, Close(id)) || p.atom == Close(id)
    {
      OccursNext(before, p, Open(id));
      OccursNext(before, p, Close(id));
    }
    if p.atom.Open? {
      Pushed(g, p.atom.id);
    } else if p.atom.Close? {
      Popped(g, p.atom.id);
    }
  }

  lemma {:induction false} GroupsMeaning(ps: seq<Piece>, i: nat)
    requires After(NO_GROUPS, ps).Some? && i <= |ps|
    ensures Meaning(ps[..i], GroupsAt(ps, i))
  {
    if i == 0 {
      assert ps[..0] == [];
    } else {
      GroupsMeaning(ps, i - 1);
      GroupsStep(ps, i - 1);
      MeaningNext(ps[..i - 1], ps[i - 1], GroupsAt(ps, i - 1));
      assert ps[..i - 1] + [ps[i - 1]] == ps[..i];
    }
  }

  // ---- The shape of a balanced pattern ----

  /** Group id opens at o and closes at c, and nowhere else. */
  ghost predicate Spans(ps: seq<Piece>, id: byte, o: nat, c: nat) {
    && o < c < |ps|
    && (forall i :: 0 <= i < |ps| ==> (ps[i].atom == Open(id) <==> i == o))
    && (forall i :: 0 <= i < |ps| ==> (ps[i].atom == Close(id) <==> i == c))
  }

  /** A bracket occurs only once. */
  lemma BracketOnce(ps: seq<Piece>, i: nat, j: nat)
    requires After(NO_GROUPS, ps).Some? && i < j < |ps| && ps[i].atom.Bracket()
    ensures ps[i].atom != ps[j].atom
  {
    GroupsMeaning(ps, j);
    GroupsStep(ps, j);
    if ps[i].atom == ps[j].atom {
      assert ps[..j][i].atom == ps[j].atom;
      assert Occurs(ps[..j], ps[j].atom);
      if ps[j].atom.Close? {
        Popped(GroupsAt(ps, j), ps[j].atom.id);
      }
    }
  }

  lemma BracketOnlyAt(ps: seq<Piece>, i: nat)
    requires After(NO_GROUPS, ps).Some? && i < |ps| && ps[i].atom.Bracket()
    ensures forall j :: 0 <= j < |ps| ==> (ps[j].atom == ps[i].atom <==> j == i)
  {
    forall j | 0 <= j < |ps| && ps[j].atom == ps[i].atom
      ensures j == i
    {
      if j < i {
        BracketOnce(ps, j, i);
      } else if i < j {
        BracketOnce(ps, i, j);
      }
    }
  }

  lemma OpenBeforeClose(ps: seq<Piece>, c: nat)
    requires After(NO_GROUPS, ps).Some? && c < |ps| && ps[c].atom.Close?
    ensures exists o :: 0 <= o < c && ps[o].atom == Open(ps[c].atom.id)
  {
    GroupsMeaning(ps, c);
    GroupsStep(ps, c);
    Popped(GroupsAt(ps, c), ps[c].atom.id);
    assert Occurs(ps[..c], Open(ps[c].atom.id));
    var o :| 0 <= o < c && ps[..c][o].atom == Open(ps[c].atom.id);
    assert ps[o].atom == Open(ps[c].atom.id);
  }

  /** Every group of a balanced pattern opens once and closes once, later. */
  lemma GroupSpan(ps: seq<Piece>, id: byte) returns (o: nat, c: nat)
    requires Balanced(ps) && id < GroupsAt(ps, |ps|).nbra
    ensures Spans(ps, id, o, c)
  {
    assert ps[..|ps|] == ps;
    GroupsMeaning(ps, |ps|);
    assert Occurs(ps, Close(id));
    c :| c < |ps| && ps[c].atom == Close(id);
    OpenBeforeClose(ps, c);
    o :| o < c && ps[o].atom == Open(id);
    BracketOnlyAt(ps, o);
    BracketOnlyAt(ps, c);
  }

  /** Groups open in the order of their numbers, and two groups nest or follow one another. */
  lemma GroupsNest(ps: seq<Piece>, id: byte, o: nat, c: nat, id': byte, o': nat, c': nat)
    requires Balanced(ps) && id < id' && Spans(ps, id, o, c) && Spans(ps, id', o', c')
    ensures o < o' && (c < o' || c' < c)
  {
    GroupsMeaning(ps, o');
    GroupsStep(ps, o');
    assert Occurs(ps[..o'], Open(id));
    var i :| 0 <= i < o' && ps[..o'][i].atom == Open(id);
    assert ps[i].atom == Open(id);
    if o' < c {
      GroupsMeaning(ps, c);
      GroupsStep(ps, c);
      var g := GroupsAt(ps, c);
      assert ps[..c][o'].atom == Open(id') && Occurs(ps[..c], Open(id'));
      assert g.open[|g.open| - 1] == id;
      assert id' !in g.open;
      assert Occurs(ps[..c], Close(id'));
      var j :| 0 <= j < c && ps[..c][j].atom == Close(id');
      assert ps[j].atom == Close(id');
    }
  }

  /** \d is accepted only behind d closed groups; the group that it names is closed
      exactly when it is not one of those that are still open. */
  lemma BackReference(ps: seq<Piece>, i: nat)
    requires After(NO_GROUPS, ps).Some? && i < |ps| && ps[i].atom.Back?
    ensures ps[i].atom.id < GroupsAt(ps, i).closed
    ensures Occurs(ps[..i], Open(ps[i].atom.id))
    ensures Occurs(ps[..i], Close(ps[i].atom.id)) <==> ps[i].atom.id !in GroupsAt(ps, i).open
  {
    GroupsMeaning(ps, i);
    GroupsStep(ps, i);
  }

  // ---- The patterns that are accepted ----

  lemma {:induction false} ParsedGroups(text: seq<byte>, k: nat, eof: int, sed: bool, last: Option<Piece>, g: Groups)
    requires ParseFrom(text, k, eof, sed, last, g).Good?
    ensures var ps, n := ParseFrom(text, k, eof, sed, last, g).pieces, |AsSeq(last)|;
            && |ps| >= n && (n == 1 ==> ps[0].atom == last.value.atom)
            && After(g, ps[n..]).Some? && After(g, ps[n..]).value.open == []
    decreases |text| - k
  {
    var t, n := TokenAt(text, k, eof, sed, last, g), |AsSeq(last)|;
    var ps := ParseFrom(text, k, eof, sed, last, g).pieces;
    match t
    case Finish(_, _) => assert ps[n..] == [];
    case Suffix(piece, next) => ParsedGroups(text, next, eof, sed, Some(piece), g);
    case Fresh(atom, groups, next) =>
      ParsedGroups(text, next, eof, sed, Some(Piece(atom, false, [])), groups);
      var tail := ParseFrom(text, next, eof, sed, Some(Piece(atom, false, [])), groups).pieces;
      assert ps[n..] == tail;
  }

  /** What holds of every piece that is read, whether or not `advance` can execute it. */
  predicate Formed(p: Piece) {
    && (forall i :: 0 <= i < |p.intervals| ==> p.intervals[i].lo <= 254 && p.intervals[i].lo <= p.intervals[i].hi)
    && (p.atom.Dollar? ==> p.Bare())
    && (p.atom.Bracket() && p.star ==> p.intervals != [])
  }

  /** ... and an anchoring dollar stands at the end. */
  ghost predicate AllFormed(ps: seq<Piece>) {
    forall i :: 0 <= i < |ps| ==> Formed(ps[i]) && (ps[i].atom.Dollar? ==> i == |ps| - 1)
  }

  lemma FormedBefore(p: Piece, ps: seq<Piece>)
    requires Formed(p) && !p.atom.Dollar? && AllFormed(ps)
    ensures AllFormed([p] + ps)
  {
  }

  /** Only the end of the pattern can come behind an anchoring dollar. */
  predicate AtEnd(text: seq<byte>, k: nat, eof: int, last: Option<Piece>) {
    last.Some? && last.value.atom.Dollar? ==> k < |text| && (text[k] == eof || text[k] == NEWLINE)
  }

  lemma {:induction false} ParsedPieces(text: seq<byte>, k: nat, eof: int, sed: bool, last: Option<Piece>, g: Groups)
    requires AtEnd(text, k, eof, last) && (last.Some? ==> Formed(last.value))
    ensures AllFormed(ParseFrom(text, k, eof, sed, last, g).pieces)
    ensures last.Some? && last.value.atom.Dollar? ==>
              ParseFrom(text, k, eof, sed, last, g).pieces == [last.value]
    decreases |text| - k
  {
    var t := TokenAt(text, k, eof, sed, last, g);
    match t
    case Finish(_, _) =>
    case Reject(_, _, _) =>
    case Suffix(piece, next) =>
      SuffixFormed(text, k, eof, sed, last, g);
      ParsedPieces(text, next, eof, sed, Some(piece), g);
    case Fresh(atom, groups, next) =>
      DollarAtEnd(text, k, eof, sed, last, g);
      ParsedPieces(text, next, eof, sed, Some(Piece(atom, false, [])), groups);
      var tail := ParseFrom(text, next, eof, sed, Some(Piece(atom, false, [])), groups).pieces;
      if last.Some? {
        FormedBefore(last.value, tail);
      } else {
        assert AsSeq(last) + tail == tail;
      }
  }

  lemma SuffixFormed(text: seq<byte>, k: nat, eof: int, sed: bool, last: Option<Piece>, g: Groups)
    requires AtEnd(text, k, eof, last) && last.Some? && Formed(last.value)
    requires TokenAt(text, k, eof, sed, last, g).Suffix?
    ensures Formed(TokenAt(text, k, eof, sed, last, g).piece) && !last.value.atom.Dollar?
  {
  }

  lemma DollarAtEnd(text: seq<byte>, k: nat, eof: int, sed: bool, last: Option<Piece>, g: Groups)
    requires AtEnd(text, k, eof, last) && TokenAt(text, k, eof, sed, last, g).Fresh?
    ensures var t := TokenAt(text, k, eof, sed, last, g);
            AtEnd(text, t.next, eof, Some(Piece(t.atom, false, []))) && !(last.Some? && last.value.atom.Dollar?)
  {
  }

  /** A piece without NUL, and with no more than one interval, behind a one-byte atom. */
  predicate Plain(p: Piece) {
    match p.atom
    case Lit(c) => c != 0 && |p.intervals| <= 1
    case Class(members, negated) => (negated || 0 !in members) && |p.intervals| <= 1
    case Dot => |p.intervals| <= 1
    case _ => p.intervals == []
  }

  /** No back reference names a group that is still open. */
  ghost predicate NamesClosedGroups(ps: seq<Piece>)
    requires After(NO_GROUPS, ps).Some?
  {
    forall i :: 0 <= i < |ps| && ps[i].atom.Back? ==> ps[i].atom.id !in GroupsAt(ps, i).open
  }

  /** What is accepted is balanced; and it is supported exactly when its pieces are plain
      and its back references name groups that are closed. */
  lemma AcceptedPattern(text: seq<byte>, at: nat, eof: int, sed: bool)
    requires var e := Parse(text, at, eof, sed); e.Regular? && e.rest.Good?
    ensures var ps := Parse(text, at, eof, sed).rest.pieces;
            && Balanced(ps)
            && AllFormed(ps)
            && (Supported(ps) <==> (forall i :: 0 <= i < |ps| ==> Plain(ps[i])) && NamesClosedGroups(ps))
  {
    var ps := Parse(text, at, eof, sed).rest.pieces;
    var k := if text[at] == CARET then at + 1 else at;
    ParsedGroups(text, k, eof, sed, None, NO_GROUPS);
    assert ps[0..] == ps;
    ParsedPieces(text, k, eof, sed, None, NO_GROUPS);
    SupportedIffPlain(ps);
  }

  lemma SupportedIffPlain(ps: seq<Piece>)
    requires After(NO_GROUPS, ps).Some? && AllFormed(ps)
    ensures Supported(ps) <==> (forall i :: 0 <= i < |ps| ==> Plain(ps[i])) && NamesClosedGroups(ps)
  {
    forall i | 0 <= i < |ps|
      ensures SupportedPiece(ps[i]) <==> Plain(ps[i])
      ensures GroupsAllow(ps[..i], ps[i]) <==> (ps[i].atom.Back? ==> ps[i].atom.id !in GroupsAt(ps, i).open)
    {
      AllowedHere(ps, i);
    }
    if Supported(ps) {
      forall i | 0 <= i < |ps|
        ensures SupportedPiece(ps[i]) && GroupsAllow(ps[..i], ps[i])
      {
        SupportedAt(ps, i);
      }
    } else if forall i :: 0 <= i < |ps| ==> SupportedPiece(ps[i]) && GroupsAllow(ps[..i], ps[i]) {
      SupportedFrom(ps);
    }
  }

  lemma AllowedHere(ps: seq<Piece>, i: nat)
    requires After(NO_GROUPS, ps).Some? && i < |ps|
    ensures GroupsAllow(ps[..i], ps[i]) <==> (ps[i].atom.Back? ==> ps[i].atom.id !in GroupsAt(ps, i).open)
  {
    GroupsMeaning(ps, i);
    GroupsStep(ps, i);
    match ps[i].atom
    case Close(id) => Popped(GroupsAt(ps, i), id);
    case Back(_) => BackReference(ps, i);
    case _ =>
  }

  lemma {:induction false} SupportedFrom(ps: seq<Piece>)
    requires forall i :: 0 <= i < |ps| ==> SupportedPiece(ps[i]) && GroupsAllow(ps[..i], ps[i])
    ensures Supported(ps)
  {
    if ps == [] {
    } else {
      var front := ps[..|ps| - 1];
      forall i | 0 <= i < |front|
        ensures SupportedPiece(front[i]) && GroupsAllow(front[..i], front[i])
      {
        assert front[..i] == ps[..i] && front[i] == ps[i];
      }
      SupportedFrom(front);
    }
  }
}
