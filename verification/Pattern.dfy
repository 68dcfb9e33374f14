/** Compiled-pattern pieces and what they mean.

    A pattern is a sequence of pieces.  A piece is an atom with the suffixes
    written after it: any number of `*` and any number of `\{..\}` intervals.
    The meaning is given by traces.  A trace of a pattern through a subject is
    the list of cursor positions reached before and after each piece; it names
    no captures and no search order. */
module Pattern {
  import opened Bytes

  datatype Atom =
    | Lit(c: byte)
    | Dot
    | Class(members: set<byte>, negated: bool)
    | Dollar
    | Open(id: byte)
    | Close(id: byte)
    | Back(id: byte)
  {
    predicate OneByte() {
      Lit? || Dot? || Class?
    }

    predicate Bracket() {
      Open? || Close?
    }
  }

  /** The two bound bytes of an interval; a `hi` of 255 is written for `\{lo,\}`. */
  datatype Interval = Interval(lo: byte, hi: byte)

  datatype Piece = Piece(atom: Atom, star: bool, intervals: seq<Interval>) {
    predicate Bare() {
      !star && intervals == []
    }

    predicate OneInterval() {
      intervals == [] || (|intervals| == 1 && intervals[0].lo <= intervals[0].hi)
    }

    /** May the atom of this piece be repeated n times?  An interval overrides a star. */
    predicate Permits(n: nat) {
      if intervals != [] then
        intervals[0].lo <= n <= (if intervals[0].hi == 255 then intervals[0].lo + 20000
                                 else intervals[0].hi)
      else star || n == 1
    }
  }

  /** The largest number of bracketed groups. */
  const NBRA := 9

  /** NUL ends the subject and is accepted by no atom, except a literal NUL, which is not supported. */
  predicate Accepts(a: Atom, b: byte)
    requires a.OneByte()
  {
    match a
    case Lit(c) => b == c
    case Dot => b != 0
    case Class(members, negated) => b != 0 && (b in members) != negated
  }

  /** A subject: bytes other than NUL, then one NUL. */
  predicate CString(s: seq<byte>) {
    |s| > 0 && s[|s| - 1] == 0 && forall i :: 0 <= i < |s| - 1 ==> s[i] != 0
  }

  /** The index of the first piece with atom a; |ps| if there is none. */
  function Where(ps: seq<Piece>, a: Atom): (i: nat)
    ensures i <= |ps|
    ensures i < |ps| ==> ps[i].atom == a
    ensures forall j :: 0 <= j < i ==> ps[j].atom != a
  {
    if ps == [] || ps[0].atom == a then 0 else 1 + Where(ps[1..], a)
  }

  /** The text between the brackets of group id on a trace. */
  function Captured(ps: seq<Piece>, s: seq<byte>, tr: seq<nat>, id: byte): (w: seq<byte>) {
    var o, c := Where(ps, Open(id)), Where(ps, Close(id));
    if o < |tr| && c < |tr| && tr[o] <= tr[c] <= |s| then s[tr[o]..tr[c]] else []
  }

  /** w stands at position p of the subject, before its NUL. */
  predicate HasAt(s: seq<byte>, p: nat, w: seq<byte>) {
    p + |w| < |s| && s[p..p + |w|] == w
  }

  /** The text from p to q is zero or more copies of w. */
  predicate Copies(s: seq<byte>, p: nat, q: nat, w: seq<byte>)
    decreases |s| - p
  {
    q == p || (w != [] && HasAt(s, p, w) && Copies(s, p + |w|, q, w))
  }

  /** Having reached the positions tr, piece |tr|-1 may end at q. */
  predicate Ends(ps: seq<Piece>, s: seq<byte>, tr: seq<nat>, q: int)
    requires 1 <= |tr| <= |ps|
  {
    var piece, p := ps[|tr| - 1], tr[|tr| - 1];
    match piece.atom
    case Dollar => q == p == |s| - 1
    case Open(_) => q == p
    case Close(_) => q == p
    case Back(id) =>
      var w := Captured(ps, s, tr, id);
      if piece.star then q >= p && Copies(s, p, q, w)
      else q == p + |w| && HasAt(s, p, w)
    case _ =>
      p <= q < |s| && piece.Permits(q - p) && forall k :: p <= k < q ==> Accepts(piece.atom, s[k])
  }

  /** tr leads from tr[0] through the first |tr|-1 pieces. */
  predicate Trace(ps: seq<Piece>, s: seq<byte>, tr: seq<nat>) {
    && 1 <= |tr| <= |ps| + 1
    && if |tr| == 1 then tr[0] < |s|
       else
         var n := |tr| - 1;
         Trace(ps, s, tr[..n]) && Ends(ps, s, tr[..n], tr[n])
  }

  /** The whole pattern matches from tr[0] to tr[|ps|]. */
  predicate Match(ps: seq<Piece>, s: seq<byte>, tr: seq<nat>) {
    Trace(ps, s, tr) && |tr| == |ps| + 1
  }

  /** A piece that `advance` executes as it is written.

      `compile` accepts more: an interval after a bracket, a back reference or
      another interval, the byte NUL, and NUL as the end of a range. */
  predicate SupportedPiece(p: Piece) {
    match p.atom
    case Lit(c) => c != 0 && p.OneInterval()
    case Dot => p.OneInterval()
    case Class(members, negated) => (negated || 0 !in members) && p.OneInterval()
    case Back(_) => p.intervals == []
    case _ => p.Bare()
  }

  /** Piece p may follow the pieces before: a group opens once, closes once and later,
      and is closed before it is referred to. */
  predicate GroupsAllow(before: seq<Piece>, p: Piece) {
    match p.atom
    case Open(id) => id < NBRA && !Occurs(before, Open(id))
    case Close(id) => id < NBRA && Occurs(before, Open(id)) && !Occurs(before, Close(id))
    case Back(id) => Occurs(before, Close(id))
    case _ => true
  }

  predicate Occurs(ps: seq<Piece>, a: Atom) {
    exists i :: 0 <= i < |ps| && ps[i].atom == a
  }

  /** The patterns that `advance` executes as they are written. */
  predicate Supported(ps: seq<Piece>) {
    ps == [] ||
    (var before, p := ps[..|ps| - 1], ps[|ps| - 1];
     Supported(before) && SupportedPiece(p) && GroupsAllow(before, p))
  }

  lemma {:induction false} SupportedAt(ps: seq<Piece>, i: nat)
    requires Supported(ps) && i < |ps|
    ensures SupportedPiece(ps[i]) && GroupsAllow(ps[..i], ps[i])
  {
    var n := |ps| - 1;
    if i == n {
    } else {
      SupportedAt(ps[..n], i);
      assert ps[..n][..i] == ps[..i];
    }
  }

  /** The first occurrence of an atom in a prefix is its first occurrence. */
  lemma WhereInPrefix(ps: seq<Piece>, i: nat, a: Atom)
    requires i <= |ps| && Occurs(ps[..i], a)
    ensures Where(ps, a) < i
  {
    var j :| 0 <= j < i && ps[..i][j].atom == a;
    assert ps[j].atom == a;
  }

  /** The positions of a trace never decrease and never pass the NUL. */
  predicate Ascending(s: seq<byte>, tr: seq<nat>) {
    |tr| == 0 ||
    (var n := |tr| - 1;
     Ascending(s, tr[..n]) && tr[n] < |s| && (n == 0 || tr[n - 1] <= tr[n]))
  }

  lemma {:induction false} AscendingAt(s: seq<byte>, tr: seq<nat>, i: nat, j: nat)
    requires Ascending(s, tr) && i <= j < |tr|
    ensures tr[i] <= tr[j] < |s|
  {
    var n := |tr| - 1;
    if i < n {
      AscendingAt(s, tr[..n], i, if j < n then j else n - 1);
    }
  }

  lemma {:induction false} CopiesAscend(s: seq<byte>, p: nat, q: nat, w: seq<byte>)
    requires Copies(s, p, q, w) && p < |s|
    ensures p <= q < |s|
    decreases |s| - p
  {
    if q == p {
    } else {
      CopiesAscend(s, p + |w|, q, w);
    }
  }

  lemma StepAscends(ps: seq<Piece>, s: seq<byte>, tr: seq<nat>, q: nat)
    requires 1 <= |tr| <= |ps| && Ascending(s, tr) && Ends(ps, s, tr, q)
    ensures Ascending(s, tr + [q])
  {
    var p := tr[|tr| - 1];
    assert p < |s|;
    if ps[|tr| - 1].atom.Back? && ps[|tr| - 1].star {
      CopiesAscend(s, p, q, Captured(ps, s, tr, ps[|tr| - 1].atom.id));
    }
    assert p <= q < |s|;
    assert (tr + [q])[..|tr|] == tr;
  }

  lemma {:induction false} TraceAscends(ps: seq<Piece>, s: seq<byte>, tr: seq<nat>)
    requires Trace(ps, s, tr)
    ensures Ascending(s, tr)
  {
    if |tr| > 1 {
      var n := |tr| - 1;
      TraceAscends(ps, s, tr[..n]);
      StepAscends(ps, s, tr[..n], tr[n]);
      assert tr[..n] + [tr[n]] == tr;
    } else {
      assert tr[..0] == [];
    }
  }
}
