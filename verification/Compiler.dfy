/** `compile`, writing its program into a buffer.

    The space test is made once for each token, and a token may put its second
    byte at `endbuf` before the next test reports that the buffer is full.  Only
    when it does, as `Spill` tells, must the buffer have a byte there. */
module Compiler {
  import opened Bytes
  import opened Pattern
  import opened Code
  import opened Syntax
  import opened Grouping
  import opened Space
  import opened State

  // ---- Bit maps in the buffer ----

  /** The n bytes at ep are the bit map of members. */
  ghost predicate Marks(buf: array<byte>, ep: nat, n: nat, members: set<byte>)
    requires ep + n <= buf.Length
    reads buf
  {
    forall c: nat :: c < 8 * n ==> (Bit(buf[ep + c / 8], c % 8) <==> c in members)
  }

  /** Nothing outside lo..hi has changed. */
  twostate predicate Elsewhere(buf: array<byte>, lo: int, hi: int)
    reads buf
  {
    forall j :: 0 <= j < buf.Length && !(lo <= j < hi) ==> buf[j] == old(buf[j])
  }

  /** PLACE(c) */
  method Place(buf: array<byte>, ep: nat, c: byte, ghost n: nat, ghost members: set<byte>)
    requires ep + n <= buf.Length && c < 8 * n && Marks(buf, ep, n, members)
    modifies buf
    ensures Marks(buf, ep, n, members + {c}) && Elsewhere(buf, ep, ep + n)
  {
    var i := ep + c / 8;
    assert Pow2(8) == 256;
    SetBitIsByte(buf[i], c % 8, 8);
    forall d: nat | d / 8 == c / 8
      ensures Bit(SetBit(buf[i], c % 8), d % 8) <==> d % 8 == c % 8 || Bit(buf[i], d % 8)
    {
      SetBitBits(buf[i], c % 8, d % 8);
    }
    buf[i] := SetBit(buf[i], c % 8);
  }

  /** Zero the bytes `from` up to `to` of the bit map at ep. */
  method Clear(buf: array<byte>, ep: nat, from: nat, to: nat, ghost members: set<byte>)
    requires from <= to && ep + to <= buf.Length && Marks(buf, ep, from, members)
    requires forall c :: c in members ==> c < 8 * from
    modifies buf
    ensures Marks(buf, ep, to, members) && Elsewhere(buf, ep + from, ep + to)
  {
    for i := from to to
      invariant Marks(buf, ep, i, members) && Elsewhere(buf, ep + from, ep + to)
    {
      ZeroBits();
      buf[ep + i] := 0;
    }
  }

  lemma ZeroBits()
    ensures forall k: nat :: !Bit(0, k)
  {
    forall k: nat
      ensures !Bit(0, k)
    {
      ZeroBit(k);
    }
  }

  lemma {:induction false} ZeroBit(k: nat)
    ensures !Bit(0, k)
  {
    if k == 0 {
    } else {
      ZeroBit(k - 1);
    }
  }

  /** Place every byte from lo up to, but not including, hi. */
  method PlaceBelow(buf: array<byte>, ep: nat, lo: byte, hi: byte, ghost n: nat, ghost members: set<byte>)
    returns (ghost placed: set<byte>)
    requires ep + n <= buf.Length && hi < 8 * n && Marks(buf, ep, n, members)
    modifies buf
    ensures Marks(buf, ep, n, placed) && Elsewhere(buf, ep, ep + n)
    ensures placed + {hi} == members + Range(lo, hi)
  {
    var lc := lo;
    placed := members;
    while lc < hi
      invariant lo <= lc <= hi || lc == lo
      invariant Marks(buf, ep, n, placed) && Elsewhere(buf, ep, ep + n)
      invariant forall b :: b in placed <==> b in members || lo <= b < lc
    {
      Place(buf, ep, lc, n, placed);
      placed := placed + {lc};
      lc := lc + 1;
    }
  }

  /** The class gets a member above 127: it becomes wide, if there is room. */
  method Widen(buf: array<byte>, ep: nat, endbuf: nat, ghost members: set<byte>) returns (ok: bool)
    requires 1 <= ep && ep + 16 < endbuf <= buf.Length && Marks(buf, ep, 16, members) && !Wide(members)
    modifies buf
    ensures ok <==> ep + 32 < endbuf
    ensures ok ==> Marks(buf, ep, 32, members) && buf[ep - 1] == CXCL && Elsewhere(buf, ep - 1, ep + 32)
    ensures !ok ==> Elsewhere(buf, 0, 0)
  {
    if ep + 32 >= endbuf {
      return false;
    }
    buf[ep - 1] := CXCL;
    Clear(buf, ep, 16, 32, members);
    return true;
  }

  /** The class at ep - 1 holds members so far; n is the size of its bit map. */
  ghost predicate ClassSoFar(buf: array<byte>, ep: nat, endbuf: nat, n: nat, members: set<byte>)
    reads buf
  {
    && 1 <= ep && ep + n < endbuf <= buf.Length
    && n == (if Wide(members) then 32 else 16)
    && buf[ep - 1] == (if Wide(members) then CXCL else CCL)
    && Marks(buf, ep, n, members)
  }

  /** Make room for c, which is to become a member. */
  method MakeRoom(buf: array<byte>, ep: nat, endbuf: nat, c: byte, n0: nat, ghost members: set<byte>)
    returns (ok: bool, n: nat)
    requires ClassSoFar(buf, ep, endbuf, n0, members)
    modifies buf
    ensures ok ==> && n == (if Wide(members + {c}) then 32 else 16) && ep + n < endbuf
                   && buf[ep - 1] == (if Wide(members + {c}) then CXCL else CCL)
                   && Marks(buf, ep, n, members) && Elsewhere(buf, ep - 1, endbuf)
    ensures !ok ==> c >= 128 && endbuf <= ep + 32 && Elsewhere(buf, 0, 0)
  {
    ok, n := true, n0;
    if c >= 128 && n == 16 {
      ok := Widen(buf, ep, endbuf, members);
      n := 32;
    }
    WideWith(members, {c});
  }

  lemma WideWith(members: set<byte>, more: set<byte>)
    ensures Wide(members + more) <==> Wide(members) || Wide(more)
  {
    if Wide(members) || Wide(more) {
      var m :| (m in members || m in more) && m >= 128;
      assert m in members + more;
    }
  }

  /** Mark c and the members placed before it. */
  method Mark(buf: array<byte>, ep: nat, endbuf: nat, c: byte, ghost n: nat, ghost placed: set<byte>,
              ghost members: set<byte>)
    requires 1 <= ep && ep + n < endbuf <= buf.Length && Marks(buf, ep, n, placed) && placed + {c} == members
    requires n == (if Wide(members) then 32 else 16) && buf[ep - 1] == (if Wide(members) then CXCL else CCL)
    modifies buf
    ensures ClassSoFar(buf, ep, endbuf, n, members) && Elsewhere(buf, ep, ep + n)
  {
    assert c in members;
    Place(buf, ep, c, n, placed);
  }

  ghost predicate ElementFault(r: ClassText, fault: Fault, room: int) {
    if Wide(r.members) && room <= 32 then fault == Fault.Code(50) else r.BadClass? && fault == r.fault
  }

  /** One pass of the do loop: the element at e is a byte, a range, or a final dash. */
  method Element(text: seq<byte>, e: nat, buf: array<byte>, ep: nat, endbuf: nat, lc0: byte, n0: nat,
                 ghost acc: set<byte>)
    returns (fault: Option<Fault>, done: bool, k: nat, lc: byte, n: nat, ghost acc': set<byte>)
    requires e < |text| && ClassSoFar(buf, ep, endbuf, n0, acc)
    modifies buf
    ensures Elsewhere(buf, ep - 1, endbuf)
    ensures match fault
            case Some(f) => ElementFault(ClassFrom(text, e, lc0, acc), f, endbuf - ep)
            case None =>
              && ClassSoFar(buf, ep, endbuf, n, acc') && e < k
              && ClassFrom(text, e, lc0, acc) == if done then ClassText(acc', k) else ClassRest(text, k, lc, acc')
  {
    var c, ok := text[e], true;
    ghost var placed := acc;
    fault, done, k, lc, n, acc' := None, false, e + 1, lc0, n0, acc;
    if c == 0 || c == NEWLINE {
      fault := Some(Fault.Code(49));
      return;
    }
    if c == DASH && lc != 0 {
      if k >= |text| {
        fault := Some(Exhausted);
        return;
      }
      c, k := text[k], k + 1;
      if c == RBRACKET {
        acc', done := acc + {DASH}, true;
        WideWith(acc, {DASH});
        Mark(buf, ep, endbuf, DASH, n, acc, acc');
        return;
      }
      acc' := acc + Range(lc, c);
      WideRange(acc, lc, c);
      ok, n := MakeRoom(buf, ep, endbuf, c, n, acc);
      if ok {
        placed := PlaceBelow(buf, ep, lc, c, n, acc);
      }
    } else {
      acc' := acc + {c};
      ok, n := MakeRoom(buf, ep, endbuf, c, n, acc);
    }
    if !ok {
      assert c in acc';
      fault := Some(Fault.Code(50));
      return;
    }
    Mark(buf, ep, endbuf, c, n, placed, acc');
    lc := c;
  }

  lemma WideRange(members: set<byte>, lo: byte, hi: byte)
    ensures Wide(members + Range(lo, hi)) <==> Wide(members + {hi})
  {
    WideWith(members, Range(lo, hi));
    WideWith(members, {hi});
    assert hi in Range(lo, hi) && hi in {hi};
  }

  /** Flip every bit of a wide bit map, and then take NUL out. */
  method Complement(buf: array<byte>, ep: nat, ghost members: set<byte>)
    requires ep + 32 <= buf.Length && Marks(buf, ep, 32, members)
    modifies buf
    ensures Marks(buf, ep, 32, set b: byte | 0 < b < 256 && b !in members) && Elsewhere(buf, ep, ep + 32)
  {
    for i := 0 to 32
      invariant Elsewhere(buf, ep, ep + i)
      invariant forall c: nat :: c < 8 * i ==> (Bit(buf[ep + c / 8], c % 8) <==> c !in members)
      invariant forall c: nat :: 8 * i <= c < 256 ==> (Bit(buf[ep + c / 8], c % 8) <==> c in members)
    {
      FlippedBits(buf[ep + i]);
      buf[ep + i] := 255 - buf[ep + i];
    }
    EvenBits(buf[ep]);
    buf[ep] := buf[ep] - buf[ep] % 2;
  }

  lemma FlippedBits(x: byte)
    ensures forall j: nat :: j < 8 ==> (Bit(255 - x, j) <==> !Bit(x, j))
  {
    assert Pow2(8) == 256;
    forall j: nat | j < 8
      ensures Bit(255 - x, j) <==> !Bit(x, j)
    {
      ComplementBits(x, 8, j);
    }
  }

  lemma EvenBits(x: byte)
    ensures forall j: nat :: Bit(x - x % 2, j) <==> j != 0 && Bit(x, j)
  {
    var even := x - x % 2;
    assert even % 2 == 0 && even / 2 == x / 2;
    forall j: nat
      ensures Bit(even, j) <==> j != 0 && Bit(x, j)
    {
      if j > 0 {
        assert Bit(even, j) == Bit(even / 2, j - 1) && Bit(x, j) == Bit(x / 2, j - 1);
      }
    }
  }

  /** A negated class: wide bits are complemented, narrow ones get their own opcode. */
  method Negate(buf: array<byte>, ep: nat, n: nat, ghost members: set<byte>)
    requires 1 <= ep && ep + n <= buf.Length && n == (if Wide(members) then 32 else 16)
    requires Marks(buf, ep, n, members) && buf[ep - 1] == (if Wide(members) then CXCL else CCL)
    modifies buf
    ensures Marks(buf, ep, n, Marked(members, true)) && Elsewhere(buf, ep - 1, ep + n)
    ensures buf[ep - 1] == if Wide(members) then CXCL else NCCL
  {
    if n == 32 {
      Complement(buf, ep, members);
    } else {
      buf[ep - 1] := NCCL;
      Place(buf, ep, 0, n, members);
    }
  }

  /** The bytes written for a class are its code. */
  lemma ClassEncoded(buf: array<byte>, ep: nat, n: nat, members: set<byte>, negated: bool)
    requires 1 <= ep && ep + n <= buf.Length && n == (if Wide(members) then 32 else 16)
    requires Marks(buf, ep, n, Marked(members, negated)) && buf[ep - 1] == Base(Class(members, negated))
    ensures buf[ep - 1..ep + n] == Encode(Piece(Class(members, negated), false, []))
  {
    hide Encode, Marked, Base, Marks, Bitmap;
    MarksBitmap(buf, ep, n, Marked(members, negated));
    ClassCode(members, negated);
    assert buf[ep - 1..ep + n] == [buf[ep - 1]] + buf[ep..ep + n];
  }

  lemma MarksBitmap(buf: array<byte>, ep: nat, n: nat, members: set<byte>)
    requires ep + n <= buf.Length && Marks(buf, ep, n, members)
    ensures buf[ep..ep + n] == Bitmap(members, n)
  {
    hide Bit, Bitmap;
    var bits := buf[ep..ep + n];
    forall c: nat | c < 8 * n
      ensures Has(bits, c) <==> c in members
    {
      var i := c / 8;
      assert bits[i] == buf[ep + i];
    }
    BitmapUnique(bits, members);
  }

  lemma ClassCode(members: set<byte>, negated: bool)
    ensures Encode(Piece(Class(members, negated), false, [])) ==
            [Base(Class(members, negated))] + ClassBytes(members, negated)
  {
  }

  lemma ClassSize(a: Atom)
    requires a.Class?
    ensures |Encode(Piece(a, false, []))| == if Wide(a.members) then 33 else 17
  {
  }

  /** What a class that stands at k, behind its bracket, makes of the buffer at ep0. */
  ghost predicate ClassFault(t: Token, fault: Fault, ep0: int, endbuf: int) {
    match t
    case Reject(f, need, _) => fault == if endbuf <= ep0 + need then Fault.Code(50) else f
    case Fresh(a, _, _) => fault == Fault.Code(50) && endbuf <= ep0 + |Encode(Piece(a, false, []))|
    case _ => false
  }

  method ReadMembers(text: seq<byte>, k0: nat, buf: array<byte>, ep: nat, endbuf: nat)
    returns (fault: Option<Fault>, k: nat, n: nat, ghost acc: set<byte>)
    requires ClassSoFar(buf, ep, endbuf, 16, {})
    modifies buf
    ensures Elsewhere(buf, ep - 1, endbuf)
    ensures match fault
            case Some(f) => ElementFault(ClassFrom(text, k0, 0, {}), f, endbuf - ep)
            case None => ClassSoFar(buf, ep, endbuf, n, acc) && ClassFrom(text, k0, 0, {}) == ClassText(acc, k)
  {
    var lc, done := 0, false;
    fault, k, n, acc := None, k0, 16, {};
    while true
      invariant Elsewhere(buf, ep - 1, endbuf) && ClassSoFar(buf, ep, endbuf, n, acc)
      invariant ClassFrom(text, k0, 0, {}) == ClassFrom(text, k, lc, acc)
      decreases |text| - k
    {
      if k >= |text| {
        fault := Some(Exhausted);
        return;
      }
      fault, done, k, lc, n, acc := Element(text, k, buf, ep, endbuf, lc, n, acc);
      if fault.Some? || done {
        return;
      }
      if k >= |text| {
        fault := Some(Exhausted);
        return;
      }
      if text[k] == RBRACKET {
        k := k + 1;
        return;
      }
    }
  }

  method CompileClass(text: seq<byte>, k0: nat, buf: array<byte>, ep0: nat, endbuf: nat, ghost g: Groups)
    returns (fault: Option<Fault>, k: nat, ep: nat)
    requires ep0 < endbuf <= buf.Length
    modifies buf
    ensures Elsewhere(buf, ep0, endbuf)
    ensures ClassAt(text, k0, g).Fresh? ==> ClassAt(text, k0, g).groups == g
    ensures var t := ClassAt(text, k0, g);
            match fault
            case Some(f) => ClassFault(t, f, ep0, endbuf)
            case None => && t.Fresh? && t.next == k
                         && ep == ep0 + |Encode(Piece(t.atom, false, []))| < endbuf
                         && buf[ep0..ep] == Encode(Piece(t.atom, false, []))
  {
    hide Encode, Bit;
    fault, k, ep := None, k0, ep0;
    ghost var t := ClassAt(text, k0, g);
    if t.Fresh? {
      ClassSize(t.atom);
    }
    if ep + 17 >= endbuf {
      fault := Some(Fault.Code(50));
      return;
    }
    buf[ep] := CCL;
    ep := ep + 1;
    Clear(buf, ep, 0, 16, {});
    if k >= |text| {
      fault := Some(Exhausted);
      return;
    }
    var neg := text[k] == CARET;
    if neg {
      k := k + 1;
    }
    var n: nat;
    ghost var acc: set<byte>;
    fault, k, n, acc := ReadMembers(text, k, buf, ep, endbuf);
    if fault.Some? {
      return;
    }
    if neg {
      Negate(buf, ep, n, acc);
    }
    ClassEncoded(buf, ep, n, acc, neg);
    ep := ep + n;
  }

  // ---- Intervals ----

  /** The do loop that reads one bound; k is where it stopped. */
  method ReadNumber(text: seq<byte>, k0: nat) returns (fault: Option<Fault>, i: nat, k: nat)
    ensures NumberFrom(text, k0, 0) == if fault.Some? then BadNumber(fault.value) else Number(i, k)
  {
    fault, i, k := None, 0, k0;
    while true
      invariant NumberFrom(text, k0, 0) == NumberFrom(text, k, i)
      decreases |text| - k
    {
      if k >= |text| {
        fault := Some(Exhausted);
        return;
      }
      if !Digit(text[k]) {
        fault := Some(Fault.Code(16));
        return;
      }
      if 10 * i + text[k] > INT_MAX {
        fault := Some(Overflow);
        return;
      }
      i, k := 10 * i + text[k] - 48, k + 1;
      if k >= |text| {
        fault := Some(Exhausted);
        return;
      }
      if text[k] == BACKSLASH || text[k] == COMMA {
        return;
      }
    }
  }

  /** The first bound, lo, has been read and a second follows at k. */
  ghost predicate SecondBound(text: seq<byte>, k0: nat, lo: byte, k: nat) {
    var first := NumberFrom(text, k0, 0);
    && first.Number? && first.value == lo < 255 && text[first.stop] == COMMA
    && k == first.stop + 1 < |text| && text[k] != BACKSLASH
  }

  /** From the first digit to the closing brace; the bound bytes go to ep0 and ep0 + 1. */
  method CompileInterval(text: seq<byte>, k0: nat, buf: array<byte>, ep0: nat)
    returns (fault: Option<Fault>, k: nat, ep: nat)
    requires ep0 < buf.Length && (BoundByte(text, k0).Some? ==> ep0 + 1 < buf.Length)
    modifies buf
    ensures Elsewhere(buf, ep0, ep0 + 1) || BoundByte(text, k0).Some?
    ensures BoundByte(text, k0).Some? ==> Elsewhere(buf, ep0, ep0 + 2) && buf[ep0 + 1] == BoundByte(text, k0).value
    ensures var r := IntervalFrom(text, k0);
            match fault
            case Some(f) => r == BadInterval(f)
            case None => && r.IntervalText? && r.next == k && ep == ep0 + 2 && BoundByte(text, k0).Some?
                         && buf[ep0] == r.interval.lo && buf[ep0 + 1] == r.interval.hi
  {
    var cflg := 0;
    k, ep := k0, ep0;
    while true
      invariant Elsewhere(buf, ep0, ep0 + 1) && 0 <= cflg <= 1 && ep == ep0 + cflg
      invariant if cflg == 0 then k == k0 else SecondBound(text, k0, buf[ep0], k)
      decreases 1 - cflg
    {
      var i: nat;
      fault, i, k := ReadNumber(text, k);
      if fault.Some? {
        return;
      }
      if i >= 255 {
        fault := Some(Fault.Code(11));
        return;
      }
      buf[ep], ep := i, ep + 1;
      if text[k] == COMMA {
        if cflg == 1 {
          fault := Some(Fault.Code(44));
          return;
        }
        cflg, k := 1, k + 1;
        if k >= |text| {
          fault := Some(Exhausted);
          return;
        }
        if text[k] != BACKSLASH {
          continue;
        }
        buf[ep], ep := 255, ep + 1;
      }
      k := k + 1;
      fault, k, ep := EndInterval(text, k, buf, ep, ep0, cflg == 1);
      return;
    }
  }

  /** The closing brace; one bound alone is written twice. */
  method EndInterval(text: seq<byte>, k0: nat, buf: array<byte>, ep1: nat, ghost ep0: nat, two: bool)
    returns (fault: Option<Fault>, k: nat, ep: nat)
    requires ep0 < buf.Length && ep1 == (if two then ep0 + 2 else ep0 + 1)
    requires two || (k0 < |text| && text[k0] == RBRACE) ==> ep0 + 1 < buf.Length
    modifies buf
    ensures if !two && k0 < |text| && text[k0] == RBRACE then
              Elsewhere(buf, ep0 + 1, ep0 + 2) && buf[ep0 + 1] == buf[ep0]
            else unchanged(buf)
    ensures var r := IntervalEnd(text, k0, buf[ep0], if two then buf[ep0 + 1] else buf[ep0]);
            match fault
            case Some(f) => r == BadInterval(f)
            case None => r.IntervalText? && r.next == k && ep == ep0 + 2
  {
    fault, k, ep := None, k0, ep1;
    if k >= |text| {
      fault := Some(Exhausted);
      return;
    }
    if text[k] != RBRACE {
      fault := Some(Fault.Code(45));
      return;
    }
    k := k + 1;
    if !two {
      buf[ep], ep := buf[ep - 1], ep + 1;
    } else if buf[ep - 1] < buf[ep - 2] {
      fault := Some(Fault.Code(46));
    }
  }

  // ---- Tokens ----

  /** The local variables of compile; lastep is -1 for a null pointer. */
  datatype Locals = Locals(k: nat, ep: nat, lastep: int, bracketp: nat, closed: nat)

  datatype Signal = Continue | Fail(fault: Fault) | Return(newline: bool)

  /** The code of the last piece stands between lastep and ep. */
  ghost predicate LastAt(buf: array<byte>, lastep: int, ep: nat, last: Option<Piece>)
    reads buf
  {
    match last
    case None => lastep == -1
    case Some(p) => 0 <= lastep < ep <= buf.Length && buf[lastep..ep] == Encode(p)
  }

  /** The bracket stack holds the open groups, one for each group opened and not closed. */
  ghost predicate Stack(g: Globals, bracket: array<byte>, m: Locals, gr: Groups)
    reads g`nbra, bracket
  {
    && bracket.Length == NBRA && m.bracketp <= NBRA
    && gr == Groups(m.bracketp + m.closed, bracket[..m.bracketp], m.closed)
    && g.nbra == gr.nbra <= NBRA
  }

  /** What one token makes of the buffer and the locals; `second` is the second byte it
      puts, and the only one that may lie behind the space. */
  ghost predicate Compiled(t: Token, signal: Signal, buf: array<byte>, endbuf: int, m: Locals, n: Locals,
                           second: Option<byte>)
    reads buf
  {
    match signal
    case Return(newline) =>
      t == Finish(newline, n.k) && n.ep == m.ep + 1 <= endbuf <= buf.Length && buf[m.ep] == CCEOF && second == None
    case Fail(fault) => ClassFault(t, fault, m.ep, endbuf)
    case Continue =>
      && (t.Fresh? || t.Suffix?)
      && n.k == t.next && (if m.ep + 1 == endbuf && second.Some? then n.ep == endbuf + 1 else n.ep <= endbuf)
      && n.lastep == (if t.Fresh? then m.ep else m.lastep)
      && LastAt(buf, n.lastep, n.ep, Some(if t.Fresh? then Piece(t.atom, false, []) else t.piece))
  }

  /** Nothing outside lo..endbuf has changed, but for the second byte of a token that
      begins at ep, on the last free byte. */
  twostate predicate Confined(buf: array<byte>, lo: int, ep: int, endbuf: int, new second: Option<byte>)
    reads buf
  {
    forall j :: 0 <= j < buf.Length && !(lo <= j < endbuf) ==>
      buf[j] == if j == endbuf == ep + 1 && second.Some? then second.value else old(buf[j])
  }

  /** An atom of one or two bytes begins a new piece. */
  method Put(buf: array<byte>, ep0: nat, ghost endbuf: nat, ghost a: Atom, op: byte, operand: seq<byte>)
    returns (ep: nat)
    requires ep0 < endbuf && ep0 + |operand| < buf.Length && |operand| <= 1 && op == Base(a) && operand == Operand(a)
    modifies buf
    ensures Confined(buf, ep0, ep0, endbuf, OperandByte(a)) && ep == ep0 + 1 + |operand|
    ensures LastAt(buf, ep0, ep, Some(Piece(a, false, [])))
  {
    buf[ep0] := op;
    ep := ep0 + 1;
    if operand != [] {
      buf[ep] := operand[0];
      ep := ep + 1;
    }
    assert buf[ep0..ep] == [op] + operand;
    assert Encode(Piece(a, false, [])) == [op] + operand;
  }

  /** The last opcode gets the STAR bit. */
  method PatchStar(buf: array<byte>, lastep: nat, ghost ep: nat, ghost p: Piece)
    requires LastAt(buf, lastep, ep, Some(p))
    modifies buf
    ensures Elsewhere(buf, lastep, lastep + 1)
    ensures LastAt(buf, lastep, ep, Some(p.(star := true)))
  {
    ghost var code := Encode(p);
    assert buf[lastep] == code[0];
    buf[lastep] := OrStar(buf[lastep]);
    StarEncoded(p);
    assert buf[lastep..ep] == [OrStar(code[0])] + code[1..];
  }

  /** The last opcode gets the RNGE bits, and the bounds are put behind the last piece. */
  method PatchInterval(text: seq<byte>, k0: nat, buf: array<byte>, lastep: nat, ep0: nat, ghost endbuf: nat,
                       ghost p: Piece)
    returns (fault: Option<Fault>, k: nat, ep: nat)
    requires LastAt(buf, lastep, ep0, Some(p)) && ep0 < endbuf <= buf.Length
    requires BoundByte(text, k0).Some? ==> ep0 + 1 < buf.Length
    modifies buf
    ensures Confined(buf, lastep, ep0, endbuf, BoundByte(text, k0))
    ensures var r := IntervalFrom(text, k0);
            match fault
            case Some(f) => r == BadInterval(f)
            case None => && r.IntervalText? && r.next == k && ep == ep0 + 2 && BoundByte(text, k0).Some?
                         && LastAt(buf, lastep, ep, Some(p.(intervals := p.intervals + [r.interval])))
  {
    hide Encode, OrRnge, IntervalFrom, BoundByte;
    ghost var code := Encode(p);
    assert buf[lastep] == code[0];
    buf[lastep] := OrRnge(buf[lastep]);
    assert buf[lastep..ep0] == [OrRnge(code[0])] + code[1..];
    fault, k, ep := CompileInterval(text, k0, buf, ep0);
    if fault.None? {
      var i := Interval(buf[ep0], buf[ep0 + 1]);
      IntervalEncoded(p, i);
      assert buf[lastep..ep] == buf[lastep..ep0] + [i.lo, i.hi];
    }
  }

  /** \( : push the number of the new group. */
  method OpenGroup(g: Globals, buf: array<byte>, ghost endbuf: nat, bracket: array<byte>, m: Locals, ghost gr: Groups)
    returns (n: Locals)
    requires m.ep < endbuf && m.ep + 1 < buf.Length && buf != bracket && Stack(g, bracket, m, gr) && g.nbra < NBRA
    modifies g`nbra, buf, bracket
    ensures Confined(buf, m.ep, m.ep, endbuf, Some(gr.nbra))
    ensures n == m.(ep := m.ep + 2, lastep := m.ep, bracketp := m.bracketp + 1)
    ensures LastAt(buf, m.ep, n.ep, Some(Piece(Open(gr.nbra), false, [])))
    ensures Stack(g, bracket, n, Groups(gr.nbra + 1, gr.open + [gr.nbra], gr.closed))
  {
    bracket[m.bracketp] := g.nbra;
    assert bracket[..m.bracketp + 1] == bracket[..m.bracketp] + [bracket[m.bracketp]];
    var ep := Put(buf, m.ep, endbuf, Open(g.nbra), CBRA, [g.nbra]);
    g.nbra := g.nbra + 1;
    n := m.(ep := ep, lastep := m.ep, bracketp := m.bracketp + 1);
  }

  /** \) : pop the group that was opened last. */
  method CloseGroup(g: Globals, buf: array<byte>, ghost endbuf: nat, bracket: array<byte>, m: Locals, ghost gr: Groups)
    returns (n: Locals)
    requires m.ep < endbuf && m.ep + 1 < buf.Length && buf != bracket && Stack(g, bracket, m, gr) && m.bracketp > 0
    modifies buf
    ensures Confined(buf, m.ep, m.ep, endbuf, Some(gr.open[|gr.open| - 1]))
    ensures n == m.(ep := m.ep + 2, lastep := m.ep, bracketp := m.bracketp - 1, closed := m.closed + 1)
    ensures LastAt(buf, m.ep, n.ep, Some(Piece(Close(gr.open[|gr.open| - 1]), false, [])))
    ensures Stack(g, bracket, n, Groups(gr.nbra, gr.open[..|gr.open| - 1], gr.closed + 1))
  {
    var id := bracket[m.bracketp - 1];
    var ep := Put(buf, m.ep, endbuf, Close(id), CKET, [id]);
    n := m.(ep := ep, lastep := m.ep, bracketp := m.bracketp - 1, closed := m.closed + 1);
    assert bracket[..m.bracketp][..m.bracketp - 1] == bracket[..n.bracketp];
  }

  /** The character at m.k stands behind a backslash. */
  method CompileEscape(g: Globals, text: seq<byte>, buf: array<byte>, endbuf: nat, bracket: array<byte>, m: Locals,
                       ghost last: Option<Piece>, ghost gr: Groups)
    returns (signal: Signal, n: Locals)
    requires m.k < |text| && m.ep < endbuf <= buf.Length && buf != bracket
    requires EscapeSecond(text, m.k, last, gr).Some? ==> m.ep + 1 < buf.Length
    requires Stack(g, bracket, m, gr) && LastAt(buf, m.lastep, m.ep, last)
    modifies g`nbra, buf, bracket
    ensures var t, second := EscapeAt(text, m.k, last, gr), EscapeSecond(text, m.k, last, gr);
            && Confined(buf, if (t.Suffix? || t.Reject?) && last.Some? then m.lastep else m.ep, m.ep, endbuf, second)
            && Compiled(t, signal, buf, endbuf, m, n, second)
            && (signal.Continue? ==> Stack(g, bracket, n, if t.Fresh? then t.groups else gr))
  {
    hide Encode, IntervalFrom, EscapedAtom, BoundByte;
    var c := text[m.k];
    n := m.(k := m.k + 1);
    signal := Continue;
    if c == LPAREN {
      if g.nbra >= NBRA {
        return Fail(Fault.Code(43)), n;
      }
      n := OpenGroup(g, buf, endbuf, bracket, n, gr);
    } else if c == RPAREN {
      if n.bracketp <= 0 {
        return Fail(Fault.Code(42)), n;
      }
      n := CloseGroup(g, buf, endbuf, bracket, n, gr);
    } else if c == LBRACE && n.lastep >= 0 {
      var fault, k, ep := PatchInterval(text, n.k, buf, n.lastep, n.ep, endbuf, last.value);
      if fault.Some? {
        return Fail(fault.value), n;
      }
      n := n.(k := k, ep := ep);
    } else if c == LBRACE {
      var ep := Put(buf, n.ep, endbuf, Lit(c), CCHR, [c]);
      n := n.(ep := ep, lastep := m.ep);
    } else {
      signal, n := CompileEscaped(buf, endbuf, c, n, gr);
    }
  }

  /** Behind a backslash: a digit, or a character that loses its meaning. */
  method CompileEscaped(buf: array<byte>, endbuf: nat, c: byte, m: Locals, ghost gr: Groups)
    returns (signal: Signal, n: Locals)
    requires m.ep < endbuf <= buf.Length && m.closed == gr.closed
    requires AtomSecond(EscapedAtom(c, gr, m.k)).Some? ==> m.ep + 1 < buf.Length
    modifies buf
    ensures match EscapedAtom(c, gr, m.k)
            case Reject(fault, _, _) => signal == Fail(fault) && unchanged(buf)
            case Fresh(a, _, _) =>
              && signal == Continue && n == m.(ep := m.ep + 2, lastep := m.ep)
              && OperandByte(a).Some? && Confined(buf, m.ep, m.ep, endbuf, OperandByte(a))
              && LastAt(buf, n.lastep, n.ep, Some(Piece(a, false, [])))
  {
    hide Encode;
    n := m.(ep := m.ep + 2, lastep := m.ep);
    signal := Continue;
    if c == NEWLINE {
      signal := Fail(Fault.Code(36));
    } else if 49 <= c <= 57 {
      if c - 49 >= m.closed {
        return Fail(Fault.Code(25)), n;
      }
      var _ := Put(buf, m.ep, endbuf, Back(c - 49), CBACK, [c - 49]);
    } else {
      var literal := if c == LOWER_N then NEWLINE else c;
      var _ := Put(buf, m.ep, endbuf, Lit(literal), CCHR, [literal]);
    }
  }

  /** CCEOF, unless a group is still open. */
  method Finishing(buf: array<byte>, m: Locals, newline: bool, next: nat) returns (signal: Signal, n: Locals)
    requires m.ep < buf.Length
    modifies buf
    ensures Elsewhere(buf, m.ep, m.ep + 1) && buf[m.ep] == CCEOF
    ensures n == m.(k := next, ep := m.ep + 1)
    ensures signal == if m.bracketp != 0 then Fail(Fault.Code(42)) else Return(newline)
  {
    buf[m.ep] := CCEOF;
    n := m.(k := next, ep := m.ep + 1);
    signal := if m.bracketp != 0 then Fail(Fault.Code(42)) else Return(newline);
  }

  /** A newline stands for the end, even if a group is still open. */
  predicate NewlineEnd(t: Token) {
    (t.Finish? || t.Reject?) && t.newline
  }

  /** One pass of the main loop, behind the test for space. */
  method CompileToken(g: Globals, text: seq<byte>, eof: int, buf: array<byte>, endbuf: nat, bracket: array<byte>,
                      m: Locals, ghost last: Option<Piece>, ghost gr: Groups)
    returns (signal: Signal, n: Locals)
    requires m.ep < endbuf <= buf.Length && buf != bracket
    requires Second(text, m.k, eof, g.sed, last, gr).Some? ==> m.ep + 1 < buf.Length
    requires Stack(g, bracket, m, gr) && LastAt(buf, m.lastep, m.ep, last)
    modifies g`nbra, g`nodelim, buf, bracket
    ensures signal.Return? ==> g.nbra == old(g.nbra)
    ensures g.nodelim == if NewlineEnd(TokenAt(text, m.k, eof, g.sed, last, gr)) then 1 else old(g.nodelim)
    ensures var t, second := TokenAt(text, m.k, eof, g.sed, last, gr), Second(text, m.k, eof, g.sed, last, gr);
            && Confined(buf, if (t.Suffix? || t.Reject?) && last.Some? then m.lastep else m.ep, m.ep, endbuf, second)
            && Compiled(t, signal, buf, endbuf, m, n, second)
            && (signal.Continue? ==> Stack(g, bracket, n, if t.Fresh? then t.groups else gr))
  {
    hide Encode, EscapeAt, AtomAt, EscapeSecond;
    n := m;
    if m.k >= |text| || (text[m.k] == BACKSLASH && m.k + 1 >= |text|) {
      signal := Fail(Exhausted);
    } else if text[m.k] == eof {
      signal, n := Finishing(buf, m, false, m.k + 1);
    } else if text[m.k] == NEWLINE {
      if g.sed {
        signal := Fail(Fault.Code(36));
      } else {
        g.nodelim := 1;
        signal, n := Finishing(buf, m, true, m.k);
      }
    } else {
      signal, n := CompilePiece(g, text, eof, buf, endbuf, bracket, m, last, gr);
    }
  }

  /** The pattern does not end here: a suffix, or the beginning of a new piece. */
  method CompilePiece(g: Globals, text: seq<byte>, eof: int, buf: array<byte>, endbuf: nat, bracket: array<byte>,
                      m: Locals, ghost last: Option<Piece>, ghost gr: Groups)
    returns (signal: Signal, n: Locals)
    requires m.k < |text| && (text[m.k] == BACKSLASH ==> m.k + 1 < |text|) && text[m.k] != eof && text[m.k] != NEWLINE
    requires m.ep < endbuf <= buf.Length && buf != bracket
    requires Second(text, m.k, eof, g.sed, last, gr).Some? ==> m.ep + 1 < buf.Length
    requires Stack(g, bracket, m, gr) && LastAt(buf, m.lastep, m.ep, last)
    modifies g`nbra, buf, bracket
    ensures !signal.Return?
    ensures var t, second := TokenAt(text, m.k, eof, g.sed, last, gr), Second(text, m.k, eof, g.sed, last, gr);
            && Confined(buf, if (t.Suffix? || t.Reject?) && last.Some? then m.lastep else m.ep, m.ep, endbuf, second)
            && Compiled(t, signal, buf, endbuf, m, n, second)
            && (signal.Continue? ==> Stack(g, bracket, n, if t.Fresh? then t.groups else gr))
  {
    hide Encode, EscapeAt, AtomAt, EscapeSecond;
    if text[m.k] == ASTERISK {
      signal, n := CompileStar(buf, endbuf, m, last);
    } else if text[m.k] == BACKSLASH {
      signal, n := CompileEscape(g, text, buf, endbuf, bracket, m.(k := m.k + 1), last, gr);
    } else {
      signal, n := CompileAtom(text, eof, buf, endbuf, m, gr);
    }
  }

  /** A character that is no suffix, no end and no backslash. */
  method CompileAtom(text: seq<byte>, eof: int, buf: array<byte>, endbuf: nat, m: Locals, ghost gr: Groups)
    returns (signal: Signal, n: Locals)
    requires m.k < |text| && m.ep < endbuf <= buf.Length
    requires AtomSecond(AtomAt(text, m.k, eof, gr)).Some? ==> m.ep + 1 < buf.Length
    modifies buf
    ensures var t := AtomAt(text, m.k, eof, gr);
            && Confined(buf, m.ep, m.ep, endbuf, AtomSecond(t))
            && Compiled(t, signal, buf, endbuf, m, n, AtomSecond(t))
    ensures signal.Continue? ==> n.bracketp == m.bracketp && n.closed == m.closed
    ensures AtomAt(text, m.k, eof, gr).Fresh? ==> AtomAt(text, m.k, eof, gr).groups == gr
  {
    hide Encode, ClassAt;
    var c, ep := text[m.k], m.ep;
    n := m.(k := m.k + 1, lastep := m.ep);
    signal := Continue;
    if c == PERIOD {
      ep := Put(buf, ep, endbuf, Dot, CDOT, []);
    } else if c == DOLLAR && n.k >= |text| {
      signal := Fail(Exhausted);
    } else if c == DOLLAR && (text[n.k] == eof || text[n.k] == NEWLINE) {
      ep := Put(buf, ep, endbuf, Dollar, CDOL, []);
    } else if c == LBRACKET {
      ClassSecond(text, n.k, gr);
      var fault, k;
      fault, k, ep := CompileClass(text, n.k, buf, ep, endbuf, gr);
      if fault.Some? {
        signal := Fail(fault.value);
      }
      n := n.(k := k);
    } else {
      ep := Put(buf, ep, endbuf, Lit(c), CCHR, [c]);
    }
    n := n.(ep := ep);
  }

  /** An asterisk: a suffix, or itself where there is nothing to repeat. */
  method CompileStar(buf: array<byte>, ghost endbuf: nat, m: Locals, ghost last: Option<Piece>)
    returns (signal: Signal, n: Locals)
    requires m.ep < endbuf <= buf.Length && LastAt(buf, m.lastep, m.ep, last)
    requires last.None? || (last.value.atom.Bracket() && last.value.Bare()) ==> m.ep + 1 < buf.Length
    modifies buf
    ensures signal == Continue
    ensures if last.None? || (last.value.atom.Bracket() && last.value.Bare()) then
              && Confined(buf, m.ep, m.ep, endbuf, Some(ASTERISK))
              && n == m.(k := m.k + 1, ep := m.ep + 2, lastep := m.ep)
              && LastAt(buf, n.lastep, n.ep, Some(Piece(Lit(ASTERISK), false, [])))
            else
              && Confined(buf, m.lastep, m.ep, endbuf, None)
              && n == m.(k := m.k + 1)
              && LastAt(buf, n.lastep, n.ep, Some(last.value.(star := true)))
  {
    signal, n := Continue, m.(k := m.k + 1);
    if last.Some? {
      assert buf[m.lastep] == Encode(last.value)[0];
      BracketOpcode(last.value);
    }
    if m.lastep < 0 || buf[m.lastep] == CBRA || buf[m.lastep] == CKET {
      var ep := Put(buf, m.ep, endbuf, Lit(ASTERISK), CCHR, [ASTERISK]);
      n := n.(ep := ep, lastep := m.ep);
    } else {
      PatchStar(buf, m.lastep, m.ep, last.value);
    }
  }

  // ---- compile ----

  datatype Result = Returned(end: nat) | Failed(fault: Fault)

  /** What is left to parse is at least as long, encoded, as the last piece. */
  lemma {:induction false} RestEncoded(text: seq<byte>, k: nat, eof: int, sed: bool, p: Piece, gr: Groups)
    ensures |EncodeAll(ParseFrom(text, k, eof, sed, Some(p), gr).pieces)| >= |Encode(p)|
    decreases |text| - k
  {
    hide Encode;
    OneEncoded(p);
    match TokenAt(text, k, eof, sed, Some(p), gr)
    case Finish(_, _) =>
    case Reject(_, _, _) =>
    case Suffix(piece, next) =>
      RestEncoded(text, next, eof, sed, piece, gr);
      SuffixLonger(text, k, eof, sed, p, gr);
    case Fresh(atom, groups, next) =>
      EncodeAllConcat([p], ParseFrom(text, next, eof, sed, Some(Piece(atom, false, [])), groups).pieces);
  }

  lemma SuffixLonger(text: seq<byte>, k: nat, eof: int, sed: bool, p: Piece, gr: Groups)
    requires TokenAt(text, k, eof, sed, Some(p), gr).Suffix?
    ensures |Encode(TokenAt(text, k, eof, sed, Some(p), gr).piece)| >= |Encode(p)|
  {
    hide Encode;
    StarEncoded(p);
    if text[k] == BACKSLASH {
      var r := IntervalFrom(text, k + 2);
      if r.IntervalText? {
        IntervalEncoded(p, r.interval);
      }
    }
  }

  /** The code of the pieces done and of the last piece stands between start and ep. */
  ghost predicate Written(buf: array<byte>, start: nat, m: Locals, done: seq<Piece>, last: Option<Piece>)
    reads buf
  {
    && LastAt(buf, m.lastep, m.ep, last)
    && if last.None? then done == [] && m.ep == start
       else start <= m.lastep <= buf.Length && buf[start..m.lastep] == EncodeAll(done)
  }

  lemma AllWritten(buf: array<byte>, start: nat, m: Locals, done: seq<Piece>, last: Option<Piece>)
    requires Written(buf, start, m, done, last) && m.ep <= buf.Length
    ensures start <= m.ep && buf[start..m.ep] == EncodeAll(done + AsSeq(last))
  {
    hide Encode;
    if last.Some? {
      EncodeAllConcat(done, [last.value]);
      OneEncoded(last.value);
      assert buf[start..m.ep] == buf[start..m.lastep] + buf[m.lastep..m.ep];
    } else {
      assert done + AsSeq(last) == [];
    }
  }

  /** `fault` may be reported for rest, when it is compiled into the bytes from start to endbuf. */
  ghost predicate FaultOf(rest: Parsed, fault: Fault, start: nat, endbuf: int) {
    match rest
    case Good(ps, _, _) => fault == Fault.Code(50) && endbuf <= start + |EncodeAll(ps)|
    case Bad(f, ps, need, _) => fault == if endbuf <= start + |EncodeAll(ps)| + need then Fault.Code(50) else f
  }

  /** No space is left: the rest of the pattern does not fit, if it is good. */
  lemma NoSpace(text: seq<byte>, k: nat, eof: int, sed: bool, start: nat, ep: nat, endbuf: int,
                done: seq<Piece>, last: Option<Piece>, gr: Groups)
    requires ep == start + |EncodeAll(done + AsSeq(last))| && endbuf <= ep
    ensures FaultOf(Attach(done, ParseFrom(text, k, eof, sed, last, gr)), Fault.Code(50), start, endbuf)
  {
    hide Encode, TokenAt;
    var tail := ParseFrom(text, k, eof, sed, last, gr).pieces;
    EncodeAllConcat(done, tail);
    EncodeAllConcat(done, AsSeq(last));
    if last.Some? {
      OneEncoded(last.value);
      RestEncoded(text, k, eof, sed, last.value, gr);
    }
  }

  /** A token that is rejected, or a class that does not fit. */
  lemma TokenFault(text: seq<byte>, k: nat, eof: int, sed: bool, start: nat, ep: nat, endbuf: int,
                   done: seq<Piece>, last: Option<Piece>, gr: Groups, fault: Fault)
    requires ep == start + |EncodeAll(done + AsSeq(last))|
    requires ClassFault(TokenAt(text, k, eof, sed, last, gr), fault, ep, endbuf)
    ensures FaultOf(Attach(done, ParseFrom(text, k, eof, sed, last, gr)), fault, start, endbuf)
  {
    hide Encode, TokenAt;
    var t := TokenAt(text, k, eof, sed, last, gr);
    if t.Fresh? {
      var p := Piece(t.atom, false, []);
      var tail := ParseFrom(text, t.next, eof, sed, Some(p), t.groups).pieces;
      RestEncoded(text, t.next, eof, sed, p, t.groups);
      assert done + (AsSeq(last) + tail) == done + AsSeq(last) + tail;
      EncodeAllConcat(done + AsSeq(last), tail);
    }
  }

  /** What is written when a token is done, and what is then the last piece. */
  ghost predicate Stepped(g: Globals, t: Token, signal: Signal, buf: array<byte>, start: nat, endbuf: nat,
                          bracket: array<byte>, m: Locals, n: Locals, done: seq<Piece>, last: Option<Piece>, gr: Groups,
                          done': seq<Piece>, last': Option<Piece>, gr': Groups)
    requires t.Suffix? ==> last.Some?
    reads g`nbra, buf, bracket
  {
    match signal
    case Fail(fault) => ClassFault(t, fault, m.ep, endbuf)
    case Return(newline) =>
      && t == Finish(newline, n.k) && start <= n.ep == m.ep + 1 <= endbuf <= buf.Length
      && buf[start..n.ep] == Program(done + AsSeq(last))
    case Continue =>
      && (t.Fresh? || t.Suffix?) && n.k == t.next && n.ep == m.ep + Growth(t, last) <= buf.Length
      && Written(buf, start, n, done', last') && Stack(g, bracket, n, gr')
      && gr' == (if t.Fresh? then t.groups else gr) && done' == (if t.Fresh? then done + AsSeq(last) else done)
      && last' == Some(if t.Fresh? then Piece(t.atom, false, []) else t.piece)
  }

  /** One token, and the pieces that are written when it is done. */
  method CompileNext(g: Globals, text: seq<byte>, eof: int, buf: array<byte>, start: nat, endbuf: nat,
                     bracket: array<byte>, m: Locals, ghost done: seq<Piece>, ghost last: Option<Piece>,
                     ghost gr: Groups)
    returns (signal: Signal, n: Locals, ghost done': seq<Piece>, ghost last': Option<Piece>, ghost gr': Groups)
    requires m.ep < endbuf <= buf.Length && buf != bracket
    requires Second(text, m.k, eof, g.sed, last, gr).Some? ==> m.ep + 1 < buf.Length
    requires Stack(g, bracket, m, gr) && Written(buf, start, m, done, last)
    modifies g`nbra, g`nodelim, buf, bracket
    ensures Confined(buf, start, m.ep, endbuf, Second(text, m.k, eof, g.sed, last, gr))
    ensures signal.Return? ==> g.nbra == old(g.nbra) && Second(text, m.k, eof, g.sed, last, gr) == None
    ensures signal.Continue? ==>
              if m.ep + 1 == endbuf && Second(text, m.k, eof, g.sed, last, gr).Some? then n.ep == endbuf + 1
              else n.ep <= endbuf
    ensures g.nodelim == if NewlineEnd(TokenAt(text, m.k, eof, g.sed, last, gr)) then 1 else old(g.nodelim)
    ensures Stepped(g, TokenAt(text, m.k, eof, g.sed, last, gr), signal, buf, start, endbuf, bracket, m, n,
                    done, last, gr, done', last', gr')
  {
    hide Encode, TokenAt, EncodeAll, Second;
    AllWritten(buf, start, m, done, last);
    ghost var t := TokenAt(text, m.k, eof, g.sed, last, gr);
    done', last', gr' := done, last, gr;
    signal, n := CompileToken(g, text, eof, buf, endbuf, bracket, m, last, gr);
    if signal.Return? {
      assert buf[start..m.ep] == old(buf[start..m.ep]);
      assert buf[start..n.ep] == buf[start..m.ep] + [CCEOF];
    } else if signal.Continue? {
      if t.Fresh? {
        assert buf[start..m.ep] == old(buf[start..m.ep]);
        done', last', gr' := done + AsSeq(last), Some(Piece(t.atom, false, [])), t.groups;
      } else {
        assert buf[start..m.lastep] == old(buf[start..m.lastep]);
        last' := Some(t.piece);
      }
    }
  }

  /** What compiling `rest` into the bytes from start to endbuf leaves behind. */
  ghost predicate Produced(g: Globals, rest: Parsed, r: Result, next: nat, buf: array<byte>, start: nat, endbuf: int,
                           nodelim: int)
    reads g, buf
  {
    match r
    case Failed(fault) =>
      && FaultOf(rest, fault, start, endbuf)
      && g.nodelim == if fault == Fault.Code(42) && rest.Bad? && rest.newline then 1 else nodelim
    case Returned(end) =>
      && rest.Good? && next == rest.next
      && start <= end <= endbuf <= buf.Length && buf[start..end] == Program(rest.pieces)
      && g.nbra == Opens(rest.pieces) && g.nodelim == if rest.newline then 1 else nodelim
  }

  /** The state at the head of the main loop: done and last are written, and with what
      is still to be parsed they make up rest. */
  ghost predicate Midway(g: Globals, text: seq<byte>, eof: int, buf: array<byte>, start: nat, bracket: array<byte>,
                         m: Locals, rest: Parsed, done: seq<Piece>, last: Option<Piece>, gr: Groups)
    reads g`nbra, g`sed, buf, bracket
  {
    && Stack(g, bracket, m, gr) && gr.nbra == Opens(done + AsSeq(last))
    && Written(buf, start, m, done, last)
    && rest == Attach(done, ParseFrom(text, m.k, eof, g.sed, last, gr))
  }

  /** The byte at endbuf, which was `before`: a token that ends behind endbuf has spilt on it, and
      as long as none has, what the rest spills is what the whole spills. */
  ghost predicate Slack(buf: array<byte>, endbuf: nat, ep: nat, here: Option<byte>, spill: Option<byte>, before: byte)
    reads buf
  {
    if ep <= endbuf then spill == here && (endbuf < buf.Length ==> buf[endbuf] == before)
    else ep == endbuf + 1 <= buf.Length && spill == Some(buf[endbuf])
  }

  ghost predicate Spilt(buf: array<byte>, endbuf: nat, spill: Option<byte>, before: byte)
    reads buf
  {
    endbuf < buf.Length ==> buf[endbuf] == if spill.Some? then spill.value else before
  }

  /** What the token at k, put at ep, leaves in the byte at endbuf. */
  ghost predicate Tipped(buf: array<byte>, endbuf: nat, ep: nat, second: Option<byte>, before: byte)
    reads buf
  {
    endbuf < buf.Length ==> buf[endbuf] == if ep + 1 == endbuf && second.Some? then second.value else before
  }

  lemma LastSpilt(text: seq<byte>, k: nat, eof: int, sed: bool, last: Option<Piece>, gr: Groups,
                  buf: array<byte>, ep: nat, endbuf: nat, before: byte)
    requires ep < endbuf && Tipped(buf, endbuf, ep, Second(text, k, eof, sed, last, gr), before)
    requires var t := TokenAt(text, k, eof, sed, last, gr);
             t.Finish? || t.Reject? || (t.Fresh? && endbuf <= ep + Growth(t, last))
    ensures Spilt(buf, endbuf, Spill(text, k, eof, sed, last, gr, endbuf - ep), before)
    ensures Second(text, k, eof, sed, last, gr) == None ==> Spill(text, k, eof, sed, last, gr, endbuf - ep) == None
  {
    hide TokenAt, Second, Spill, Growth;
    SpillLast(text, k, eof, sed, last, gr, endbuf - ep);
  }

  lemma NextSlack(text: seq<byte>, k: nat, eof: int, sed: bool, last: Option<Piece>, gr: Groups,
                  buf: array<byte>, ep: nat, endbuf: nat, before: byte)
    requires ep < endbuf <= buf.Length && Tipped(buf, endbuf, ep, Second(text, k, eof, sed, last, gr), before)
    requires var t := TokenAt(text, k, eof, sed, last, gr);
             (t.Fresh? || t.Suffix?) && 0 <= ep + Growth(t, last) <= buf.Length
    requires var n := ep + Growth(TokenAt(text, k, eof, sed, last, gr), last);
             if ep + 1 == endbuf && Second(text, k, eof, sed, last, gr).Some? then n == endbuf + 1 else n <= endbuf
    ensures var t := TokenAt(text, k, eof, sed, last, gr);
            var n := ep + Growth(t, last);
            var here := Spill(text, t.next, eof, sed, Some(if t.Fresh? then Piece(t.atom, false, []) else t.piece),
                              if t.Fresh? then t.groups else gr, endbuf - n);
            Slack(buf, endbuf, n, here, Spill(text, k, eof, sed, last, gr, endbuf - ep), before)
  {
    hide TokenAt, Second, Growth;
    if ep + 1 < endbuf || Second(text, k, eof, sed, last, gr).None? {
      hide Spill;
      SpillNext(text, k, eof, sed, last, gr, endbuf - ep);
    }
  }

  /** One token, with an eye on the byte at endbuf. */
  method CompileWatched(g: Globals, text: seq<byte>, eof: int, buf: array<byte>, start: nat, endbuf: nat,
                        bracket: array<byte>, m: Locals, ghost done: seq<Piece>, ghost last: Option<Piece>,
                        ghost gr: Groups, ghost spill: Option<byte>, ghost before: byte)
    returns (signal: Signal, n: Locals, ghost done': seq<Piece>, ghost last': Option<Piece>, ghost gr': Groups)
    requires start <= m.ep < endbuf <= buf.Length && buf != bracket && (spill.Some? ==> endbuf < buf.Length)
    requires spill == Spill(text, m.k, eof, g.sed, last, gr, endbuf - m.ep)
    requires endbuf < buf.Length ==> buf[endbuf] == before
    requires Stack(g, bracket, m, gr) && Written(buf, start, m, done, last)
    modifies g`nbra, g`nodelim, buf, bracket
    ensures Elsewhere(buf, start, endbuf + 1)
    ensures signal.Return? ==> g.nbra == old(g.nbra) && spill == None
    ensures if signal.Continue? then
              Slack(buf, endbuf, n.ep, Spill(text, n.k, eof, g.sed, last', gr', endbuf - n.ep), spill, before)
            else
              Spilt(buf, endbuf, spill, before)
    ensures g.nodelim == if NewlineEnd(TokenAt(text, m.k, eof, g.sed, last, gr)) then 1 else old(g.nodelim)
    ensures Stepped(g, TokenAt(text, m.k, eof, g.sed, last, gr), signal, buf, start, endbuf, bracket, m, n,
                    done, last, gr, done', last', gr')
  {
    hide Encode, TokenAt, EncodeAll, Second, Spill, Growth, Written, Stack;
    ghost var t := TokenAt(text, m.k, eof, g.sed, last, gr);
    CanSpill(text, m.k, eof, g.sed, last, gr, endbuf - m.ep);
    signal, n, done', last', gr' := CompileNext(g, text, eof, buf, start, endbuf, bracket, m, done, last, gr);
    assert Tipped(buf, endbuf, m.ep, Second(text, m.k, eof, g.sed, last, gr), before);
    hide Slack, Spilt, Tipped;
    match signal {
      case Fail(fault) =>
        FailGrowth(t, fault, last, m.ep, endbuf);
        LastSpilt(text, m.k, eof, g.sed, last, gr, buf, m.ep, endbuf, before);
      case Return(newline) =>
        LastSpilt(text, m.k, eof, g.sed, last, gr, buf, m.ep, endbuf, before);
      case Continue =>
        NextSlack(text, m.k, eof, g.sed, last, gr, buf, m.ep, endbuf, before);
    }
  }

  lemma FailGrowth(t: Token, fault: Fault, last: Option<Piece>, ep: nat, endbuf: nat)
    requires ClassFault(t, fault, ep, endbuf)
    ensures t.Reject? || (t.Fresh? && endbuf <= ep + Growth(t, last))
  {
    hide Encode;
  }

  /** One pass of the main loop. */
  method CompilePass(g: Globals, text: seq<byte>, eof: int, buf: array<byte>, start: nat, endbuf: nat,
                     bracket: array<byte>, m: Locals,
                     ghost rest: Parsed, ghost done: seq<Piece>, ghost last: Option<Piece>, ghost gr: Groups,
                     ghost spill: Option<byte>, ghost before: byte)
    returns (signal: Signal, n: Locals, ghost done': seq<Piece>, ghost last': Option<Piece>, ghost gr': Groups)
    requires m.ep <= buf.Length && endbuf <= buf.Length && buf != bracket && (spill.Some? ==> endbuf < buf.Length)
    requires Slack(buf, endbuf, m.ep, Spill(text, m.k, eof, g.sed, last, gr, endbuf - m.ep), spill, before)
    requires Midway(g, text, eof, buf, start, bracket, m, rest, done, last, gr)
    modifies g`nbra, g`nodelim, buf, bracket
    ensures Elsewhere(buf, start, endbuf + 1)
    ensures !signal.Continue? ==> Spilt(buf, endbuf, spill, before)
    ensures match signal
            case Fail(fault) =>
              && FaultOf(rest, fault, start, endbuf)
              && g.nodelim == if fault == Fault.Code(42) && rest.Bad? && rest.newline then 1 else old(g.nodelim)
            case Return(newline) =>
              && rest == Good(rest.pieces, newline, n.k) && start <= n.ep <= endbuf && spill == None
              && buf[start..n.ep] == Program(rest.pieces) && g.nbra == Opens(rest.pieces)
              && g.nodelim == if newline then 1 else old(g.nodelim)
            case Continue =>
              && m.k < n.k <= |text| && n.ep <= buf.Length && g.nodelim == old(g.nodelim)
              && Slack(buf, endbuf, n.ep, Spill(text, n.k, eof, g.sed, last', gr', endbuf - n.ep), spill, before)
              && Midway(g, text, eof, buf, start, bracket, n, rest, done', last', gr')
  {
    hide Encode, TokenAt, EncodeAll, Opens, Second, Spill, Growth, Written;
    AllWritten(buf, start, m, done, last);
    n, done', last', gr' := m, done, last, gr;
    if m.ep >= endbuf {
      NoSpace(text, m.k, eof, g.sed, start, m.ep, endbuf, done, last, gr);
      assert spill == None || m.ep > endbuf by {
        NoRoom(text, m.k, eof, g.sed, last, gr, endbuf - m.ep);
      }
      return Fail(Fault.Code(50)), n, done', last', gr';
    }
    signal, n, done', last', gr' :=
      CompileWatched(g, text, eof, buf, start, endbuf, bracket, m, done, last, gr, spill, before);
    hide Slack, Spilt, Stack;
    match signal {
      case Fail(fault) =>
        TokenFault(text, m.k, eof, g.sed, start, m.ep, endbuf, done, last, gr, fault);
      case Return(newline) =>
      case Continue =>
        if TokenAt(text, m.k, eof, g.sed, last, gr).Fresh? {
          FreshParsed(text, m.k, eof, g.sed, done, last, gr);
        } else {
          SuffixParsed(text, m.k, eof, g.sed, done, last, gr);
        }
    }
  }

  /** The main loop, from k0 on, with no group open. */
  method CompileRest(g: Globals, text: seq<byte>, k0: nat, eof: int, buf: array<byte>, start: nat, endbuf: nat)
    returns (r: Result, next: nat)
    requires start <= endbuf <= buf.Length && g.nbra == 0
    requires endbuf == buf.Length ==> Spill(text, k0, eof, g.sed, None, NO_GROUPS, endbuf - start) == None
    modifies g`nbra, g`nodelim, buf
    ensures Elsewhere(buf, start, endbuf + 1) && (r.Returned? ==> Elsewhere(buf, start, endbuf))
    ensures endbuf < buf.Length ==>
              Spilt(buf, endbuf, Spill(text, k0, eof, g.sed, None, NO_GROUPS, endbuf - start), old(buf[endbuf]))
    ensures Produced(g, ParseFrom(text, k0, eof, g.sed, None, NO_GROUPS), r, next, buf, start, endbuf, old(g.nodelim))
  {
    hide Encode, TokenAt, EncodeAll, ParseFrom, Spill;
    var bracket := new byte[NBRA];
    var m, signal := Locals(k0, start, -1, 0, 0), Continue;
    ghost var sed := g.sed;
    ghost var rest := ParseFrom(text, k0, eof, sed, None, NO_GROUPS);
    ghost var done: seq<Piece> := [];
    ghost var last: Option<Piece> := None;
    ghost var gr := NO_GROUPS;
    ghost var spill := Spill(text, k0, eof, sed, None, gr, endbuf - start);
    ghost var before := if endbuf < buf.Length then buf[endbuf] else 0;
    next := k0;
    while true
      invariant Elsewhere(buf, start, endbuf + 1) && g.nodelim == old(g.nodelim) && g.sed == sed
      invariant fresh(bracket) && m.ep <= buf.Length
      invariant Slack(buf, endbuf, m.ep, Spill(text, m.k, eof, sed, last, gr, endbuf - m.ep), spill, before)
      invariant Midway(g, text, eof, buf, start, bracket, m, rest, done, last, gr)
      decreases |text| - m.k
    {
      signal, m, done, last, gr :=
        CompilePass(g, text, eof, buf, start, endbuf, bracket, m, rest, done, last, gr, spill, before);
      match signal {
        case Fail(fault) =>
          return Failed(fault), next;
        case Return(newline) =>
          return Returned(m.ep), m.k;
        case Continue =>
      }
    }
  }

  /** A new piece begins: what is parsed stays the same, and a group is counted if it opens. */
  lemma FreshParsed(text: seq<byte>, k: nat, eof: int, sed: bool, done: seq<Piece>, last: Option<Piece>, gr: Groups)
    requires TokenAt(text, k, eof, sed, last, gr).Fresh? && gr.nbra == Opens(done + AsSeq(last))
    ensures var t := TokenAt(text, k, eof, sed, last, gr);
            && Attach(done, ParseFrom(text, k, eof, sed, last, gr)) ==
               Attach(done + AsSeq(last), ParseFrom(text, t.next, eof, sed, Some(Piece(t.atom, false, [])), t.groups))
            && t.groups.nbra == Opens(done + AsSeq(last) + AsSeq(Some(Piece(t.atom, false, []))))
  {
    hide TokenAt, Opens, Attach;
    var t := TokenAt(text, k, eof, sed, last, gr);
    var p := Piece(t.atom, false, []);
    AttachTwice(done, AsSeq(last), ParseFrom(text, t.next, eof, sed, Some(p), t.groups));
    OpensOneMore(done + AsSeq(last), p);
  }

  /** The last piece gets a suffix. */
  lemma SuffixParsed(text: seq<byte>, k: nat, eof: int, sed: bool, done: seq<Piece>, last: Option<Piece>, gr: Groups)
    requires TokenAt(text, k, eof, sed, last, gr).Suffix? && gr.nbra == Opens(done + AsSeq(last))
    ensures var t := TokenAt(text, k, eof, sed, last, gr);
            && ParseFrom(text, k, eof, sed, last, gr) == ParseFrom(text, t.next, eof, sed, Some(t.piece), gr)
            && gr.nbra == Opens(done + AsSeq(Some(t.piece)))
  {
    hide TokenAt;
    OpensOneMore(done, TokenAt(text, k, eof, sed, last, gr).piece);
    OpensOneMore(done, last.value);
  }

  /** The text from `at` on, ended by eof or a newline, into the bytes from ep0 to endbuf. */
  method Compile(g: Globals, text: seq<byte>, at: nat, buf: array<byte>, ep0: nat, endbuf: nat, eof: int)
    returns (r: Result, next: nat)
    requires ep0 <= endbuf <= buf.Length
    requires at < |text| && (text[at] == eof || text[at] == Byte('\n')) ==> ep0 < buf.Length
    requires endbuf == buf.Length ==> SpillOf(text, at, eof, g.sed, endbuf - ep0) == None
    modifies g`circf, g`nbra, g`nodelim, buf
    ensures Elsewhere(buf, ep0, endbuf + 1) && (r.Returned? ==> Elsewhere(buf, ep0, endbuf))
    ensures endbuf < buf.Length ==> Spilt(buf, endbuf, SpillOf(text, at, eof, g.sed, endbuf - ep0), old(buf[endbuf]))
    ensures at < |text| && text[at] == Byte('\n') ==> next == at && g.nodelim == 1
    ensures at < |text| && text[at] == eof && text[at] != Byte('\n') ==> next == at + 1 && g.nodelim == old(g.nodelim)
    ensures at < |text| && (text[at] == eof || text[at] == Byte('\n')) ==>
              && unchanged(buf) && unchanged(g`circf, g`nbra)
              && r == if buf[ep0] == 0 && !g.sed then Failed(Fault.Code(41)) else Returned(ep0)
    ensures match Parse(text, at, eof, g.sed)
            case Missing => r == Failed(Exhausted) && unchanged(g, buf)
            case Empty(newline, k) =>
              && unchanged(buf) && unchanged(g`circf, g`nbra)
              && g.nodelim == (if newline then 1 else old(g.nodelim))
              && if buf[ep0] == 0 && !g.sed then r == Failed(Fault.Code(41)) else r == Returned(ep0) && next == k
            case Regular(anchored, rest) =>
              && g.circf == (if anchored then 1 else 0)
              && Produced(g, rest, r, next, buf, ep0, endbuf, old(g.nodelim))
  {
    next := at;
    if at >= |text| {
      return Failed(Exhausted), next;
    }
    var c := text[at];
    if c == eof || c == NEWLINE {
      next := at + 1;
      if c == NEWLINE {
        next := at;
        g.nodelim := 1;
      }
      if buf[ep0] == 0 && !g.sed {
        return Failed(Fault.Code(41)), next;
      }
      return Returned(ep0), next;
    }
    g.circf, g.nbra := 0, 0;
    if c == CARET {
      g.circf := g.circf + 1;
      next := at + 1;
    }
    r, next := CompileRest(g, text, next, eof, buf, ep0, endbuf);
  }

  /** One character and space for one byte: the character itself is written at endbuf,
      and only then is fault 50 found. */
  lemma OneCharacterSpills(c: byte, eof: byte, sed: bool, ep: nat)
    requires c !in {NEWLINE, DOLLAR, ASTERISK, PERIOD, LBRACKET, BACKSLASH, CARET, eof} && eof != BACKSLASH
    ensures Parse([c, eof], 0, eof, sed) == Regular(false, Good([Piece(Lit(c), false, [])], false, 2))
    ensures SpillOf([c, eof], 0, eof, sed, 1) == Some(c)
    ensures FaultOf(Parse([c, eof], 0, eof, sed).rest, Fault.Code(50), ep, ep + 1)
  {
    var p := Piece(Lit(c), false, []);
    assert TokenAt([c, eof], 1, eof, sed, Some(p), NO_GROUPS) == Finish(false, 2);
    assert ParseFrom([c, eof], 1, eof, sed, Some(p), NO_GROUPS) == Good([p], false, 2);
    OneEncoded(p);
  }
}
