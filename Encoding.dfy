/** The packed lock-state word of an intention lock: four 16-bit holder
    counters, one per lock mode, in a single 64-bit word (X in bits 0-15,
    S in bits 16-31, IS in bits 32-47, IX in bits 48-63), together with the
    compatibility test of a requested mode against that word. */
module Encoding {

  /** The lock-state word (a Go uint64). */
  type Word = bv64

  /** The four modes a holder may take: exclusive, shared,
      intention-shared and intention-exclusive. */
  datatype Mode = X | S | IS | IX

  // Field offsets and masks. Each mask is the source's "(1 << hi) - 1 with
  // the bits below lo cleared", written out as a literal.
  const XOffset: Word := 0
  const XMask: Word := 0x0000_0000_0000_ffff

  const SOffset: Word := 16
  const SMask: Word := 0x0000_0000_ffff_0000

  const IsOffset: Word := 32
  const IsMask: Word := 0x0000_ffff_0000_0000

  const IxOffset: Word := 48
  const IxMask: Word := 0xffff_0000_0000_0000

  /** The largest number of holders one field can record. */
  const MaxHolders: Word := 0xffff

  /** extractX / extractS / extractIS / extractIX: the holder count of mode
      f. Whatever the word, the count fits in its 16-bit field. */
  function Extract(f: Mode, state: Word): (count: Word)
    ensures count <= MaxHolders
  {
    match f
    case X => (state & XMask) >> XOffset
    case S => (state & SMask) >> SOffset
    case IS => (state & IsMask) >> IsOffset
    case IX => (state & IxMask) >> IxOffset
  }

  /** setX / setS / setIS / setIX: the word with the field of mode f replaced
      by val. Any val is accepted, as in the source; SetFields says what
      holds when val fits the field. */
  function Set(f: Mode, state: Word, val: Word): Word {
    match f
    case X => (state & !XMask) | (val << XOffset)
    case S => (state & !SMask) | (val << SOffset)
    case IS => (state & !IsMask) | (val << IsOffset)
    case IX => (state & !IxMask) | (val << IxOffset)
  }

  /** Go's uint64 "+ 1" and "- 1", which wrap around at 2^64. They are
      named functions so that the solver sees each as one term. */
  function Inc(n: Word): Word { n + 1 }

  function Dec(n: Word): Word { n - 1 }

  /** The four holder counts of a word, as a record. */
  datatype Counts = Counts(exclusive: Word, shared: Word, intentShared: Word, intentExclusive: Word)
  {
    function Get(f: Mode): Word {
      match f
      case X => exclusive
      case S => shared
      case IS => intentShared
      case IX => intentExclusive
    }

    function With(f: Mode, n: Word): (c: Counts)
      ensures forall g :: c.Get(g) == if g == f then n else Get(g)
    {
      match f
      case X => this.(exclusive := n)
      case S => this.(shared := n)
      case IS => this.(intentShared := n)
      case IX => this.(intentExclusive := n)
    }

    /** A request in mode f may proceed: no mode that the matrix says
        blocks it has a holder. */
    predicate Admits(f: Mode) {
      forall held :: Get(held) != 0 ==> !Conflicts(f, held)
    }
  }

  /** The abstraction from a word to its four counts. */
  function Decode(state: Word): (c: Counts)
    ensures forall f :: c.Get(f) == Extract(f, state)
  {
    Counts(Extract(X, state), Extract(S, state), Extract(IS, state), Extract(IX, state))
  }

  /** Replacing a field with a value that fits changes the decoded counts
      in that mode only. */
  lemma DecodeSet(f: Mode, state: Word, val: Word)
    requires val <= MaxHolders
    ensures Decode(Set(f, state, val)) == Decode(state).With(f, val)
  {
    match f
    case X => DecodeSetX(state, val);
    case S => DecodeSetS(state, val);
    case IS => DecodeSetIS(state, val);
    case IX => DecodeSetIX(state, val);
  }

  /** setF then extractF reads back the value written, and the other three
      fields read as before. */
  lemma SetFields(f: Mode, state: Word, val: Word)
    requires val <= MaxHolders
    ensures Extract(f, Set(f, state, val)) == val
    ensures forall g :: g != f ==> Extract(g, Set(f, state, val)) == Extract(g, state)
  {
    DecodeSet(f, state, val);
  }

  // The bit-level facts behind DecodeSet, one mode at a time so that each
  // proof obligation stays small.

  lemma DecodeSetX(state: Word, val: Word)
    requires val <= MaxHolders
    ensures Decode(Set(X, state, val)) == Decode(state).With(X, val)
  {}

  lemma DecodeSetS(state: Word, val: Word)
    requires val <= MaxHolders
    ensures Decode(Set(S, state, val)) == Decode(state).With(S, val)
  {}

  lemma DecodeSetIS(state: Word, val: Word)
    requires val <= MaxHolders
    ensures Decode(Set(IS, state, val)) == Decode(state).With(IS, val)
  {}

  lemma DecodeSetIX(state: Word, val: Word)
    requires val <= MaxHolders
    ensures Decode(Set(IX, state, val)) == Decode(state).With(IX, val)
  {}

  /** The four fields cover the whole word: it is zero exactly when every
      count is zero. */
  lemma FieldsCover(state: Word)
    ensures state == 0 <==> forall f :: Extract(f, state) == 0
  {
    assert (Extract(X, state) == 0 && Extract(S, state) == 0 &&
            Extract(IS, state) == 0 && Extract(IX, state) == 0) ==> state == 0;
  }

  /** A word is determined by its four counts: Decode loses nothing, so
      reasoning about counts is reasoning about the word. */
  lemma DecodeInjective(a: Word, b: Word)
    ensures Decode(a) == Decode(b) ==> a == b
  {
    if Decode(a) == Decode(b) {
      assert Extract(X, a) == Extract(X, b) && Extract(S, a) == Extract(S, b) &&
             Extract(IS, a) == Extract(IS, b) && Extract(IX, a) == Extract(IX, b);
    }
  }

  /** The documented lock-mode matrix, read as "a request in mode req is
      blocked while some caller holds mode held". */
  predicate Conflicts(req: Mode, held: Mode) {
    match req
    case X => true
    case S => held == X || held == IX
    case IX => held == X || held == S
    case IS => held == X
  }

  /** compatableWithX / S / IX / IS: may a request in mode f proceed against
      the current word (before the requester registers itself)? Exactly when
      the matrix admits it against the decoded counts. */
  predicate Compatible(f: Mode, state: Word)
    ensures Compatible(f, state) <==> Decode(state).Admits(f)
  {
    match f
    case X => FieldsCover(state); state == 0
    case S => Extract(X, state) == 0 && Extract(IX, state) == 0
    case IX => Extract(X, state) == 0 && Extract(S, state) == 0
    case IS => Extract(X, state) == 0
  }
}
