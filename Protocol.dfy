/** The sequential effect of the lock's operations on its state word:
    registering and removing a holder, the invariant the compatibility
    matrix maintains, and whole runs of lock and unlock calls. */
module Protocol {
  import opened Encoding

  datatype Option<T> = None | Some(value: T)

  /** registerF's update: one more holder in mode f and no other change.
      The source adds one without a check; the field must have room for it
      (see Findings). */
  function Registered(f: Mode, state: Word): (r: Word)
    requires Extract(f, state) < MaxHolders
    ensures Decode(r) == Decode(state).With(f, Inc(Extract(f, state)))
  {
    DecodeSet(f, state, Inc(Extract(f, state)));
    Set(f, state, Inc(Extract(f, state)))
  }

  /** FUnlock's update: one holder fewer in mode f and no other change. The
      source subtracts one without a check; some caller must hold f (see
      Findings). */
  function Released(f: Mode, state: Word): (r: Word)
    requires Extract(f, state) > 0
    ensures Decode(r) == Decode(state).With(f, Dec(Extract(f, state)))
  {
    DecodeSet(f, state, Dec(Extract(f, state)));
    Set(f, state, Dec(Extract(f, state)))
  }

  /** What the compatibility matrix guarantees about the holders at any
      time: at most one exclusive holder, an exclusive holder excludes every
      other mode, and shared and intention-exclusive never coexist. */
  predicate Consistent(c: Counts) {
    && (c.exclusive == 0 || c.exclusive == 1)
    && (c.exclusive == 1 ==> c.shared == 0 && c.intentShared == 0 && c.intentExclusive == 0)
    && (c.shared == 0 || c.intentExclusive == 0)
  }

  /** The matrix is exactly the gate that keeps the holders consistent: from
      consistent counts, one more holder in mode f leaves them consistent if
      and only if the matrix admits f. */
  lemma LockKeepsConsistent(f: Mode, c: Counts)
    requires Consistent(c) && c.Get(f) < MaxHolders
    ensures Consistent(c.With(f, Inc(c.Get(f)))) <==> c.Admits(f)
  {
    match f
    case X => LockKeepsX(f, c);
    case S => LockKeepsS(f, c);
    case IS => LockKeepsIS(f, c);
    case IX => LockKeepsIX(f, c);
  }

  // LockKeepsConsistent one mode at a time: Admits spelled out over the
  // four held modes, and the incremented count known to be non-zero.

  lemma LockKeepsX(f: Mode, c: Counts)
    requires f == X && Consistent(c) && c.Get(f) < MaxHolders
    ensures Consistent(c.With(f, Inc(c.Get(f)))) <==> c.Admits(f)
  {
    assert Inc(c.Get(X)) != 0;
    assert c.Admits(X) <==> c.Get(X) == 0 && c.Get(S) == 0 && c.Get(IS) == 0 && c.Get(IX) == 0;
  }

  lemma LockKeepsS(f: Mode, c: Counts)
    requires f == S && Consistent(c) && c.Get(f) < MaxHolders
    ensures Consistent(c.With(f, Inc(c.Get(f)))) <==> c.Admits(f)
  {
    assert Inc(c.Get(S)) != 0;
    assert c.Admits(S) <==> c.Get(X) == 0 && c.Get(IX) == 0;
  }

  lemma LockKeepsIS(f: Mode, c: Counts)
    requires f == IS && Consistent(c) && c.Get(f) < MaxHolders
    ensures Consistent(c.With(f, Inc(c.Get(f)))) <==> c.Admits(f)
  {
    assert Inc(c.Get(IS)) != 0;
    assert c.Admits(IS) <==> c.Get(X) == 0;
  }

  lemma LockKeepsIX(f: Mode, c: Counts)
    requires f == IX && Consistent(c) && c.Get(f) < MaxHolders
    ensures Consistent(c.With(f, Inc(c.Get(f)))) <==> c.Admits(f)
  {
    assert Inc(c.Get(IX)) != 0;
    assert c.Admits(IX) <==> c.Get(X) == 0 && c.Get(S) == 0;
  }

  /** Removing a holder of a held mode keeps the holders consistent. */
  lemma UnlockKeepsConsistent(f: Mode, c: Counts)
    requires Consistent(c) && c.Get(f) > 0
    ensures Consistent(c.With(f, Dec(c.Get(f))))
  {}

  /** One call of a lock or unlock operation. */
  datatype Op = Lock(mode: Mode) | Unlock(mode: Mode)

  /** The state after one call, or None when the call cannot complete in a
      sequential run: a lock whose mode is incompatible with the current
      holders (its caller would wait), a lock whose field is full, or an
      unlock of a mode nobody holds. */
  function Step(state: Word, op: Op): (r: Option<Word>)
    ensures r.Some? <==> match op
                         case Lock(f) => Decode(state).Admits(f) && Decode(state).Get(f) < MaxHolders
                         case Unlock(f) => Decode(state).Get(f) != 0
    ensures r.Some? ==> match op
                        case Lock(f) => Decode(r.value) == Decode(state).With(f, Inc(Extract(f, state)))
                        case Unlock(f) => Decode(r.value) == Decode(state).With(f, Dec(Extract(f, state)))
  {
    match op
    case Lock(f) =>
      if Compatible(f, state) && Extract(f, state) < MaxHolders then Some(Registered(f, state)) else None
    case Unlock(f) =>
      if Extract(f, state) > 0 then Some(Released(f, state)) else None
  }

  /** The state after the calls in ops, one after another, or None when one
      of them cannot complete. */
  function Run(state: Word, ops: seq<Op>): Option<Word>
    decreases |ops|
  {
    if ops == [] then Some(state)
    else match Step(state, ops[0])
      case None => None
      case Some(next) => Run(next, ops[1..])
  }

  /** One call that completes keeps the holders consistent. */
  lemma StepKeepsConsistent(state: Word, op: Op)
    requires Consistent(Decode(state)) && Step(state, op).Some?
    ensures Consistent(Decode(Step(state, op).value))
  {
    match op
    case Lock(f) =>
      LockKeepsConsistent(f, Decode(state));
    case Unlock(f) =>
      UnlockKeepsConsistent(f, Decode(state));
  }

  /** Every run from a consistent state ends in a consistent state. */
  lemma {:induction false} RunKeepsConsistent(state: Word, ops: seq<Op>)
    requires Consistent(Decode(state)) && Run(state, ops).Some?
    ensures Consistent(Decode(Run(state, ops).value))
    decreases |ops|
  {
    if ops != [] {
      StepKeepsConsistent(state, ops[0]);
      RunKeepsConsistent(Step(state, ops[0]).value, ops[1..]);
    }
  }

  /** Mutual exclusion from a new lock: after any run of calls that
      completes, there is at most one exclusive holder and then no other
      holder, and shared and intention-exclusive are never held together. */
  lemma NewLockStaysConsistent(ops: seq<Op>)
    requires Run(0, ops).Some?
    ensures Consistent(Decode(Run(0, ops).value))
  {
    RunKeepsConsistent(0, ops);
  }

  /** The registration results checked for a new lock: the first holder of
      any mode is compatible, and a second one is compatible exactly when
      the matrix lets its mode sit beside the first. */
  lemma SecondRegistration(first: Mode, second: Mode)
    ensures Compatible(first, 0)
    ensures Compatible(second, Registered(first, 0)) <==> !Conflicts(second, first)
  {}

  // The unchecked arithmetic of the source, outside the preconditions of
  // Registered and Released.

  /** The position of a mode's field in the word, counted from the low end. */
  function Rank(f: Mode): nat {
    match f
    case X => 0
    case S => 1
    case IS => 2
    case IX => 3
  }

  /** FUnlock on a mode with no holder: extractF gives 0, minus one wraps to
      all ones, and setF shifts those ones over field f and every field
      above it, so each of those reads 65535 holders; the fields below f
      are untouched. From state 0, XUnlock leaves 65535 holders of each
      mode. */
  lemma ReleaseAtZeroFloods(f: Mode, state: Word)
    requires Extract(f, state) == 0
    ensures var w := Set(f, state, Dec(Extract(f, state)));
            forall g :: Extract(g, w) == if Rank(g) < Rank(f) then Extract(g, state) else MaxHolders
  {
    match f
    case X => FloodsX(f, state);
    case S => FloodsS(f, state);
    case IS => FloodsIS(f, state);
    case IX => FloodsIX(f, state);
  }

  // ReleaseAtZeroFloods one mode at a time.

  lemma FloodsX(f: Mode, state: Word)
    requires f == X && Extract(f, state) == 0
    ensures var w := Set(f, state, Dec(Extract(f, state)));
            forall g :: Extract(g, w) == if Rank(g) < Rank(f) then Extract(g, state) else MaxHolders
  {}

  lemma FloodsS(f: Mode, state: Word)
    requires f == S && Extract(f, state) == 0
    ensures var w := Set(f, state, Dec(Extract(f, state)));
            forall g :: Extract(g, w) == if Rank(g) < Rank(f) then Extract(g, state) else MaxHolders
  {}

  lemma FloodsIS(f: Mode, state: Word)
    requires f == IS && Extract(f, state) == 0
    ensures var w := Set(f, state, Dec(Extract(f, state)));
            forall g :: Extract(g, w) == if Rank(g) < Rank(f) then Extract(g, state) else MaxHolders
  {}

  lemma FloodsIX(f: Mode, state: Word)
    requires f == IX && Extract(f, state) == 0
    ensures var w := Set(f, state, Dec(Extract(f, state)));
            forall g :: Extract(g, w) == if Rank(g) < Rank(f) then Extract(g, state) else MaxHolders
  {}

  /** registerS with 65535 shared holders: setS ORs the carried-out one into
      the lowest bit of the IS field, so S reads 0 and IS reads its old count
      with that bit set; X and IX are untouched. With an odd IS count the new
      holder disappears. From the word with only S held, the lock reads as
      one intention-shared holder. */
  lemma RegisterAtCapacityCarries(state: Word)
    requires Extract(S, state) == MaxHolders
    ensures Decode(Set(S, state, Inc(Extract(S, state))))
            == Decode(state).With(S, 0).With(IS, Extract(IS, state) | 1)
  {}

  /** registerIX with 65535 intention-exclusive holders: the carried-out one
      is shifted out of the word, so IX reads 0 and the other modes are
      untouched. From the word with only IX held, the lock reads as having no
      holder at all. */
  lemma RegisterAtCapacityVanishes(state: Word)
    requires Extract(IX, state) == MaxHolders
    ensures Decode(Set(IX, state, Inc(Extract(IX, state)))) == Decode(state).With(IX, 0)
  {}
}
