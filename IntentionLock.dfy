/** The intention lock object (ilock.Mutex) and its operations, reduced to
    their sequential effect on the state word. The guarding sync.Mutex and
    the condition variable are not modelled: a lock request that would wait
    reports so instead of waiting, and an unlock reports whether it would
    wake the waiters. */
module IntentionLock {
  import opened Encoding
  import opened Protocol

  class Mutex {
    /** The packed holder counts. */
    var state: Word

    /** The lock invariant the compatibility matrix maintains. */
    predicate Invariant()
      reads this
    {
      Consistent(Decode(state))
    }

    /** New: a lock with no holder of any mode. */
    constructor ()
      ensures state == 0 && Invariant()
    {
      state := 0;
    }

    /** registerF: adds the caller as a holder of mode f and reports whether
        the state it found (before adding itself) was compatible with f. The
        compare-and-swap retry loop of the source is one read-modify-write
        here. */
    method Register(f: Mode) returns (compatible: bool)
      requires Extract(f, state) < MaxHolders
      modifies this
      ensures state == Registered(f, old(state))
      ensures compatible == Compatible(f, old(state))
    {
      var found := state;
      state := Set(f, found, Inc(Extract(f, found)));
      compatible := Compatible(f, found);
    }

    /** XLock / SLock / IXLock / ISLock: when f is compatible with the
        current holders, registers the caller; otherwise leaves the state
        alone and reports that the caller would wait on the condition
        variable. */
    method Lock(f: Mode) returns (wouldBlock: bool)
      requires Invariant()
      requires Compatible(f, state) ==> Extract(f, state) < MaxHolders
      modifies this
      ensures Invariant()
      ensures wouldBlock <==> !Compatible(f, old(state))
      ensures state == if wouldBlock then old(state) else Registered(f, old(state))
    {
      if !Compatible(f, state) {
        return true;
      }
      wouldBlock := false;
      ghost var found := state;
      var _ := Register(f);
      assert Decode(state) == Decode(found).With(f, Inc(Extract(f, found)));
      LockKeepsConsistent(f, Decode(found));
    }

    /** XUnlock / SUnlock / IXUnlock / ISUnlock: removes one holder of mode
        f and reports whether the count reached zero, which is when the
        source broadcasts to the waiters. */
    method Unlock(f: Mode) returns (wake: bool)
      requires Invariant() && Extract(f, state) > 0
      modifies this
      ensures Invariant()
      ensures state == Released(f, old(state))
      ensures wake <==> Extract(f, state) == 0
    {
      var found := state;
      var val := Dec(Extract(f, found));
      state := Set(f, found, val);
      wake := val == 0;
      DecodeSet(f, found, val);
      UnlockKeepsConsistent(f, Decode(found));
    }
  }

  /** The registration checks run against a new lock: the first holder of
      any mode finds a compatible state, and a second holder finds one
      exactly when the matrix lets its mode sit beside the first. */
  method RegisterTwice(first: Mode, second: Mode) returns (firstOk: bool, secondOk: bool)
    ensures firstOk
    ensures secondOk <==> !Conflicts(second, first)
  {
    var m := new Mutex();
    firstOk := m.Register(first);
    secondOk := m.Register(second);
    SecondRegistration(first, second);
  }
}
