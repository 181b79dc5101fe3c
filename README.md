# go-ilock: the intention lock, modelled in Dafny

`ilock.Mutex` is a multi-granularity (intention) lock. A caller takes it in
one of four modes: exclusive (X), shared (S), intention-shared (IS) or
intention-exclusive (IX). Whether a request may proceed depends on the modes
already held, according to the lock-mode matrix in the package comment. The
number of holders of each mode is kept in a 16-bit field of one 64-bit state
word: X in bits 0-15, S in bits 16-31, IS in bits 32-47 and IX in bits 48-63.

The model has three modules.

- `Encoding` covers the state word (`bv64`) and its masks and offsets. It has
  the field read (`extractF`), the field write (`setF`), the compatibility
  tests (`compatableWithF`) and the matrix itself (`Conflicts`). It also has
  `Counts`, the four counters as a record, and `Decode`, which maps a word to
  its counts.
- `Protocol` covers the sequential effect of the operations on the word:
  - one more holder (`Registered`) and one fewer (`Released`);
  - the invariant the matrix maintains (`Consistent`);
  - runs of lock and unlock calls (`Step`, `Run`), and the proof that every
    run from a new lock keeps the invariant.
- `IntentionLock` holds `Mutex`, a class whose `state` field the methods
  update in place: `Register` (registerF), `Lock` (FLock) and `Unlock`
  (FUnlock).

The source has one function per mode (`extractX`, `extractS`, ...). The
model has one function that takes the mode as a parameter and keeps each
mode's mask and offset.

The doc comment of `ISLock` says the call blocks while IX is held. The
matrix does not say that, and neither does `compatableWithIS`, which looks
only at the X count. The model follows the code and the matrix, so IS may be
taken while IX is held.

## Model

| member | source | states |
|---|---|---|
| Encoding.Extract | ilock.go:134-154 | extractF: every field read from any 64-bit word is at most maxHolders (65535) |
| Encoding.SetFields | ilock.go:152-195 | for a value that fits the field, setF then extractF reads the value back, and the other three fields read as before |
| Encoding.DecodeSet | ilock.go:152-195 | for a value that fits, setF changes the decoded counts in mode F only, to that value |
| Encoding.Set | ilock.go:156-195 | setF replaces field F of the word with the given value; its contract is stated by Encoding.SetFields and Encoding.DecodeSet |
| Encoding.DecodeInjective | ilock.go:124-146 | two words with the same four counts are the same word, so the four fields are the whole state |
| Encoding.FieldsCover | ilock.go:124-146 | the four fields cover the word: it is zero exactly when every count is zero |
| Encoding.Conflicts | ilock.go:95-101 | the lock-mode matrix: a request for X is blocked by any holder, S by X and IX, IX by X and S, IS by X only; Encoding.Compatible states that the compatibility tests follow it |
| Encoding.Compatible | ilock.go:160-199 | compatableWithX/S/IX/IS hold exactly when the matrix of ilock.go:95-101 admits the request against the decoded counts: X only when no mode is held, S only without X and IX, IX only without X and S, IS only without X |
| Protocol.Registered | ilock.go:211-266 | the word after registerF has one more holder in mode F, and every other count is unchanged |
| Protocol.Released | ilock.go:285-406 | the word after FUnlock's update has one fewer holder in mode F, and every other count is unchanged |
| Protocol.LockKeepsConsistent | ilock.go:95-101 | from consistent counts (X at most 1, X excludes every other mode, never both S and IX), one more holder of F stays consistent if and only if the matrix admits F |
| Protocol.UnlockKeepsConsistent | ilock.go:285-406 | removing a holder of a held mode keeps the counts consistent |
| Protocol.Step | ilock.go:271-406 | a lock call completes exactly when the matrix admits its mode against the decoded counts and its field has room, and then adds one holder of that mode only; an unlock completes exactly when the mode is held, and then removes one holder of that mode only |
| Protocol.StepKeepsConsistent | ilock.go:271-406 | every call that completes keeps the counts consistent |
| Protocol.RunKeepsConsistent | ilock.go:271-406 | every run of gated locks and unlocks of held modes from a consistent word ends in a consistent word |
| Protocol.NewLockStaysConsistent | ilock.go:201-206 | from New (state 0), after any run of calls that completes: at most one X holder, an X holder excludes all others, and S and IX are never held together |
| Protocol.SecondRegistration | ilock_test.go:249-343 | on a new lock the first registration of any mode is compatible, and a second registration is compatible exactly when the matrix lets its mode sit beside the first |
| Protocol.ReleaseAtZeroFloods | ilock.go:285-406 | FUnlock of a mode with no holder writes 2^64-1 through setF: field F and every field above it then read 65535, and the fields below are unchanged (XUnlock from state 0 leaves 65535 holders of every mode) |
| Protocol.RegisterAtCapacityCarries | ilock.go:241-244 | registerS at 65535 S holders, for any word: S reads 0, setS ORs a one into the lowest bit of the IS field (IS reads its old count with bit 0 set, so with an odd IS count the new holder disappears), and X and IX are unchanged |
| Protocol.RegisterAtCapacityVanishes | ilock.go:226-229 | registerIX at 65535 IX holders, for any word: the new holder is shifted out of the word, IX reads 0 and the other counts are unchanged (with no other holder, the lock reads as unlocked) |
| IntentionLock.Mutex.constructor | ilock.go:201-206 | a new lock has state 0 and satisfies the invariant |
| IntentionLock.Mutex.Register | ilock.go:211-266 | registerF stores the word with one more F holder and returns compatableWithF of the word it found |
| IntentionLock.Mutex.Lock | ilock.go:271-386 | FLock keeps the invariant; it would wait exactly when F is incompatible with the holders, and otherwise it registers the caller |
| IntentionLock.Mutex.Unlock | ilock.go:285-406 | FUnlock keeps the invariant, removes one F holder and nothing else, and wakes the waiters exactly when F's count reaches zero |
| IntentionLock.RegisterTwice | ilock_test.go:249-343 | runs the tests' two registrations on a new Mutex; its results are the ones Protocol.SecondRegistration states for the word |

## Left out

- The condition variable is not modelled: no `Wait` loop and no `Broadcast`. `Lock` returns "would block" instead of waiting, and `Unlock` returns whether it would broadcast. Liveness, fairness and missed wake-ups are properties of concurrent runs.
- The compare-and-swap retry loops in registerF and FUnlock are each one read-modify-write, because a retry only happens when another thread has changed the word.
- The `sync.Mutex` that serialises lock requests is not modelled. Nor is the race between a guarded compatibility check and an unguarded unlock.
- The backoff constants (`startingBackoff`, `maxBackoff`, `backoffFactor`) are not modelled, because nothing uses them.
- The benchmarks in ilock_test.go are not modelled. They use goroutines, channels, random numbers and logging.
- The randomised field tests in ilock_test.go draw random words. The model proves their property for every word instead (`Encoding.SetFields`).
- Protocol.Registered: requires the field to be below maxHolders, which the source never checks (see Findings).
- Protocol.Released: requires the mode to be held, which the source never checks (see Findings).
- IntentionLock.Mutex.Register: requires the field to be below maxHolders, as Protocol.Registered does.
- IntentionLock.Mutex.Lock: requires room in the field when the request is compatible, as Protocol.Registered does.
- IntentionLock.Mutex.Unlock: requires the mode to be held, as Protocol.Released does.
- Protocol.Step: returns None for a compatible lock whose field is full and for an unlock of a mode nobody holds. The source completes both calls and corrupts the word (see Findings); the model does not follow a run past either call.

## Findings

| source | as written | input that shows it | evidently intended | confidence | as-written member | corrected member |
|---|---|---|---|---|---|---|
| ilock.go:388-396 | FUnlock (in all four unlocks: ilock.go:290-291, 325-326, 360-361, 395-396) computes extractF(state) - 1 without a check and writes the result through setF | XUnlock on state 0: the difference wraps to 2^64-1, and setX ORs those ones into every field, so the lock then shows 65535 holders of each mode; for any mode F at zero, field F and all fields above it fill with ones | unlocking is only valid for a mode the caller holds, so the count is above zero and only field F changes | not executed | Protocol.ReleaseAtZeroFloods | Protocol.Released |
| ilock.go:241-244 | registerF (in all four registers) writes extractF(state) + 1 without comparing it with maxHolders, which is declared (ilock.go:146) but never used in ilock.go | registerS at 65535 S holders sets S to 0 and ORs a one into the IS field (with no other holder, the lock then reads as one IS holder; with an odd IS count the new holder vanishes); registerIX at 65535 IX holders sets IX to 0 and leaves the rest unchanged (with no other holder, the word becomes 0) | a field never goes past maxHolders, and a registration changes field F only | not executed | Protocol.RegisterAtCapacityCarries, Protocol.RegisterAtCapacityVanishes | Protocol.Registered |
