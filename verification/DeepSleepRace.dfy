/** One DeepSleepLock object shared by threads that interrupt each other between the
    object's atomic counter and the global one. */
module DeepSleepRace {
  import opened DeepSleep

  /** How far one lock call and its matching unlock have come. */
  datatype Phase = Out | LockPending | In | UnlockPending

  function Count(users: seq<Phase>, p: Phase): nat {
    if users == [] then 0 else Count(users[1..], p) + if users[0] == p then 1 else 0
  }

  function Change(before: Phase, after: Phase, p: Phase): int {
    (if after == p then 1 else 0) - if before == p then 1 else 0
  }

  lemma {:induction false} CountUpdate(users: seq<Phase>, u: nat, q: Phase, p: Phase)
    requires u < |users|
    ensures Count(users[u := q], p) == Count(users, p) + Change(users[u], q, p)
  {
    if u == 0 {
      assert users[u := q][1..] == users[1..];
    } else {
      assert users[u := q][1..] == users[1..][u - 1 := q];
      CountUpdate(users[1..], u - 1, q, p);
    }
  }

  /** What becomes of every count when one user moves on. */
  lemma Moved(users: seq<Phase>, u: nat, q: Phase)
    requires u < |users|
    ensures forall p :: Count(users[u := q], p) == Count(users, p) + Change(users[u], q, p)
  {
    forall p ensures Count(users[u := q], p) == Count(users, p) + Change(users[u], q, p) {
      CountUpdate(users, u, q, p);
    }
  }

  lemma {:induction false} CountsFit(users: seq<Phase>)
    ensures Count(users, LockPending) + Count(users, In) + Count(users, UnlockPending) <= |users|
  {
    if users != [] {
      CountsFit(users[1..]);
    }
  }

  lemma {:induction false} CountPositive(users: seq<Phase>, u: nat)
    requires u < |users|
    ensures Count(users, users[u]) > 0
  {
    if u > 0 {
      CountPositive(users[1..], u - 1);
    }
  }

  lemma {:induction false} NobodyElse(n: nat, p: Phase)
    requires p != Out
    ensures Count(seq(n, i => Out), p) == 0
  {
    if n > 0 {
      assert seq(n, i => Out)[1..] == seq(n - 1, i => Out);
      NobodyElse(n - 1, p);
    }
  }

  class Sharing {
    var others: nat               // what all other clients hold
    var lockCount: nat
    var deepSleepLock: nat
    var users: seq<Phase>

    predicate Valid()
      reads this
    {
      && others + |users| < USHRT_MAX
      && lockCount == Count(users, LockPending) + Count(users, In)
      && Count(users, LockPending) <= 1
      && deepSleepLock + Count(users, LockPending)
           == others + Count(users, UnlockPending) + if lockCount > 0 then 1 else 0
    }

    /** The object starts out locked by its creator, user 0. */
    constructor (others: nat, n: nat)
      requires n > 0 && others + n < USHRT_MAX
      ensures Valid() && this.others == others && |users| == n && users[0].In?
      ensures lockCount == 1 && deepSleepLock == others + 1 && forall u | 0 < u < n :: users[u].Out?
    {
      this.others, lockCount, deepSleepLock := others, 1, others + 1;
      users := [In] + seq(n - 1, i => Out);
      new;
      NobodyElse(n - 1, In);
      NobodyElse(n - 1, LockPending);
      NobodyElse(n - 1, UnlockPending);
      assert users[1..] == seq(n - 1, i => Out);
    }

    /** lock, up to its atomic increment. */
    method LockAdd(u: nat)
      requires Valid() && u < |users| && users[u].Out?
      modifies this
      ensures Valid() && deepSleepLock == old(deepSleepLock) && lockCount == old(lockCount) + 1
      ensures users == old(users)[u := if old(lockCount) == 0 then LockPending else In] && others == old(others)
    {
      CountsFit(users);
      Moved(users, u, LockPending);
      Moved(users, u, In);
      lockCount := (lockCount + 1) % 0x1_0000;
      users := users[u := if lockCount == 1 then LockPending else In];
    }

    /** The rest of lock; the global counter never overflows. */
    method LockGlobal(u: nat)
      requires Valid() && u < |users| && users[u].LockPending?
      modifies this
      ensures Valid() && old(deepSleepLock) < USHRT_MAX && deepSleepLock == old(deepSleepLock) + 1
      ensures users == old(users)[u := In] && lockCount == old(lockCount) && others == old(others)
    {
      CountsFit(users);
      Moved(users, u, In);
      deepSleepLock := deepSleepLock + 1;
      users := users[u := In];
    }

    method UnlockSub(u: nat)
      requires Valid() && u < |users| && users[u].In?
      modifies this
      ensures Valid() && deepSleepLock == old(deepSleepLock) && lockCount == old(lockCount) - 1
      ensures users == old(users)[u := if old(lockCount) == 1 then UnlockPending else Out] && others == old(others)
    {
      CountPositive(users, u);
      Moved(users, u, UnlockPending);
      Moved(users, u, Out);
      CountsFit(users);
      lockCount := (lockCount - 1) % 0x1_0000;
      users := users[u := if lockCount == 0 then UnlockPending else Out];
    }

    /** The rest of unlock; the global counter never underflows. */
    method UnlockGlobal(u: nat)
      requires Valid() && u < |users| && users[u].UnlockPending?
      modifies this
      ensures Valid() && old(deepSleepLock) > 0 && deepSleepLock == old(deepSleepLock) - 1
      ensures users == old(users)[u := Out] && lockCount == old(lockCount) && others == old(others)
    {
      CountPositive(users, u);
      Moved(users, u, Out);
      deepSleepLock := deepSleepLock - 1;
      users := users[u := Out];
    }

    /** Other clients lock and unlock, whatever calls on this object are half done;
        the global counter neither overflows nor underflows by it. */
    method OthersChange(n: nat)
      requires Valid() && n + |users| < USHRT_MAX
      modifies this`deepSleepLock, this`others
      ensures Valid() && others == n && deepSleepLock <= USHRT_MAX
      ensures deepSleepLock - others == old(deepSleepLock) - old(others)
    {
      CountsFit(users);
      deepSleepLock, others := deepSleepLock - others + n, n;
    }

    /** With no call half done, the object counts exactly when somebody is in. */
    lemma Settled()
      requires Valid() && Count(users, LockPending) == Count(users, UnlockPending) == 0
      ensures deepSleepLock == others + if Count(users, In) > 0 then 1 else 0
    {
    }

    /** While somebody is in, deep sleep is nevertheless allowed exactly when nobody
        else locks it, the thread that counted first has not reached the global
        counter, and no thread is yet to leave it. */
    lemma AllowedInsideIff(u: nat)
      requires Valid() && u < |users| && users[u].In?
      ensures deepSleepLock == 0 <==>
                others == 0 && Count(users, LockPending) == 1 && Count(users, UnlockPending) == 0
    {
      CountPositive(users, u);
    }
  }

  /** A run in which that happens: two threads lock the object, and the second is in
      before the first has reached the global counter. */
  method AllowedInside() returns (s: Sharing)
    ensures fresh(s) && s.Valid() && |s.users| == 3 && s.users[2].In? && s.deepSleepLock == 0
  {
    s := new Sharing(0, 3);
    s.UnlockSub(0);
    s.UnlockGlobal(0);
    s.LockAdd(1);
    s.LockAdd(2);
  }
}
