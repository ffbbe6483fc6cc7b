/** The deep-sleep lock: a global count of the clients that need the clocks
    running, and the clients that keep it. */
module DeepSleep {
  const USHRT_MAX: nat := 0xFFFF

  /** A reason for holding the lock: a client object and one of its slots. */
  datatype Hold = Hold(owner: object, slot: nat)

  class SleepManager {
    var deepSleepLock: nat
    var fault: bool             // a fatal error was reported
    ghost var holders: set<Hold>

    constructor ()
      ensures Valid() && holders == {}
    {
      deepSleepLock, fault, holders := 0, false, {};
    }

    /** The counter is the number of outstanding reasons. */
    ghost predicate Valid()
      reads this
    {
      deepSleepLock == |holders| <= USHRT_MAX && !fault
    }

    method LockDeepSleep(ghost h: Hold)
      requires Valid() && h !in holders
      modifies this
      ensures old(deepSleepLock) < USHRT_MAX ==> Valid() && holders == old(holders) + {h}
      ensures old(deepSleepLock) == USHRT_MAX ==> fault && holders == old(holders) && deepSleepLock == USHRT_MAX
    {
      if deepSleepLock == USHRT_MAX {
        fault := true;
        return;
      }
      deepSleepLock := deepSleepLock + 1;
      holders := holders + {h};
    }

    /** Unlocking with no reason outstanding is the fatal underflow. Unlocking
        without a reason of one's own while others have some goes unnoticed, and the
        counter is one short from then on: the account survives an unlock exactly
        when the caller had a reason. */
    method UnlockDeepSleep(ghost h: Hold)
      requires Valid()
      modifies this
      ensures Valid() <==> h in old(holders)
      ensures holders == old(holders) - {h}
      ensures deepSleepLock == if old(holders) == {} then 0 else old(deepSleepLock) - 1
      ensures fault <==> old(holders) == {}
    {
      if deepSleepLock == 0 {
        fault := true;
        return;
      }
      deepSleepLock := deepSleepLock - 1;
      holders := holders - {h};
    }

    method CanDeepSleep() returns (can: bool)
      requires Valid()
      ensures can <==> holders == {}
    {
      can := deepSleepLock == 0;
    }
  }
}
