/** The abstract value of a ticker's event queue: a sequence sorted by
    timestamp, and a ledger of what became of every insertion. */
module EventQueue {
  /** One queued event; serial numbers the insertions from the start. */
  datatype Entry = Entry(timestamp: nat, id: nat, serial: nat)

  /** What became of an insertion: still queued, handed to the handler when the
      clock showed a given time, removed, or discarded for want of a handler. */
  datatype Fate = Queued(due: nat, id: nat) | Fired(due: nat, id: nat, clock: nat) | Cancelled | Dropped

  ghost predicate Sorted(q: seq<Entry>) {
    forall i, j | 0 <= i < j < |q| :: q[i].timestamp <= q[j].timestamp
  }

  /** Where the insertion loop stops: behind everything not later. */
  function InsertPosition(q: seq<Entry>, timestamp: nat): (k: nat)
    ensures k <= |q|
    ensures forall i | 0 <= i < k :: q[i].timestamp <= timestamp
    ensures k < |q| ==> timestamp < q[k].timestamp
  {
    if q == [] || timestamp < q[0].timestamp then 0
    else 1 + InsertPosition(q[1..], timestamp)
  }

  function Insert(q: seq<Entry>, e: Entry): seq<Entry> {
    var k := InsertPosition(q, e.timestamp);
    q[..k] + [e] + q[k..]
  }

  function RemoveAt(q: seq<Entry>, k: nat): seq<Entry>
    requires k < |q|
  {
    q[..k] + q[k + 1..]
  }

  lemma PositionIsUnique(q: seq<Entry>, timestamp: nat, k: nat)
    requires k <= |q|
    requires forall i | 0 <= i < k :: q[i].timestamp <= timestamp
    requires k < |q| ==> timestamp < q[k].timestamp
    ensures k == InsertPosition(q, timestamp)
  {
  }

  lemma InsertKeepsSorted(q: seq<Entry>, e: Entry)
    requires Sorted(q)
    ensures Sorted(Insert(q, e))
    ensures multiset(Insert(q, e)) == multiset(q) + multiset{e}
  {
    var k := InsertPosition(q, e.timestamp);
    assert q == q[..k] + q[k..];
    SpliceKeepsSorted(q[..k], e, q[k..]);
  }

  lemma SpliceKeepsSorted(a: seq<Entry>, e: Entry, b: seq<Entry>)
    requires Sorted(a + b)
    requires forall i | 0 <= i < |a| :: a[i].timestamp <= e.timestamp
    requires b != [] ==> e.timestamp <= b[0].timestamp
    ensures Sorted(a + [e] + b)
  {
    var q, r := a + b, a + [e] + b;
    assert forall i | 0 <= i < |b| :: b[i] == q[|a| + i];
    assert forall i | 0 <= i < |a| :: a[i] == q[i];
    forall i, j | 0 <= i < j < |r| ensures r[i].timestamp <= r[j].timestamp {
      if i >= |a| && j > |a| {
        assert b[0].timestamp <= b[j - |a| - 1].timestamp;
      }
    }
  }

  /** Entries with the given timestamp, in queue order. */
  function At(q: seq<Entry>, timestamp: nat): seq<Entry> {
    if q == [] then []
    else (if q[0].timestamp == timestamp then [q[0]] else []) + At(q[1..], timestamp)
  }

  lemma {:induction false} AtConcat(a: seq<Entry>, b: seq<Entry>, timestamp: nat)
    ensures At(a + b, timestamp) == At(a, timestamp) + At(b, timestamp)
  {
    if a == [] {
      assert a + b == b;
    } else {
      var c := a + b;
      assert c[0] == a[0] && c[1..] == a[1..] + b;
      AtConcat(a[1..], b, timestamp);
      assert At(c, timestamp) == (if a[0].timestamp == timestamp then [a[0]] else []) + At(c[1..], timestamp);
    }
  }

  lemma {:induction false} AtOfOthers(q: seq<Entry>, timestamp: nat)
    requires forall i | 0 <= i < |q| :: q[i].timestamp != timestamp
    ensures At(q, timestamp) == []
  {
    if q != [] {
      AtOfOthers(q[1..], timestamp);
    }
  }

  /** Equal timestamps stay first-in first-out, and other timestamps keep their order. */
  lemma InsertIsStable(q: seq<Entry>, e: Entry, timestamp: nat)
    requires Sorted(q)
    ensures At(Insert(q, e), timestamp) == At(q, timestamp) + (if e.timestamp == timestamp then [e] else [])
  {
    var k := InsertPosition(q, e.timestamp);
    hide InsertPosition, At;
    assert q == q[..k] + q[k..];
    if e.timestamp == timestamp {
      NoneAtInTail(q, k, timestamp);
    }
    SpliceIsStable(q[..k], e, q[k..], timestamp);
  }

  lemma NoneAtInTail(q: seq<Entry>, k: nat, timestamp: nat)
    requires Sorted(q) && k <= |q| && (k < |q| ==> timestamp < q[k].timestamp)
    ensures At(q[k..], timestamp) == []
  {
    assert forall i | k <= i < |q| :: q[k].timestamp <= q[i].timestamp;
    AtOfOthers(q[k..], timestamp);
  }

  lemma SpliceIsStable(a: seq<Entry>, e: Entry, b: seq<Entry>, timestamp: nat)
    requires e.timestamp == timestamp ==> At(b, timestamp) == []
    ensures At(a + [e] + b, timestamp) == At(a + b, timestamp) + (if e.timestamp == timestamp then [e] else [])
  {
    AtConcat(a + [e], b, timestamp);
    AtConcat(a, [e], timestamp);
    AtConcat(a, b, timestamp);
    AtSingle(e, timestamp);
    hide At;
  }

  lemma AtSingle(e: Entry, timestamp: nat)
    ensures At([e], timestamp) == if e.timestamp == timestamp then [e] else []
  {
  }

  lemma RemoveKeepsSorted(q: seq<Entry>, k: nat)
    requires Sorted(q) && k < |q|
    ensures Sorted(RemoveAt(q, k))
    ensures multiset(RemoveAt(q, k)) == multiset(q) - multiset{q[k]}
  {
    assert q == q[..k] + [q[k]] + q[k + 1..];
  }

  // ---------------------------------------------------------------------
  // Ledger
  // ---------------------------------------------------------------------

  /** The queue holds exactly the insertions still open, each once, and nothing
      fired before its time. */
  ghost predicate Balanced(q: seq<Entry>, ledger: seq<Fate>) {
    && (forall i | 0 <= i < |q| ::
          q[i].serial < |ledger| && ledger[q[i].serial] == Queued(q[i].timestamp, q[i].id))
    && (forall i, j | 0 <= i < j < |q| :: q[i].serial != q[j].serial)
    && (forall s | 0 <= s < |ledger| && ledger[s].Queued? :: exists i :: 0 <= i < |q| && q[i].serial == s)
    && (forall s | 0 <= s < |ledger| && ledger[s].Fired? :: ledger[s].due <= ledger[s].clock)
  }

  /** Settled insertions stay settled: an event fires at most once per insertion,
      for the time it was inserted with, and never after it was cancelled. */
  ghost predicate Extends(ledger: seq<Fate>, later: seq<Fate>) {
    && |ledger| <= |later|
    && forall s | 0 <= s < |ledger| :: Becomes(ledger[s], later[s])
  }

  predicate Becomes(fate: Fate, later: Fate) {
    later == fate || (fate.Queued? && !later.Queued? && (later.Fired? ==> later == Fired(fate.due, fate.id, later.clock)))
  }

  lemma ExtendsTransitive(a: seq<Fate>, b: seq<Fate>, c: seq<Fate>)
    requires Extends(a, b) && Extends(b, c)
    ensures Extends(a, c)
  {
    forall s | 0 <= s < |a| ensures Becomes(a[s], c[s]) {
      assert Becomes(a[s], b[s]) && Becomes(b[s], c[s]);
    }
  }

  /** One firing: what the event was, what the clock showed, and the counter tick at
      which the handler returned. */
  datatype Firing = Firing(serial: nat, timestamp: nat, id: nat, clock: nat, returned: nat)

  /** One call of the event handler: with which argument, and what the clock showed. */
  datatype HandlerCall = HandlerCall(id: nat, clock: nat)

  /** The firings between two ledgers, in order: each settles an insertion that had
      not fired before, at or after its time, and there are no others. */
  ghost predicate Explains(fired: seq<Firing>, ledger: seq<Fate>, later: seq<Fate>) {
    && (forall k | 0 <= k < |fired| ::
          && fired[k].serial < |later|
          && fired[k].timestamp <= fired[k].clock
          && later[fired[k].serial] == Fired(fired[k].timestamp, fired[k].id, fired[k].clock))
    && (forall j, k | 0 <= j < k < |fired| :: fired[j].serial != fired[k].serial)
    && (forall k | 0 <= k < |fired| && fired[k].serial < |ledger| :: ledger[fired[k].serial].Queued?)
    && (forall s | 0 <= s < |later| && later[s].Fired? ::
          (s < |ledger| && ledger[s].Fired?) || exists k :: 0 <= k < |fired| && fired[k].serial == s)
  }

  /** Firings run in timestamp order. */
  ghost predicate InOrder(fired: seq<Firing>) {
    forall j, k | 0 <= j < k < |fired| :: fired[j].timestamp <= fired[k].timestamp
  }

  /** Firing one queued event extends the explanation. */
  lemma ExplainFiring(fired: seq<Firing>, ledger: seq<Fate>, later: seq<Fate>, f: Firing)
    requires Explains(fired, ledger, later) && Extends(ledger, later)
    requires f.serial < |later| && later[f.serial] == Queued(f.timestamp, f.id) && f.timestamp <= f.clock
    ensures Explains(fired + [f], ledger, later[f.serial := Fired(f.timestamp, f.id, f.clock)])
    ensures Extends(ledger, later[f.serial := Fired(f.timestamp, f.id, f.clock)])
  {
    var r, l := fired + [f], later[f.serial := Fired(f.timestamp, f.id, f.clock)];
    forall s | 0 <= s < |l| && l[s].Fired?
      ensures (s < |ledger| && ledger[s].Fired?) || exists k :: 0 <= k < |r| && r[k].serial == s
    {
      if s == f.serial {
        assert r[|fired|].serial == s;
      } else if !(s < |ledger| && ledger[s].Fired?) {
        var k :| 0 <= k < |fired| && fired[k].serial == s;
        assert r[k].serial == s;
      }
    }
  }

  /** Operations other than firing keep the explanation. */
  lemma ExplainQuiet(fired: seq<Firing>, ledger: seq<Fate>, middle: seq<Fate>, later: seq<Fate>)
    requires Explains(fired, ledger, middle) && Extends(ledger, middle)
    requires Quiet(middle, later)
    ensures Explains(fired, ledger, later) && Extends(ledger, later)
  {
    ExtendsTransitive(ledger, middle, later);
    forall k | 0 <= k < |fired|
      ensures fired[k].serial < |later|
      ensures later[fired[k].serial] == Fired(fired[k].timestamp, fired[k].id, fired[k].clock)
    {
      assert middle[fired[k].serial].Fired?;
    }
    forall s | 0 <= s < |later| && later[s].Fired?
      ensures (s < |ledger| && ledger[s].Fired?) || exists k :: 0 <= k < |fired| && fired[k].serial == s
    {
      assert s < |middle| && middle[s].Fired?;
    }
  }

  /** Taking out one event, firing it or not, and what its handler then does. */
  lemma ExplainDispatch(fired: seq<Firing>, ledger: seq<Fate>, middle: seq<Fate>, f: Firing, later: seq<Fate>)
    requires Explains(fired, ledger, middle) && Extends(ledger, middle)
    requires f.serial < |middle| && middle[f.serial] == Queued(f.timestamp, f.id) && f.timestamp <= f.clock
    requires Quiet(middle[f.serial := Fired(f.timestamp, f.id, f.clock)], later)
    ensures Explains(fired + [f], ledger, later) && Extends(ledger, later)
  {
    ExplainFiring(fired, ledger, middle, f);
    ExplainQuiet(fired + [f], ledger, middle[f.serial := Fired(f.timestamp, f.id, f.clock)], later);
  }

  lemma ExplainDrop(fired: seq<Firing>, ledger: seq<Fate>, middle: seq<Fate>, s: nat, later: seq<Fate>)
    requires Explains(fired, ledger, middle) && Extends(ledger, middle)
    requires s < |middle| && middle[s].Queued?
    requires Quiet(middle[s := Dropped], later)
    ensures Explains(fired, ledger, later) && Extends(ledger, later)
  {
    QuietSettle(middle, s, Dropped);
    ExplainQuiet(fired, ledger, middle, middle[s := Dropped]);
    ExplainQuiet(fired, ledger, middle[s := Dropped], later);
  }

  /** The head of a queue that holds nothing earlier than the last firing comes next. */
  lemma StillInOrder(fired: seq<Firing>, q: seq<Entry>, f: Firing)
    requires InOrder(fired) && q != [] && q[0].timestamp == f.timestamp
    requires fired != [] ==> NoneBefore(q, fired[|fired| - 1].timestamp)
    ensures InOrder(fired + [f])
    ensures fired != [] ==> fired[|fired| - 1].timestamp <= f.timestamp
  {
  }

  lemma InsertKeepsBalanced(q: seq<Entry>, ledger: seq<Fate>, e: Entry)
    requires Balanced(q, ledger) && e.serial == |ledger|
    ensures Balanced(Insert(q, e), ledger + [Queued(e.timestamp, e.id)])
    ensures Extends(ledger, ledger + [Queued(e.timestamp, e.id)])
  {
    var r, l := Insert(q, e), ledger + [Queued(e.timestamp, e.id)];
    InsertedAt(q, e, 0);
    hide Insert, InsertPosition;
    forall i | 0 <= i < |r| ensures r[i].serial < |l| && l[r[i].serial] == Queued(r[i].timestamp, r[i].id) {
      InsertedAt(q, e, i);
    }
    forall i, j | 0 <= i < j < |r| ensures r[i].serial != r[j].serial {
      InsertedAt(q, e, i);
      InsertedAt(q, e, j);
    }
    forall s | 0 <= s < |l| && l[s].Queued? ensures exists i :: 0 <= i < |r| && r[i].serial == s {
      StillListed(q, ledger, e, s);
    }
  }

  lemma StillListed(q: seq<Entry>, ledger: seq<Fate>, e: Entry, s: nat)
    requires Balanced(q, ledger) && e.serial == |ledger|
    requires s == |ledger| || (s < |ledger| && ledger[s].Queued?)
    ensures exists i :: 0 <= i < |Insert(q, e)| && Insert(q, e)[i].serial == s
  {
    hide InsertPosition, Insert;
    var k := InsertPosition(q, e.timestamp);
    if s == |ledger| {
      InsertedAt(q, e, k);
    } else {
      var i :| 0 <= i < |q| && q[i].serial == s;
      InsertedAt(q, e, if i < k then i else i + 1);
    }
  }

  lemma InsertedAt(q: seq<Entry>, e: Entry, i: nat)
    requires i <= |q|
    ensures |Insert(q, e)| == |q| + 1
    ensures var k := InsertPosition(q, e.timestamp);
            Insert(q, e)[i] == if i < k then q[i] else if i == k then e else q[i - 1]
  {
  }

  lemma SettleKeepsBalanced(q: seq<Entry>, ledger: seq<Fate>, k: nat, fate: Fate)
    requires Balanced(q, ledger) && k < |q|
    requires !fate.Queued?
    requires fate.Fired? ==> fate == Fired(q[k].timestamp, q[k].id, fate.clock) && q[k].timestamp <= fate.clock
    ensures Balanced(RemoveAt(q, k), ledger[q[k].serial := fate])
    ensures Extends(ledger, ledger[q[k].serial := fate])
  {
    var r, l := RemoveAt(q, k), ledger[q[k].serial := fate];
    forall s | 0 <= s < |l| && l[s].Queued? ensures exists i :: 0 <= i < |r| && r[i].serial == s {
      var i :| 0 <= i < |q| && q[i].serial == s;
      assert r[if i < k then i else i - 1] == q[i];
    }
  }

  // ---------------------------------------------------------------------
  // Operations that fire nothing
  // ---------------------------------------------------------------------

  ghost predicate NoneBefore(q: seq<Entry>, floor: nat) {
    forall i | 0 <= i < |q| :: floor <= q[i].timestamp
  }

  /** The k-th event was cancelled. */
  ghost predicate CutAt(q: seq<Entry>, ledger: seq<Fate>, k: nat, q': seq<Entry>, ledger': seq<Fate>) {
    && k < |q| && q' == RemoveAt(q, k)
    && q[k].serial < |ledger| && ledger' == ledger[q[k].serial := Cancelled]
  }

  ghost predicate Quiet(ledger: seq<Fate>, later: seq<Fate>) {
    Extends(ledger, later) && Explains([], ledger, later)
  }

  lemma QuietRefl(ledger: seq<Fate>)
    ensures Quiet(ledger, ledger)
  {
  }

  lemma NothingFired(ledger: seq<Fate>)
    ensures Extends(ledger, ledger) && Explains([], ledger, ledger) && InOrder([])
  {
  }

  lemma QuietCompose(a: seq<Fate>, b: seq<Fate>, c: seq<Fate>)
    requires Quiet(a, b) && Quiet(b, c)
    ensures Quiet(a, c)
  {
    ExplainQuiet([], a, b, c);
  }

  lemma QuietSettle(ledger: seq<Fate>, s: nat, fate: Fate)
    requires s < |ledger| && ledger[s].Queued? && !fate.Fired? && !fate.Queued?
    ensures Quiet(ledger, ledger[s := fate])
  {
  }

  lemma QuietInsertion(q: seq<Entry>, ledger: seq<Fate>, e: Entry, floor: nat)
    ensures Quiet(ledger, ledger + [Queued(e.timestamp, e.id)])
    ensures |Insert(q, e)| == |q| + 1
    ensures NoneBefore(q, floor) && floor <= e.timestamp ==> NoneBefore(Insert(q, e), floor)
  {
  }

  lemma QuietRemoval(q: seq<Entry>, ledger: seq<Fate>, q': seq<Entry>, ledger': seq<Fate>, floor: nat)
    requires Balanced(q, ledger)
    requires (q' == q && ledger' == ledger) || exists k: nat :: CutAt(q, ledger, k, q', ledger')
    ensures Quiet(ledger, ledger') && |q'| <= |q|
    ensures NoneBefore(q, floor) ==> NoneBefore(q', floor)
  {
    if q' == q && ledger' == ledger {
      QuietRefl(ledger);
    } else {
      var k: nat :| CutAt(q, ledger, k, q', ledger');
      QuietSettle(ledger, q[k].serial, Cancelled);
    }
  }
}
