/** Nested critical sections, one machine instruction at a time, under preemption.

    One core runs any number of contexts: threads and interrupt handlers. While
    interrupts are enabled the core may leave the current context between any two
    instructions for any other one, old or new; a handler is a context that is not
    left before it is at rest again. */
module CriticalSection {
  const UINT32_MAX: nat := 0xffff_ffff

  /** The next instruction: Rest is outside the two functions, Halted is a failed
      assertion. */
  datatype Pc =
    | Rest | Halted
    | EnterAssert | ReadState | Disable | TestSaved | SaveState | SetSaved | LoadUp | StoreUp
    | ExitTest | LoadDown | StoreDown | TestZero | HalAssert | ClearSaved | Restore

  /** interruptState and register are locals; depth counts the sections the context
      is in, and entry is the interrupt state that its outermost enter found. */
  datatype Context = Context(pc: Pc, interruptState: bool, register: nat, depth: nat, entry: bool) {
    /** Between disabling interrupts on entry and restoring them on exit. */
    predicate Protected() {
      depth > 0 || pc.TestSaved? || pc.SaveState? || pc.SetSaved? || pc.LoadUp? || pc.StoreUp?
    }

    predicate Entering() {
      pc.EnterAssert? || pc.ReadState? || pc.Disable?
    }

    predicate InEnter() {
      Entering() || pc.TestSaved? || pc.SaveState? || pc.SetSaved? || pc.LoadUp? || pc.StoreUp?
    }

    /** How many instructions of the current call are left at most. */
    function Left(): nat {
      match pc
      case Rest => 0
      case Halted => 0
      case EnterAssert => 8
      case ReadState => 7
      case Disable => 6
      case TestSaved => 5
      case SaveState => 4
      case SetSaved => 3
      case LoadUp => 2
      case StoreUp => 1
      case ExitTest => 7
      case LoadDown => 6
      case StoreDown => 5
      case TestZero => 4
      case HalAssert => 3
      case ClearSaved => 2
      case Restore => 1
    }

    /** The counter's range: past the assertion there is room for one more. */
    predicate Counted() {
      depth <= UINT32_MAX && (InEnter() && !pc.EnterAssert? ==> depth < UINT32_MAX)
    }

    /** What a context that is not running looks like. */
    predicate Suspended() {
      && depth == 0 && (pc.Rest? || pc.ExitTest? || Entering())
      && (Entering() ==> entry) && (pc.Disable? ==> interruptState)
    }
  }

  datatype Step = Execute | CallEnter | CallExit | SetInterrupts(enabled: bool) | Switch(to: nat) | Arrive

  class Core {
    var interruptsEnabled: bool
    var reentrancyCounter: nat
    var stateSaved: bool
    var criticalInterruptsEnabled: bool
    var contexts: seq<Context>
    var current: nat

    /** Nothing of the critical section machinery is in use. */
    predicate Idle()
      reads this
    {
      !stateSaved && reentrancyCounter == 0
    }

    /** Interrupts are off, and what the outermost enter found is kept. */
    predicate Held(c: Context, counter: int)
      reads this
    {
      !interruptsEnabled && stateSaved && reentrancyCounter == counter && criticalInterruptsEnabled == c.entry
    }

    predicate Settled(c: Context)
      reads this
    {
      if c.depth > 0 then Held(c, c.depth) else Idle()
    }

    predicate Running(c: Context)
      reads this
    {
      match c.pc
      case Rest => Settled(c)
      case Halted => c.depth == reentrancyCounter == UINT32_MAX && Settled(c)
      case EnterAssert => Settled(c) && (c.depth == 0 ==> c.entry == interruptsEnabled)
      case ReadState => Settled(c) && (c.depth == 0 ==> c.entry == interruptsEnabled)
      case Disable => Settled(c) && (c.depth == 0 ==> c.entry == interruptsEnabled) && c.interruptState == interruptsEnabled
      case TestSaved => Settled(c) && !interruptsEnabled && (c.depth == 0 ==> c.interruptState == c.entry)
      case SaveState => c.depth == 0 && Idle() && !interruptsEnabled && c.interruptState == c.entry
      case SetSaved => c.depth == 0 && Idle() && !interruptsEnabled && criticalInterruptsEnabled == c.entry
      case LoadUp => Held(c, c.depth)
      case StoreUp => Held(c, c.depth) && c.register == c.depth
      case ExitTest => Settled(c)
      case LoadDown => c.depth > 0 && Settled(c)
      case StoreDown => c.depth > 0 && Settled(c) && c.register == c.depth
      case TestZero => c.depth > 0 && Held(c, c.depth - 1)
      case HalAssert => c.depth == 1 && Held(c, 0)
      case ClearSaved => c.depth == 1 && Held(c, 0)
      case Restore => c.depth == 1 && !interruptsEnabled && Idle() && criticalInterruptsEnabled == c.entry
    }

    predicate Valid()
      reads this
    {
      && current < |contexts|
      && contexts[current].Counted() && Running(contexts[current])
      && forall k | 0 <= k < |contexts| && k != current :: contexts[k].Suspended()
    }

    constructor (enabled: bool)
      ensures Valid() && interruptsEnabled == enabled && |contexts| == 1 && contexts[0].pc.Rest?
    {
      interruptsEnabled, reentrancyCounter := enabled, 0;
      stateSaved, criticalInterruptsEnabled := false, false;
      contexts, current := [Context(Rest, false, 0, 0, false)], 0;
    }

    /** Only the current context can be in a section, and interrupts are off
        throughout it. */
    lemma Exclusion(k: nat)
      requires Valid() && k < |contexts| && contexts[k].Protected()
      ensures k == current && !interruptsEnabled
    {
    }

    /** Outside the two functions the saved state and the counter tell the same. */
    lemma AtRest()
      requires Valid() && contexts[current].pc.Rest?
      ensures stateSaved <==> reentrancyCounter > 0
      ensures reentrancyCounter == contexts[current].depth
      ensures stateSaved ==> !interruptsEnabled
    {
    }

    /** Whoever may be preempted has touched nothing that others use. */
    lemma PreemptedIsClean()
      requires Valid() && interruptsEnabled
      ensures Idle() && forall k | 0 <= k < |contexts| :: contexts[k].Suspended()
    {
    }

    /** core_util_critical_section_enter is called. */
    method CallEnter()
      requires Valid() && contexts[current].pc.Rest?
      modifies this`contexts
      ensures Valid() && contexts == old(contexts)[current := contexts[current]]
      ensures contexts[current].pc.EnterAssert? && contexts[current].depth == old(contexts[current]).depth
      ensures contexts[current].depth == 0 ==> contexts[current].entry == interruptsEnabled
    {
      var c := contexts[current];
      contexts := contexts[current := c.(pc := EnterAssert, entry := if c.depth == 0 then interruptsEnabled else c.entry)];
    }

    method CallExit()
      requires Valid() && contexts[current].pc.Rest?
      modifies this`contexts
      ensures Valid() && contexts == old(contexts)[current := old(contexts[current]).(pc := ExitTest)]
    {
      contexts := contexts[current := contexts[current].(pc := ExitTest)];
    }

    /** Code outside critical sections may itself switch interrupts on and off. */
    method SetInterrupts(enabled: bool)
      requires Valid() && contexts[current].pc.Rest? && contexts[current].depth == 0
      modifies this`interruptsEnabled
      ensures Valid() && interruptsEnabled == enabled
    {
      interruptsEnabled := enabled;
    }

    method Switch(to: nat)
      requires Valid() && interruptsEnabled && to < |contexts|
      modifies this`current
      ensures Valid() && current == to
    {
      current := to;
    }

    /** A handler starts, or a thread is created. */
    method Arrive()
      requires Valid() && interruptsEnabled
      modifies this`current, this`contexts
      ensures Valid() && contexts[..|contexts| - 1] == old(contexts) && current == |old(contexts)|
      ensures contexts[current].pc.Rest? && contexts[current].depth == 0
    {
      current, contexts := |contexts|, contexts + [Context(Rest, false, 0, 0, false)];
    }

    /** The next instruction of an enter; an assertion fails only when the counter
        would overflow. Completing an enter leaves interrupts off. */
    method ExecuteEnter()
      requires Valid() && contexts[current].InEnter()
      modifies this
      ensures Valid() && current == old(current)
      ensures contexts == old(contexts)[current := contexts[current]]
      ensures var c, d := old(contexts[current]), contexts[current];
        && d.entry == c.entry && d.Left() < c.Left()
        && (d.pc.Halted? ==> c.depth == d.depth == UINT32_MAX)
        && (if c.pc.StoreUp? then
              d.pc.Rest? && d.depth == c.depth + 1 == reentrancyCounter && !interruptsEnabled && stateSaved
            else
              d.depth == c.depth && (d.InEnter() || d.pc.Halted?))
    {
      var c := contexts[current];
      match c.pc {
        case EnterAssert =>
          c := c.(pc := if reentrancyCounter < UINT32_MAX then ReadState else Halted);
        case ReadState =>
          c := c.(interruptState := interruptsEnabled, pc := Disable);
        case Disable =>
          interruptsEnabled := false;
          c := c.(pc := TestSaved);
        case TestSaved =>
          c := c.(pc := if stateSaved then LoadUp else SaveState);
        case SaveState =>
          criticalInterruptsEnabled := c.interruptState;
          c := c.(pc := SetSaved);
        case SetSaved =>
          stateSaved := true;
          c := c.(pc := LoadUp);
        case LoadUp =>
          c := c.(register := reentrancyCounter, pc := StoreUp);
        case StoreUp =>
          reentrancyCounter := c.register + 1;
          c := c.(depth := c.depth + 1, pc := Rest);
      }
      contexts := contexts[current := c];
    }

    /** The next instruction of an exit, whose assertion never fails. Completing the
        outermost exit restores what its enter found; an exit without an enter does
        nothing. */
    method ExecuteExit()
      requires Valid() && !contexts[current].InEnter()
      requires !contexts[current].pc.Rest? && !contexts[current].pc.Halted?
      modifies this
      ensures Valid() && current == old(current)
      ensures contexts == old(contexts)[current := contexts[current]]
      ensures var c, d := old(contexts[current]), contexts[current];
        && d.entry == c.entry && d.Left() < c.Left() && !d.pc.Halted? && !d.InEnter()
        && (if d.pc.Rest? && c.depth > 0 then
              d.depth == c.depth - 1 == reentrancyCounter && stateSaved == (d.depth > 0)
              && interruptsEnabled == (d.depth == 0 && c.entry)
            else
              d.depth == c.depth && interruptsEnabled == old(interruptsEnabled))
        && (c.depth == 0 ==> d.pc.Rest? && unchanged(this`stateSaved, this`reentrancyCounter))
    {
      var c := contexts[current];
      match c.pc {
        case ExitTest =>
          c := c.(pc := if reentrancyCounter == 0 then Rest else LoadDown);
        case LoadDown =>
          c := c.(register := reentrancyCounter, pc := StoreDown);
        case StoreDown =>
          reentrancyCounter := c.register - 1;
          c := c.(pc := TestZero);
        case TestZero =>
          c := if reentrancyCounter == 0 then c.(pc := HalAssert) else c.(depth := c.depth - 1, pc := Rest);
        case HalAssert =>
          c := c.(pc := if !interruptsEnabled then ClearSaved else Halted);
        case ClearSaved =>
          stateSaved := false;
          c := c.(pc := Restore);
        case Restore =>
          if criticalInterruptsEnabled {
            interruptsEnabled := true;
          }
          c := c.(depth := c.depth - 1, pc := Rest);
      }
      contexts := contexts[current := c];
    }

    // -------------------------------------------------------------------
    // Whole calls
    // -------------------------------------------------------------------

    /** A call of core_util_critical_section_enter that is not preempted. It returns,
        one level deeper and with interrupts off, unless the counter is exhausted. */
    method Enter()
      requires Valid() && contexts[current].pc.Rest?
      modifies this
      ensures Valid() && current == old(current) && contexts == old(contexts)[current := contexts[current]]
      ensures var c, d := old(contexts[current]), contexts[current];
        if c.depth == UINT32_MAX then
          d.pc.Halted? && d.depth == c.depth
        else
          && d.pc.Rest? && d.depth == reentrancyCounter == c.depth + 1 && stateSaved && !interruptsEnabled
          && d.entry == if c.depth == 0 then old(interruptsEnabled) else c.entry
    {
      CallEnter();
      ghost var entry := contexts[current].entry;
      while !contexts[current].pc.Rest? && !contexts[current].pc.Halted?
        invariant Valid() && current == old(current) && contexts == old(contexts)[current := contexts[current]]
        invariant var c, d := old(contexts[current]), contexts[current];
          && d.entry == entry
          && (d.pc.Rest? || d.pc.Halted? || d.InEnter())
          && (d.pc.Halted? ==> c.depth == d.depth == UINT32_MAX)
          && (if d.pc.Rest? then d.depth == reentrancyCounter == c.depth + 1 && stateSaved && !interruptsEnabled
              else d.depth == c.depth)
        decreases contexts[current].Left()
      {
        ExecuteEnter();
      }
    }

    /** A call of core_util_critical_section_exit that is not preempted. It returns,
        one level less deep; the outermost one leaves interrupts as its enter found
        them, and one without an enter changes nothing. */
    method Exit()
      requires Valid() && contexts[current].pc.Rest?
      modifies this
      ensures Valid() && current == old(current) && contexts == old(contexts)[current := contexts[current]]
      ensures contexts[current].pc.Rest? && contexts[current].entry == old(contexts[current].entry)
      ensures var c, d := old(contexts[current]), contexts[current];
        if c.depth == 0 then
          d.depth == 0 && unchanged(this`interruptsEnabled, this`stateSaved, this`reentrancyCounter)
        else
          && d.depth == reentrancyCounter == c.depth - 1 && stateSaved == (d.depth > 0)
          && interruptsEnabled == (d.depth == 0 && c.entry)
    {
      CallExit();
      while !contexts[current].pc.Rest?
        invariant Valid() && current == old(current) && contexts == old(contexts)[current := contexts[current]]
        invariant var c, d := old(contexts[current]), contexts[current];
          && d.entry == c.entry && !d.pc.Halted? && !d.InEnter()
          && (c.depth == 0 ==> d.depth == 0 && unchanged(this`interruptsEnabled, this`stateSaved, this`reentrancyCounter))
          && (if d.pc.Rest? && c.depth > 0 then
                d.depth == reentrancyCounter == c.depth - 1 && stateSaved == (d.depth > 0)
                && interruptsEnabled == (d.depth == 0 && c.entry)
              else
                d.depth == c.depth)
        decreases contexts[current].Left()
      {
        ExecuteExit();
      }
    }

    /** However deeply sections are nested, with as many exits as enters interrupts are
        again as they were found. */
    method Nested(levels: nat)
      requires Valid() && contexts[current].pc.Rest? && contexts[current].depth + levels <= UINT32_MAX
      modifies this
      ensures Valid() && current == old(current) && contexts == old(contexts)[current := contexts[current]]
      ensures contexts[current].pc.Rest? && contexts[current].depth == old(contexts[current].depth)
      ensures interruptsEnabled == old(interruptsEnabled) && reentrancyCounter == old(reentrancyCounter)
      ensures old(contexts[current]).depth > 0 ==> contexts[current].entry == old(contexts[current]).entry
      decreases levels
    {
      if levels > 0 {
        Enter();
        Nested(levels - 1);
        Exit();
      }
    }

    predicate Enabled(step: Step)
      requires Valid()
      reads this
    {
      var c := contexts[current];
      match step
      case Execute => !c.pc.Rest? && !c.pc.Halted?
      case CallEnter => c.pc.Rest?
      case CallExit => c.pc.Rest?
      case SetInterrupts(_) => c.pc.Rest? && c.depth == 0
      case Switch(to) => interruptsEnabled && to < |contexts|
      case Arrive => interruptsEnabled
    }

    twostate predicate Happened(step: Step)
      requires old(Valid()) && Valid()
      reads this
    {
      match step
      case Execute => current == old(current) && contexts[current].Left() < old(contexts[current]).Left()
      case CallEnter => current == old(current) && contexts[current].pc.EnterAssert?
      case CallExit => current == old(current) && contexts[current].pc.ExitTest?
      case SetInterrupts(enabled) => interruptsEnabled == enabled
      case Switch(to) => current == to && contexts == old(contexts)
      case Arrive => current == |old(contexts)| && |contexts| == |old(contexts)| + 1
    }

    /** One step; a step that is not enabled does not happen. A context's own
        instructions bring its call nearer to its end, and nobody else's do anything
        to it. While a context is in a section, only its own instructions happen. */
    method Do(step: Step)
      requires Valid()
      modifies this
      ensures Valid()
      ensures if old(Enabled(step)) then Happened(step) else unchanged(this)
      ensures forall k | 0 <= k < |old(contexts)| && k != old(current) ::
                k < |contexts| && contexts[k] == old(contexts)[k]
      ensures old(contexts[current].Protected()) ==>
                current == old(current) && contexts == old(contexts)[current := contexts[current]]
    {
      if Enabled(step) {
        match step {
          case Execute =>
            if contexts[current].InEnter() {
              ExecuteEnter();
            } else {
              ExecuteExit();
            }
          case CallEnter => CallEnter();
          case CallExit => CallExit();
          case SetInterrupts(enabled) => SetInterrupts(enabled);
          case Switch(to) => Switch(to);
          case Arrive => Arrive();
        }
      }
    }

    /** Any schedule whatever. */
    method Run(schedule: seq<Step>)
      requires Valid()
      modifies this
      ensures Valid()
    {
      for i := 0 to |schedule|
        invariant Valid()
      {
        Do(schedule[i]);
      }
    }
  }
}
