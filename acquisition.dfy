/** Device acquisition in Devices.java: `blockingGetEmulator` with its recovery rule over the
    emulator controller's state, `blockingGetHardware`, and `getHardware`'s reuse of the
    selected device. Each `find` the loops make is an observation in an oracle sequence; a
    `find` can also throw, propagating the exception of `list()` that nothing here catches. */
module Acquisition {
  import opened Wrappers
  import opened DeviceRegistry

  /** EmulatorController.State. */
  datatype State = NotRunning | Launching | Running

  /** What one turn of the emulator polling loop observes: the thread's interrupt flag, the
      controller's state, the outcome of `find(true, port)`, and whether the sleep was
      interrupted. */
  datatype EmulatorPoll = EmulatorPoll(interrupted: bool, state: State, found: Outcome<Option<Device>>, sleepInterrupted: bool)

  /** What one turn of the hardware polling loop observes. */
  datatype HardwarePoll = HardwarePoll(interrupted: bool, sleepInterrupted: bool, found: Outcome<Option<Device>>)

  /** Why an acquisition ended. `StillPolling` means the observations ran out while the loop
      was still waiting, i.e. the call has not returned yet. `FindThrew` means a `find` threw
      and the call ends with that exception. `SelectedReused` is `getHardware` keeping the
      selected device without searching. */
  datatype Exit = FoundAtOnce | FoundWhilePolling | LaunchFailed | AlreadyLaunching
                | EmulatorStopped | Interrupted | StillPolling | FindThrew | SelectedReused

  datatype Acquired = Acquired(device: Option<Device>, exit: Exit)

  /** What `blockingGetEmulator` does to the emulator controller. */
  datatype ControllerEvent = ForcedNotRunning | LaunchRequested

  /** The emulator polling loop from turn `i` on. */
  function PollEmulator(polls: seq<EmulatorPoll>, i: nat): Acquired
    decreases |polls| - i
  {
    if i >= |polls| then Acquired(None, StillPolling)
    else
      var p := polls[i];
      if p.interrupted then Acquired(None, Interrupted)
      else if p.state == NotRunning then Acquired(None, EmulatorStopped)
      else if p.found.Thrown? then Acquired(None, FindThrew)
      else if p.found.value.Some? then Acquired(p.found.value, FoundWhilePolling)
      else if p.sleepInterrupted then Acquired(None, Interrupted)
      else PollEmulator(polls, i + 1)
  }

  /** A turn that neither ends the loop nor finds anything. */
  predicate QuietEmulatorTurn(p: EmulatorPoll) {
    !p.interrupted && p.state != NotRunning && p.found == Returned(None) && !p.sleepInterrupted
  }

  /** The emulator loop gives up as soon as the controller reports NOT_RUNNING. */
  lemma {:induction false} PollEmulatorStopsOnNotRunning(polls: seq<EmulatorPoll>, i: nat, k: nat)
    requires i <= k < |polls|
    requires forall j :: i <= j < k ==> QuietEmulatorTurn(polls[j])
    requires !polls[k].interrupted && polls[k].state == NotRunning
    ensures PollEmulator(polls, i) == Acquired(None, EmulatorStopped)
    decreases k - i
  {
    if i < k {
      assert QuietEmulatorTurn(polls[i]);
      PollEmulatorStopsOnNotRunning(polls, i + 1, k);
    }
  }

  /** A `find` that throws while the emulator is still coming up ends the loop with its
      exception, without a device. */
  lemma {:induction false} PollEmulatorFindThrows(polls: seq<EmulatorPoll>, i: nat, k: nat)
    requires i <= k < |polls|
    requires forall j :: i <= j < k ==> QuietEmulatorTurn(polls[j])
    requires !polls[k].interrupted && polls[k].state != NotRunning && polls[k].found.Thrown?
    ensures PollEmulator(polls, i) == Acquired(None, FindThrew)
    decreases k - i
  {
    if i < k {
      assert QuietEmulatorTurn(polls[i]);
      PollEmulatorFindThrows(polls, i + 1, k);
    }
  }

  /** The emulator loop returns the first device a `find` yields while the emulator is up. */
  lemma {:induction false} PollEmulatorFirstFound(polls: seq<EmulatorPoll>, i: nat, k: nat, d: Device)
    requires i <= k < |polls|
    requires forall j :: i <= j < k ==> QuietEmulatorTurn(polls[j])
    requires !polls[k].interrupted && polls[k].state != NotRunning && polls[k].found == Returned(Some(d))
    ensures PollEmulator(polls, i) == Acquired(Some(d), FoundWhilePolling)
    decreases k - i
  {
    if i < k {
      assert QuietEmulatorTurn(polls[i]);
      PollEmulatorFirstFound(polls, i + 1, k, d);
    }
  }

  /** Interrupting the emulator loop, before its check or during its sleep, ends it without
      a device. */
  lemma {:induction false} PollEmulatorCancelled(polls: seq<EmulatorPoll>, i: nat, k: nat)
    requires i <= k < |polls|
    requires forall j :: i <= j < k ==> QuietEmulatorTurn(polls[j])
    requires polls[k].interrupted ||
      (polls[k].state != NotRunning && polls[k].found == Returned(None) && polls[k].sleepInterrupted)
    ensures PollEmulator(polls, i) == Acquired(None, Interrupted)
    decreases k - i
  {
    if i < k {
      assert QuietEmulatorTurn(polls[i]);
      PollEmulatorCancelled(polls, i + 1, k);
    }
  }

  /** A device comes out of the emulator loop only when a turn found it while the emulator
      was not reported stopped, after quiet turns only; otherwise the result is no device. */
  lemma {:induction false} PollEmulatorFound(polls: seq<EmulatorPoll>, i: nat)
    ensures PollEmulator(polls, i).device.Some? <==> PollEmulator(polls, i).exit == FoundWhilePolling
    ensures PollEmulator(polls, i).device.Some? ==>
      exists k :: i <= k < |polls| && polls[k].found == Returned(PollEmulator(polls, i).device) &&
        !polls[k].interrupted && polls[k].state != NotRunning &&
        forall j :: i <= j < k ==> QuietEmulatorTurn(polls[j])
    decreases |polls| - i
  {
    if i < |polls| && QuietEmulatorTurn(polls[i]) {
      PollEmulatorFound(polls, i + 1);
      if PollEmulator(polls, i).device.Some? {
        var k :| i + 1 <= k < |polls| && polls[k].found == Returned(PollEmulator(polls, i + 1).device) &&
          !polls[k].interrupted && polls[k].state != NotRunning &&
          forall j :: i + 1 <= j < k ==> QuietEmulatorTurn(polls[j]);
        assert forall j :: i <= j < k ==> QuietEmulatorTurn(polls[j]);
      }
    }
  }

  /** `blockingGetEmulator`. `first` is the outcome of the first `find(true, port)`, `state`
      the controller's state after it, `launchThrows` whether `launch` threw IOException. */
  method BlockingGetEmulator(first: Outcome<Option<Device>>, state: State, launchThrows: bool, polls: seq<EmulatorPoll>)
    returns (device: Option<Device>, exit: Exit, events: seq<ControllerEvent>)
    ensures first.Thrown? ==> device == None && exit == FindThrew && events == []
    ensures first.Returned? && first.value.Some? ==> device == first.value && exit == FoundAtOnce && events == []
    ensures first == Returned(None) && state == Running ==> events == [ForcedNotRunning, LaunchRequested]
    ensures first == Returned(None) && state == NotRunning ==> events == [LaunchRequested]
    ensures first == Returned(None) && state == Launching ==> device == None && exit == AlreadyLaunching && events == []
    ensures first == Returned(None) && state != Launching && launchThrows ==> device == None && exit == LaunchFailed
    ensures first == Returned(None) && state != Launching && !launchThrows ==> Acquired(device, exit) == PollEmulator(polls, 0)
  {
    events := [];
    if first.Thrown? {
      return None, FindThrew, events;
    }
    if first.value.Some? {
      return first.value, FoundAtOnce, events;
    }
    var current := state;
    if current == Running {
      // found no emulator although one is supposed to run: it was closed, so re-launch it
      current := NotRunning;
      events := events + [ForcedNotRunning];
    }
    if current == NotRunning {
      events := events + [LaunchRequested];
      if launchThrows {
        return None, LaunchFailed, events;
      }
    } else {
      return None, AlreadyLaunching, events;
    }
    var i := 0;
    while i < |polls|
      invariant 0 <= i <= |polls|
      invariant PollEmulator(polls, 0) == PollEmulator(polls, i)
    {
      var p := polls[i];
      if p.interrupted {
        return None, Interrupted, events;
      }
      if p.state == NotRunning {
        return None, EmulatorStopped, events;
      }
      if p.found.Thrown? {
        return None, FindThrew, events;
      }
      if p.found.value.Some? {
        return p.found.value, FoundWhilePolling, events;
      }
      if p.sleepInterrupted {
        return None, Interrupted, events;
      }
      i := i + 1;
    }
    return None, StillPolling, events;
  }

  /** The hardware polling loop from turn `i` on. */
  function PollHardware(polls: seq<HardwarePoll>, i: nat): Acquired
    decreases |polls| - i
  {
    if i >= |polls| then Acquired(None, StillPolling)
    else
      var p := polls[i];
      if p.interrupted || p.sleepInterrupted then Acquired(None, Interrupted)
      else if p.found.Thrown? then Acquired(None, FindThrew)
      else if p.found.value.Some? then Acquired(p.found.value, FoundWhilePolling)
      else PollHardware(polls, i + 1)
  }

  predicate QuietHardwareTurn(p: HardwarePoll) {
    !p.interrupted && !p.sleepInterrupted && p.found == Returned(None)
  }

  /** Cancelling the hardware loop ends it at the turn that sees the interrupt, without a device. */
  lemma {:induction false} PollHardwareCancelled(polls: seq<HardwarePoll>, i: nat, k: nat)
    requires i <= k < |polls|
    requires forall j :: i <= j < k ==> QuietHardwareTurn(polls[j])
    requires polls[k].interrupted || polls[k].sleepInterrupted
    ensures PollHardware(polls, i) == Acquired(None, Interrupted)
    decreases k - i
  {
    if i < k {
      assert QuietHardwareTurn(polls[i]);
      PollHardwareCancelled(polls, i + 1, k);
    }
  }

  /** The hardware loop returns the first device a turn finds. */
  lemma {:induction false} PollHardwareFirstFound(polls: seq<HardwarePoll>, i: nat, k: nat)
    requires i <= k < |polls|
    requires forall j :: i <= j < k ==> QuietHardwareTurn(polls[j])
    requires !polls[k].interrupted && !polls[k].sleepInterrupted && polls[k].found.Returned? && polls[k].found.value.Some?
    ensures PollHardware(polls, i) == Acquired(polls[k].found.value, FoundWhilePolling)
    decreases k - i
  {
    if i < k {
      assert QuietHardwareTurn(polls[i]);
      PollHardwareFirstFound(polls, i + 1, k);
    }
  }

  /** A `find` that throws ends the hardware loop with its exception, without a device. */
  lemma {:induction false} PollHardwareFindThrows(polls: seq<HardwarePoll>, i: nat, k: nat)
    requires i <= k < |polls|
    requires forall j :: i <= j < k ==> QuietHardwareTurn(polls[j])
    requires !polls[k].interrupted && !polls[k].sleepInterrupted && polls[k].found.Thrown?
    ensures PollHardware(polls, i) == Acquired(None, FindThrew)
    decreases k - i
  {
    if i < k {
      assert QuietHardwareTurn(polls[i]);
      PollHardwareFindThrows(polls, i + 1, k);
    }
  }

  /** `blockingGetHardware`: `first` is the outcome of the first `find(false, null)`. */
  method BlockingGetHardware(first: Outcome<Option<Device>>, polls: seq<HardwarePoll>) returns (device: Option<Device>, exit: Exit)
    ensures first.Thrown? ==> device == None && exit == FindThrew
    ensures first.Returned? && first.value.Some? ==> device == first.value && exit == FoundAtOnce
    ensures first == Returned(None) ==> Acquired(device, exit) == PollHardware(polls, 0)
  {
    if first.Thrown? {
      return None, FindThrew;
    }
    if first.value.Some? {
      return first.value, FoundAtOnce;
    }
    var i := 0;
    while i < |polls|
      invariant 0 <= i <= |polls|
      invariant PollHardware(polls, 0) == PollHardware(polls, i)
    {
      var p := polls[i];
      if p.interrupted || p.sleepInterrupted {
        return None, Interrupted;
      }
      if p.found.Thrown? {
        return None, FindThrew;
      }
      if p.found.value.Some? {
        return p.found.value, FoundWhilePolling;
      }
      i := i + 1;
    }
    return None, StillPolling;
  }

  /** `getHardware()`: the selected device while it is alive, otherwise whatever
      `blockingGetHardware` yields, with its exit (a `FindThrew` exit leaves `getHardware`
      without a future; a `StillPolling` one means it is still blocked). */
  method GetHardware(selected: Option<Device>, first: Outcome<Option<Device>>, polls: seq<HardwarePoll>)
    returns (device: Option<Device>, exit: Exit)
    ensures selected.Some? && selected.value.alive ==> device == selected && exit == SelectedReused
    ensures !(selected.Some? && selected.value.alive) ==>
      match first
      case Thrown(_) => device == None && exit == FindThrew
      case Returned(Some(d)) => device == Some(d) && exit == FoundAtOnce
      case Returned(None) => Acquired(device, exit) == PollHardware(polls, 0)
  {
    device, exit := selected, SelectedReused;
    if device.None? || !device.value.alive {
      device, exit := BlockingGetHardware(first, polls);
    }
  }
}
