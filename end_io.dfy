/**
 * insane_end_io, the completion hook: an error other than the ignored ones
 * raises the error count of the device named by the failed bio, and each
 * raised count still below DM_IO_ERROR_THRESHOLD schedules an event.
 */
module EndIo {
  import opened InsaneH

  /** The error is one the hook counts: not success, not -EOPNOTSUPP, and not -EWOULDBLOCK on read-ahead. */
  predicate Counted(error: int, readAhead: bool)
  {
    && error != 0
    && !(error == -(EWOULDBLOCK as int) && readAhead)
    && error != -(EOPNOTSUPP as int)
  }

  /** The counters after the devices before `upTo` whose name is `name` have each counted one error. */
  function Bump(names: seq<string>, errors: seq<nat>, name: string, upTo: nat): (r: seq<nat>)
    requires |names| == |errors|
    ensures |r| == |errors|
    ensures forall k :: 0 <= k < |r| ==> r[k] == if k < upTo && names[k] == name then errors[k] + 1 else errors[k]
  {
    seq(|errors|, k requires 0 <= k < |errors| => if k < upTo && names[k] == name then errors[k] + 1 else errors[k])
  }

  /** How many of the devices before `upTo` named `name` are still below the threshold once bumped. */
  function Scheduled(names: seq<string>, errors: seq<nat>, name: string, upTo: nat): nat
    requires |names| == |errors| && upTo <= |names|
  {
    if upTo == 0 then 0
    else
      var k := upTo - 1;
      Scheduled(names, errors, name, k) + if names[k] == name && errors[k] + 1 < DM_IO_ERROR_THRESHOLD then 1 else 0
  }

  /** What the hook returns, the counters it leaves, and how many events it schedules. */
  datatype Completion = Completion(status: int, errors: seq<nat>, scheduled: nat)

  /** insane_end_io on devices `names` with counts `errors`, for a bio that failed on device `name`. */
  function EndIoSpec(names: seq<string>, errors: seq<nat>, error: int, readAhead: bool, name: string): Completion
    requires |names| == |errors|
  {
    if !Counted(error, readAhead) then Completion(error, errors, 0)
    else Completion(error, Bump(names, errors, name, |names|), Scheduled(names, errors, name, |names|))
  }

  /** An error the hook ignores changes no count and schedules nothing. */
  lemma IgnoredErrors(names: seq<string>, errors: seq<nat>, error: int, readAhead: bool, name: string)
    requires |names| == |errors|
    requires error == 0 || error == -(EOPNOTSUPP as int) || (error == -(EWOULDBLOCK as int) && readAhead)
    ensures EndIoSpec(names, errors, error, readAhead, name) == Completion(error, errors, 0)
  {
  }

  /** The hook hands back the error it was given. */
  lemma ReturnsError(names: seq<string>, errors: seq<nat>, error: int, readAhead: bool, name: string)
    requires |names| == |errors|
    ensures EndIoSpec(names, errors, error, readAhead, name).status == error
  {
  }

  /** No device is counted twice in Scheduled when none of them has the name. */
  lemma {:induction false} NoneScheduled(names: seq<string>, errors: seq<nat>, name: string, upTo: nat)
    requires |names| == |errors| && upTo <= |names|
    requires forall k :: 0 <= k < upTo ==> names[k] != name || errors[k] + 1 >= DM_IO_ERROR_THRESHOLD
    ensures Scheduled(names, errors, name, upTo) == 0
  {
    if upTo > 0 {
      NoneScheduled(names, errors, name, upTo - 1);
    }
  }

  /** Among devices with distinct names, the one named schedules at most its own event. */
  lemma {:induction false} OneScheduled(names: seq<string>, errors: seq<nat>, name: string, i: nat, upTo: nat)
    requires |names| == |errors| && upTo <= |names| && i < |names| && names[i] == name
    requires forall a, b :: 0 <= a < b < |names| ==> names[a] != names[b]
    ensures Scheduled(names, errors, name, upTo) ==
              if i < upTo && errors[i] + 1 < DM_IO_ERROR_THRESHOLD then 1 else 0
  {
    if upTo > 0 {
      OneScheduled(names, errors, name, i, upTo - 1);
      if upTo - 1 != i {
        assert names[upTo - 1] != names[i];
      }
    }
  }

  /**
   * With distinct device names, a counted error on device `i` raises that
   * device's count by one and no other, and schedules one event exactly
   * when the new count is still below the threshold.
   */
  lemma CountedOnOneDevice(names: seq<string>, errors: seq<nat>, error: int, readAhead: bool, i: nat)
    requires |names| == |errors| && i < |names| && Counted(error, readAhead)
    requires forall a, b :: 0 <= a < b < |names| ==> names[a] != names[b]
    ensures var c := EndIoSpec(names, errors, error, readAhead, names[i]);
      && c.status == error
      && c.errors == errors[i := errors[i] + 1]
      && c.scheduled == if errors[i] + 1 < DM_IO_ERROR_THRESHOLD then 1 else 0
  {
    OneScheduled(names, errors, names[i], i, |names|);
    var c := EndIoSpec(names, errors, error, readAhead, names[i]);
    forall k | 0 <= k < |names| ensures c.errors[k] == errors[i := errors[i] + 1][k] {
      if k != i {
        assert names[k] != names[i];
      }
    }
  }

  /** A counted error on a device name the target does not use changes nothing and schedules nothing. */
  lemma UnknownDevice(names: seq<string>, errors: seq<nat>, error: int, readAhead: bool, name: string)
    requires |names| == |errors| && name !in names
    ensures var c := EndIoSpec(names, errors, error, readAhead, name);
      c.errors == errors && c.scheduled == 0
  {
    NoneScheduled(names, errors, name, |names|);
  }

  /** Once every count at the threshold less one is reached, errors still count but no event is scheduled. */
  lemma EventsStopAtThreshold(names: seq<string>, errors: seq<nat>, error: int, readAhead: bool, name: string)
    requires |names| == |errors|
    requires forall k :: 0 <= k < |errors| ==> errors[k] + 1 >= DM_IO_ERROR_THRESHOLD
    ensures EndIoSpec(names, errors, error, readAhead, name).scheduled == 0
  {
    NoneScheduled(names, errors, name, |names|);
  }

  /** The target's devices as insane_end_io sees them: their `major:minor` names and error counts. */
  class Devices {
    var names: seq<string>
    var errors: seq<nat>

    ghost predicate Valid()
      reads this
    {
      |names| == |errors|
    }

    /** A target's devices start with no errors. */
    constructor (deviceNames: seq<string>)
      ensures names == deviceNames && errors == seq(|deviceNames|, k => 0) && Valid()
    {
      names := deviceNames;
      errors := seq(|deviceNames|, k => 0);
    }

    /** insane_end_io, with its loop over the devices. */
    method EndIo(error: int, readAhead: bool, name: string) returns (status: int, scheduled: nat)
      requires Valid()
      modifies this
      ensures names == old(names) && Valid()
      ensures Completion(status, errors, scheduled) == EndIoSpec(old(names), old(errors), error, readAhead, name)
    {
      scheduled := 0;
      if error == 0 {
        return 0, scheduled;
      }
      if error == -(EWOULDBLOCK as int) && readAhead {
        return error, scheduled;
      }
      if error == -(EOPNOTSUPP as int) {
        return error, scheduled;
      }
      ghost var before := errors;
      var i := 0;
      while i < |names|
        invariant names == old(names) && before == old(errors)
        invariant i <= |names| && |errors| == |before| == |names|
        invariant errors == Bump(names, before, name, i)
        invariant scheduled == Scheduled(names, before, name, i)
      {
        if names[i] == name {
          errors := errors[i := errors[i] + 1];
          if errors[i] < DM_IO_ERROR_THRESHOLD {
            scheduled := scheduled + 1;
          }
        }
        i := i + 1;
      }
      return error, scheduled;
    }
  }
}
