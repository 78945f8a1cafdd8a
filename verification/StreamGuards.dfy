/** The ambient stream of each device and the guards that select it (stream_guard.h). */
module StreamGuards {

  /** Stream zero is the default stream. */
  type Stream = nat

  datatype StreamState = StreamState(stream: Stream, guards: nat)

  datatype Guard = Guard(device: int, previous: Stream)

  /** How many of the guards are for `device`. */
  function CountOn(live: seq<Guard>, device: int): nat {
    if |live| == 0 then 0
    else CountOn(live[..|live| - 1], device) + if live[|live| - 1].device == device then 1 else 0
  }

  class AmbientStreams {
    var table: map<int, StreamState>
    ghost var live: seq<Guard>   // guards constructed and not yet destroyed, outermost first

    /** An entry exists exactly for the devices with a live guard or a stream, and counts its guards. */
    ghost predicate Valid()
      reads this
    {
      && (forall d :: d in table ==> table[d].guards == CountOn(live, d))
      && (forall d :: d in table <==> CountOn(live, d) > 0 || Current(d) != 0)
    }

    /** `current_stream`. */
    function Current(device: int): Stream
      reads this
    {
      if device in table then table[device].stream else 0
    }

    constructor ()
      ensures Valid() && table == map[] && live == []
    {
      table, live := map[], [];
    }

    /** `set_current_stream`. */
    method Set(stream: Stream, device: int)
      requires Valid()
      modifies this
      ensures Valid() && live == old(live)
      ensures Current(device) == stream
      ensures forall d :: d != device ==> Current(d) == old(Current(d))
    {
      if stream == 0 {
        if device in table {
          if table[device].guards == 0 {
            table := table - {device};
          } else {
            table := table[device := table[device].(stream := 0)];
          }
        }
      } else {
        var guards := if device in table then table[device].guards else 0;
        table := table[device := StreamState(stream, guards)];
      }
    }

    /** The guard's constructor. */
    method Enter(stream: Stream, device: int) returns (guard: Guard)
      requires Valid()
      modifies this
      ensures Valid() && live == old(live) + [guard]
      ensures guard == Guard(device, old(Current(device)))
      ensures Current(device) == stream
      ensures forall d :: d != device ==> Current(d) == old(Current(d))
    {
      guard := Guard(device, Current(device));
      var state := if device in table then table[device] else StreamState(0, 0);
      ghost var before := live;
      live := live + [guard];
      assert live[..|live| - 1] == before;
      table := table[device := StreamState(stream, state.guards + 1)];
    }

    /** The guard's destructor. The entry it restores is always there. */
    method Exit(guard: Guard)
      requires Valid() && |live| > 0 && live[|live| - 1] == guard
      modifies this
      ensures Valid() && live == old(live[..|live| - 1])
      ensures Current(guard.device) == guard.previous
      ensures forall d :: d != guard.device ==> Current(d) == old(Current(d))
    {
      live := live[..|live| - 1];
      assert guard.device in table;
      var state := StreamState(guard.previous, table[guard.device].guards - 1);
      table := table[guard.device := state];
      if state.guards == 0 && guard.previous == 0 {
        table := table - {guard.device};
      }
    }

    /** Runs a program; an error unwinds through the guards' destructors. */
    method Run(p: Program) returns (failed: bool)
      requires Valid()
      modifies this
      ensures Valid() && live == old(live)
      ensures failed == Fails(p)
      ensures forall d :: Current(d) == After(p, d, old(Current(d)))
      decreases p
    {
      match p
      case Select(stream, device) =>
        Set(stream, device);
        failed := false;
      case Fail =>
        failed := true;
      case Guarded(stream, device, body) =>
        var guard := Enter(stream, device);
        failed := Run(body);
        assert live[..|live| - 1] == old(live);
        Exit(guard);
      case Then(first, second) =>
        failed := Run(first);
        if !failed {
          failed := Run(second);
        }
    }
  }

  /** Scoped code: direct selections, guarded blocks, errors. */
  datatype Program =
    | Select(stream: Stream, device: int)
    | Fail
    | Guarded(stream: Stream, device: int, body: Program)
    | Then(first: Program, second: Program)

  predicate Fails(p: Program) {
    match p
    case Select(_, _) => false
    case Fail => true
    case Guarded(_, _, body) => Fails(body)
    case Then(first, second) => Fails(first) || Fails(second)
  }

  /** The stream of `device` after the program, when it was `stream` before: guarded blocks leave no trace on their device. */
  function After(p: Program, device: int, stream: Stream): Stream {
    match p
    case Select(s, d) => if d == device then s else stream
    case Fail => stream
    case Guarded(_, d, body) => if d == device then stream else After(body, device, stream)
    case Then(first, second) =>
      if Fails(first) then After(first, device, stream) else After(second, device, After(first, device, stream))
  }

  /** Every selection for `device` is inside a guard for it. */
  predicate Covered(p: Program, device: int) {
    match p
    case Select(_, d) => d != device
    case Fail => true
    case Guarded(_, d, body) => d == device || Covered(body, device)
    case Then(first, second) => Covered(first, device) && Covered(second, device)
  }

  /** Whatever happens under guards, including errors, the device's stream is what it was before. */
  lemma {:induction false} CoveredRestores(p: Program, device: int, stream: Stream)
    requires Covered(p, device)
    ensures After(p, device, stream) == stream
    decreases p
  {
    match p
    case Select(_, _) =>
    case Fail =>
    case Guarded(_, d, body) =>
      if d != device {
        CoveredRestores(body, device, stream);
      }
    case Then(first, second) =>
      CoveredRestores(first, device, stream);
      CoveredRestores(second, device, stream);
  }

  /** A guard covers its device whatever its body selects, and an error after it changes nothing. */
  lemma GuardCovers(stream: Stream, device: int, body: Program, before: Stream)
    ensures Covered(Then(Guarded(stream, device, body), Fail), device)
    ensures After(Then(Guarded(stream, device, body), Fail), device, before) == before
  {
    CoveredRestores(Then(Guarded(stream, device, body), Fail), device, before);
  }

  /** With no guard alive and every stream back to the default, nothing is left in the table. */
  lemma NothingLeft(a: AmbientStreams)
    requires a.Valid() && a.live == [] && forall d :: a.Current(d) == 0
    ensures a.table == map[]
  {
    forall d ensures d !in a.table {
      assert CountOn(a.live, d) == 0 && a.Current(d) == 0;
    }
  }
}
