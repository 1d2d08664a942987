/**
 Nothing a stream user asks for gets lost: in a run without errors the commands
 are delivered one by one in the order in which they were begun, and between
 commands every valid one can be completed, hit or miss.
 */
module PrefetchProgress {
  import opened Words
  import opened Prefetch

  // ----- every command is delivered or fails

  /** The command at work. */
  function Current<S>(p: Point<S>): Option<Command> {
    match p
    case Taking(c) => Some(c)
    case Awaiting(c, _) => Some(c)
    case Fetching0(c, _) => Some(c)
    case Scheduling(c, _) => Some(c)
    case Signalling(c, _) => Some(c)
    case Pumping(c, _, _) => Some(c)
    case Sending(c, _, _, _) => Some(c)
    case TargetReading(c, _) => Some(c)
    case _ => None
  }

  /** Steps at which a command ends with an error: a read, write or transfer fails, or its prefetch has failed. */
  predicate Fails<S>(s: State<S>, a: Action<S>) {
    || a.PumpFailed? || a.SendFailed? || a.TargetFailed?
    || (a.Sync? && a.f.Fail?)
    || (a.Awake? && !s.fetched && s.point.Awaiting? && s.point.c.Source? && Matches(s.point.c, s.request))
  }

  function Listed(c: Option<Command>): seq<Command> {
    if c.Some? then [c.value] else []
  }

  function CommandsOf<S>(log: seq<Delivery<S>>): (cs: seq<Command>)
    ensures |cs| == |log| && forall i :: 0 <= i < |log| ==> cs[i] == log[i].command
  {
    seq(|log|, i requires 0 <= i < |log| => log[i].command)
  }

  /** A command the stream does not refuse at once: up to 64 KiB in whole sectors, within the file. */
  predicate Proper(c: Command) {
    && 0 < c.bytes <= 0x1_0000 && c.bytes % 512 == 0
    && (c.Source? ==> c.fd >= 0 && 0 <= c.offset && c.offset + c.bytes <= c.total)
  }

  function Begun<S>(a: Action<S>): seq<Command> {
    if a.Begin? && Proper(a.c) then [a.c] else []
  }

  lemma LogGrows<S>(log: seq<Delivery<S>>, d: Delivery<S>)
    ensures CommandsOf(log + [d]) == CommandsOf(log) + [d.command]
  {
  }

  /** What has been delivered, and then what is at work. */
  function Account<S>(s: State<S>): seq<Command> {
    CommandsOf(s.log) + Listed(Current(s.point))
  }

  lemma WorkerDropsNothing<S>(files: Files<S>, s: State<S>, a: Action<S>)
    requires Sized(s) && (a.WorkerWakes? || a.WorkerFetch?) && Step(files, s, a).Some?
    ensures Step(files, s, a).value.log == s.log && Step(files, s, a).value.point == s.point
  {
  }

  lemma SendDropsNothing<S>(files: Files<S>, s: State<S>, n: int)
    requires Sized(s) && Step(files, s, Send(n)).Some?
    ensures Account(Step(files, s, Send(n)).value) == Account(s)
  {
    var t := Step(files, s, Send(n)).value;
    if t.point.Idle? {
      LogGrows(s.log, t.log[|s.log|]);
    }
  }

  lemma OtherDropsNothing<S>(files: Files<S>, s: State<S>, a: Action<S>)
    requires Inv(files, s) && !a.WorkerWakes? && !a.WorkerFetch? && !a.Send? && !a.Begin?
    requires Step(files, s, a).Some? && !Fails(s, a)
    ensures var t := Step(files, s, a).value; t.log == s.log && Current(t.point) == Current(s.point)
  {
  }

  lemma BeginDropsNothing<S>(files: Files<S>, s: State<S>, c: Command)
    requires Sized(s) && Step(files, s, Begin(c)).Some?
    ensures var t := Step(files, s, Begin(c)).value;
            && t.log == s.log && Current(s.point) == None
            && Current(t.point) == if Proper(c) then Some(c) else None
  {
  }

  /** A step that does not fail drops no command, and adds the one it begins. */
  lemma StepDropsNothing<S>(files: Files<S>, s: State<S>, a: Action<S>)
    requires Inv(files, s) && Step(files, s, a).Some? && !Fails(s, a)
    ensures Account(Step(files, s, a).value) == Account(s) + Begun(a)
  {
    match a
    case WorkerWakes => WorkerDropsNothing(files, s, a);
    case WorkerFetch(_) => WorkerDropsNothing(files, s, a);
    case Send(n) => SendDropsNothing(files, s, n);
    case Begin(c) => BeginDropsNothing(files, s, c);
    case _ => OtherDropsNothing(files, s, a);
  }

  /** A step that fails gives up the command at work, and nothing else. */
  lemma FailureDropsOne<S>(files: Files<S>, s: State<S>, a: Action<S>)
    requires Inv(files, s) && Step(files, s, a).Some? && Fails(s, a)
    ensures var t := Step(files, s, a).value;
            Current(s.point).Some? && t.point.Idle? && t.log == s.log
  {
  }

  /** The commands that were begun, leaving out those that were refused. */
  function BegunTo<S>(actions: seq<Action<S>>, n: nat): seq<Command>
    requires n <= |actions|
  {
    if n == 0 then [] else BegunTo(actions, n - 1) + Begun(actions[n - 1])
  }

  /**
   In a run without errors every command is delivered, once and in order: the
   log, followed by the command at work, lists exactly what was begun.
   */
  lemma {:induction false} NothingIsLost<S(!new)>(files: Files<S>, states: seq<State<S>>, actions: seq<Action<S>>,
                                                  n: nat)
    requires Run(files, states, actions) && Inv(files, states[0]) && n <= |actions|
    requires forall i :: 0 <= i < |actions| ==> Allowed(states[i], actions[i])
    requires forall i :: 0 <= i < n ==> !Fails(states[i], actions[i])
    ensures Inv(files, states[n])
    ensures Account(states[n]) == Account(states[0]) + BegunTo(actions, n)
  {
    if n > 0 {
      NothingIsLost(files, states, actions, n - 1);
      assert Moves(files, states, actions, n - 1);
      StepKeeps(files, states[n - 1], actions[n - 1]);
      StepDropsNothing(files, states[n - 1], actions[n - 1]);
    }
  }

  // ----- every command can be completed

  /** The delivery of a source command: its bytes of the file, also written to the target if it pumps. */
  function SourceDelivery<S>(files: Files<S>, c: Command): Delivery<S>
    requires c.Source? && 0 <= c.bytes
  {
    var data := Slice(files, c.fd, c.offset, c.bytes);
    Delivery(c, if c.pump then data else [], data)
  }

  /** The prefetch that a command would wait for has failed. */
  predicate FailedFor<S>(s: State<S>, c: Command)
    requires c.Source?
  {
    s.active && s.done && !s.fetched && Matches(c, s.request)
  }

  /** One step from a state that keeps the invariant to another. */
  lemma Go<S>(files: Files<S>, states: seq<State<S>>, actions: seq<Action<S>>, s: State<S>, a: Action<S>)
    returns (more: seq<State<S>>, did: seq<Action<S>>, t: State<S>)
    requires Ends(files, states, actions, s) && Inv(files, s) && Allowed(s, a) && Step(files, s, a).Some?
    ensures t == Step(files, s, a).value && Ends(files, more, did, t) && more[0] == states[0] && Inv(files, t)
  {
    StepKeeps(files, s, a);
    more, did, t := Extend(files, states, actions, s, a);
  }

  /** If the worker is at work, it finishes; a prefetch that had ended stays as it ended. */
  lemma WorkerSettles<S>(files: Files<S>, states: seq<State<S>>, actions: seq<Action<S>>, s: State<S>)
    returns (more: seq<State<S>>, did: seq<Action<S>>, t: State<S>)
    requires Ends(files, states, actions, s) && Inv(files, s) && s.point.Idle? && s.active
    ensures Ends(files, more, did, t) && more[0] == states[0] && Inv(files, t)
    ensures t.point.Idle? && t.active && t.done && t.request == s.request && t.log == s.log
    ensures t.fetched || (s.done && !s.fetched)
  {
    if s.done {
      more, did, t := states, actions, s;
    } else {
      more, did, t := WorkerCompletes(files, states, actions, s, s.request);
    }
  }

  /** Another request than the prefetched one: the command waits, and reads its block itself. */
  lemma SourceMisses<S>(files: Files<S>, states: seq<State<S>>, actions: seq<Action<S>>, s: State<S>, c: Command)
    returns (more: seq<State<S>>, did: seq<Action<S>>, t: State<S>)
    requires Ends(files, states, actions, s) && Inv(files, s) && s.point.Idle? && s.active && s.done
    requires CommandValid(c) && c.Source? && !Matches(c, s.request)
    ensures Ends(files, more, did, t) && more[0] == states[0] && Inv(files, t)
    ensures t.point == Scheduling(c, 0) && t.log == s.log
  {
    more, did, t := Go(files, states, actions, s, Begin(c));
    more, did, t := Go(files, more, did, t, Take);
    more, did, t := Go(files, more, did, t, Awake);
    more, did, t := ReadsItself(files, more, did, t, c);
  }

  lemma ReadsItself<S>(files: Files<S>, states: seq<State<S>>, actions: seq<Action<S>>, s: State<S>, c: Command)
    returns (more: seq<State<S>>, did: seq<Action<S>>, t: State<S>)
    requires Ends(files, states, actions, s) && Inv(files, s) && s.point == Fetching0(c, 0)
    ensures Ends(files, more, did, t) && more[0] == states[0] && Inv(files, t)
    ensures t.point == Scheduling(c, 0) && t.log == s.log
  {
    more, did, t := Go(files, states, actions, s, Sync(Copy(c.bytes)));
    more, did, t := Go(files, more, did, t, Sync(Finish));
  }

  /** However its prefetch stands, a command comes to hold its block, unless that prefetch has failed. */
  lemma SourceGetsBlock<S>(files: Files<S>, states: seq<State<S>>, actions: seq<Action<S>>, s: State<S>, c: Command)
    returns (more: seq<State<S>>, did: seq<Action<S>>, t: State<S>)
    requires Ends(files, states, actions, s) && Inv(files, s) && s.point.Idle?
    requires CommandValid(c) && c.Source? && !FailedFor(s, c)
    ensures Ends(files, more, did, t) && more[0] == states[0] && Inv(files, t)
    ensures t.point.Scheduling? && t.point.c == c && t.log == s.log
  {
    if !s.active {
      more, did, t := SourceReads(files, states, actions, s, c);
    } else {
      more, did, t := WorkerSettles(files, states, actions, s);
      if Matches(c, t.request) {
        AfterMatch(files, t, c);
        more, did, t := SourceMatches(files, more, did, t, c);
      } else {
        more, did, t := SourceMisses(files, more, did, t, c);
      }
    }
  }

  /** It asks for the next block, if there is one to ask for. */
  lemma SourceMovesOn<S>(files: Files<S>, states: seq<State<S>>, actions: seq<Action<S>>, s: State<S>, c: Command)
    returns (more: seq<State<S>>, did: seq<Action<S>>, t: State<S>)
    requires Ends(files, states, actions, s) && Inv(files, s) && s.point.Scheduling? && s.point.c == c
    ensures Ends(files, more, did, t) && more[0] == states[0] && Inv(files, t)
    ensures t.point == AfterBlock(c, s.point.stage) && t.log == s.log
  {
    more, did, t := Go(files, states, actions, s, Schedule);
    if t.point.Signalling? {
      more, did, t := Go(files, more, did, t, Signal);
    }
  }

  /** It writes its block to the target, if it is to pump. */
  lemma SourcePumps<S>(files: Files<S>, states: seq<State<S>>, actions: seq<Action<S>>, s: State<S>, c: Command,
                       stage: int)
    returns (more: seq<State<S>>, did: seq<Action<S>>, t: State<S>)
    requires Ends(files, states, actions, s) && Inv(files, s) && c.Source? && s.point == AfterBlock(c, stage)
    ensures Ends(files, more, did, t) && more[0] == states[0] && Inv(files, t)
    ensures t.point.Sending? && t.point.c == c && t.point.sent == [] && t.log == s.log
  {
    more, did, t := states, actions, s;
    if s.point.Pumping? {
      more, did, t := Go(files, states, actions, s, Pump(c.bytes));
    }
  }

  /** It sends its block. */
  lemma BlockIsSent<S>(files: Files<S>, states: seq<State<S>>, actions: seq<Action<S>>, s: State<S>, c: Command)
    returns (more: seq<State<S>>, did: seq<Action<S>>, t: State<S>)
    requires Ends(files, states, actions, s) && Inv(files, s) && c.Source?
    requires s.point.Sending? && s.point.c == c && s.point.sent == []
    ensures Ends(files, more, did, t) && more[0] == states[0] && Inv(files, t)
    ensures t.point.Idle? && t.log == s.log + [SourceDelivery(files, c)]
  {
    SendsWhole(files, s);
    more, did, t := Go(files, states, actions, s, Send(c.bytes));
  }

  /**
   From any state between commands every proper source command can be carried to
   its delivery, whatever was prefetched before, unless the prefetch of just
   this block has failed. Then waiting for it ends the command with an error,
   and the same command can be completed afterwards.
   */
  lemma SourceCompletes<S>(files: Files<S>, states: seq<State<S>>, actions: seq<Action<S>>, s: State<S>, c: Command)
    returns (more: seq<State<S>>, did: seq<Action<S>>, t: State<S>)
    requires Ends(files, states, actions, s) && Inv(files, s) && s.point.Idle? && c.Source? && Proper(c)
    ensures Ends(files, more, did, t) && more[0] == states[0] && Inv(files, t) && t.point.Idle?
    ensures !FailedFor(s, c) ==> t.log == s.log + [SourceDelivery(files, c)]
    ensures FailedFor(s, c) ==> t == s.(done := false, active := false)
  {
    if FailedFor(s, c) {
      more, did, t := Go(files, states, actions, s, Begin(c));
      more, did, t := Go(files, more, did, t, Take);
      more, did, t := Go(files, more, did, t, Awake);
    } else {
      more, did, t := SourceGetsBlock(files, states, actions, s, c);
      var stage := t.point.stage;
      more, did, t := SourceMovesOn(files, more, did, t, c);
      more, did, t := SourcePumps(files, more, did, t, c, stage);
      more, did, t := BlockIsSent(files, more, did, t, c);
    }
  }

  /** A target command that is allowed can be completed, whatever its bytes are. */
  lemma TargetCompletes<S>(files: Files<S>, states: seq<State<S>>, actions: seq<Action<S>>, s: State<S>, data: seq<S>)
    returns (more: seq<State<S>>, did: seq<Action<S>>, t: State<S>)
    requires Ends(files, states, actions, s) && Inv(files, s) && s.point.Idle? && Proper(Target(|data|))
    requires Allowed(s, Begin(Target(|data|)))
    ensures Ends(files, more, did, t) && more[0] == states[0] && Inv(files, t) && t.point.Idle?
    ensures t.log == s.log + [Delivery(Target(|data|), data, data)]
  {
    more, did, t := Go(files, states, actions, s, Begin(Target(|data|)));
    assert [] + data == data;
    more, did, t := Go(files, more, did, t, TargetRead(data));
    assert t.stage0[..|data|] == data;
    SendsWhole(files, t);
    more, did, t := Go(files, more, did, t, Send(|data|));
  }
}
