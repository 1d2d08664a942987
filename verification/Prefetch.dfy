/**
 The double-buffered source pipeline of the IOP stream, as a transition system:
 a command thread and a prefetch worker that share two staging buffers, one
 request record, two semaphores and the fragment cursor.
 */
module Prefetch {
  import opened Words

  const STAGE_BYTES: nat := 0x1_0000

  /** The bytes of an open file, by descriptor and offset. */
  type Files<S> = (int, int) -> S

  datatype Command =
    | Source(fd: int, offset: int, bytes: int, total: int, pump: bool)
    | Target(bytes: int)

  /** A command that succeeded: what it wrote to the target or read from it, and what it sent to the EE. */
  datatype Delivery<S> = Delivery(command: Command, target: seq<S>, sent: seq<S>)

  datatype Request = Request(fd: int, offset: int, bytes: int, stage: int)

  datatype Worker = Waiting | Fetching(progress: int) | Stopped

  /** Where the command thread is. */
  datatype Point<S> =
    | Idle
    | Taking(c: Command)
    | Awaiting(c: Command, matches: bool)
    | Fetching0(c: Command, progress: int)
    | Scheduling(c: Command, stage: int)
    | Signalling(c: Command, stage: int)
    | Pumping(c: Command, stage: int, written: seq<S>)
    | Sending(c: Command, stage: int, written: seq<S>, sent: seq<S>)
    | TargetReading(c: Command, got: seq<S>)
    | CloseAwaiting
    | CloseJoining
    | Closed

  datatype State<S> = State(
    stage0: seq<S>, stage1: seq<S>,
    active: bool, request: Request, fetched: bool,
    requested: bool, done: bool, stop: bool,
    worker: Worker, point: Point<S>, log: seq<Delivery<S>>)
  {
    function Stage(i: int): seq<S> {
      if i == 0 then stage0 else stage1
    }

    function WithStage(i: int, data: seq<S>): State<S> {
      if i == 0 then this.(stage0 := data) else this.(stage1 := data)
    }
  }

  /** One step of a source read into a staging buffer. */
  datatype Fetch<S> =
    | Copy(n: int)          // some more bytes arrive
    | Spoil(junk: seq<S>)   // the direct path gives up, and reading starts again
    | Finish                // all bytes are there
    | Fail                  // the read returns an error

  datatype Action<S> =
    | Begin(c: Command)
    | Take
    | Awake
    | Sync(f: Fetch<S>)
    | Schedule
    | Signal
    | Pump(n: int)
    | PumpFailed
    | Send(n: int)
    | SendFailed
    | TargetRead(data: seq<S>)
    | TargetFailed
    | Close
    | Join
    | WorkerWakes
    | WorkerFetch(f: Fetch<S>)

  predicate CommandValid(c: Command) {
    && 0 < c.bytes <= STAGE_BYTES && c.bytes % 512 == 0
    && (c.Source? ==> c.fd >= 0 && c.total > 0 && 0 <= c.offset <= c.total && c.bytes <= c.total - c.offset)
  }

  function Slice<S>(files: Files<S>, fd: int, offset: int, n: int): (r: seq<S>)
    requires 0 <= n
    ensures |r| == n && forall i :: 0 <= i < n ==> r[i] == files(fd, offset + i)
  {
    seq(n, i requires 0 <= i < n => files(fd, offset + i))
  }

  /** The request for what follows a command, if there is one. */
  function NextRequest(c: Command, stage: int): Option<Request>
    requires c.Source?
  {
    var next := c.offset + c.bytes;
    var remaining := c.total - next;
    var bytes := if remaining > STAGE_BYTES then STAGE_BYTES else remaining;
    if next < c.total && bytes % 512 == 0 then Some(Request(c.fd, next, bytes, 1 - stage)) else None
  }

  // ----- steps

  function FetchStep<S>(files: Files<S>, buffer: seq<S>, fd: int, offset: int, bytes: int, progress: int, f: Fetch<S>)
    : Option<(seq<S>, int)>
    requires 0 <= progress <= bytes <= |buffer|
  {
    match f
    case Copy(n) =>
      if 0 < n <= bytes - progress
      then Some((Splice(buffer, progress, Slice(files, fd, offset + progress, n)), progress + n)) else None
    case Spoil(junk) =>
      if |junk| == bytes then Some((Splice(buffer, 0, junk), 0)) else None
    case _ => None
  }

  function AfterBlock<S>(c: Command, stage: int): Point<S>
    requires c.Source?
  {
    if c.pump then Pumping(c, stage, []) else Sending(c, stage, [], [])
  }

  /** The buffers have their size, and every progress lies within its request. */
  predicate Sized<S>(s: State<S>) {
    && |s.stage0| == |s.stage1| == STAGE_BYTES
    && 0 <= s.request.bytes <= STAGE_BYTES && (s.request.stage == 0 || s.request.stage == 1)
    && (s.worker.Fetching? ==> 0 <= s.worker.progress <= s.request.bytes)
    && PointSized(s.point)
  }

  predicate PointSized<S>(p: Point<S>) {
    match p
    case Taking(c) => c.Source? && CommandValid(c)
    case Awaiting(c, _) => c.Source? && CommandValid(c)
    case Fetching0(c, progress) => c.Source? && CommandValid(c) && 0 <= progress <= c.bytes
    case Scheduling(c, stage) => c.Source? && CommandValid(c) && (stage == 0 || stage == 1)
    case Signalling(c, stage) => c.Source? && CommandValid(c) && (stage == 0 || stage == 1)
    case Pumping(c, stage, w) => c.Source? && CommandValid(c) && (stage == 0 || stage == 1) && |w| <= c.bytes
    case Sending(c, stage, w, e) => CommandValid(c) && (stage == 0 || stage == 1) && |w| <= c.bytes && |e| <= c.bytes
    case TargetReading(c, got) => c.Target? && CommandValid(c) && |got| <= c.bytes
    case _ => true
  }

  /** A step of the worker; `None` when it cannot happen now. */
  function WorkerStep<S>(files: Files<S>, s: State<S>, a: Action<S>): Option<State<S>>
    requires Sized(s) && (a.WorkerWakes? || a.WorkerFetch?)
  {
    match a
    case WorkerWakes =>
      if s.worker.Waiting? && s.requested then
        Some(s.(requested := false, worker := if s.stop then Stopped else Fetching(0)))
      else None
    case WorkerFetch(f) =>
      if !s.worker.Fetching? then None
      else if f.Fail? then Some(s.(worker := Waiting, fetched := false, done := true))
      else if f.Finish? then
        if s.worker.progress == s.request.bytes
        then Some(s.(worker := Waiting, fetched := true, done := true)) else None
      else
        match FetchStep(files, s.Stage(s.request.stage), s.request.fd, s.request.offset, s.request.bytes,
                        s.worker.progress, f)
        case None => None
        case Some(r) => Some(s.WithStage(s.request.stage, r.0).(worker := Fetching(r.1)))
  }

  /** A step of the command thread. */
  function CommandStep<S>(files: Files<S>, s: State<S>, a: Action<S>): Option<State<S>>
    requires Sized(s) && !a.WorkerWakes? && !a.WorkerFetch?
  {
    match (a, s.point)
    case (Begin(c), Idle) =>
      if !CommandValid(c) then Some(s)
      else if c.Source? then Some(s.(point := Taking(c))) else Some(s.(point := TargetReading(c, [])))
    case (Take, Taking(c)) =>
      if s.active then
        var matches := s.request.fd == c.fd && s.request.offset == c.offset && s.request.bytes == c.bytes;
        Some(s.(point := Awaiting(c, matches)))
      else Some(s.(point := Fetching0(c, 0)))
    case (Awake, Awaiting(c, matches)) =>
      if !s.done then None else
        var woken := s.(done := false, active := false);
        if !matches then Some(woken.(point := Fetching0(c, 0)))
        else if !s.fetched then Some(woken.(point := Idle))
        else Some(woken.(point := Scheduling(c, s.request.stage)))
    case (Sync(f), Fetching0(c, progress)) =>
      if f.Fail? then Some(s.(point := Idle))
      else if f.Finish? then
        if progress == c.bytes then Some(s.(point := Scheduling(c, 0))) else None
      else (
        match FetchStep(files, s.stage0, c.fd, c.offset, c.bytes, progress, f)
        case None => None
        case Some(r) => Some(s.(stage0 := r.0, point := Fetching0(c, r.1)))
      )
    case (Schedule, Scheduling(c, stage)) =>
      (match NextRequest(c, stage)
       case Some(r) =>
         if s.active then Some(s.(point := AfterBlock(c, stage)))
         else Some(s.(active := true, request := r, fetched := false, point := Signalling(c, stage)))
       case None => Some(s.(point := AfterBlock(c, stage))))
    case (Signal, Signalling(c, stage)) =>
      Some(s.(requested := true, point := AfterBlock(c, stage)))
    case (Pump(n), Pumping(c, stage, written)) =>
      if 0 < n <= c.bytes - |written| then
        var more := written + s.Stage(stage)[|written|..|written| + n];
        Some(s.(point := if |more| == c.bytes then Sending(c, stage, more, []) else Pumping(c, stage, more)))
      else None
    case (PumpFailed, Pumping(c, stage, written)) => Some(s.(point := Idle))
    case (Send(n), Sending(c, stage, written, sent)) =>
      if 0 < n <= c.bytes - |sent| then
        var more := sent + s.Stage(stage)[|sent|..|sent| + n];
        if |more| == c.bytes then Some(s.(point := Idle, log := s.log + [Delivery(c, written, more)]))
        else Some(s.(point := Sending(c, stage, written, more)))
      else None
    case (SendFailed, Sending(c, stage, written, sent)) => Some(s.(point := Idle))
    case (TargetRead(data), TargetReading(c, got)) =>
      if 0 < |data| <= c.bytes - |got| then
        var more := got + data;
        Some(s.(stage0 := Splice(s.stage0, |got|, data),
                point := if |more| == c.bytes then Sending(c, 0, more, []) else TargetReading(c, more)))
      else None
    case (TargetFailed, TargetReading(c, got)) => Some(s.(point := Idle))
    case (Close, Idle) =>
      if s.active then Some(s.(point := CloseAwaiting))
      else Some(s.(stop := true, requested := true, point := CloseJoining))
    case (Awake, CloseAwaiting) =>
      if s.done then Some(s.(done := false, active := false, stop := true, requested := true, point := CloseJoining))
      else None
    case (Join, CloseJoining) =>
      if s.worker.Stopped? then Some(s.(point := Closed)) else None
    case _ => None
  }

  function Step<S>(files: Files<S>, s: State<S>, a: Action<S>): Option<State<S>>
    requires Sized(s)
  {
    if a.WorkerWakes? || a.WorkerFetch? then WorkerStep(files, s, a) else CommandStep(files, s, a)
  }

  // ----- what every step keeps

  /** A request that a command made, so that a later command can ask for the same bytes. */
  predicate Askable(r: Request) {
    r.fd >= 0 && r.offset >= 0 && 0 < r.bytes <= STAGE_BYTES && r.bytes % 512 == 0
  }

  /** Semaphores, flags and threads agree about who may do what. */
  predicate Control<S>(s: State<S>)
    requires Sized(s)
  {
    && (if s.active then
          && !s.stop && Askable(s.request)
          && if s.point.Signalling? then s.worker.Waiting? && !s.requested && !s.done
             else if s.requested then s.worker.Waiting? && !s.done
             else if s.done then s.worker.Waiting? else s.worker.Fetching?
        else !s.done && !s.worker.Fetching? && !s.point.Signalling? && (s.requested ==> s.stop))
    && (s.stop <==> s.point.CloseJoining? || s.point.Closed?)
    && (s.stop ==> if s.requested then s.worker.Waiting? else s.worker.Stopped?)
    && (s.worker.Stopped? ==> s.stop)
    && (s.point.Closed? ==> s.worker.Stopped?)
    && PointControl(s.point, s.active, s.request, s.done && !s.fetched)
  }

  predicate Matches(c: Command, r: Request)
    requires c.Source?
  {
    r.fd == c.fd && r.offset == c.offset && r.bytes == c.bytes
  }

  /** A target command may share buffer 0 with a prefetch that has failed. */
  predicate PointControl<S>(p: Point<S>, active: bool, r: Request, failed: bool)
    requires PointSized(p)
  {
    match p
    case Awaiting(c, matches) => active && (matches <==> Matches(c, r))
    case CloseAwaiting => active
    case Fetching0(_, _) => !active
    case Scheduling(_, _) => !active
    case Signalling(_, stage) => active && r.stage == 1 - stage
    case Pumping(_, stage, _) => active ==> r.stage == 1 - stage
    case Sending(c, stage, _, _) => active ==> r.stage == 1 - stage || (c.Target? && failed)
    case TargetReading(_, _) => active ==> r.stage == 1 || failed
    case _ => true
  }

  /** The buffer starts with `n` bytes of the file, from `offset` on. */
  predicate Has<S(==)>(files: Files<S>, buffer: seq<S>, fd: int, offset: int, n: int) {
    0 <= n <= |buffer| && buffer[..n] == Slice(files, fd, offset, n)
  }

  predicate PointData<S(==)>(files: Files<S>, s: State<S>)
    requires Sized(s)
  {
    match s.point
    case Fetching0(c, progress) => Has(files, s.stage0, c.fd, c.offset, progress)
    case Scheduling(c, stage) => Has(files, s.Stage(stage), c.fd, c.offset, c.bytes)
    case Signalling(c, stage) => Has(files, s.Stage(stage), c.fd, c.offset, c.bytes)
    case Pumping(c, stage, written) =>
      c.pump && Has(files, s.Stage(stage), c.fd, c.offset, c.bytes) && written == s.Stage(stage)[..|written|]
    case Sending(c, stage, written, sent) =>
      && sent == s.Stage(stage)[..|sent|]
      && (c.Source? ==> Has(files, s.Stage(stage), c.fd, c.offset, c.bytes))
      && (if c.Target? || c.pump then written == s.Stage(stage)[..c.bytes] else written == [])
    case TargetReading(c, got) => got == s.stage0[..|got|]
    case _ => true
  }

  predicate WorkerData<S(==)>(files: Files<S>, s: State<S>)
    requires Sized(s)
  {
    && (s.worker.Fetching? ==>
          Has(files, s.Stage(s.request.stage), s.request.fd, s.request.offset, s.worker.progress))
    && (s.active && s.done && s.fetched ==>
          Has(files, s.Stage(s.request.stage), s.request.fd, s.request.offset, s.request.bytes))
  }

  /** A successful command moved exactly the bytes it was asked for. */
  predicate Delivered<S(==)>(files: Files<S>, d: Delivery<S>) {
    match d.command
    case Source(fd, offset, bytes, _, pump) =>
      && 0 <= bytes && d.sent == Slice(files, fd, offset, bytes)
      && d.target == if pump then d.sent else []
    case Target(bytes) => |d.sent| == bytes && d.sent == d.target
  }

  predicate LogGood<S(==)>(files: Files<S>, log: seq<Delivery<S>>) {
    forall d :: d in log ==> Delivered(files, d)
  }

  predicate Inv<S(==)>(files: Files<S>, s: State<S>) {
    Sized(s) && Control(s) && PointData(files, s) && WorkerData(files, s) && LogGood(files, s.log)
  }

  /**
   A target command uses staging buffer 0 without asking whether the worker has
   it, or has filled it. Nothing is lost if the prefetch into it has failed.
   */
  predicate Allowed<S>(s: State<S>, a: Action<S>) {
    a.Begin? && a.c.Target? ==> !(s.active && s.request.stage == 0 && !(s.done && !s.fetched))
  }

  lemma FetchKeeps<S>(files: Files<S>, buffer: seq<S>, fd: int, offset: int, bytes: int, progress: int, f: Fetch<S>)
    requires 0 <= progress <= bytes <= |buffer| && Has(files, buffer, fd, offset, progress)
    requires FetchStep(files, buffer, fd, offset, bytes, progress, f).Some?
    ensures var r := FetchStep(files, buffer, fd, offset, bytes, progress, f).value;
            && |r.0| == |buffer| && 0 <= r.1 <= bytes && Has(files, r.0, fd, offset, r.1)
  {
    var r := FetchStep(files, buffer, fd, offset, bytes, progress, f).value;
    forall i | 0 <= i < r.1 ensures r.0[..r.1][i] == Slice(files, fd, offset, r.1)[i] {
      if i < progress {
        assert buffer[..progress][i] == buffer[i];
      }
    }
  }

  /** The command thread reads or writes staging buffer `i`. */
  predicate Uses<S>(p: Point<S>, i: int) {
    match p
    case Fetching0(_, _) => i == 0
    case Scheduling(_, stage) => i == stage
    case Signalling(_, stage) => i == stage
    case Pumping(_, stage, _) => i == stage
    case Sending(_, stage, _, _) => i == stage
    case TargetReading(_, _) => i == 0
    case _ => false
  }

  /** A worker that is fetching has its staging buffer to itself. */
  lemma WorkerAlone<S>(s: State<S>)
    requires Sized(s) && Control(s) && s.worker.Fetching?
    ensures !Uses(s.point, s.request.stage) && !s.point.Fetching0? && s.active && !s.done
  {
  }

  lemma PointFrame<S>(files: Files<S>, s: State<S>, t: State<S>)
    requires Sized(s) && Sized(t) && PointData(files, s) && t.point == s.point
    requires Uses(s.point, 0) ==> t.stage0 == s.stage0
    requires Uses(s.point, 1) ==> t.stage1 == s.stage1
    ensures PointData(files, t)
  {
  }

  lemma WorkerWakesKeeps<S>(files: Files<S>, s: State<S>)
    requires Inv(files, s) && WorkerStep(files, s, WorkerWakes).Some?
    ensures Inv(files, WorkerStep(files, s, WorkerWakes).value)
  {
    var t := WorkerStep(files, s, WorkerWakes).value;
    PointFrame(files, s, t);
  }

  lemma WorkerEndKeeps<S>(files: Files<S>, s: State<S>, f: Fetch<S>)
    requires Inv(files, s) && (f.Finish? || f.Fail?) && WorkerStep(files, s, WorkerFetch(f)).Some?
    ensures Inv(files, WorkerStep(files, s, WorkerFetch(f)).value)
  {
    var t := WorkerStep(files, s, WorkerFetch(f)).value;
    WorkerAlone(s);
    PointFrame(files, s, t);
  }

  lemma WorkerCopyKeeps<S>(files: Files<S>, s: State<S>, f: Fetch<S>)
    requires Inv(files, s) && (f.Copy? || f.Spoil?) && WorkerStep(files, s, WorkerFetch(f)).Some?
    ensures Inv(files, WorkerStep(files, s, WorkerFetch(f)).value)
  {
    var t := WorkerStep(files, s, WorkerFetch(f)).value;
    WorkerAlone(s);
    FetchKeeps(files, s.Stage(s.request.stage), s.request.fd, s.request.offset, s.request.bytes, s.worker.progress, f);
    assert Sized(t);
    PointFrame(files, s, t);
  }

  lemma WorkerFrame<S>(files: Files<S>, s: State<S>, t: State<S>)
    requires Sized(s) && Sized(t) && WorkerData(files, s) && t.worker == s.worker && t.request == s.request
    requires t.active && t.done && t.fetched ==> s.active && s.done && s.fetched
    requires s.worker.Fetching? || (s.active && s.done && s.fetched) ==>
               t.Stage(s.request.stage) == s.Stage(s.request.stage)
    ensures WorkerData(files, t)
  {
  }

  lemma SyncKeeps<S>(files: Files<S>, s: State<S>, f: Fetch<S>)
    requires Inv(files, s) && CommandStep(files, s, Sync(f)).Some?
    ensures Inv(files, CommandStep(files, s, Sync(f)).value)
  {
    var t := CommandStep(files, s, Sync(f)).value;
    if f.Copy? || f.Spoil? {
      FetchKeeps(files, s.stage0, s.point.c.fd, s.point.c.offset, s.point.c.bytes, s.point.progress, f);
    }
    assert Sized(t);
    WorkerFrame(files, s, t);
  }

  lemma TakeKeeps<S>(files: Files<S>, s: State<S>, a: Action<S>)
    requires Inv(files, s) && (a.Begin? || a.Take? || a.Close? || a.Join?) && Allowed(s, a)
    requires CommandStep(files, s, a).Some?
    ensures Inv(files, CommandStep(files, s, a).value)
  {
    var t := CommandStep(files, s, a).value;
    WorkerFrame(files, s, t);
  }

  lemma AwakeKeeps<S>(files: Files<S>, s: State<S>)
    requires Inv(files, s) && CommandStep(files, s, Awake).Some?
    ensures Inv(files, CommandStep(files, s, Awake).value)
  {
  }

  lemma ScheduleKeeps<S>(files: Files<S>, s: State<S>, a: Action<S>)
    requires Inv(files, s) && (a.Schedule? || a.Signal?) && CommandStep(files, s, a).Some?
    ensures Inv(files, CommandStep(files, s, a).value)
  {
  }

  lemma NextPiece<S>(buffer: seq<S>, got: seq<S>, n: int)
    requires 0 <= n && |got| + n <= |buffer| && got == buffer[..|got|]
    ensures got + buffer[|got|..|got| + n] == buffer[..|got| + n]
  {
  }

  lemma PumpKeeps<S>(files: Files<S>, s: State<S>, a: Action<S>)
    requires Inv(files, s) && (a.Pump? || a.PumpFailed?) && CommandStep(files, s, a).Some?
    ensures Inv(files, CommandStep(files, s, a).value)
  {
    if a.Pump? {
      NextPiece(s.Stage(s.point.stage), s.point.written, a.n);
    }
    WorkerFrame(files, s, CommandStep(files, s, a).value);
  }

  /** The last piece to the EE completes a delivery. */
  lemma LastPiece<S>(files: Files<S>, s: State<S>, sent: seq<S>)
    requires Sized(s) && PointData(files, s) && s.point.Sending?
    requires |sent| == s.point.c.bytes && sent == s.Stage(s.point.stage)[..|sent|]
    ensures Delivered(files, Delivery(s.point.c, s.point.written, sent))
  {
  }

  lemma SendMoreKeeps<S>(files: Files<S>, s: State<S>, n: int)
    requires Inv(files, s) && s.point.Sending? && 0 < n < s.point.c.bytes - |s.point.sent|
    ensures CommandStep(files, s, Send(n)).Some? && Inv(files, CommandStep(files, s, Send(n)).value)
  {
    var buffer := s.Stage(s.point.stage);
    var more := s.point.sent + buffer[|s.point.sent|..|s.point.sent| + n];
    NextPiece(buffer, s.point.sent, n);
    var t := s.(point := Sending(s.point.c, s.point.stage, s.point.written, more));
    assert CommandStep(files, s, Send(n)) == Some(t);
    WorkerFrame(files, s, t);
  }

  lemma SendLastKeeps<S>(files: Files<S>, s: State<S>, n: int)
    requires Inv(files, s) && s.point.Sending? && 0 < n == s.point.c.bytes - |s.point.sent|
    ensures CommandStep(files, s, Send(n)).Some? && Inv(files, CommandStep(files, s, Send(n)).value)
  {
    var buffer := s.Stage(s.point.stage);
    var more := s.point.sent + buffer[|s.point.sent|..|s.point.sent| + n];
    NextPiece(buffer, s.point.sent, n);
    LastPiece(files, s, more);
    var t := s.(point := Idle, log := s.log + [Delivery(s.point.c, s.point.written, more)]);
    assert CommandStep(files, s, Send(n)) == Some(t);
    WorkerFrame(files, s, t);
  }

  lemma SendFailedKeeps<S>(files: Files<S>, s: State<S>)
    requires Inv(files, s) && CommandStep(files, s, SendFailed).Some?
    ensures Inv(files, CommandStep(files, s, SendFailed).value)
  {
    WorkerFrame(files, s, CommandStep(files, s, SendFailed).value);
  }

  lemma TargetKeeps<S>(files: Files<S>, s: State<S>, a: Action<S>)
    requires Inv(files, s) && (a.TargetRead? || a.TargetFailed?) && CommandStep(files, s, a).Some?
    ensures Inv(files, CommandStep(files, s, a).value)
  {
    var t := CommandStep(files, s, a).value;
    if a.TargetRead? {
      var more := s.point.got + a.data;
      assert t.stage0[..|more|] == more;
    }
    WorkerFrame(files, s, t);
  }

  /** Every step keeps the invariant. */
  lemma StepKeeps<S>(files: Files<S>, s: State<S>, a: Action<S>)
    requires Inv(files, s) && Allowed(s, a) && Step(files, s, a).Some?
    ensures Inv(files, Step(files, s, a).value)
  {
    match a
    case WorkerWakes => WorkerWakesKeeps(files, s);
    case WorkerFetch(f) =>
      if f.Finish? || f.Fail? { WorkerEndKeeps(files, s, f); } else { WorkerCopyKeeps(files, s, f); }
    case Sync(f) => SyncKeeps(files, s, f);
    case Awake => AwakeKeeps(files, s);
    case Schedule => ScheduleKeeps(files, s, a);
    case Signal => ScheduleKeeps(files, s, a);
    case Pump(_) => PumpKeeps(files, s, a);
    case PumpFailed => PumpKeeps(files, s, a);
    case Send(n) =>
      if n < s.point.c.bytes - |s.point.sent| { SendMoreKeeps(files, s, n); } else { SendLastKeeps(files, s, n); }
    case SendFailed => SendFailedKeeps(files, s);
    case TargetRead(_) => TargetKeeps(files, s, a);
    case TargetFailed => TargetKeeps(files, s, a);
    case _ => TakeKeeps(files, s, a);
  }

  /** A reader that goes through a file in full blocks always asks for what was prefetched for it. */
  lemma SequentialHits(c: Command, d: Command, stage: int)
    requires c.Source? && d.Source? && CommandValid(c) && CommandValid(d) && (stage == 0 || stage == 1)
    requires d.fd == c.fd && d.total == c.total && d.offset == c.offset + c.bytes
    requires d.bytes == STAGE_BYTES || d.offset + d.bytes == d.total
    ensures NextRequest(c, stage).Some? && Matches(d, NextRequest(c, stage).value)
    ensures NextRequest(c, stage).value.stage == 1 - stage
  {
  }

  // ----- whole runs

  /** The states of a run, one step after another. */
  predicate Run<S(==)>(files: Files<S>, states: seq<State<S>>, actions: seq<Action<S>>) {
    && |states| == |actions| + 1
    && forall i :: 0 <= i < |actions| ==> Moves(files, states, actions, i)
  }

  predicate Moves<S(==)>(files: Files<S>, states: seq<State<S>>, actions: seq<Action<S>>, i: nat)
    requires i < |actions| && |states| == |actions| + 1
  {
    Sized(states[i]) && Step(files, states[i], actions[i]) == Some(states[i + 1])
  }

  /** Two staging buffers, a running worker, nothing prefetched. */
  predicate Start<S(==)>(s: State<S>) {
    && |s.stage0| == |s.stage1| == STAGE_BYTES
    && !s.active && s.request == Request(0, 0, 0, 0) && !s.requested && !s.done && !s.stop
    && s.worker.Waiting? && s.point.Idle? && s.log == []
  }

  /** What a stream user relies on, at one moment. */
  ghost predicate Safe<S(!new)>(files: Files<S>, s: State<S>) {
    && Sized(s)
    && LogGood(files, s.log)
    && (s.worker.Fetching? ==> !Uses(s.point, s.request.stage) && !s.point.Fetching0?)
    && (s.point.Closed? ==> s.worker.Stopped?)
  }

  lemma StartsWell<S>(files: Files<S>, s: State<S>)
    requires Start(s)
    ensures Inv(files, s)
  {
  }

  lemma InvIsSafe<S(!new)>(files: Files<S>, s: State<S>)
    requires Inv(files, s)
    ensures Safe(files, s)
  {
    if s.worker.Fetching? {
      WorkerAlone(s);
    }
  }

  /**
   Pipeline refinement. Under every interleaving of the worker with any
   sequence of commands, every command that succeeds delivers exactly the
   bytes at its own offset; the worker never has the staging buffer the
   command thread uses; the two never use the fragment cursor at once; and
   when the stream is closed the worker has stopped.
   */
  lemma {:induction false} PipelineRefines<S(!new)>(files: Files<S>, states: seq<State<S>>, actions: seq<Action<S>>,
                                                    n: nat)
    requires Run(files, states, actions) && Start(states[0]) && n <= |actions|
    requires forall i :: 0 <= i < |actions| ==> Allowed(states[i], actions[i])
    ensures Inv(files, states[n]) && Safe(files, states[n])
  {
    if n == 0 {
      StartsWell(files, states[0]);
    } else {
      PipelineRefines(files, states, actions, n - 1);
      assert Moves(files, states, actions, n - 1);
      StepKeeps(files, states[n - 1], actions[n - 1]);
    }
    InvIsSafe(files, states[n]);
  }

  /** A command thread that waits for the worker is woken: the worker can move, or has finished. */
  lemma NeverStuck<S>(files: Files<S>, s: State<S>)
    requires Inv(files, s)
    ensures s.point.Awaiting? || s.point.CloseAwaiting? ==>
              s.done || Step(files, s, WorkerWakes).Some? || Step(files, s, WorkerFetch(Fail)).Some?
    ensures s.point.CloseJoining? ==> s.worker.Stopped? || Step(files, s, WorkerWakes).Some?
  {
  }

  // ----- why the guard on target commands is exact

  /** A run that can be extended: it ends in `t`. */
  predicate Ends<S(==)>(files: Files<S>, states: seq<State<S>>, actions: seq<Action<S>>, t: State<S>) {
    Run(files, states, actions) && states[|actions|] == t && Sized(t)
  }

  lemma Extend<S>(files: Files<S>, states: seq<State<S>>, actions: seq<Action<S>>, s: State<S>, a: Action<S>)
    returns (more: seq<State<S>>, did: seq<Action<S>>, t: State<S>)
    requires Ends(files, states, actions, s) && Step(files, s, a).Some? && Sized(Step(files, s, a).value)
    ensures t == Step(files, s, a).value && Ends(files, more, did, t) && more[0] == states[0]
  {
    t := Step(files, s, a).value;
    more, did := states + [t], actions + [a];
    forall i | 0 <= i < |did| ensures Moves(files, more, did, i) {
      assert i < |actions| ==> Moves(files, states, actions, i);
    }
  }

  /** Between commands, with everything that was asked of the worker in its buffer. */
  predicate Ready<S(==)>(files: Files<S>, s: State<S>, r: Request) {
    && Sized(s) && s.point.Idle? && s.active && s.request == r && s.done && s.fetched && !s.requested && !s.stop
    && s.worker.Waiting? && 0 < r.bytes
    && Has(files, s.Stage(r.stage), r.fd, r.offset, r.bytes)
  }

  /** Between commands, with a prefetch that has not failed. */
  predicate Pending<S(==)>(files: Files<S>, s: State<S>, r: Request) {
    && Inv(files, s) && s.point.Idle? && s.active && s.request == r && (s.done ==> s.fetched)
  }

  /** A worker that was asked wakes up. */
  lemma WorkerStarts<S>(files: Files<S>, states: seq<State<S>>, actions: seq<Action<S>>, s: State<S>, r: Request)
    returns (more: seq<State<S>>, did: seq<Action<S>>, t: State<S>)
    requires Ends(files, states, actions, s) && Pending(files, s, r)
    ensures Ends(files, more, did, t) && more[0] == states[0] && Pending(files, t, r)
    ensures !t.requested && t.log == s.log
  {
    more, did, t := states, actions, s;
    if t.requested {
      StepKeeps(files, t, WorkerWakes);
      more, did, t := Extend(files, more, did, t, WorkerWakes);
    }
  }

  /** All bytes of its request arrive. */
  lemma WorkerCopies<S>(files: Files<S>, states: seq<State<S>>, actions: seq<Action<S>>, s: State<S>, r: Request)
    returns (more: seq<State<S>>, did: seq<Action<S>>, t: State<S>)
    requires Ends(files, states, actions, s) && Pending(files, s, r) && s.worker.Fetching?
    ensures Ends(files, more, did, t) && more[0] == states[0] && Pending(files, t, r)
    ensures t.worker == Fetching(r.bytes) && !t.requested && t.log == s.log
  {
    more, did, t := states, actions, s;
    if t.worker.progress < r.bytes {
      var copy := WorkerFetch(Copy(r.bytes - t.worker.progress));
      StepKeeps(files, t, copy);
      more, did, t := Extend(files, more, did, t, copy);
    }
  }

  lemma WorkerCompletes<S>(files: Files<S>, states: seq<State<S>>, actions: seq<Action<S>>, s: State<S>, r: Request)
    returns (more: seq<State<S>>, did: seq<Action<S>>, t: State<S>)
    requires Ends(files, states, actions, s) && Pending(files, s, r)
    ensures Ends(files, more, did, t) && more[0] == states[0] && Inv(files, t) && Ready(files, t, r) && t.log == s.log
  {
    more, did, t := WorkerStarts(files, states, actions, s, r);
    if t.worker.Fetching? {
      more, did, t := WorkerCopies(files, more, did, t, r);
      StepKeeps(files, t, WorkerFetch(Finish));
      more, did, t := Extend(files, more, did, t, WorkerFetch(Finish));
    }
  }

  /** Sending a whole block in one piece. */
  lemma SendsWhole<S>(files: Files<S>, s: State<S>)
    requires Sized(s) && s.point.Sending? && s.point.sent == []
    ensures var p := s.point; var all := s.Stage(p.stage)[..p.c.bytes];
            var t := s.(point := Idle, log := s.log + [Delivery(p.c, p.written, all)]);
            Step(files, s, Send(p.c.bytes)) == Some(t) && Sized(t)
  {
    var p := s.point;
    assert [] + s.Stage(p.stage)[0..p.c.bytes] == s.Stage(p.stage)[..p.c.bytes];
  }

  /** A target command of one sector, let loose on a finished prefetch in buffer 0. */
  lemma TargetOverwrites<S>(files: Files<S>, states: seq<State<S>>, actions: seq<Action<S>>, s: State<S>,
                            r: Request, data: seq<S>)
    returns (more: seq<State<S>>, did: seq<Action<S>>, t: State<S>)
    requires Ends(files, states, actions, s) && Ready(files, s, r) && |data| == 512
    ensures Ends(files, more, did, t) && more[0] == states[0]
    ensures t == s.(stage0 := Splice(s.stage0, 0, data), log := s.log + [Delivery(Target(512), data, data)])
  {
    more, did, t := Extend(files, states, actions, s, Begin(Target(512)));
    assert [] + data == data;
    more, did, t := Extend(files, more, did, t, TargetRead(data));
    assert t == s.(stage0 := Splice(s.stage0, 0, data), point := Sending(Target(512), 0, data, []));
    assert t.stage0[..512] == data;
    SendsWhole(files, t);
    more, did, t := Extend(files, more, did, t, Send(512));
  }

  /** A source command that asks for a finished prefetch takes it. */
  lemma SourceMatches<S>(files: Files<S>, states: seq<State<S>>, actions: seq<Action<S>>, s: State<S>, c: Command)
    returns (more: seq<State<S>>, did: seq<Action<S>>, t: State<S>)
    requires Ends(files, states, actions, s) && s.point.Idle? && s.active && s.done && s.fetched
    requires CommandValid(c) && c.Source? && Matches(c, s.request)
    ensures Ends(files, more, did, t) && more[0] == states[0]
    ensures t == s.(done := false, active := false, point := Scheduling(c, s.request.stage))
  {
    more, did, t := Extend(files, states, actions, s, Begin(c));
    more, did, t := Extend(files, more, did, t, Take);
    more, did, t := Extend(files, more, did, t, Awake);
  }

  /** With nothing left to prefetch, a source command sends what its buffer holds. */
  lemma SourceSends<S>(files: Files<S>, states: seq<State<S>>, actions: seq<Action<S>>, s: State<S>)
    returns (more: seq<State<S>>, did: seq<Action<S>>, t: State<S>)
    requires Ends(files, states, actions, s) && s.point.Scheduling? && !s.active
    requires !s.point.c.pump && s.point.c.offset + s.point.c.bytes == s.point.c.total
    ensures Ends(files, more, did, t) && more[0] == states[0]
    ensures t.log == s.log + [Delivery(s.point.c, [], s.Stage(s.point.stage)[..s.point.c.bytes])]
  {
    var p: Point<S> := Sending(s.point.c, s.point.stage, [], []);
    assert Step(files, s, Schedule) == Some(s.(point := p));
    more, did, t := Extend(files, states, actions, s, Schedule);
    SendsWhole(files, t);
    more, did, t := Extend(files, more, did, t, Send(s.point.c.bytes));
  }

  /**
   Without the guard: wherever a prefetch into buffer 0 is pending or complete,
   a target command whose first byte differs from the prefetched one lets a
   later source command succeed with the wrong bytes.
   */
  lemma TargetNeedsGuard<S>(files: Files<S>, states: seq<State<S>>, actions: seq<Action<S>>, s: State<S>, data: seq<S>)
    returns (more: seq<State<S>>, did: seq<Action<S>>, t: State<S>)
    requires Ends(files, states, actions, s) && Pending(files, s, s.request)
    requires s.request.stage == 0
    requires |data| == 512 && data[0] != files(s.request.fd, s.request.offset)
    ensures Ends(files, more, did, t) && more[0] == states[0] && !LogGood(files, t.log)
  {
    var r := s.request;
    more, did, t := WorkerCompletes(files, states, actions, s, r);
    more, did, t := TargetOverwrites(files, more, did, t, r, data);
    assert t.stage0[..r.bytes][0] == data[0];
    var c := Source(r.fd, r.offset, r.bytes, r.offset + r.bytes, false);
    var wrong := Delivery(c, [], t.stage0[..r.bytes]);
    more, did, t := SourceMatches(files, more, did, t, c);
    more, did, t := SourceSends(files, more, did, t);
    assert wrong in t.log;
    assert Slice(files, r.fd, r.offset, r.bytes)[0] == files(r.fd, r.offset + 0);
    assert !Delivered(files, wrong);
  }

  /**
   The guard is exact. Between two commands a target command that it allows
   keeps the invariant, and where it forbids one, a target command of one sector
   lets a later source command succeed with the wrong bytes.
   */
  lemma GuardIsExact<S>(files: Files<S>, states: seq<State<S>>, actions: seq<Action<S>>, s: State<S>, data: seq<S>)
    returns (more: seq<State<S>>, did: seq<Action<S>>, t: State<S>)
    requires Ends(files, states, actions, s) && Inv(files, s) && s.point.Idle?
    requires |data| == 512 && data[0] != files(s.request.fd, s.request.offset)
    ensures Step(files, s, Begin(Target(512))).Some?
    ensures Allowed(s, Begin(Target(512))) ==> Inv(files, Step(files, s, Begin(Target(512))).value)
    ensures !Allowed(s, Begin(Target(512))) ==>
              Ends(files, more, did, t) && more[0] == states[0] && !LogGood(files, t.log)
  {
    more, did, t := states, actions, s;
    if Allowed(s, Begin(Target(512))) {
      StepKeeps(files, s, Begin(Target(512)));
    } else {
      more, did, t := TargetNeedsGuard(files, states, actions, s, data);
    }
  }

  /** A command asks for the next block before it sends its own. */
  lemma SourceAsks<S>(files: Files<S>, states: seq<State<S>>, actions: seq<Action<S>>, s: State<S>, r: Request)
    returns (more: seq<State<S>>, did: seq<Action<S>>, t: State<S>)
    requires Ends(files, states, actions, s) && Inv(files, s) && s.point.Scheduling? && !s.point.c.pump
    requires NextRequest(s.point.c, s.point.stage) == Some(r)
    ensures Ends(files, more, did, t) && more[0] == states[0] && Inv(files, t)
    ensures t.point == Sending(s.point.c, s.point.stage, [], []) && t.active && t.request == r && !t.done
  {
    StepKeeps(files, s, Schedule);
    more, did, t := Extend(files, states, actions, s, Schedule);
    StepKeeps(files, t, Signal);
    more, did, t := Extend(files, more, did, t, Signal);
  }

  /** Then it sends its own. */
  lemma SourcePrefetches<S>(files: Files<S>, states: seq<State<S>>, actions: seq<Action<S>>, s: State<S>, r: Request)
    returns (more: seq<State<S>>, did: seq<Action<S>>, t: State<S>)
    requires Ends(files, states, actions, s) && Inv(files, s) && s.point.Scheduling? && !s.point.c.pump
    requires NextRequest(s.point.c, s.point.stage) == Some(r)
    ensures Ends(files, more, did, t) && more[0] == states[0] && Pending(files, t, r)
  {
    more, did, t := SourceAsks(files, states, actions, s, r);
    SendsWhole(files, t);
    StepKeeps(files, t, Send(s.point.c.bytes));
    more, did, t := Extend(files, more, did, t, Send(s.point.c.bytes));
  }

  /** A first source command reads its block itself. */
  lemma SourceReads<S>(files: Files<S>, states: seq<State<S>>, actions: seq<Action<S>>, s: State<S>, c: Command)
    returns (more: seq<State<S>>, did: seq<Action<S>>, t: State<S>)
    requires Ends(files, states, actions, s) && Inv(files, s) && s.point.Idle? && !s.active
    requires CommandValid(c) && c.Source?
    ensures Ends(files, more, did, t) && more[0] == states[0] && Inv(files, t) && t.point == Scheduling(c, 0)
    ensures t.log == s.log
  {
    StepKeeps(files, s, Begin(c));
    more, did, t := Extend(files, states, actions, s, Begin(c));
    StepKeeps(files, t, Take);
    more, did, t := Extend(files, more, did, t, Take);
    StepKeeps(files, t, Sync(Copy(c.bytes)));
    more, did, t := Extend(files, more, did, t, Sync(Copy(c.bytes)));
    StepKeeps(files, t, Sync(Finish));
    more, did, t := Extend(files, more, did, t, Sync(Finish));
  }

  /**
   The hazard is real: reading a file in order from a fresh stream leaves, after
   the second block, a prefetch into buffer 0. A target command then makes a
   later read of the third block succeed with the wrong bytes.
   */
  lemma TargetHazard<S>(files: Files<S>, s: State<S>, data: seq<S>)
    returns (states: seq<State<S>>, actions: seq<Action<S>>)
    requires Start(s) && |data| == 512 && data[0] != files(0, 2 * STAGE_BYTES)
    ensures Run(files, states, actions) && states[0] == s && !LogGood(files, states[|actions|].log)
  {
    StartsWell(files, s);
    var t := s;
    states, actions := [s], [];
    var first, second := Source(0, 0, STAGE_BYTES, 4 * STAGE_BYTES, false),
                         Source(0, STAGE_BYTES, STAGE_BYTES, 4 * STAGE_BYTES, false);
    states, actions, t := SourceReads(files, states, actions, t, first);
    states, actions, t := SourcePrefetches(files, states, actions, t, Request(0, STAGE_BYTES, STAGE_BYTES, 1));
    states, actions, t := WorkerCompletes(files, states, actions, t, t.request);
    AfterMatch(files, t, second);
    states, actions, t := SourceMatches(files, states, actions, t, second);
    states, actions, t := SourcePrefetches(files, states, actions, t, Request(0, 2 * STAGE_BYTES, STAGE_BYTES, 0));
    states, actions, t := TargetNeedsGuard(files, states, actions, t, data);
  }

  lemma AfterMatch<S>(files: Files<S>, s: State<S>, c: Command)
    requires Inv(files, s) && CommandValid(c) && c.Source? && Ready(files, s, s.request) && Matches(c, s.request)
    ensures Inv(files, s.(done := false, active := false, point := Scheduling(c, s.request.stage)))
  {
  }
}
