/**
 The install path: the source pipeline and the stream it pumps into, as one
 transition system. What a pump command delivered is on the partitions, where
 the metadata says.
 */
module HdlInstall {
  import opened Words
  import opened HdlPartition
  import opened HdlMetadata
  import opened HdlPlacement
  import HdlStream
  import Prefetch

  /** The pipeline, the position of the stream and the 512-byte sectors of its partitions. */
  datatype State<S> = State(pipe: Prefetch.State<S>, position: int, target: map<HdlStream.Place, seq<S>>)

  datatype Action<S> =
    | Pipe(step: Prefetch.Action<S>)                       // a step that leaves the stream alone
    | Write(n: int)                                        // a request of a pump moves `n` bytes
    | WriteFails(n: int, landed: set<HdlStream.Place>)     // it fails, and some of its sectors are written
    | Read(n: int)                                         // a request of a target command
    | Seek(to: int)                                        // between two commands

  /** The 512-byte sectors of a run of bytes. */
  function Chop<S>(data: seq<S>): (sectors: seq<seq<S>>)
    requires |data| % 512 == 0
    ensures |sectors| * 512 == |data|
    ensures forall i :: 0 <= i < |sectors| ==> sectors[i] == data[512 * i..512 * i + 512]
  {
    seq(|data| / 512, i requires 0 <= i < |data| / 512 => data[512 * i..512 * i + 512])
  }

  /** The bytes of `count` sectors of the stream, from position `k` on. */
  function Contents<S>(lengths: seq<u32>, target: map<HdlStream.Place, seq<S>>, k: int, count: nat): seq<S>
    requires HdlStream.Opened(lengths) && 0 <= k && k + count <= HdlStream.Total(lengths)
    requires forall p :: HdlStream.IsData(lengths, p) ==> p in target
  {
    if count == 0 then [] else
      Contents(lengths, target, k, count - 1) + target[HdlStream.PlaceOf(lengths, k + count - 1)]
  }

  /** The position is a sector of the stream, and every data sector exists. */
  ghost predicate OnStream<S(!new)>(lengths: seq<u32>, s: State<S>) {
    && HdlStream.Opened(lengths)
    && 0 <= s.position <= 512 * HdlStream.Total(lengths) && s.position % 512 == 0
    && (forall p :: HdlStream.IsData(lengths, p) ==> p in s.target)
  }

  /** A request for `n` of `remaining` bytes: whole sectors, within one partition and within the stream. */
  predicate Requestable(lengths: seq<u32>, position: int, n: int, remaining: int)
    requires HdlStream.Opened(lengths) && 0 <= position && position % 512 == 0
  {
    && 0 < n <= remaining && n % 512 == 0
    && position + remaining <= 512 * HdlStream.Total(lengths)
    && var p := HdlStream.PlaceOf(lengths, position / 512); p.sector + n / 512 <= lengths[p.part]
  }

  /** The next `n` bytes of the block that is being pumped. */
  function Piece<S>(pipe: Prefetch.State<S>, n: int): seq<S>
    requires Prefetch.Sized(pipe) && pipe.point.Pumping? && 0 <= n <= pipe.point.c.bytes - |pipe.point.written|
  {
    pipe.Stage(pipe.point.stage)[|pipe.point.written|..|pipe.point.written| + n]
  }

  ghost function Step<S(!new)>(files: Prefetch.Files<S>, lengths: seq<u32>, s: State<S>, a: Action<S>): Option<State<S>>
    requires Prefetch.Sized(s.pipe) && OnStream(lengths, s)
  {
    match a
    case Pipe(step) =>
      if step.Pump? || step.TargetRead? then None
      else (
        match Prefetch.Step(files, s.pipe, step)
        case None => None
        case Some(pipe) => Some(s.(pipe := pipe))
      )
    case Seek(to) =>
      if s.pipe.point.Idle? && 0 <= to <= 512 * HdlStream.Total(lengths) && to % 512 == 0
      then Some(s.(position := to)) else None
    case Write(n) => Pumped(files, lengths, s, n, {}, true)
    case WriteFails(n, landed) => Pumped(files, lengths, s, n, landed, false)
    case Read(n) =>
      if !s.pipe.point.TargetReading? || !Requestable(lengths, s.position, n, s.pipe.point.c.bytes - |s.pipe.point.got|)
      then None
      else
        RequestInStream(lengths, s.position, n, s.pipe.point.c.bytes - |s.pipe.point.got|);
        var data := Contents(lengths, s.target, s.position / 512, n / 512);
        match Prefetch.Step(files, s.pipe, Prefetch.TargetRead(data))
        case None => None
        case Some(pipe) => Some(s.(pipe := pipe, position := s.position + n))
  }

  lemma RequestInStream(lengths: seq<u32>, position: int, n: int, remaining: int)
    requires HdlStream.Opened(lengths) && 0 <= position && position % 512 == 0
    requires Requestable(lengths, position, n, remaining)
    ensures position / 512 + n / 512 <= HdlStream.Total(lengths)
  {
  }

  /** A request of a pump: its sectors go where the stream stands, and the position follows if all went well. */
  ghost function Pumped<S(!new)>(files: Prefetch.Files<S>, lengths: seq<u32>, s: State<S>, n: int,
                                 landed: set<HdlStream.Place>, ok: bool): Option<State<S>>
    requires Prefetch.Sized(s.pipe) && OnStream(lengths, s)
  {
    if !s.pipe.point.Pumping? || !Requestable(lengths, s.position, n, s.pipe.point.c.bytes - |s.pipe.point.written|)
    then None
    else
      var place := HdlStream.PlaceOf(lengths, s.position / 512);
      var target := HdlStream.Stored(s.target, place, Chop(Piece(s.pipe, n)), landed, ok);
      match Prefetch.Step(files, s.pipe, if ok then Prefetch.Pump(n) else Prefetch.PumpFailed)
      case None => None
      case Some(pipe) => Some(State(pipe, if ok then s.position + n else s.position, target))
  }

  /** What the installing user keeps to: pumps go to the place in the stream that they come from in the file. */
  predicate InPlace<S>(fd: int, s: State<S>, a: Action<S>) {
    && (a.Pipe? ==> Prefetch.Allowed(s.pipe, a.step))
    && (a.Pipe? && a.step.Begin? && a.step.c.Source? && a.step.c.pump ==>
          a.step.c.fd == fd && a.step.c.offset == s.position)
  }

  // ----- what every step keeps

  function FileSector<S>(files: Prefetch.Files<S>, fd: int, k: int): seq<S> {
    Prefetch.Slice(files, fd, 512 * k, 512)
  }

  /** Stream sector `k` holds sector `k` of the file. */
  ghost predicate Holds<S(!new)>(files: Prefetch.Files<S>, lengths: seq<u32>, fd: int,
                                 target: map<HdlStream.Place, seq<S>>, k: int)
    requires HdlStream.Opened(lengths)
  {
    && 0 <= k < HdlStream.Total(lengths)
    && var p := HdlStream.PlaceOf(lengths, k); p in target && target[p] == FileSector(files, fd, k)
  }

  /** Every sector of the stream from byte `from` to byte `upTo` holds that part of the file. */
  ghost predicate HoldsRun<S(!new)>(files: Prefetch.Files<S>, lengths: seq<u32>, fd: int,
                                    target: map<HdlStream.Place, seq<S>>, from: int, upTo: int)
    requires HdlStream.Opened(lengths)
  {
    forall k :: from <= 512 * k < upTo ==> Holds(files, lengths, fd, target, k)
  }

  /** Everything that a pump delivered is in the stream. */
  ghost predicate LogHolds<S(!new)>(files: Prefetch.Files<S>, lengths: seq<u32>, fd: int,
                                    target: map<HdlStream.Place, seq<S>>, log: seq<Prefetch.Delivery<S>>)
    requires HdlStream.Opened(lengths)
  {
    forall d :: d in log && d.command.Source? && d.command.pump ==>
      HoldsRun(files, lengths, fd, target, d.command.offset, d.command.offset + d.command.bytes)
  }

  /** A pump on its way stands where it should, and what it has written is in the stream. */
  ghost predicate PumpHolds<S(!new)>(files: Prefetch.Files<S>, lengths: seq<u32>, fd: int, s: State<S>)
    requires HdlStream.Opened(lengths) && Prefetch.Sized(s.pipe)
  {
    match s.pipe.point
    case Taking(c) => StandsAt(c, fd, s.position)
    case Awaiting(c, _) => StandsAt(c, fd, s.position)
    case Fetching0(c, _) => StandsAt(c, fd, s.position)
    case Scheduling(c, _) => StandsAt(c, fd, s.position)
    case Signalling(c, _) => StandsAt(c, fd, s.position)
    case Pumping(c, _, written) =>
      && StandsAt(c, fd, s.position - |written|)
      && HoldsRun(files, lengths, fd, s.target, c.offset, c.offset + |written|)
    case Sending(c, _, _, _) =>
      c.Source? && c.pump ==> HoldsRun(files, lengths, fd, s.target, c.offset, c.offset + c.bytes)
    case _ => true
  }

  predicate StandsAt(c: Prefetch.Command, fd: int, position: int) {
    c.Source? && c.pump ==> c.fd == fd && c.offset == position
  }

  ghost predicate Inv<S(!new)>(files: Prefetch.Files<S>, lengths: seq<u32>, fd: int, s: State<S>) {
    && OnStream(lengths, s)
    && Prefetch.Inv(files, s.pipe)
    && LogHolds(files, lengths, fd, s.target, s.pipe.log)
    && PumpHolds(files, lengths, fd, s)
  }

  // ----- one request

  /** Storing file sectors at their own positions spoils nothing, and puts them there if all are stored. */
  lemma StoredHolds<S(!new)>(files: Prefetch.Files<S>, lengths: seq<u32>, fd: int,
                             target: map<HdlStream.Place, seq<S>>, at: int, data: seq<seq<S>>,
                             landed: set<HdlStream.Place>, all: bool, k: int)
    requires HdlStream.Opened(lengths) && 0 <= at < HdlStream.Total(lengths) && 0 <= k < HdlStream.Total(lengths)
    requires var p := HdlStream.PlaceOf(lengths, at); p.sector + |data| <= lengths[p.part]
    requires forall i :: 0 <= i < |data| ==> data[i] == FileSector(files, fd, at + i)
    requires HdlStream.PlaceOf(lengths, k) in target
    ensures var after := HdlStream.Stored(target, HdlStream.PlaceOf(lengths, at), data, landed, all);
            && (Holds(files, lengths, fd, target, k) ==> Holds(files, lengths, fd, after, k))
            && (all && at <= k < at + |data| ==> Holds(files, lengths, fd, after, k))
  {
    HdlStream.RunIsContiguous(lengths, HdlStream.PlaceOf(lengths, at), |data|, HdlStream.PlaceOf(lengths, k));
  }

  lemma Times512(position: int, i: int)
    requires position % 512 == 0
    ensures 512 * (position / 512 + i) == position + 512 * i
  {
  }

  lemma SliceInSlice<S>(s: seq<S>, from: nat, n: nat, a: nat, b: nat)
    requires a <= b <= n && from + n <= |s|
    ensures s[from..from + n][a..b] == s[from + a..from + b]
  {
    var piece := s[from..from + n];
    forall j | 0 <= j < b - a ensures piece[a..b][j] == s[from + a..from + b][j] {
      assert piece[a + j] == s[from + (a + j)];
    }
  }

  lemma ChopAt<S>(buffer: seq<S>, from: nat, n: nat, i: nat)
    requires from + n <= |buffer| && n % 512 == 0 && i < n / 512
    ensures Chop(buffer[from..from + n])[i] == buffer[from + 512 * i..from + 512 * i + 512]
  {
    SliceInSlice(buffer, from, n, 512 * i, 512 * i + 512);
  }

  /** The sectors of the next piece of a pump are the file's sectors at the stream position. */
  lemma PieceIsFile<S(!new)>(files: Prefetch.Files<S>, lengths: seq<u32>, fd: int, s: State<S>, n: int, i: int)
    requires Inv(files, lengths, fd, s) && s.pipe.point.Pumping?
    requires Requestable(lengths, s.position, n, s.pipe.point.c.bytes - |s.pipe.point.written|)
    requires 0 <= i < n / 512
    ensures Chop(Piece(s.pipe, n))[i] == FileSector(files, fd, s.position / 512 + i)
  {
    var c, w, stage := s.pipe.point.c, |s.pipe.point.written|, s.pipe.Stage(s.pipe.point.stage);
    Times512(s.position, i);
    SliceOfBlock(files, fd, c.offset, c.bytes, stage, w + 512 * i);
    ChopAt(stage, w, n, i);
  }

  lemma SliceOfBlock<S>(files: Prefetch.Files<S>, fd: int, offset: int, bytes: int, buffer: seq<S>, from: int)
    requires Prefetch.Has(files, buffer, fd, offset, bytes) && 0 <= from && from + 512 <= bytes
    ensures buffer[from..from + 512] == Prefetch.Slice(files, fd, offset + from, 512)
  {
    var block, whole := Prefetch.Slice(files, fd, offset + from, 512), Prefetch.Slice(files, fd, offset, bytes);
    forall j | 0 <= j < 512 ensures buffer[from..from + 512][j] == block[j] {
      assert buffer[..bytes][from + j] == whole[from + j];
    }
  }

  lemma RunStays<S(!new)>(files: Prefetch.Files<S>, lengths: seq<u32>, fd: int, before: map<HdlStream.Place, seq<S>>,
                          after: map<HdlStream.Place, seq<S>>, from: int, upTo: int)
    requires HdlStream.Opened(lengths) && HoldsRun(files, lengths, fd, before, from, upTo)
    requires forall k :: Holds(files, lengths, fd, before, k) ==> Holds(files, lengths, fd, after, k)
    ensures HoldsRun(files, lengths, fd, after, from, upTo)
  {
  }

  lemma LogStays<S(!new)>(files: Prefetch.Files<S>, lengths: seq<u32>, fd: int, before: map<HdlStream.Place, seq<S>>,
                          after: map<HdlStream.Place, seq<S>>, log: seq<Prefetch.Delivery<S>>)
    requires HdlStream.Opened(lengths) && LogHolds(files, lengths, fd, before, log)
    requires forall k :: Holds(files, lengths, fd, before, k) ==> Holds(files, lengths, fd, after, k)
    ensures LogHolds(files, lengths, fd, after, log)
  {
    forall d | d in log && d.command.Source? && d.command.pump
      ensures HoldsRun(files, lengths, fd, after, d.command.offset, d.command.offset + d.command.bytes)
    {
      RunStays(files, lengths, fd, before, after, d.command.offset, d.command.offset + d.command.bytes);
    }
  }

  /** What a request of a pump does to the stream. */
  lemma RequestHolds<S(!new)>(files: Prefetch.Files<S>, lengths: seq<u32>, fd: int, s: State<S>, n: int,
                              landed: set<HdlStream.Place>, ok: bool)
    requires Inv(files, lengths, fd, s) && Pumped(files, lengths, s, n, landed, ok).Some?
    ensures var t := Pumped(files, lengths, s, n, landed, ok).value;
            && OnStream(lengths, t)
            && (forall k :: Holds(files, lengths, fd, s.target, k) ==> Holds(files, lengths, fd, t.target, k))
            && (ok ==> HoldsRun(files, lengths, fd, t.target, s.position, s.position + n))
  {
    var t := Pumped(files, lengths, s, n, landed, ok).value;
    var at, data := s.position / 512, Chop(Piece(s.pipe, n));
    forall i | 0 <= i < |data| ensures data[i] == FileSector(files, fd, at + i) {
      PieceIsFile(files, lengths, fd, s, n, i);
    }
    forall k | Holds(files, lengths, fd, s.target, k) ensures Holds(files, lengths, fd, t.target, k) {
      StoredHolds(files, lengths, fd, s.target, at, data, landed, ok, k);
    }
    if ok {
      forall k | s.position <= 512 * k < s.position + n ensures Holds(files, lengths, fd, t.target, k) {
        StoredHolds(files, lengths, fd, s.target, at, data, landed, ok, k);
      }
    }
  }

  lemma RequestKeeps<S(!new)>(files: Prefetch.Files<S>, lengths: seq<u32>, fd: int, s: State<S>, n: int,
                              landed: set<HdlStream.Place>, ok: bool)
    requires Inv(files, lengths, fd, s) && Pumped(files, lengths, s, n, landed, ok).Some?
    ensures Inv(files, lengths, fd, Pumped(files, lengths, s, n, landed, ok).value)
  {
    var t := Pumped(files, lengths, s, n, landed, ok).value;
    RequestHolds(files, lengths, fd, s, n, landed, ok);
    Prefetch.StepKeeps(files, s.pipe, if ok then Prefetch.Pump(n) else Prefetch.PumpFailed);
    LogStays(files, lengths, fd, s.target, t.target, s.pipe.log);
    RequestPumpHolds(files, lengths, fd, s, n, landed, ok);
  }

  lemma RequestPumpHolds<S(!new)>(files: Prefetch.Files<S>, lengths: seq<u32>, fd: int, s: State<S>, n: int,
                                  landed: set<HdlStream.Place>, ok: bool)
    requires Prefetch.Sized(s.pipe) && OnStream(lengths, s) && PumpHolds(files, lengths, fd, s)
    requires s.pipe.point.Pumping? ==> s.pipe.point.c.pump
    requires Pumped(files, lengths, s, n, landed, ok).Some?
    requires Prefetch.Sized(Pumped(files, lengths, s, n, landed, ok).value.pipe)
    requires var t := Pumped(files, lengths, s, n, landed, ok).value;
             && (forall k :: Holds(files, lengths, fd, s.target, k) ==> Holds(files, lengths, fd, t.target, k))
             && (ok ==> HoldsRun(files, lengths, fd, t.target, s.position, s.position + n))
    ensures PumpHolds(files, lengths, fd, Pumped(files, lengths, s, n, landed, ok).value)
    ensures Pumped(files, lengths, s, n, landed, ok).value.pipe.log == s.pipe.log
  {
    var t := Pumped(files, lengths, s, n, landed, ok).value;
    var c, w := s.pipe.point.c, |s.pipe.point.written|;
    RunStays(files, lengths, fd, s.target, t.target, c.offset, c.offset + w);
    if ok {
      RunsMeet(files, lengths, fd, t.target, c.offset, c.offset + w, c.offset + w + n);
    }
  }

  lemma RunsMeet<S(!new)>(files: Prefetch.Files<S>, lengths: seq<u32>, fd: int, target: map<HdlStream.Place, seq<S>>,
                          a: int, b: int, c: int)
    requires HdlStream.Opened(lengths)
    requires HoldsRun(files, lengths, fd, target, a, b) && HoldsRun(files, lengths, fd, target, b, c)
    ensures HoldsRun(files, lengths, fd, target, a, c)
  {
  }

  /** The command of a point at which nothing has been moved yet. */
  function CommandOf<S>(p: Prefetch.Point<S>): Option<Prefetch.Command> {
    match p
    case Taking(c) => Some(c)
    case Awaiting(c, _) => Some(c)
    case Fetching0(c, _) => Some(c)
    case Scheduling(c, _) => Some(c)
    case Signalling(c, _) => Some(c)
    case _ => None
  }

  /** Where a step that leaves the stream alone can lead. */
  predicate Follows<S(==)>(p: Prefetch.Point<S>, q: Prefetch.Point<S>, step: Prefetch.Action<S>) {
    q == p ||
    match q
    case Taking(c) => step.Begin? && step.c == c
    case Pumping(c, _, written) => CommandOf(p) == Some(c) && c.Source? && c.pump && written == []
    case Sending(c, _, _, _) =>
      (p.Sending? && p.c == c) || (CommandOf(p) == Some(c) && c.Source? && !c.pump)
    case _ => CommandOf(q).Some? ==> CommandOf(p) == CommandOf(q)
  }

  /** The last piece sent is what turns a command into a delivery. */
  predicate LogFollows<S(==)>(s: Prefetch.State<S>, t: Prefetch.State<S>) {
    t.log == s.log ||
    (&& s.point.Sending? && |t.log| == |s.log| + 1 && t.log[..|s.log|] == s.log
     && t.log[|s.log|].command == s.point.c)
  }

  lemma WorkerFollows<S>(files: Prefetch.Files<S>, s: Prefetch.State<S>, step: Prefetch.Action<S>)
    requires Prefetch.Sized(s) && (step.WorkerWakes? || step.WorkerFetch?)
    requires Prefetch.WorkerStep(files, s, step).Some?
    ensures var t := Prefetch.WorkerStep(files, s, step).value; t.point == s.point && t.log == s.log
  {
  }

  lemma SendFollows<S>(files: Prefetch.Files<S>, s: Prefetch.State<S>, n: int)
    requires Prefetch.Sized(s) && Prefetch.CommandStep(files, s, Prefetch.Send(n)).Some?
    ensures var t := Prefetch.CommandStep(files, s, Prefetch.Send(n)).value;
            Follows(s.point, t.point, Prefetch.Send(n)) && LogFollows(s, t)
  {
  }

  lemma EarlyFollows<S>(files: Prefetch.Files<S>, s: Prefetch.State<S>, step: Prefetch.Action<S>)
    requires Prefetch.Sized(s) && (step.Begin? || step.Take? || step.Awake? || step.Sync?)
    requires Prefetch.CommandStep(files, s, step).Some?
    ensures var t := Prefetch.CommandStep(files, s, step).value;
            Follows(s.point, t.point, step) && t.log == s.log
  {
  }

  lemma ScheduleFollows<S>(files: Prefetch.Files<S>, s: Prefetch.State<S>, step: Prefetch.Action<S>)
    requires Prefetch.Sized(s) && (step.Schedule? || step.Signal?)
    requires Prefetch.CommandStep(files, s, step).Some?
    ensures var t := Prefetch.CommandStep(files, s, step).value;
            Follows(s.point, t.point, step) && t.log == s.log
  {
  }

  lemma EndFollows<S>(files: Prefetch.Files<S>, s: Prefetch.State<S>, step: Prefetch.Action<S>)
    requires Prefetch.Sized(s)
    requires step.PumpFailed? || step.SendFailed? || step.TargetFailed? || step.Close? || step.Join?
    requires Prefetch.CommandStep(files, s, step).Some?
    ensures var t := Prefetch.CommandStep(files, s, step).value;
            Follows(s.point, t.point, step) && t.log == s.log
  {
  }

  lemma PipeFollows<S>(files: Prefetch.Files<S>, s: Prefetch.State<S>, step: Prefetch.Action<S>)
    requires Prefetch.Sized(s) && !step.Pump? && !step.TargetRead? && Prefetch.Step(files, s, step).Some?
    ensures var t := Prefetch.Step(files, s, step).value;
            Follows(s.point, t.point, step) && LogFollows(s, t)
  {
    match step
    case WorkerWakes => WorkerFollows(files, s, step);
    case WorkerFetch(_) => WorkerFollows(files, s, step);
    case Send(n) => SendFollows(files, s, n);
    case Schedule => ScheduleFollows(files, s, step);
    case Signal => ScheduleFollows(files, s, step);
    case Begin(_) => EarlyFollows(files, s, step);
    case Take => EarlyFollows(files, s, step);
    case Awake => EarlyFollows(files, s, step);
    case Sync(_) => EarlyFollows(files, s, step);
    case _ => EndFollows(files, s, step);
  }

  lemma FollowedHolds<S(!new)>(files: Prefetch.Files<S>, lengths: seq<u32>, fd: int, s: State<S>,
                               step: Prefetch.Action<S>, t: State<S>)
    requires HdlStream.Opened(lengths) && Prefetch.Sized(s.pipe) && Prefetch.Sized(t.pipe)
    requires t.position == s.position && t.target == s.target && InPlace(fd, s, Pipe(step))
    requires Follows(s.pipe.point, t.pipe.point, step) && LogFollows(s.pipe, t.pipe)
    requires PumpHolds(files, lengths, fd, s) && LogHolds(files, lengths, fd, s.target, s.pipe.log)
    ensures PumpHolds(files, lengths, fd, t) && LogHolds(files, lengths, fd, t.target, t.pipe.log)
  {
  }

  lemma PipeKeeps<S(!new)>(files: Prefetch.Files<S>, lengths: seq<u32>, fd: int, s: State<S>,
                           step: Prefetch.Action<S>)
    requires Inv(files, lengths, fd, s) && InPlace(fd, s, Pipe(step)) && !step.Pump? && !step.TargetRead?
    requires Prefetch.Step(files, s.pipe, step).Some?
    ensures Inv(files, lengths, fd, s.(pipe := Prefetch.Step(files, s.pipe, step).value))
  {
    Prefetch.StepKeeps(files, s.pipe, step);
    PipeFollows(files, s.pipe, step);
    FollowedHolds(files, lengths, fd, s, step, s.(pipe := Prefetch.Step(files, s.pipe, step).value));
  }

  lemma ReadFollows<S>(files: Prefetch.Files<S>, s: Prefetch.State<S>, data: seq<S>)
    requires Prefetch.Sized(s) && Prefetch.CommandStep(files, s, Prefetch.TargetRead(data)).Some?
    ensures var t := Prefetch.CommandStep(files, s, Prefetch.TargetRead(data)).value;
            t.log == s.log && (t.point.TargetReading? || (t.point.Sending? && t.point.c.Target?) || t.point == s.point)
  {
  }

  lemma ReadKeeps<S(!new)>(files: Prefetch.Files<S>, lengths: seq<u32>, fd: int, s: State<S>, n: int)
    requires Inv(files, lengths, fd, s) && Step(files, lengths, s, Read(n)).Some?
    ensures Inv(files, lengths, fd, Step(files, lengths, s, Read(n)).value)
  {
    RequestInStream(lengths, s.position, n, s.pipe.point.c.bytes - |s.pipe.point.got|);
    var data := Contents(lengths, s.target, s.position / 512, n / 512);
    Prefetch.StepKeeps(files, s.pipe, Prefetch.TargetRead(data));
    ReadFollows(files, s.pipe, data);
  }

  /** Every step of an install that keeps to its place keeps the stream right. */
  lemma StepKeeps<S(!new)>(files: Prefetch.Files<S>, lengths: seq<u32>, fd: int, s: State<S>, a: Action<S>)
    requires Inv(files, lengths, fd, s) && InPlace(fd, s, a) && Step(files, lengths, s, a).Some?
    ensures Inv(files, lengths, fd, Step(files, lengths, s, a).value)
  {
    match a
    case Pipe(step) => PipeKeeps(files, lengths, fd, s, step);
    case Write(n) => RequestKeeps(files, lengths, fd, s, n, {}, true);
    case WriteFails(n, landed) => RequestKeeps(files, lengths, fd, s, n, landed, false);
    case Read(n) => ReadKeeps(files, lengths, fd, s, n);
    case Seek(_) =>
  }

  // ----- whole installs

  ghost predicate Run<S(!new)>(files: Prefetch.Files<S>, lengths: seq<u32>, states: seq<State<S>>,
                               actions: seq<Action<S>>) {
    && |states| == |actions| + 1
    && forall i :: 0 <= i < |actions| ==> Moves(files, lengths, states, actions, i)
  }

  ghost predicate Moves<S(!new)>(files: Prefetch.Files<S>, lengths: seq<u32>, states: seq<State<S>>,
                                 actions: seq<Action<S>>, i: nat)
    requires i < |actions| && |states| == |actions| + 1
  {
    && Prefetch.Sized(states[i].pipe) && OnStream(lengths, states[i])
    && Step(files, lengths, states[i], actions[i]) == Some(states[i + 1])
  }

  /**
   Over every install, whatever the interleaving, and whatever failed, was
   retried, skipped or read back in between: each sector of every block that a
   pump delivered is in the stream, at the position it has in the file.
   */
  lemma {:induction false} InstallHolds<S(!new)>(files: Prefetch.Files<S>, lengths: seq<u32>, fd: int,
                                                 states: seq<State<S>>, actions: seq<Action<S>>, n: nat)
    requires Run(files, lengths, states, actions) && n <= |actions|
    requires Prefetch.Start(states[0].pipe) && OnStream(lengths, states[0])
    requires forall i :: 0 <= i < |actions| ==> InPlace(fd, states[i], actions[i])
    ensures Inv(files, lengths, fd, states[n])
  {
    if n == 0 {
      Prefetch.StartsWell(files, states[0].pipe);
    } else {
      InstallHolds(files, lengths, fd, states, actions, n - 1);
      assert Moves(files, lengths, states, actions, n - 1);
      StepKeeps(files, lengths, fd, states[n - 1], actions[n - 1]);
    }
  }

  /** Some pump delivered the block of byte `x`. */
  ghost predicate Delivered<S(!new)>(log: seq<Prefetch.Delivery<S>>, x: int) {
    exists d :: d in log && d.command.Source? && d.command.pump &&
                d.command.offset <= x < d.command.offset + d.command.bytes
  }

  /**
   The install path as a whole. Once pumps have delivered the first byte of
   every sector of a planned image, the disk sector that the metadata
   advertises for an image byte holds that byte of the file.
   */
  lemma InstalledImage<S(!new)>(plan: Plan, starts: seq<u32>, lengths: seq<u32>, options: Options, largest: int,
                                files: Prefetch.Files<S>, fd: int, s: State<S>, k: nat, x: int)
    requires Standard(largest) && Greedy(plan.slices, plan.imageBytes, largest) && plan.imageBytes % 2048 == 0
    requires Buildable(plan, starts, options) && AsPlanned(lengths, plan.slices)
    requires Inv(files, lengths, fd, s)
    requires forall i :: 0 <= 512 * i < plan.imageBytes ==> Delivered(s.pipe.log, 512 * i)
    requires 0 <= x < plan.imageBytes && Covers(Block(plan, starts, options), k, x)
    ensures k < |starts|
    ensures var p := HdlStream.Place(k, Advertised(Block(plan, starts, options), k, x) - starts[k]);
            p in s.target && |s.target[p]| == 512 && s.target[p][x % 512] == files(fd, x)
  {
    AdvertisedPlace(plan, starts, lengths, options, largest, k, x);
    ByteInstalled(files, lengths, fd, s, plan.imageBytes, x);
  }

  lemma ByteInstalled<S(!new)>(files: Prefetch.Files<S>, lengths: seq<u32>, fd: int, s: State<S>, upTo: int, x: int)
    requires Inv(files, lengths, fd, s) && 0 <= x < upTo && 0 <= x / 512 < HdlStream.Total(lengths)
    requires forall i :: 0 <= 512 * i < upTo ==> Delivered(s.pipe.log, 512 * i)
    ensures var p := HdlStream.PlaceOf(lengths, x / 512);
            p in s.target && |s.target[p]| == 512 && s.target[p][x % 512] == files(fd, x)
  {
    SectorDelivered(files, lengths, fd, s.target, s.pipe.log, x / 512);
    ByteOfSector(files, fd, x);
  }

  lemma ByteOfSector<S>(files: Prefetch.Files<S>, fd: int, x: int)
    ensures FileSector(files, fd, x / 512)[x % 512] == files(fd, x)
  {
    assert 512 * (x / 512) + x % 512 == x;
  }

  lemma SectorDelivered<S(!new)>(files: Prefetch.Files<S>, lengths: seq<u32>, fd: int,
                                 target: map<HdlStream.Place, seq<S>>, log: seq<Prefetch.Delivery<S>>, i: int)
    requires HdlStream.Opened(lengths) && LogHolds(files, lengths, fd, target, log) && Delivered(log, 512 * i)
    ensures Holds(files, lengths, fd, target, i)
  {
    var d :| d in log && d.command.Source? && d.command.pump &&
             d.command.offset <= 512 * i < d.command.offset + d.command.bytes;
    assert HoldsRun(files, lengths, fd, target, d.command.offset, d.command.offset + d.command.bytes);
  }

  /** Reading installed sectors back, as the verification pass does, gives the bytes of the file. */
  lemma {:induction false} ReadBackIsFile<S(!new)>(files: Prefetch.Files<S>, lengths: seq<u32>, fd: int,
                                                   s: State<S>, at: int, count: nat)
    requires Inv(files, lengths, fd, s) && 0 <= at && at + count <= HdlStream.Total(lengths)
    requires forall i :: at <= i < at + count ==> Delivered(s.pipe.log, 512 * i)
    ensures Contents(lengths, s.target, at, count) == Prefetch.Slice(files, fd, 512 * at, 512 * count)
  {
    if count > 0 {
      ReadBackIsFile(files, lengths, fd, s, at, count - 1);
      assert Delivered(s.pipe.log, 512 * (at + count - 1));
      SectorDelivered(files, lengths, fd, s.target, s.pipe.log, at + count - 1);
      SlicesJoin(files, fd, 512 * at, 512 * (count - 1), 512);
    }
  }

  lemma SlicesJoin<S>(files: Prefetch.Files<S>, fd: int, from: int, n: nat, m: nat)
    ensures Prefetch.Slice(files, fd, from, n) + Prefetch.Slice(files, fd, from + n, m) ==
            Prefetch.Slice(files, fd, from, n + m)
  {
  }
}
