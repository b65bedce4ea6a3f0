/** The audio player of hello_ucosii.c: task1 decodes three shared flags and sends chunks of the
    song, task2 writes the flags one by one. Every flag access is a step of its own. */
module Player {
  import opened Bytes
  import opened Wrappers
  import opened Raster

  /** Samples per chunk (NUMERO_DE_MUESTRAS). */
  const CHUNK := 1000

  datatype Mode = Play | Pause | Stop

  /** Which flag task1 reads next. */
  datatype Task1 = ReadsPlay | ReadsPause | ReadsStop

  /** task2 waits for a button, or has written the first `written` flags of a request. */
  datatype Task2 = Waiting | Writing(mode: Mode, written: nat)

  /** What can be observed of a run: a button pressed, a request with all flags written, a chunk
      sent from sample `start`, the counter reset by a stop. */
  datatype Event = Pressed(mode: Mode) | Settled(mode: Mode) | Chunk(start: nat) | Reset

  datatype State = State(size: nat, play: bool, pause: bool, stop: bool, counter: nat, task1: Task1, task2: Task2, log: seq<Event>) {
    predicate Valid() {
      0 < size <= ADDRESS_SPACE && (task2.Writing? ==> task2.written < 3)
    }
  }

  /** Which task moves; `button` is the request task2 takes up if it is waiting. */
  datatype Choice = Task1Moves | Task2Moves(button: Mode)

  function Initial(size: nat): State {
    State(size, false, false, false, 0, ReadsPlay, Waiting, [])
  }

  function NextCounter(size: nat, counter: nat): nat {
    if counter < size then counter + CHUNK else 0
  }

  function Task1Step(s: State): State
    requires s.Valid()
  {
    match s.task1
    case ReadsPlay =>
      if s.play then s.(counter := NextCounter(s.size, s.counter), log := s.log + [Chunk(s.counter % s.size)])
      else s.(task1 := ReadsPause)
    case ReadsPause =>
      if s.pause then s.(task1 := ReadsPlay) else s.(task1 := ReadsStop)
    case ReadsStop =>
      if s.stop then s.(counter := 0, task1 := ReadsPlay, log := s.log + [Reset]) else s.(task1 := ReadsPlay)
  }

  function Task2Step(s: State, button: Mode): State
    requires s.Valid()
  {
    match s.task2
    case Waiting => s.(task2 := Writing(button, 0), log := s.log + [Pressed(button)])
    case Writing(mode, written) =>
      if written == 0 then s.(play := mode == Play, task2 := Writing(mode, 1))
      else if written == 1 then s.(pause := mode == Pause, task2 := Writing(mode, 2))
      else s.(stop := mode == Stop, task2 := Waiting, log := s.log + [Settled(mode)])
  }

  function Step(s: State, c: Choice): State
    requires s.Valid()
  {
    match c
    case Task1Moves => Task1Step(s)
    case Task2Moves(button) => Task2Step(s, button)
  }

  /** The state after a schedule. */
  function Run(size: nat, schedule: seq<Choice>): (s: State)
    requires 0 < size <= ADDRESS_SPACE
    ensures s.Valid() && s.size == size
    decreases |schedule|
  {
    if schedule == [] then Initial(size) else Step(Run(size, schedule[..|schedule| - 1]), schedule[|schedule| - 1])
  }

  class Player {
    const size: nat
    var playSong: bool
    var pauseSong: bool
    var stopSong: bool
    var addressCounter: nat
    var task1: Task1
    var task2: Task2
    ghost var log: seq<Event>

    ghost function Snapshot(): State
      reads this
    {
      State(size, playSong, pauseSong, stopSong, addressCounter, task1, task2, log)
    }

    constructor (sizeSong: nat)
      ensures Snapshot() == Initial(sizeSong)
    {
      size := sizeSong;
      playSong, pauseSong, stopSong := false, false, false;
      addressCounter := 0;
      task1 := ReadsPlay;
      task2 := Waiting;
      log := [];
    }

    /** One flag read of the task1 loop, with what it does when the flag is set. */
    method MoveTask1() returns (sent: Option<nat>)
      requires Snapshot().Valid()
      modifies this
      ensures Snapshot() == Task1Step(old(Snapshot()))
      ensures playSong == old(playSong) && pauseSong == old(pauseSong) && stopSong == old(stopSong) && task2 == old(task2)
      ensures old(task1.ReadsPlay? && playSong) ==>
                && sent == Some(old(addressCounter) % size) && log == old(log) + [Chunk(old(addressCounter) % size)]
                && addressCounter == (if old(addressCounter) < size then old(addressCounter) + 1000 else 0) && task1 == ReadsPlay
      ensures old(task1.ReadsStop? && stopSong) ==> sent == None && addressCounter == 0 && log == old(log) + [Reset] && task1 == ReadsPlay
      ensures !old(task1.ReadsPlay? && playSong) && !old(task1.ReadsStop? && stopSong) ==>
                && sent == None && addressCounter == old(addressCounter) && log == old(log)
                && task1 == match old(task1)
                            case ReadsPlay => ReadsPause
                            case ReadsPause => if pauseSong then ReadsPlay else ReadsStop
                            case ReadsStop => ReadsPlay
    {
      sent := None;
      match task1
      case ReadsPlay =>
        if playSong {
          sent := Some(addressCounter % size);
          log := log + [Chunk(addressCounter % size)];
          if addressCounter < size {
            addressCounter := addressCounter + CHUNK;
          } else {
            addressCounter := 0;
          }
        } else {
          task1 := ReadsPause;
        }
      case ReadsPause =>
        task1 := if pauseSong then ReadsPlay else ReadsStop;
      case ReadsStop =>
        if stopSong {
          addressCounter := 0;
          log := log + [Reset];
        }
        task1 := ReadsPlay;
    }

    /** task2 takes up a button, or writes its next flag: play, then pause, then stop. */
    method MoveTask2(button: Mode)
      requires Snapshot().Valid()
      modifies this
      ensures Snapshot() == Task2Step(old(Snapshot()), button)
      ensures addressCounter == old(addressCounter) && task1 == old(task1)
      ensures old(task2.Waiting?) ==>
                && playSong == old(playSong) && pauseSong == old(pauseSong) && stopSong == old(stopSong)
                && task2 == Writing(button, 0) && log == old(log) + [Pressed(button)]
      ensures old(task2.Writing? && task2.written == 0) ==>
                && playSong == (old(task2.mode) == Play) && pauseSong == old(pauseSong) && stopSong == old(stopSong)
                && task2 == Writing(old(task2.mode), 1) && log == old(log)
      ensures old(task2.Writing? && task2.written == 1) ==>
                && playSong == old(playSong) && pauseSong == (old(task2.mode) == Pause) && stopSong == old(stopSong)
                && task2 == Writing(old(task2.mode), 2) && log == old(log)
      ensures old(task2.Writing? && task2.written == 2) ==>
                && playSong == old(playSong) && pauseSong == old(pauseSong) && stopSong == (old(task2.mode) == Stop)
                && task2 == Waiting && log == old(log) + [Settled(old(task2.mode))]
    {
      match task2
      case Waiting =>
        task2 := Writing(button, 0);
        log := log + [Pressed(button)];
      case Writing(mode, written) =>
        if written == 0 {
          playSong := mode == Play;
          task2 := Writing(mode, 1);
        } else if written == 1 {
          pauseSong := mode == Pause;
          task2 := Writing(mode, 2);
        } else {
          stopSong := mode == Stop;
          task2 := Waiting;
          log := log + [Settled(mode)];
        }
    }
  }

  // ---- The chunk counter

  /** Chunks from one zero of the counter to the next. */
  function Period(size: nat): nat {
    (size + CHUNK - 1) / CHUNK + 1
  }

  /** The counter after `n` chunks. */
  function CounterAfter(size: nat, n: nat): nat {
    CHUNK * (n % Period(size))
  }

  /** Where the n-th chunk starts. */
  function StartOf(size: nat, n: nat): nat
    requires 0 < size
  {
    CounterAfter(size, n) % size
  }

  lemma NextInCycle(n: nat, p: nat)
    requires 0 < p
    ensures (n + 1) % p == if n % p == p - 1 then 0 else n % p + 1
  {
    var q, r := n / p, n % p;
    assert n == q * p + r;
    if r == p - 1 {
      assert n + 1 == (q + 1) * p + 0;
      DivMod(q + 1, p, 0);
    } else {
      DivMod(q, p, r + 1);
    }
  }

  /** The closed form follows the code: one chunk moves the counter on or back to zero. */
  lemma CounterStep(size: nat, n: nat)
    requires 0 < size
    ensures NextCounter(size, CounterAfter(size, n)) == CounterAfter(size, n + 1)
  {
    NextInCycle(n, Period(size));
  }

  /** The counter is a multiple of 1000 below size + 1000; counted from zero it is zero again
      after exactly ceil(size / 1000) + 1 chunks. */
  lemma CounterCycle(size: nat, n: nat)
    requires 0 < size
    ensures CounterAfter(size, n) % 1000 == 0 && CounterAfter(size, n) < size + 1000
    ensures CounterAfter(size, 0) == 0 && CounterAfter(size, (size + 999) / 1000 + 1) == 0
    ensures 0 < n < (size + 999) / 1000 + 1 ==> CounterAfter(size, n) != 0
  {
    DivMod(1, Period(size), 0);
  }

  lemma SmallMod(a: nat, b: nat)
    requires a < b
    ensures a % b == a
  {
    DivMod(0, b, a);
  }

  /** The chunks of one cycle cover every sample of the song. */
  lemma CycleCovers(size: nat, i: nat)
    requires i < size
    ensures exists n :: 0 <= n < Period(size) && StartOf(size, n) <= i < StartOf(size, n) + 1000
  {
    var n := i / CHUNK;
    SmallMod(n, Period(size));
    SmallMod(CHUNK * n, size);
    assert StartOf(size, n) <= i < StartOf(size, n) + CHUNK;
  }

  // ---- Runs

  /** Chunks sent since the last reset. */
  function ChunksSince(log: seq<Event>): nat {
    if log == [] then 0
    else match log[|log| - 1]
      case Chunk(_) => ChunksSince(log[..|log| - 1]) + 1
      case Reset => 0
      case _ => ChunksSince(log[..|log| - 1])
  }

  /** The request written last in full. */
  function LastSettled(log: seq<Event>): Option<Mode> {
    if log == [] then None
    else match log[|log| - 1]
      case Settled(mode) => Some(mode)
      case _ => LastSettled(log[..|log| - 1])
  }

  /** The request being written. */
  function Unsettled(log: seq<Event>): Option<Mode> {
    if log == [] then None
    else match log[|log| - 1]
      case Pressed(mode) => Some(mode)
      case Settled(_) => None
      case _ => Unsettled(log[..|log| - 1])
  }

  predicate Requested(log: seq<Event>, mode: Mode) {
    LastSettled(log) == Some(mode) || Unsettled(log) == Some(mode)
  }

  /** Event `i` is allowed by what came before it. */
  predicate Justified(size: nat, log: seq<Event>, i: nat)
    requires 0 < size && i < |log|
  {
    match log[i]
    case Chunk(start) => Requested(log[..i], Play) && start == StartOf(size, ChunksSince(log[..i]))
    case Reset => Requested(log[..i], Stop)
    case Pressed(_) => Unsettled(log[..i]) == None
    case Settled(mode) => Unsettled(log[..i]) == Some(mode)
  }

  ghost predicate AllJustified(size: nat, log: seq<Event>)
    requires 0 < size
  {
    forall i :: 0 <= i < |log| ==> Justified(size, log, i)
  }

  /** The flag of `mode`, which is the one written at position `rank`. */
  predicate FlagFits(flag: bool, s: State, mode: Mode, rank: nat) {
    flag == if s.task2.Writing? && rank < s.task2.written then s.task2.mode == mode else LastSettled(s.log) == Some(mode)
  }

  ghost predicate Invariant(s: State) {
    && s.Valid()
    && Unsettled(s.log) == (if s.task2.Writing? then Some(s.task2.mode) else None)
    && FlagFits(s.play, s, Play, 0) && FlagFits(s.pause, s, Pause, 1) && FlagFits(s.stop, s, Stop, 2)
    && s.counter == CounterAfter(s.size, ChunksSince(s.log))
    && AllJustified(s.size, s.log)
  }

  lemma Appended(size: nat, log: seq<Event>, e: Event)
    requires 0 < size && AllJustified(size, log)
    requires Justified(size, log + [e], |log|)
    ensures AllJustified(size, log + [e])
    ensures (log + [e])[..|log|] == log
  {
    forall i | 0 <= i < |log|
      ensures Justified(size, log + [e], i)
    {
      assert (log + [e])[..i] == log[..i];
      assert Justified(size, log, i);
    }
  }

  lemma Task1Keeps(s: State)
    requires Invariant(s)
    ensures Invariant(Task1Step(s))
  {
    var e := if s.task1.ReadsPlay? then Chunk(s.counter % s.size) else Reset;
    assert (s.log + [e])[..|s.log|] == s.log;
    if s.task1.ReadsPlay? && s.play {
      CounterStep(s.size, ChunksSince(s.log));
      Appended(s.size, s.log, e);
    } else if s.task1.ReadsStop? && s.stop {
      Appended(s.size, s.log, e);
    }
  }

  lemma Task2Keeps(s: State, button: Mode)
    requires Invariant(s)
    ensures Invariant(Task2Step(s, button))
  {
    var e := if s.task2.Waiting? then Pressed(button) else Settled(s.task2.mode);
    assert (s.log + [e])[..|s.log|] == s.log;
    if s.task2.Waiting? || s.task2.written == 2 {
      Appended(s.size, s.log, e);
    }
  }

  lemma {:induction false} RunKeepsInvariant(size: nat, schedule: seq<Choice>)
    requires 0 < size <= ADDRESS_SPACE
    ensures Invariant(Run(size, schedule))
    decreases |schedule|
  {
    if schedule != [] {
      var s := Run(size, schedule[..|schedule| - 1]);
      RunKeepsInvariant(size, schedule[..|schedule| - 1]);
      match schedule[|schedule| - 1]
      case Task1Moves => Task1Keeps(s);
      case Task2Moves(button) => Task2Keeps(s, button);
    }
  }

  /** Over every schedule, each chunk was sent under a play request that was settled last or is
      being written, from the start its number since the last reset fixes, and each reset
      happened under such a stop request. */
  lemma EveryEventRequested(size: nat, schedule: seq<Choice>, i: nat)
    requires 0 < size <= ADDRESS_SPACE && i < |Run(size, schedule).log|
    ensures Justified(size, Run(size, schedule).log, i)
  {
    RunKeepsInvariant(size, schedule);
  }

  /** Over every schedule the counter is the one its number of chunks since the last reset
      fixes: a multiple of 1000 below size + 1000. */
  lemma RunCounter(size: nat, schedule: seq<Choice>)
    requires 0 < size <= ADDRESS_SPACE
    ensures var s := Run(size, schedule);
            s.counter == CounterAfter(size, ChunksSince(s.log)) && s.counter % 1000 == 0 && s.counter < size + 1000
  {
    RunKeepsInvariant(size, schedule);
    CounterCycle(size, ChunksSince(Run(size, schedule).log));
  }

  /** The mode task1 finds at a read: a flag it sees set belongs to the old or the new request. */
  lemma DecodeSeesOldOrNew(size: nat, schedule: seq<Choice>)
    requires 0 < size <= ADDRESS_SPACE
    ensures var s := Run(size, schedule);
            && (s.play ==> Requested(s.log, Play))
            && (s.pause ==> Requested(s.log, Pause))
            && (s.stop ==> Requested(s.log, Stop))
  {
    RunKeepsInvariant(size, schedule);
  }

  /** task1's decode in one go: play before pause before stop, otherwise nothing. */
  function Decode(s: State): Option<Mode> {
    if s.play then Some(Play) else if s.pause then Some(Pause) else if s.stop then Some(Stop) else None
  }

  /** Taken in one go, the decode is the settled mode whenever no request is being written. */
  lemma DecodeExactWhenSettled(size: nat, schedule: seq<Choice>)
    requires 0 < size <= ADDRESS_SPACE
    ensures var s := Run(size, schedule);
            && (s.task2.Waiting? ==> Decode(s) == LastSettled(s.log))
            && (Decode(s).Some? ==> Requested(s.log, Decode(s).value))
  {
    RunKeepsInvariant(size, schedule);
  }

  /** The starts of the chunks in a log. */
  function Starts(log: seq<Event>): seq<nat> {
    if log == [] then []
    else match log[|log| - 1]
      case Chunk(start) => Starts(log[..|log| - 1]) + [start]
      case _ => Starts(log[..|log| - 1])
  }

  /** The k-th start is the k-th of the cycle's sequence. */
  ghost predicate InCycleOrder(size: nat, starts: seq<nat>)
    requires 0 < size
  {
    forall k :: 0 <= k < |starts| ==> starts[k] == StartOf(size, k)
  }

  lemma PrefixJustified(size: nat, log: seq<Event>, n: nat)
    requires 0 < size && AllJustified(size, log) && n <= |log|
    ensures AllJustified(size, log[..n])
  {
    forall i | 0 <= i < n
      ensures Justified(size, log[..n], i)
    {
      assert log[..n][..i] == log[..i];
      assert Justified(size, log, i);
    }
  }

  lemma {:induction false} StartsInOrder(size: nat, log: seq<Event>)
    requires 0 < size && AllJustified(size, log) && Reset !in log
    ensures |Starts(log)| == ChunksSince(log) && InCycleOrder(size, Starts(log))
  {
    if log != [] {
      var last := |log| - 1;
      PrefixJustified(size, log, last);
      StartsInOrder(size, log[..last]);
      assert Justified(size, log, last);
      if log[last].Chunk? {
        NextInOrder(size, Starts(log[..last]), log[last].start);
      }
    }
  }

  lemma NextInOrder(size: nat, starts: seq<nat>, start: nat)
    requires 0 < size && InCycleOrder(size, starts) && start == StartOf(size, |starts|)
    ensures InCycleOrder(size, starts + [start])
  {
  }

  /** Pauses do not disturb playing: as long as no stop resets the counter, the chunk starts of
      every schedule are the first values of one and the same sequence. */
  lemma PausesKeepChunkStarts(size: nat, schedule: seq<Choice>)
    requires 0 < size <= ADDRESS_SPACE && Reset !in Run(size, schedule).log
    ensures InCycleOrder(size, Starts(Run(size, schedule).log))
  {
    RunKeepsInvariant(size, schedule);
    StartsInOrder(size, Run(size, schedule).log);
  }

  // ---- What the moves of a run do

  /** Chunks and resets in a log. */
  function Chunks(log: seq<Event>): nat {
    if log == [] then 0 else Chunks(log[..|log| - 1]) + if log[|log| - 1].Chunk? then 1 else 0
  }

  function Resets(log: seq<Event>): nat {
    if log == [] then 0 else Resets(log[..|log| - 1]) + if log[|log| - 1].Reset? then 1 else 0
  }

  /** The buttons in a log, in order. */
  function Presses(log: seq<Event>): seq<Mode> {
    if log == [] then [] else Presses(log[..|log| - 1]) + if log[|log| - 1].Pressed? then [log[|log| - 1].mode] else []
  }

  /** How often task1 reads the play flag as set during a schedule. */
  function PlayReads(size: nat, schedule: seq<Choice>): nat
    requires 0 < size <= ADDRESS_SPACE
    decreases |schedule|
  {
    if schedule == [] then 0
    else
      var s := Run(size, schedule[..|schedule| - 1]);
      PlayReads(size, schedule[..|schedule| - 1])
      + if schedule[|schedule| - 1].Task1Moves? && s.task1.ReadsPlay? && s.play then 1 else 0
  }

  function StopReads(size: nat, schedule: seq<Choice>): nat
    requires 0 < size <= ADDRESS_SPACE
    decreases |schedule|
  {
    if schedule == [] then 0
    else
      var s := Run(size, schedule[..|schedule| - 1]);
      StopReads(size, schedule[..|schedule| - 1])
      + if schedule[|schedule| - 1].Task1Moves? && s.task1.ReadsStop? && s.stop then 1 else 0
  }

  /** The buttons that find task2 waiting. */
  function Accepted(size: nat, schedule: seq<Choice>): seq<Mode>
    requires 0 < size <= ADDRESS_SPACE
    decreases |schedule|
  {
    if schedule == [] then []
    else
      var s := Run(size, schedule[..|schedule| - 1]);
      Accepted(size, schedule[..|schedule| - 1])
      + if schedule[|schedule| - 1].Task2Moves? && s.task2.Waiting? then [schedule[|schedule| - 1].button] else []
  }

  lemma CountsAppend(log: seq<Event>, e: Event)
    ensures Chunks(log + [e]) == Chunks(log) + if e.Chunk? then 1 else 0
    ensures Resets(log + [e]) == Resets(log) + if e.Reset? then 1 else 0
    ensures Presses(log + [e]) == Presses(log) + if e.Pressed? then [e.mode] else []
  {
    assert (log + [e])[..|log|] == log;
  }

  /** One move: what it adds to the log. */
  lemma StepCounts(s: State, c: Choice)
    requires s.Valid()
    ensures Chunks(Step(s, c).log) == Chunks(s.log) + if c.Task1Moves? && s.task1.ReadsPlay? && s.play then 1 else 0
    ensures Resets(Step(s, c).log) == Resets(s.log) + if c.Task1Moves? && s.task1.ReadsStop? && s.stop then 1 else 0
    ensures Presses(Step(s, c).log) == Presses(s.log) + if c.Task2Moves? && s.task2.Waiting? then [c.button] else []
  {
    match c
    case Task1Moves =>
      CountsAppend(s.log, if s.task1.ReadsPlay? then Chunk(s.counter % s.size) else Reset);
    case Task2Moves(button) =>
      CountsAppend(s.log, if s.task2.Waiting? then Pressed(button) else Settled(s.task2.mode));
  }

  /** Over every schedule each set play flag read sends one chunk, each set stop flag read resets
      once, and the requests are the buttons that found task2 waiting, in order. */
  lemma {:induction false} EveryReadActs(size: nat, schedule: seq<Choice>)
    requires 0 < size <= ADDRESS_SPACE
    ensures Chunks(Run(size, schedule).log) == PlayReads(size, schedule)
    ensures Resets(Run(size, schedule).log) == StopReads(size, schedule)
    ensures Presses(Run(size, schedule).log) == Accepted(size, schedule)
    decreases |schedule|
  {
    if schedule != [] {
      EveryReadActs(size, schedule[..|schedule| - 1]);
      StepCounts(Run(size, schedule[..|schedule| - 1]), schedule[|schedule| - 1]);
    }
  }

  // ---- task1 on its own

  /** `n` moves of task1 in a row. */
  function Alone(s: State, n: nat): (t: State)
    requires s.Valid()
    ensures t.Valid() && t.size == s.size
  {
    if n == 0 then s else Task1Step(Alone(s, n - 1))
  }

  lemma {:induction false} AloneIsRun(size: nat, schedule: seq<Choice>, n: nat)
    requires 0 < size <= ADDRESS_SPACE
    ensures Run(size, schedule + seq(n, _ => Task1Moves)) == Alone(Run(size, schedule), n)
  {
    var all := schedule + seq(n, _ => Task1Moves);
    if n == 0 {
      assert all == schedule;
    } else {
      AloneIsRun(size, schedule, n - 1);
      assert all[..|all| - 1] == schedule + seq(n - 1, _ => Task1Moves);
    }
  }

  /** The chunks with numbers `m` to `m + n` of a cycle. */
  function ChunkEvents(size: nat, m: nat, n: nat): seq<Event>
    requires 0 < size
  {
    if n == 0 then [] else ChunkEvents(size, m, n - 1) + [Chunk((1000 * ((m + n - 1) % ((size + 999) / 1000 + 1))) % size)]
  }

  /** Undisturbed with the play flag set, every move of task1 sends the next chunk of the cycle. */
  lemma {:induction false} PlaysOn(s: State, m: nat, n: nat)
    requires s.Valid() && s.task1.ReadsPlay? && s.play && s.counter == CounterAfter(s.size, m)
    ensures Alone(s, n) == s.(counter := 1000 * ((m + n) % ((s.size + 999) / 1000 + 1)), log := s.log + ChunkEvents(s.size, m, n))
  {
    if n != 0 {
      PlaysOn(s, m, n - 1);
      CounterStep(s.size, m + n - 1);
      assert s.log + ChunkEvents(s.size, m, n) == s.log + ChunkEvents(s.size, m, n - 1) + [Chunk(StartOf(s.size, m + n - 1))];
    } else {
      assert s.log + [] == s.log;
    }
  }

  lemma {:induction false} ChunkEventAt(size: nat, m: nat, n: nat, i: nat)
    requires 0 < size && i < n
    ensures |ChunkEvents(size, m, n)| == n && ChunkEvents(size, m, n)[i] == Chunk(StartOf(size, m + i))
  {
    if n != 1 {
      ChunkEventAt(size, m, n - 1, if i < n - 1 then i else 0);
    }
  }

  /** Sample `i` is in one of the chunks logged since position `from`. */
  predicate SentSince(log: seq<Event>, from: nat, i: int) {
    exists k :: from <= k < |log| && log[k].Chunk? && log[k].start <= i < log[k].start + 1000
  }

  /** A song played from the beginning and left alone is sent in full by ceil(size / 1000) + 1
      moves of task1, one chunk each; the counter is back at zero then and not before. */
  lemma SongPlayedThrough(size: nat, schedule: seq<Choice>, n: nat)
    requires 0 < size <= ADDRESS_SPACE && n <= (size + 999) / 1000 + 1
    requires Run(size, schedule).task1.ReadsPlay? && Run(size, schedule).play && Run(size, schedule).counter == 0
    ensures var s, t := Run(size, schedule), Run(size, schedule + seq(n, _ => Task1Moves));
            && |t.log| == |s.log| + n && Chunks(t.log) == Chunks(s.log) + n
            && (t.counter == 0 <==> n == 0 || n == (size + 999) / 1000 + 1)
            && (n == (size + 999) / 1000 + 1 ==> forall i :: 0 <= i < size ==> SentSince(t.log, |s.log|, i))
  {
    var s := Run(size, schedule);
    AloneIsRun(size, schedule, n);
    CounterCycle(size, n);
    PlaysOn(s, 0, n);
    ChunkEventsCounted(size, s.log, 0, n);
    if n == (size + 999) / 1000 + 1 {
      CycleSent(size, s.log, n);
    }
  }

  lemma CycleSent(size: nat, log: seq<Event>, n: nat)
    requires 0 < size && n == Period(size)
    ensures forall i :: 0 <= i < size ==> SentSince(log + ChunkEvents(size, 0, n), |log|, i)
  {
    forall i | 0 <= i < size
      ensures SentSince(log + ChunkEvents(size, 0, n), |log|, i)
    {
      CycleCovers(size, i);
      var k :| 0 <= k < Period(size) && StartOf(size, k) <= i < StartOf(size, k) + CHUNK;
      ChunkEventAt(size, 0, n, k);
      assert (log + ChunkEvents(size, 0, n))[|log| + k] == Chunk(StartOf(size, k));
    }
  }

  lemma {:induction false} ChunkEventsCounted(size: nat, log: seq<Event>, m: nat, n: nat)
    requires 0 < size
    ensures |ChunkEvents(size, m, n)| == n && Chunks(log + ChunkEvents(size, m, n)) == Chunks(log) + n
  {
    if n == 0 {
      assert log + [] == log;
    } else {
      ChunkEventsCounted(size, log, m, n - 1);
      var e := Chunk(StartOf(size, m + n - 1));
      assert log + ChunkEvents(size, m, n) == log + ChunkEvents(size, m, n - 1) + [e];
      CountsAppend(log + ChunkEvents(size, m, n - 1), e);
    }
  }

  /** What a settled request does when task1 is left alone: under a stop any three moves reset the
      counter once and send nothing, under a pause no number of moves sends or resets anything,
      and under play two moves at most lead to the play flag. */
  lemma SettledRequestObeyed(size: nat, schedule: seq<Choice>, n: nat)
    requires 0 < size <= ADDRESS_SPACE && Run(size, schedule).task2.Waiting?
    ensures var s := Run(size, schedule);
            && (LastSettled(s.log) == Some(Stop) ==> Alone(s, 3).counter == 0 && Alone(s, 3).log == s.log + [Reset])
            && (LastSettled(s.log) == Some(Pause) ==> Alone(s, n).counter == s.counter && Alone(s, n).log == s.log)
            && (LastSettled(s.log) == Some(Play) ==> ReachesPlay(s))
  {
    var s := Run(size, schedule);
    RunKeepsInvariant(size, schedule);
    match LastSettled(s.log)
    case Some(Stop) => StopResets(s);
    case Some(Pause) => PausedIdles(s, n);
    case Some(Play) => PlayReached(s);
    case None =>
  }

  ghost predicate ReachesPlay(s: State)
    requires s.Valid()
  {
    exists k: nat :: k <= 2 && Alone(s, k) == s.(task1 := ReadsPlay) && s.play
  }

  lemma PlayReached(s: State)
    requires s.Valid() && s.play && !s.pause && !s.stop
    ensures ReachesPlay(s)
  {
    assert Alone(s, 0) == s;
    assert Alone(s, 1) == Task1Step(s);
    assert Alone(s, 2) == Task1Step(Alone(s, 1));
    assert Alone(s, match s.task1 case ReadsPlay => 0 case ReadsPause => 2 case ReadsStop => 1) == s.(task1 := ReadsPlay);
  }

  lemma StopResets(s: State)
    requires s.Valid() && !s.play && !s.pause && s.stop
    ensures Alone(s, 3).counter == 0 && Alone(s, 3).log == s.log + [Reset]
  {
    var a := Task1Step(s);
    var b := Task1Step(a);
    assert Alone(s, 0) == s;
    assert Alone(s, 1) == a;
    assert Alone(s, 2) == b;
    assert Alone(s, 3) == Task1Step(b);
  }

  lemma {:induction false} PausedIdles(s: State, n: nat)
    requires s.Valid() && !s.play && !s.stop
    ensures exists at :: Alone(s, n) == s.(task1 := at)
  {
    if n != 0 {
      PausedIdles(s, n - 1);
    } else {
      assert Alone(s, 0) == s.(task1 := s.task1);
    }
  }
}
