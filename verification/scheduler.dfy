/** The job scheduler of one make: the chains of children and of jobs waiting for the load,
    the count of job slots in use, and the jobserver tokens. What the outside world decides
    (which child dies, whether a command starts, fails or is empty, whether the load is too high)
    is left open by nondeterministic choice, unless the world is said to be calm. */
module Scheduler {
  import opened Prelude
  import opened Jobserver

  /** A target being remade: its recipe lines still to run, and whether it uses a job slot.
      A child that could not be forked is on the chain without having started. */
  datatype Child = Child(file: nat, lines: nat, jobslot: bool, started: bool)

  /** What the outside world does during a call: anything; or no line of a recipe is empty and
      every command is forked and succeeds; or, besides, no child dies without being waited for,
      and the load is too high throughout or not at all. */
  datatype Outside = Any | Smooth | Calm(loadTooHigh: bool)

  /** How a child died: whether the command failed and this is not ignored, whether the target is
      one make does not care for, and whether the failure only answers -q. */
  datatype Death = Death(failed: bool, dontcare: bool, question: bool)

  function SlotsOf(chain: seq<Child>): nat {
    if chain == [] then 0 else SlotsOf(chain[1..]) + if chain[0].jobslot then 1 else 0
  }

  /** The targets being remade by the children: their command_state is cs_running. */
  function Files(chain: seq<Child>): set<nat> {
    if chain == [] then {} else Files(chain[1..]) + {chain[0].file}
  }

  /** All children run, none is one that could not be forked. */
  predicate AllStarted(chain: seq<Child>) {
    forall c :: c in chain ==> c.started
  }

  /** All jobs have a command left to run. */
  predicate AllWithCommands(chain: seq<Child>) {
    forall c :: c in chain ==> c.lines > 0
  }

  /** Bounds how much work the children can still do. */
  function Work(chain: seq<Child>): nat {
    if chain == [] then 0 else Work(chain[1..]) + chain[0].lines + 1
  }

  /** How often a file occurs. */
  function Count(files: seq<nat>, file: nat): nat {
    if files == [] then 0 else Count(files[..|files| - 1], file) + if files[|files| - 1] == file then 1 else 0
  }

  /** The commands still to be run for a file by the jobs on a chain. */
  function Left(chain: seq<Child>, file: nat): nat {
    if chain == [] then 0 else Left(chain[1..], file) + if chain[0].file == file then chain[0].lines else 0
  }

  function FilesInOrder(chain: seq<Child>): seq<nat> {
    if chain == [] then [] else [chain[0].file] + FilesInOrder(chain[1..])
  }

  function Without(chain: seq<Child>, k: nat): (rest: seq<Child>)
    requires k < |chain|
    ensures |rest| == |chain| - 1
  {
    chain[..k] + chain[k + 1..]
  }

  lemma {:induction false} SumsWithout(chain: seq<Child>, k: nat)
    requires k < |chain|
    ensures SlotsOf(Without(chain, k)) == SlotsOf(chain) - (if chain[k].jobslot then 1 else 0)
    ensures Work(Without(chain, k)) == Work(chain) - chain[k].lines - 1
    ensures Files(Without(chain, k)) <= Files(chain)
  {
    if k == 0 {
      assert Without(chain, 0) == chain[1..];
    } else {
      SumsWithout(chain[1..], k - 1);
      assert Without(chain, k) == [chain[0]] + Without(chain[1..], k - 1);
    }
  }

  lemma {:induction false} SumsUpdated(chain: seq<Child>, k: nat, c: Child)
    requires k < |chain| && c.file == chain[k].file && c.jobslot == chain[k].jobslot
    ensures SlotsOf(chain[k := c]) == SlotsOf(chain)
    ensures Work(chain[k := c]) == Work(chain) - chain[k].lines + c.lines
    ensures Files(chain[k := c]) == Files(chain)
  {
    if k == 0 {
      assert chain[k := c] == [c] + chain[1..];
    } else {
      SumsUpdated(chain[1..], k - 1, c);
      assert chain[k := c] == [chain[0]] + chain[1..][k - 1 := c];
    }
  }

  lemma {:induction false} LeftWithout(chain: seq<Child>, k: nat, file: nat)
    requires k < |chain|
    ensures Left(Without(chain, k), file) + (if chain[k].file == file then chain[k].lines else 0) == Left(chain, file)
  {
    if k == 0 {
      assert Without(chain, 0) == chain[1..];
    } else {
      LeftWithout(chain[1..], k - 1, file);
      assert Without(chain, k) == [chain[0]] + Without(chain[1..], k - 1);
    }
  }

  lemma LeftInFront(c: Child, chain: seq<Child>, file: nat)
    ensures Left([c] + chain, file) == Left(chain, file) + if c.file == file then c.lines else 0
  {
    assert ([c] + chain)[1..] == chain;
  }

  lemma LeftUpdated(chain: seq<Child>, k: nat, c: Child, file: nat)
    requires k < |chain| && c.file == chain[k].file
    ensures Left(chain[k := c], file) + (if c.file == file then chain[k].lines else 0)
      == Left(chain, file) + (if c.file == file then c.lines else 0)
  {
    LeftWithout(chain, k, file);
    LeftWithout(chain[k := c], k, file);
    assert Without(chain, k) == Without(chain[k := c], k);
  }

  /** Commands were added for one file only: their number tells what they are. */
  lemma {:induction false} OnlyForOneFile(was: seq<nat>, now: seq<nat>, file: nat, lines: nat)
    requires was <= now
    requires forall f :: Count(now, f) == Count(was, f) + if f == file then lines else 0
    ensures now == was + seq(lines, _ => file)
  {
    assert Count(now, file) == Count(was, file) + lines;
    if |now| == |was| {
      assert now == was;
    } else {
      var last := |now| - 1;
      CountGrows(was, now[..last], now[last]);
      assert Count(now, now[last]) == Count(now[..last], now[last]) + 1;
      assert forall f :: Count(now, f) == Count(now[..last], f) + if f == file then 1 else 0;
      OnlyForOneFile(was, now[..last], file, lines - 1);
    }
  }

  lemma OnlyForOneJob(was: seq<nat>, now: seq<nat>, job: Child)
    requires was <= now && forall f :: Count(now, f) == Count(was, f) + Left([job], f)
    ensures now == was + seq(job.lines, _ => job.file)
  {
    assert forall f :: Left([job], f) == if f == job.file then job.lines else 0;
    OnlyForOneFile(was, now, job.file, job.lines);
  }

  lemma {:induction false} CountGrows(was: seq<nat>, now: seq<nat>, file: nat)
    requires was <= now
    ensures Count(was, file) <= Count(now, file)
    decreases |now|
  {
    if |now| == |was| {
      assert now == was;
    } else {
      CountGrows(was, now[..|now| - 1], file);
    }
  }

  lemma {:induction false} SlotsNeedChildren(chain: seq<Child>)
    ensures SlotsOf(chain) <= |chain|
  {
    if chain != [] { SlotsNeedChildren(chain[1..]); }
  }

  class Make {
    const jobSlots: nat            // 0 for no limit, or when limiting by jobserver
    const jobserverEnabled: bool
    const loadLimit: bool          // a maximum load average was given
    const notParallel: bool
    const keepGoing: bool

    var children: seq<Child>
    var waitingJobs: seq<Child>
    var jobSlotsUsed: nat
    var jobserverTokens: nat
    var dying: bool
    var exited: bool
    var exitStatus: int

    // What happened with tokens, and what the pool has gained from this make.
    ghost var events: seq<TokenEvent>
    ghost var given: int

    // The commands started so far, each by the file it is for, and the files for which
    // start_job_command was called to look for one.
    ghost var commands: seq<nat>
    ghost var begun: seq<nat>

    constructor (jobSlots: nat, jobserverEnabled: bool, loadLimit: bool, notParallel: bool, keepGoing: bool)
      requires jobserverEnabled ==> jobSlots == 0
      ensures BetweenJobs() && children == [] && waitingJobs == [] && !exited && !dying
      ensures commands == [] && begun == []
      ensures this.jobSlots == jobSlots && this.loadLimit == loadLimit && this.jobserverEnabled == jobserverEnabled
      ensures this.notParallel == notParallel && this.keepGoing == keepGoing
    {
      this.jobSlots := jobSlots;
      this.jobserverEnabled := jobserverEnabled;
      this.loadLimit := loadLimit;
      this.notParallel := notParallel;
      this.keepGoing := keepGoing;
      children, waitingJobs, jobSlotsUsed, jobserverTokens := [], [], 0, 0;
      dying, exited, exitStatus := false, false, 0;
      events, given, commands, begun := [], 0, [], [];
    }

    /** The token history is a legal one, and it accounts for what the pool has gained. */
    ghost predicate TokensOk()
      reads this
    {
      jobserverEnabled ==> TokensAfter(events) == Some(jobserverTokens) && given + Taken(jobserverTokens) == 0
    }

    /** The commands run and the commands still to be run for a file. */
    ghost function Commands(file: nat): nat
      reads this
    {
      Count(commands, file) + Left(children, file) + Left(waitingJobs, file)
    }

    /** Commands are only run, after those before. No new ones come up but for the jobs taken in. */
    twostate predicate NoneAdded(jobs: seq<Child>)
      reads this
    {
      && old(commands) <= commands && old(begun) <= begun
      && forall file :: Commands(file) <= old(Commands(file)) + Left(jobs, file)
    }

    /** Every command, also of the jobs taken in, is still to be run or was run once. */
    twostate predicate NoneLost(jobs: seq<Child>)
      reads this
    {
      forall file :: Commands(file) == old(Commands(file)) + Left(jobs, file)
    }

    /** While all goes well, make goes on and loses no command; it never makes one up. */
    twostate predicate CommandsKept(jobs: seq<Child>, outside: Outside)
      reads this
    {
      && NoneAdded(jobs)
      && (outside != Any && old(AllStarted(children)) ==> !exited && AllStarted(children) && NoneLost(jobs))
    }

    /** Every token is a job on one of the two chains or in the hand of the running function,
        and job_slots_used counts the children holding a slot. */
    ghost predicate Counts(inHand: nat)
      reads this
    {
      && jobserverTokens == |children| + |waitingJobs| + inHand
      && jobSlotsUsed == SlotsOf(children)
      && (forall c :: c in waitingJobs ==> !c.jobslot)
      && (!loadLimit ==> waitingJobs == [])
      && (jobserverEnabled ==> jobSlots == 0)
    }

    /** free_child, for a job counted in jobserver_tokens: the fatal error is unreachable. */
    method FreeChild()
      requires TokensOk() && jobserverTokens > 0
      modifies `jobserverTokens, `events, `given
      ensures TokensOk() && jobserverTokens == old(jobserverTokens) - 1
    {
      OneMoreEvent(events, Finish);
      if jobserverEnabled && jobserverTokens > 1 {
        given := given + 1;                       // jobserver_release
      }
      jobserverTokens := jobserverTokens - 1;
      events := events + [Finish];
    }

    /** start_job_command: run the next command line that is not empty. The job is finished
        when there is none; otherwise it is running, whether or not it could be forked. */
    method StartJobCommand(c: Child, outside: Outside) returns (running: bool, c': Child)
      modifies `commands, `begun
      ensures begun == old(begun) + [c.file]
      ensures c'.file == c.file && c'.jobslot == c.jobslot
      ensures running ==> c'.lines < c.lines
      ensures commands == if running && c'.started then old(commands) + [c.file] else old(commands)
      ensures outside != Any && c.lines > 0 ==> running && c' == c.(lines := c.lines - 1, started := true)
    {
      running, c' := false, c;
      begun := begun + [c.file];
      var lines, someCommand, started := c.lines - 1, true, true;
      if outside == Any && c.lines > 0 {
        someCommand, started := *, *;
        lines :| 0 <= lines < c.lines;
      }
      if c.lines > 0 && someCommand {
        running, c' := true, c.(lines := lines, started := started);
        if started { commands := commands + [c.file]; }
      }
    }

    /** The first child on the chain that never started, if there is one. */
    method FindNotStarted() returns (k: nat)
      ensures k <= |children| && (k < |children| ==> !children[k].started)
      ensures forall i :: 0 <= i < k ==> children[i].started
    {
      k := 0;
      while k < |children| && children[k].started
        invariant k <= |children| && forall i :: 0 <= i < k ==> children[i].started
      {
        k := k + 1;
      }
    }

    /** Take child k off the chain and free it. */
    method RemoveChild(k: nat)
      requires TokensOk() && Counts(0) && k < |children|
      modifies `children, `jobSlotsUsed, `jobserverTokens, `events, `given
      ensures TokensOk() && Counts(0)
      ensures children == Without(old(children), k)
      ensures jobSlotsUsed <= old(jobSlotsUsed)
      ensures forall file ::
        Commands(file) + (if old(children)[k].file == file then old(children)[k].lines else 0) == old(Commands(file))
    {
      SumsWithout(children, k);
      forall file { LeftWithout(children, k, file); }
      if jobSlotsUsed > 0 {
        jobSlotsUsed := jobSlotsUsed - if children[k].jobslot then 1 else 0;
      }
      children := Without(children, k);
      FreeChild();
    }

    /** One round of reap_children: child k has died or never started. It runs its next command
        or is removed; if it failed, this may be the end of the whole make. */
    method ReapChild(k: nat, err: bool, death: Death, outside: Outside) returns (removed: bool)
      requires TokensOk() && Counts(0) && !exited && k < |children|
      requires outside != Any ==> !death.failed
      modifies this
      ensures TokensOk() && (!exited ==> Counts(0))
      ensures exited <==> !err && death.failed && !death.dontcare && !keepGoing
      ensures exited ==> exitStatus == if death.question then 1 else 2
      ensures death.failed || old(children)[k].lines == 0 ==> removed
      ensures removed && !exited ==> children == Without(old(children), k)
      ensures !removed ==>
        k < |children| && children == old(children)[k := children[k]] && children[k].file == old(children)[k].file
      ensures NoneAdded([])
      ensures outside != Any ==> NoneLost([])
      ensures outside != Any && AllStarted(old(children)) ==> AllStarted(children)
      ensures exited && old(dying) ==> Counts(0)
      ensures !exited ==> waitingJobs == old(waitingJobs) && dying == old(dying)
      ensures !exited ==> jobSlotsUsed <= old(jobSlotsUsed) && Files(children) <= old(Files(children))
      ensures !exited ==> |children| == old(|children|) - (if removed then 1 else 0)
      ensures !exited ==> Work(children) < old(Work(children))
      decreases if err then 0 else if dying then 2 else 4, 0
    {
      if !death.failed && children[k].lines > 0 {
        var running, c := StartJobCommand(children[k], outside);
        if running {
          SumsUpdated(children, k, c);
          forall file { LeftUpdated(children, k, c, file); }
          children := children[k := c];
          return false;
        }
      }
      SumsWithout(children, k);
      RemoveChild(k);
      removed := true;
      if !err && death.failed && !death.dontcare && !keepGoing {
        Die(if death.question then 1 else 2);
      }
    }

    /** reap_children: children that have died run their next command or are removed. When
        blocking, one child is waited for and removed. A failure may end the whole make. */
    method ReapChildren(block: bool, err: bool, outside: Outside)
      requires TokensOk() && Counts(0) && !exited
      modifies this
      ensures TokensOk() && (!exited ==> Counts(0)) && (exited ==> !err && !keepGoing && exitStatus in {1, 2})
      ensures exited && old(dying) ==> Counts(0)
      ensures CommandsKept([], outside)
      ensures !exited ==> waitingJobs == old(waitingJobs) && dying == old(dying)
      ensures !exited ==> jobSlotsUsed <= old(jobSlotsUsed) && Files(children) <= old(Files(children))
      ensures !exited ==> |children| <= old(|children|) && Work(children) <= old(Work(children))
      ensures !exited && block && old(children) != [] ==> |children| < old(|children|)
      ensures !exited && block && old(children) != [] ==> Work(children) < old(Work(children))
      ensures !block && outside.Calm? && AllStarted(old(children)) ==>
        children == old(children) && jobSlotsUsed == old(jobSlotsUsed) && commands == old(commands)
      decreases if err then 0 else if dying then 2 else 4, 1
    {
      if !block && outside.Calm? && AllStarted(children) { return; }    // the first WNOHANG finds none
      var blocking, reapMore := block, true;
      while children != [] && (blocking || reapMore)
        invariant TokensOk() && Counts(0) && !exited
        invariant waitingJobs == old(waitingJobs) && dying == old(dying)
        invariant jobSlotsUsed <= old(jobSlotsUsed) && Files(children) <= old(Files(children))
        invariant |children| <= old(|children|) && Work(children) <= old(Work(children))
        invariant block && !blocking ==> |children| < old(|children|) && Work(children) < old(Work(children))
        invariant blocking ==> block
        invariant CommandsKept([], outside)
        decreases Work(children), reapMore
      {
        var k := FindNotStarted();
        if k == |children| {
          var someDied := *;
          if !blocking && !someDied {
            reapMore := false;
            break;
          }
          k :| 0 <= k < |children|;
        }
        var failed, dontcare, question := *, *, *;
        if outside != Any && children[k].started { failed := false; }
        var removed := ReapChild(k, err, Death(failed, dontcare, question), if failed then Any else outside);
        if exited { return; }
        if removed { blocking := false; }
      }
    }

    /** die, up to and including clean_jobserver: wait for the children that hold slots, then
        give back the tokens of the jobs that never got to run. The second time, exit at once. */
    method Die(status: int)
      requires TokensOk() && Counts(0) && !exited
      modifies this
      ensures exited && TokensOk() && (status != 0 ==> exitStatus == status)
      ensures NoneAdded([])
      ensures status == 0 && exitStatus != status ==> Counts(0)
      ensures old(dying) ==> Counts(0) && children == old(children)
      ensures !old(dying) && exitStatus == status ==> SlotsOf(children) == 0
      ensures !old(dying) && status == 2 && jobserverEnabled ==> jobserverTokens == 0 && given == 0
      ensures status != 2 ==> jobserverTokens == |children| + |waitingJobs|
      decreases if dying then 1 else 3, 0
    {
      if !dying {
        dying := true;
        while jobSlotsUsed > 0
          invariant TokensOk() && Counts(0) && !exited && dying
          invariant NoneAdded([])
          decreases Work(children)
        {
          SlotsNeedChildren(children);
          ReapChildren(true, status != 0, Any);
          if exited { return; }
        }
        if jobserverEnabled && status == 2 { ReturnTokens(); }
      }
      exited, exitStatus := true, status;
    }

    /** clean_jobserver after an error: every token goes back to the pool but the free one. */
    method ReturnTokens()
      requires TokensOk() && jobserverEnabled
      modifies `jobserverTokens, `events, `given
      ensures TokensOk() && jobserverTokens == 0 && given == 0
    {
      if jobserverTokens > 0 {
        OneMoreEvent(events, Finish);
        jobserverTokens := jobserverTokens - 1;
        events := events + [Finish];
        while jobserverTokens > 0
          invariant TokensAfter(events) == Some(jobserverTokens) && given + jobserverTokens == 0
        {
          given := given + 1;                     // jobserver_release
          OneMoreEvent(events, Finish);
          jobserverTokens := jobserverTokens - 1;
          events := events + [Finish];
        }
      }
    }

    /** The chain is the given one, or that with one more child for the file in front, which holds
        a slot if it could be forked. */
    ghost predicate MayHaveJoined(chain: seq<Child>, file: nat)
      reads this
    {
      || children == chain
      || (&& children != [] && children[1..] == chain
          && children[0].file == file && children[0].jobslot == children[0].started)
    }

    /** The job is one more child in front, which holds a slot and runs its first command. */
    twostate predicate Joins(c: Child)
      reads this
    {
      && c.lines > 0
      && children == [c.(lines := c.lines - 1, started := true, jobslot := true)] + old(children)
      && waitingJobs == old(waitingJobs) && commands == old(commands) + [c.file]
      && jobSlotsUsed == old(jobSlotsUsed) + 1
    }

    /** The job waits for the load, in front of those that do already. */
    twostate predicate Chained(c: Child)
      reads this
    {
      && loadLimit && jobSlotsUsed > 0 && waitingJobs == [c] + old(waitingJobs)
      && children == old(children) && commands == old(commands) && jobSlotsUsed == old(jobSlotsUsed)
    }

    /** The first command of the job runs, and holds a slot; or the job waits for the load. */
    ghost predicate RunsOrWaits(c: Child)
      requires c.lines > 0
      reads this
    {
      || (&& children != [] && children[0] == c.(lines := c.lines - 1, started := true, jobslot := true)
          && commands != [] && commands[|commands| - 1] == c.file)
      || (loadLimit && jobSlotsUsed > 0 && waitingJobs != [] && waitingJobs[0] == c)
    }

    /** Chain the job in front of those that wait for the load. */
    method ChainWaiting(c: Child)
      requires TokensOk() && Counts(1) && !c.jobslot && loadLimit && jobSlotsUsed > 0
      modifies `waitingJobs
      ensures TokensOk() && Counts(0) && Chained(c) && NoneAdded([c]) && NoneLost([c])
    {
      assert [c] + [] == [c];
      forall file { LeftInFront(c, waitingJobs, file); }
      waitingJobs := [c] + waitingJobs;
    }

    /** Start the job. It joins the children, and takes a slot if it could be forked, or it is freed
        if there was no command to run. */
    method StartJob(c: Child, outside: Outside)
      requires TokensOk() && Counts(1) && !exited && !c.jobslot
      modifies this
      ensures TokensOk() && Counts(0) && !exited && dying == old(dying)
      ensures waitingJobs == old(waitingJobs) && jobSlotsUsed <= old(jobSlotsUsed) + 1
      ensures MayHaveJoined(old(children), c.file) && begun == old(begun) + [c.file]
      ensures outside != Any && c.lines > 0 ==> Joins(c)
      ensures c.lines == 0 ==> commands == old(commands)
      ensures CommandsKept([c], outside)
    {
      var running, c' := StartJobCommand(c, outside);
      if running {
        if c'.started {
          jobSlotsUsed := jobSlotsUsed + 1;
          c' := c'.(jobslot := true);
        }
        forall file { LeftInFront(c', children, file); }
        children := [c'] + children;
      } else {
        FreeChild();
      }
    }

    /** start_waiting_job: start the job in hand, or chain it when the load is too high. */
    method StartWaitingJob(c: Child, outside: Outside) returns (started: bool)
      requires TokensOk() && Counts(1) && !exited && !c.jobslot
      modifies this
      ensures TokensOk() && Counts(0) && !exited && dying == old(dying)
      ensures started ==> waitingJobs == old(waitingJobs) && jobSlotsUsed <= old(jobSlotsUsed) + 1
      ensures started ==> MayHaveJoined(old(children), c.file) && begun == old(begun) + [c.file]
      ensures started && outside != Any && c.lines > 0 ==> Joins(c)
      ensures !started ==> Chained(c)
      ensures c.lines == 0 ==> commands == old(commands)
      ensures CommandsKept([c], outside)
      ensures outside.Calm? ==> started == !(loadLimit && old(jobSlotsUsed) > 0 && outside.loadTooHigh)
    {
      var remote, tooHigh: bool := *, *;
      if outside.Calm? {
        remote, tooHigh := false, outside.loadTooHigh;
      }
      if !remote && jobSlotsUsed > 0 && loadLimit && tooHigh {
        ChainWaiting(c);
        return false;
      }
      StartJob(c, outside);
      started := true;
    }

    /** Take the first job off the waiting chain and start it, or put it back. */
    method StartFirstWaiting(outside: Outside) returns (started: bool)
      requires TokensOk() && Counts(0) && waitingJobs != [] && !exited
      modifies this
      ensures TokensOk() && Counts(0) && !exited && dying == old(dying)
      ensures started ==> waitingJobs == old(waitingJobs[1..]) && jobSlotsUsed <= old(jobSlotsUsed) + 1
      ensures !started ==> loadLimit && jobSlotsUsed > 0 && waitingJobs == old(waitingJobs)
      ensures !started ==>
        children == old(children) && jobSlotsUsed == old(jobSlotsUsed) && commands == old(commands)
      ensures CommandsKept([], outside)
      ensures outside.Calm? ==> started == !(loadLimit && old(jobSlotsUsed) > 0 && outside.loadTooHigh)
      ensures started && outside != Any && old(waitingJobs[0].lines) > 0 ==>
        && jobSlotsUsed == old(jobSlotsUsed) + 1
        && commands + FilesInOrder(waitingJobs) == old(commands + FilesInOrder(waitingJobs))
    {
      var job := waitingJobs[0];
      assert waitingJobs == [job] + waitingJobs[1..];
      waitingJobs := waitingJobs[1..];
      assert forall file :: Left([job], file) == if job.file == file then job.lines else 0;
      started := StartWaitingJob(job, outside);
    }

    /** start_waiting_jobs: afterwards either no job waits, or some slot is in use. The jobs
        released are not checked against job_slots. */
    method StartWaitingJobs(outside: Outside)
      requires TokensOk() && Counts(0) && !exited
      modifies this
      ensures TokensOk() && (!exited ==> Counts(0) && dying == old(dying))
      ensures !exited ==> waitingJobs == [] || jobSlotsUsed > 0
      ensures !exited ==> jobSlotsUsed + |waitingJobs| <= old(jobSlotsUsed + |waitingJobs|)
      ensures !exited && old(waitingJobs) == [] ==>
        && waitingJobs == [] && children == old(children) && jobSlotsUsed == old(jobSlotsUsed)
        && commands == old(commands)
      ensures CommandsKept([], outside)
      ensures old(AllWithCommands(waitingJobs)) && !exited ==> AllWithCommands(waitingJobs)
      ensures outside.Calm? && old(Settled()) && !outside.loadTooHigh ==>
        && waitingJobs == [] && jobSlotsUsed == old(jobSlotsUsed + |waitingJobs|)
        && commands == old(commands + FilesInOrder(waitingJobs))
      ensures outside.Calm? && old(Settled()) && outside.loadTooHigh && loadLimit && old(jobSlotsUsed) > 0 ==>
        && waitingJobs == old(waitingJobs) && jobSlotsUsed == old(jobSlotsUsed)
        && children == old(children) && commands == old(commands)
    {
      if waitingJobs == [] { return; }
      var more := true;
      while more
        invariant TokensOk() && Counts(0) && !exited && dying == old(dying)
        invariant more ==> waitingJobs != []
        invariant !more ==> waitingJobs == [] || jobSlotsUsed > 0
        invariant jobSlotsUsed + |waitingJobs| <= old(jobSlotsUsed + |waitingJobs|)
        invariant CommandsKept([], outside)
        invariant old(AllWithCommands(waitingJobs)) ==> AllWithCommands(waitingJobs)
        invariant outside.Calm? && old(Settled()) ==>
          && jobSlotsUsed + |waitingJobs| == old(jobSlotsUsed + |waitingJobs|)
          && commands + FilesInOrder(waitingJobs) == old(commands + FilesInOrder(waitingJobs))
        invariant outside.Calm? && old(Settled()) && !more && !outside.loadTooHigh ==> waitingJobs == []
        invariant outside.Calm? && old(Settled()) && outside.loadTooHigh && loadLimit && old(jobSlotsUsed) > 0 ==>
          && waitingJobs == old(waitingJobs) && jobSlotsUsed == old(jobSlotsUsed)
          && children == old(children) && commands == old(commands)
        decreases |waitingJobs|, more
      {
        ReapChildren(false, false, outside);
        if exited { return; }
        var started := StartFirstWaiting(outside);
        more := started && waitingJobs != [];
      }
    }

    /** Every child runs, and every waiting job has a command to run. */
    ghost predicate Settled()
      reads this
    {
      AllStarted(children) && AllWithCommands(waitingJobs)
    }

    /** With no limit on the load, job_slots bounds the slots in use. */
    ghost predicate WithinSlots()
      reads this
    {
      jobSlots > 0 && !loadLimit ==> jobSlotsUsed <= jobSlots
    }

    /** The state between two calls of new_job; a serial make has nothing outstanding. */
    ghost predicate BetweenJobs()
      reads this
    {
      && TokensOk()
      && (!exited ==> Counts(0) && WithinSlots())
      && (!exited && IsSerial() ==> children == [] && waitingJobs == [])
    }

    /** Reap what has finished, and start the jobs that wait if the load has gone down. */
    method CatchUp(outside: Outside)
      requires TokensOk() && Counts(0) && !exited
      modifies this
      ensures TokensOk() && (!exited ==> Counts(0) && (waitingJobs == [] || children != []))
      ensures CommandsKept([], outside)
      ensures outside.Calm? && old(AllStarted(children) && waitingJobs == []) ==>
        children == old(children) && waitingJobs == [] && commands == old(commands)
      ensures old(AllWithCommands(waitingJobs)) && !exited ==> AllWithCommands(waitingJobs)
    {
      ReapChildren(false, false, outside);
      if exited { return; }
      StartWaitingJobs(outside);
      SlotsNeedChildren(children);
    }

    /** The wait of new_job for its free token or for one from the pool. The fatal error is
        unreachable: a make that goes to sleep for a token has a child. `patience` bounds the
        waits that end without a token. */
    method AwaitToken(patience: nat, outside: Outside) returns (acquired: bool)
      requires TokensOk() && Counts(0) && !exited && jobserverEnabled
      modifies this
      ensures !exited ==> Counts(0)
      ensures exited || !acquired ==> TokensOk()
      ensures !exited && !acquired ==> jobserverTokens == 0
      ensures !exited && acquired ==> jobserverTokens > 0 && TokensAfter(events) == Some(jobserverTokens)
      ensures !exited && acquired ==> given + Taken(jobserverTokens) == -1
      ensures old(jobserverTokens) == 0 ==> !exited && children == old(children) && waitingJobs == old(waitingJobs)
      ensures outside.Calm? && old(AllStarted(children) && waitingJobs == []) ==>
        children == old(children) && waitingJobs == [] && commands == old(commands)
      ensures CommandsKept([], outside)
      ensures old(AllWithCommands(waitingJobs)) && !exited ==> AllWithCommands(waitingJobs)
    {
      acquired := false;
      var left := patience;
      while true
        invariant TokensOk() && Counts(0) && !exited && !acquired
        invariant old(jobserverTokens) == 0 ==>
          jobserverTokens == 0 && children == old(children) && waitingJobs == old(waitingJobs)
        invariant outside.Calm? && old(AllStarted(children) && waitingJobs == []) ==>
          children == old(children) && waitingJobs == [] && commands == old(commands)
        invariant CommandsKept([], outside)
        invariant old(AllWithCommands(waitingJobs)) ==> AllWithCommands(waitingJobs)
        decreases left
      {
        if jobserverTokens == 0 { break; }
        CatchUp(outside);
        if exited { return; }
        if jobserverTokens == 0 { break; }
        assert children != [];
        var gotToken := *;
        if gotToken || left == 0 {
          given := given - 1;
          acquired := true;
          break;
        }
        left := left - 1;
      }
    }

    /** The wait of new_job for a free job slot. */
    method AwaitSlot(outside: Outside)
      requires TokensOk() && Counts(0) && !exited && jobSlots != 0
      modifies this
      ensures TokensOk()
      ensures !exited ==> Counts(0) && jobSlotsUsed != jobSlots && jobSlotsUsed <= old(jobSlotsUsed)
      ensures old(jobSlotsUsed) != jobSlots ==>
        !exited && children == old(children) && jobSlotsUsed == old(jobSlotsUsed) && commands == old(commands)
      ensures !exited ==> waitingJobs == old(waitingJobs) && |children| <= old(|children|)
      ensures CommandsKept([], outside)
    {
      while !exited && jobSlotsUsed == jobSlots
        invariant TokensOk() && (!exited ==> Counts(0) && jobSlotsUsed <= old(jobSlotsUsed))
        invariant !exited ==> waitingJobs == old(waitingJobs) && |children| <= old(|children|)
        invariant old(jobSlotsUsed) != jobSlots ==>
          !exited && children == old(children) && jobSlotsUsed == old(jobSlotsUsed) && commands == old(commands)
        invariant CommandsKept([], outside)
        decreases !exited, Work(children)
      {
        SlotsNeedChildren(children);
        ReapChildren(true, false, outside);
      }
    }

    /** The wait of a serial new_job for the recipe of its target to finish. */
    method AwaitFile(file: nat, outside: Outside)
      requires TokensOk() && Counts(0) && !exited
      modifies this
      ensures TokensOk()
      ensures !exited ==> Counts(0) && jobSlotsUsed <= old(jobSlotsUsed) && waitingJobs == old(waitingJobs)
      ensures !exited ==> file !in Files(children) && Files(children) <= old(Files(children))
      ensures CommandsKept([], outside)
    {
      while !exited && file in Files(children)
        invariant TokensOk() && (!exited ==> Counts(0) && jobSlotsUsed <= old(jobSlotsUsed))
        invariant !exited ==> waitingJobs == old(waitingJobs) && Files(children) <= old(Files(children))
        invariant CommandsKept([], outside)
        decreases !exited, Work(children)
      {
        ReapChildren(true, false, outside);
      }
    }

    /** There is a token for one more job: one acquired, which is not in the account yet, or the
        free one. */
    ghost predicate MayCount(acquired: bool)
      reads this
    {
      && (acquired ==> jobserverEnabled && jobserverTokens > 0)
      && (jobserverEnabled ==> TokensAfter(events) == Some(jobserverTokens))
      && (jobserverEnabled ==> given + Taken(jobserverTokens) == if acquired then -1 else 0)
      && (jobserverEnabled && !acquired ==> jobserverTokens == 0)
    }

    /** The wait of a serial new_job leaves nothing outstanding. */
    method FinishSerial(file: nat, outside: Outside)
      requires TokensOk() && Counts(0) && !exited && waitingJobs == [] && MayHaveJoined([], file)
      modifies this
      ensures TokensOk()
      ensures !exited ==> Counts(0) && children == [] && waitingJobs == [] && jobSlotsUsed <= old(jobSlotsUsed)
      ensures CommandsKept([], outside)
    {
      AwaitFile(file, outside);
      assert children != [] ==> children[0].file in Files(children);
    }

    /** Count the job in hand in jobserver_tokens. */
    method CountJob(acquired: bool)
      requires Counts(0) && MayCount(acquired)
      modifies `jobserverTokens, `events
      ensures TokensOk() && Counts(1)
    {
      OneMoreEvent(events, if acquired then Acquire else UseFree);
      events := events + [if acquired then Acquire else UseFree];
      jobserverTokens := jobserverTokens + 1;
    }

    /** A parallel make limited by -j is given a job that has a command, and the world is calm. */
    ghost predicate Undisturbed(lines: nat, outside: Outside)
      reads this
    {
      outside.Calm? && Settled() && lines > 0 && jobSlots > 1 && !notParallel
    }

    /** The load is low. The jobs that wait do not happen to fill the slots exactly. */
    ghost predicate AllWillStart(lines: nat, outside: Outside)
      reads this
    {
      Undisturbed(lines, outside) && !outside.loadTooHigh && jobSlotsUsed + |waitingJobs| != jobSlots
    }

    /** The load is too high. Some slot is in use, and some is free. */
    ghost predicate NoneWillStart(lines: nat, outside: Outside)
      reads this
    {
      Undisturbed(lines, outside) && outside.loadTooHigh && loadLimit && 0 < jobSlotsUsed < jobSlots
    }

    /** No job waits, and no slot has to be waited for. */
    ghost predicate SlotIsFree(outside: Outside)
      reads this
    {
      outside.Calm? && AllStarted(children) && waitingJobs == [] && (jobSlots == 0 || jobSlotsUsed != jobSlots)
    }

    /** The part of new_job before the job is counted. */
    method MakeRoom(patience: nat, outside: Outside) returns (acquired: bool)
      requires BetweenJobs() && !exited
      modifies this
      ensures TokensOk() || !exited
      ensures !exited ==> Counts(0) && MayCount(acquired)
      ensures !exited && jobSlots != 0 ==> jobSlotsUsed != jobSlots
      ensures !exited && jobSlots != 0 ==> jobSlotsUsed + |waitingJobs| <= old(jobSlotsUsed + |waitingJobs|)
      ensures !exited && IsSerial() ==> children == [] && waitingJobs == []
      ensures CommandsKept([], outside)
      ensures !exited && old(AllWithCommands(waitingJobs)) ==> AllWithCommands(waitingJobs)
      ensures outside.Calm? && old(Settled()) && !outside.loadTooHigh && jobSlots > 1 ==>
        old(jobSlotsUsed + |waitingJobs|) != jobSlots ==>
        && waitingJobs == [] && jobSlotsUsed == old(jobSlotsUsed + |waitingJobs|)
        && commands == old(commands + FilesInOrder(waitingJobs))
      ensures outside.Calm? && old(Settled()) && outside.loadTooHigh && loadLimit ==>
        0 < old(jobSlotsUsed) < jobSlots ==>
        && waitingJobs == old(waitingJobs) && jobSlotsUsed == old(jobSlotsUsed)
        && children == old(children) && commands == old(commands)
      ensures old(SlotIsFree(outside)) ==>
        children == old(children) && jobSlotsUsed == old(jobSlotsUsed) && commands == old(commands)
    {
      StartWaitingJobs(outside);
      acquired := false;
      if exited { return; }
      ReapChildren(false, false, outside);
      if exited { return; }
      if jobSlots != 0 {
        AwaitSlot(outside);
      } else if jobserverEnabled {
        acquired := AwaitToken(patience, outside);
      }
    }

    /** With one slot or .NOTPARALLEL, jobs run one after the other. */
    predicate IsSerial() {
      jobSlots == 1 || notParallel
    }

    /** The job is handed to start_job_command, or it waits for the load. */
    twostate predicate Begins(job: Child)
      reads this
    {
      || (exists k :: |old(begun)| <= k < |begun| && begun[k] == job.file)
      || (waitingJobs != [] && waitingJobs[0] == job)
    }

    /** The part of new_job that counts the job and starts it; a serial make waits for it. */
    method Launch(job: Child, acquired: bool, outside: Outside)
      requires Counts(0) && MayCount(acquired) && !exited && !job.jobslot
      requires IsSerial() ==> children == [] && waitingJobs == []
      modifies this
      ensures TokensOk() && (!exited ==> Counts(0) && (IsSerial() ==> children == [] && waitingJobs == []))
      ensures !exited ==> jobSlotsUsed <= old(jobSlotsUsed) + 1
      ensures !exited ==> jobSlotsUsed + |waitingJobs| <= old(jobSlotsUsed + |waitingJobs|) + 1
      ensures CommandsKept([job], outside) && (!exited ==> Begins(job))
      ensures !IsSerial() && outside != Any && job.lines > 0 ==> Joins(job) || Chained(job)
      ensures !IsSerial() && outside.Calm? && job.lines > 0 ==>
        if loadLimit && old(jobSlotsUsed) > 0 && outside.loadTooHigh then Chained(job) else Joins(job)
    {
      CountJob(acquired);
      ghost var count := |begun|;
      var started := StartWaitingJob(job, outside);
      if IsSerial() { FinishSerial(job.file, outside); }
      assert started ==> begun[count] == job.file;
    }

    /** new_job: wait for a slot or a token, count the job, and start it. A serial make
        then waits for it to finish. The bound on slots survives a call if the jobs that wait
        would fit as well. With more than fit, it is broken as soon as the load is low. */
    method NewJob(file: nat, lines: nat, patience: nat, outside: Outside)
      requires BetweenJobs() && !exited
      modifies this
      ensures BetweenJobs()
      ensures !exited && 0 < jobSlots && old(jobSlotsUsed + |waitingJobs|) <= jobSlots ==> jobSlotsUsed <= jobSlots
      ensures !exited && 0 < jobSlots ==> jobSlotsUsed + |waitingJobs| <= old(jobSlotsUsed + |waitingJobs|) + 1
      ensures CommandsKept([Child(file, lines, false, false)], outside)
      ensures !exited ==> Begins(Child(file, lines, false, false))
      ensures outside != Any && old(Settled()) && lines > 0 ==> Settled()
      ensures outside != Any && IsSerial() ==>
        children == [] && commands == old(commands) + seq(lines, _ => file)
      ensures outside != Any && old(AllStarted(children)) && lines > 0 && !IsSerial() ==>
        RunsOrWaits(Child(file, lines, false, false))
      ensures old(SlotIsFree(outside)) && lines > 0 && !IsSerial() ==>
        !(loadLimit && outside.loadTooHigh && old(jobSlotsUsed) > 0) ==>
        children == [Child(file, lines - 1, true, true)] + old(children) && commands == old(commands) + [file]
      ensures old(AllWillStart(lines, outside)) ==>
        && waitingJobs == [] && jobSlotsUsed == old(jobSlotsUsed + |waitingJobs|) + 1
        && commands == old(commands + FilesInOrder(waitingJobs)) + [file]
      ensures old(NoneWillStart(lines, outside)) ==>
        && waitingJobs == [Child(file, lines, false, false)] + old(waitingJobs)
        && children == old(children) && commands == old(commands)
    {
      var acquired := MakeRoom(patience, outside);
      if exited { return; }
      Launch(Child(file, lines, false, false), acquired, outside);
      if IsSerial() && outside != Any {
        assert forall f :: Commands(f) == Count(commands, f) && old(Commands(f)) == Count(old(commands), f);
        OnlyForOneJob(old(commands), commands, Child(file, lines, false, false));
      }
    }
  }

  lemma FilesOfTwo(a: Child, b: Child)
    ensures FilesInOrder([a, b]) == [a.file, b.file]
  {
    assert [a, b][1..] == [b] && [b][1..] == [] && FilesInOrder([b]) == [b.file];
  }

  /** Three jobs on two slots: the second and the third wait for the load. */
  method ThreeJobs() returns (m: Make)
    ensures fresh(m) && m.BetweenJobs() && m.Settled() && !m.exited
    ensures m.jobSlots == 2 && !m.notParallel && m.loadLimit && m.jobSlotsUsed == 1 && m.commands == [1]
    ensures m.waitingJobs == [Child(3, 1, false, false), Child(2, 1, false, false)]
  {
    m := new Make(2, false, true, false, false);
    m.NewJob(1, 1, 0, Calm(false));
    assert m.waitingJobs == [] && m.commands == [1];
    m.NewJob(2, 1, 0, Calm(true));
    m.NewJob(3, 1, 0, Calm(true));
  }

  /** The load goes down, and a fourth job comes. Those that waited are started last in first out,
      and four jobs run on two slots. */
  method FourJobsOnTwoSlots() returns (m: Make)
    ensures fresh(m) && m.jobSlots == 2 && m.jobSlotsUsed == 4 && !m.exited && m.commands == [1, 3, 2, 4]
  {
    m := ThreeJobs();
    FilesOfTwo(Child(3, 1, false, false), Child(2, 1, false, false));
    m.NewJob(4, 1, 0, Calm(false));
  }
}
