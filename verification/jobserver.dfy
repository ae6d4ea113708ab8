/** The jobserver token protocol over a tree of makes: every make runs the token
    events of its own scheduler, in any interleaving with the others. */
module Jobserver {
  import opened Prelude

  /** What one make does with tokens: start a job with its free token, start a job with a
      token acquired from the pool, or finish a job. */
  datatype TokenEvent = UseFree | Acquire | Finish

  /** The effect of an event on one make's jobserver_tokens, if it can happen. */
  function LocalEffect(e: TokenEvent, tokens: nat): Option<nat> {
    match e
    case UseFree => if tokens == 0 then Some(1) else None
    case Acquire => if tokens > 0 then Some(tokens + 1) else None
    case Finish => if tokens > 0 then Some(tokens - 1) else None
  }

  /** The effect on the pool as well. A finished job puts a token back unless it ran on the free one. */
  ghost predicate TokenStep(e: TokenEvent, tokens: nat, pool: nat, tokens': nat, pool': nat) {
    && LocalEffect(e, tokens) == Some(tokens')
    && match e
       case UseFree => pool' == pool
       case Acquire => pool > 0 && pool' == pool - 1
       case Finish => pool' == if tokens > 1 then pool + 1 else pool
  }

  /** The tokens a make has after a history of events, starting with none. */
  function TokensAfter(events: seq<TokenEvent>): Option<nat> {
    if events == [] then Some(0)
    else
      match TokensAfter(events[..|events| - 1])
      case None => None
      case Some(tokens) => LocalEffect(events[|events| - 1], tokens)
  }

  lemma OneMoreEvent(events: seq<TokenEvent>, e: TokenEvent)
    ensures TokensAfter(events).Some? ==>
      TokensAfter(events + [e]) == LocalEffect(e, TokensAfter(events).value)
  {
    assert (events + [e])[..|events|] == events;
  }

  /** The tokens one make has taken from the pool: all but its free one. */
  function Taken(tokens: nat): nat {
    if tokens == 0 then 0 else tokens - 1
  }

  lemma TokenStepConserves(e: TokenEvent, tokens: nat, pool: nat, tokens': nat, pool': nat)
    requires TokenStep(e, tokens, pool, tokens', pool')
    ensures pool' + Taken(tokens') == pool + Taken(tokens)
  {
  }

  /** A make that has not exited: its token count, the jobs running an ordinary command,
      and the jobs that run a sub-make, by the index of that make. */
  datatype Make = Exited | Running(parent: nat, tokens: nat, leaves: nat, subs: set<nat>)

  /** The makes in order of creation, number 0 being the top make, and the tokens in the pool. */
  datatype World = World(makes: seq<Make>, pool: nat)

  datatype Event = Token(make: nat, event: TokenEvent) | StartSub(make: nat) | EndSub(sub: nat)

  /** A make starts or finishes an ordinary job. */
  ghost predicate TokenAt(w: World, m: nat, t: TokenEvent, w': World) {
    && m < |w.makes| && w.makes[m].Running?
    && |w'.makes| == |w.makes| && w'.makes[m].Running?
    && var mk, mk' := w.makes[m], w'.makes[m];
    && TokenStep(t, mk.tokens, w.pool, mk'.tokens, w'.pool)
    && mk'.leaves == (if t.Finish? then mk.leaves - 1 else mk.leaves + 1)
    && w'.makes == w.makes[m := mk.(tokens := mk'.tokens, leaves := mk'.leaves)]
  }

  /** A job of a make becomes a sub-make, which starts with no tokens of its own. */
  ghost predicate StartSubAt(w: World, m: nat, w': World) {
    && m < |w.makes| && w.makes[m].Running? && w.makes[m].leaves > 0
    && w'.pool == w.pool
    && var mk := w.makes[m];
    w'.makes == w.makes[m := mk.(leaves := mk.leaves - 1, subs := mk.subs + {|w.makes|})] + [Running(m, 0, 0, {})]
  }

  /** A sub-make exits with no tokens left, and its job is an ordinary one again. */
  ghost predicate EndSubAt(w: World, s: nat, w': World) {
    && 0 < s < |w.makes| && w.makes[s].Running? && w.makes[s].tokens == 0
    && w'.pool == w.pool
    && var p := w.makes[s].parent;
    && p < s && w.makes[p].Running? && s in w.makes[p].subs
    && var mk := w.makes[p];
    w'.makes == w.makes[s := Exited][p := mk.(leaves := mk.leaves + 1, subs := mk.subs - {s})]
  }

  /** One step of one make, in any interleaving. */
  ghost predicate Step(w: World, e: Event, w': World) {
    match e
    case Token(m, t) => TokenAt(w, m, t, w')
    case StartSub(m) => StartSubAt(w, m, w')
    case EndSub(s) => EndSubAt(w, s, w')
  }

  /** The top make sets the pool up with one token less than the slots asked for. */
  function Init(slots: nat): World
    requires slots > 1
  {
    World([Running(0, 0, 0, {})], slots - 1)
  }

  ghost predicate Run(slots: nat, run: seq<World>, events: seq<Event>)
    requires slots > 1
  {
    && |run| == |events| + 1 && run[0] == Init(slots)
    && forall i :: 0 <= i < |events| ==> Step(run[i], events[i], run[i + 1])
  }

  ghost function Last<T>(s: seq<T>): T
    requires |s| > 0
  {
    s[|s| - 1]
  }

  // ----- sums over the makes -----

  function TakenOf(mk: Make): nat {
    if mk.Exited? then 0 else Taken(mk.tokens)
  }

  function LeavesOf(mk: Make): nat {
    if mk.Exited? then 0 else mk.leaves
  }

  /** Tokens taken from the pool by all makes. */
  function SumTaken(makes: seq<Make>): nat {
    if makes == [] then 0 else SumTaken(makes[..|makes| - 1]) + TakenOf(makes[|makes| - 1])
  }

  /** Jobs of all makes that are not waiting for a sub-make. */
  function SumLeaves(makes: seq<Make>): nat {
    if makes == [] then 0 else SumLeaves(makes[..|makes| - 1]) + LeavesOf(makes[|makes| - 1])
  }

  /** Sub-makes that jobs are waiting for. */
  function SumSubs(makes: seq<Make>): nat {
    if makes == [] then 0 else
    SumSubs(makes[..|makes| - 1]) + if makes[|makes| - 1].Exited? then 0 else |makes[|makes| - 1].subs|
  }

  function CountRunning(makes: seq<Make>): nat {
    if makes == [] then 0 else CountRunning(makes[..|makes| - 1]) + if makes[|makes| - 1].Exited? then 0 else 1
  }

  lemma {:induction false} SumsAfterUpdate(makes: seq<Make>, m: nat, mk: Make)
    requires m < |makes|
    ensures var makes' := makes[m := mk];
      && SumTaken(makes') == SumTaken(makes) - TakenOf(makes[m]) + TakenOf(mk)
      && SumLeaves(makes') == SumLeaves(makes) - LeavesOf(makes[m]) + LeavesOf(mk)
      && SumSubs(makes') == SumSubs(makes) - (if makes[m].Exited? then 0 else |makes[m].subs|)
                            + (if mk.Exited? then 0 else |mk.subs|)
      && CountRunning(makes')
        == CountRunning(makes) - (if makes[m].Exited? then 0 else 1) + (if mk.Exited? then 0 else 1)
  {
    var init := makes[..|makes| - 1];
    if m < |init| {
      SumsAfterUpdate(init, m, mk);
      assert makes[m := mk][..|makes| - 1] == init[m := mk];
    } else {
      assert makes[m := mk][..|makes| - 1] == init;
    }
  }

  lemma SumsAfterAppend(makes: seq<Make>, mk: Make)
    ensures var makes' := makes + [mk];
      && SumTaken(makes') == SumTaken(makes) + TakenOf(mk)
      && SumLeaves(makes') == SumLeaves(makes) + LeavesOf(mk)
      && SumSubs(makes') == SumSubs(makes) + (if mk.Exited? then 0 else |mk.subs|)
      && CountRunning(makes') == CountRunning(makes) + (if mk.Exited? then 0 else 1)
  {
    assert (makes + [mk])[..|makes|] == makes;
  }

  // ----- the invariant -----

  /** Every token is a job: jobserver_tokens counts the jobs of the make. */
  ghost predicate TokensAreJobs(makes: seq<Make>) {
    forall m: nat :: m < |makes| && makes[m].Running? ==> makes[m].tokens == makes[m].leaves + |makes[m].subs|
  }

  /** A running make other than the top one is a sub-make of a running parent. */
  ghost predicate HasParent(makes: seq<Make>, m: nat)
    requires m < |makes|
  {
    makes[m].Running? && m > 0 ==>
      makes[m].parent < m && makes[makes[m].parent].Running? && m in makes[makes[m].parent].subs
  }

  ghost predicate IsSub(makes: seq<Make>, m: nat, s: nat) {
    m < s < |makes| && makes[s].Running? && makes[s].parent == m
  }

  /** The running makes form a tree. */
  ghost predicate Tree(makes: seq<Make>) {
    && |makes| > 0 && makes[0].Running?
    && (forall m: nat {:trigger HasParent(makes, m)} :: m < |makes| ==> HasParent(makes, m))
    && (forall m: nat, s: nat {:trigger s in makes[m].subs} ::
          m < |makes| && makes[m].Running? && s in makes[m].subs ==> IsSub(makes, m, s))
  }

  lemma TokenKeepsTree(w: World, m: nat, t: TokenEvent, w': World)
    requires Tree(w.makes) && TokensAreJobs(w.makes) && TokenAt(w, m, t, w')
    ensures Tree(w'.makes) && TokensAreJobs(w'.makes)
  {
    forall i: nat | i < |w'.makes| ensures HasParent(w'.makes, i) {
      assert HasParent(w.makes, i);
    }
    forall i: nat, s: nat | i < |w'.makes| && w'.makes[i].Running? && s in w'.makes[i].subs
      ensures IsSub(w'.makes, i, s)
    {
      assert s in w.makes[i].subs;
    }
  }

  lemma StartSubKeepsParents(w: World, m: nat, w': World)
    requires Tree(w.makes) && StartSubAt(w, m, w')
    ensures forall i: nat :: i < |w'.makes| ==> HasParent(w'.makes, i)
  {
    forall i: nat | i < |w'.makes| ensures HasParent(w'.makes, i) {
      if i < |w.makes| { assert HasParent(w.makes, i); }
    }
  }

  lemma StartSubKeepsSubs(w: World, m: nat, w': World)
    requires Tree(w.makes) && StartSubAt(w, m, w')
    ensures forall i: nat, s: nat {:trigger s in w'.makes[i].subs} ::
      i < |w'.makes| && w'.makes[i].Running? && s in w'.makes[i].subs ==> IsSub(w'.makes, i, s)
  {
    forall i: nat, s: nat | i < |w'.makes| && w'.makes[i].Running? && s in w'.makes[i].subs
      ensures IsSub(w'.makes, i, s)
    {
      assert s == |w.makes| || s in w.makes[i].subs;
    }
  }

  lemma StartSubKeepsTokens(w: World, m: nat, w': World)
    requires Tree(w.makes) && TokensAreJobs(w.makes) && StartSubAt(w, m, w')
    ensures TokensAreJobs(w'.makes)
  {
    assert |w.makes| !in w.makes[m].subs;
  }

  lemma StartSubKeepsTree(w: World, m: nat, w': World)
    requires Tree(w.makes) && TokensAreJobs(w.makes) && StartSubAt(w, m, w')
    ensures Tree(w'.makes) && TokensAreJobs(w'.makes)
  {
    StartSubKeepsParents(w, m, w');
    StartSubKeepsSubs(w, m, w');
    StartSubKeepsTokens(w, m, w');
  }

  lemma EndSubKeepsTree(w: World, s: nat, w': World)
    requires Tree(w.makes) && TokensAreJobs(w.makes) && EndSubAt(w, s, w')
    ensures Tree(w'.makes) && TokensAreJobs(w'.makes)
  {
    assert w.makes[s].subs == {};
    forall i: nat | i < |w'.makes| ensures HasParent(w'.makes, i) {
      assert HasParent(w.makes, i);
      if w.makes[i].Running? && i > 0 && i != s {
        assert i in w.makes[w.makes[i].parent].subs;
      }
    }
    forall i: nat, j: nat | i < |w'.makes| && w'.makes[i].Running? && j in w'.makes[i].subs
      ensures IsSub(w'.makes, i, j)
    {
      assert j in w.makes[i].subs;
    }
  }

  lemma StepKeepsTree(w: World, e: Event, w': World)
    requires Tree(w.makes) && TokensAreJobs(w.makes) && Step(w, e, w')
    ensures Tree(w'.makes) && TokensAreJobs(w'.makes)
  {
    match e
    case Token(m, t) => TokenKeepsTree(w, m, t, w');
    case StartSub(m) => StartSubKeepsTree(w, m, w');
    case EndSub(s) => EndSubKeepsTree(w, s, w');
  }

  /** Conservation: tokens in the pool and tokens taken; running makes and jobs waiting for one. */
  ghost predicate Sums(slots: nat, w: World) {
    w.pool + SumTaken(w.makes) == slots - 1 && CountRunning(w.makes) == SumSubs(w.makes) + 1
  }

  ghost predicate Inv(slots: nat, w: World) {
    Tree(w.makes) && TokensAreJobs(w.makes) && Sums(slots, w)
  }

  lemma TokenKeepsSums(slots: nat, w: World, m: nat, t: TokenEvent, w': World)
    requires Sums(slots, w) && TokenAt(w, m, t, w')
    ensures Sums(slots, w')
  {
    SumsAfterUpdate(w.makes, m, w'.makes[m]);
    TokenStepConserves(t, w.makes[m].tokens, w.pool, w'.makes[m].tokens, w'.pool);
  }

  lemma StartSubKeepsSums(slots: nat, w: World, m: nat, w': World)
    requires Tree(w.makes) && Sums(slots, w) && StartSubAt(w, m, w')
    ensures Sums(slots, w')
  {
    var mk := w.makes[m];
    var mk' := mk.(leaves := mk.leaves - 1, subs := mk.subs + {|w.makes|});
    assert |w.makes| !in mk.subs;
    SumsAfterUpdate(w.makes, m, mk');
    SumsAfterAppend(w.makes[m := mk'], Running(m, 0, 0, {}));
  }

  lemma EndSubKeepsSums(slots: nat, w: World, s: nat, w': World)
    requires Tree(w.makes) && TokensAreJobs(w.makes) && Sums(slots, w) && EndSubAt(w, s, w')
    ensures Sums(slots, w')
  {
    var p := w.makes[s].parent;
    var mk := w.makes[p];
    SumsAfterUpdate(w.makes, s, Exited);
    SumsAfterUpdate(w.makes[s := Exited], p, mk.(leaves := mk.leaves + 1, subs := mk.subs - {s}));
  }

  lemma StepKeepsSums(slots: nat, w: World, e: Event, w': World)
    requires Inv(slots, w) && Step(w, e, w')
    ensures Sums(slots, w')
  {
    match e
    case Token(m, t) => TokenKeepsSums(slots, w, m, t, w');
    case StartSub(m) => StartSubKeepsSums(slots, w, m, w');
    case EndSub(s) => EndSubKeepsSums(slots, w, s, w');
  }

  /** The invariant holds in every world of every run. */
  lemma {:induction false} RunKeepsInv(slots: nat, run: seq<World>, events: seq<Event>)
    requires slots > 1 && Run(slots, run, events)
    ensures Inv(slots, Last(run))
  {
    if events == [] {
      SumsAfterAppend([], Running(0, 0, 0, {}));
      assert [] + [Running(0, 0, 0, {})] == Init(slots).makes;
    } else {
      var n := |events| - 1;
      RunKeepsInv(slots, run[..n + 1], events[..n]);
      StepKeepsTree(run[n], events[n], run[n + 1]);
      StepKeepsSums(slots, run[n], events[n], run[n + 1]);
    }
  }

  // ----- what the invariant means -----

  lemma {:induction false} LeavesAndTokens(makes: seq<Make>)
    requires TokensAreJobs(makes)
    ensures SumLeaves(makes) + SumSubs(makes) <= SumTaken(makes) + CountRunning(makes)
  {
    if makes != [] {
      var init := makes[..|makes| - 1];
      assert forall m: nat :: m < |init| && init[m].Running? ==> makes[m].Running?;
      LeavesAndTokens(init);
      assert Last(makes).Running? ==> Last(makes).tokens == Last(makes).leaves + |Last(makes).subs|;
    }
  }

  /** The bound on parallelism: over any interleaving of any tree of makes, no more jobs run
      than the top make was given slots, and none beyond those the pool has handed out. */
  lemma JobsNeverExceedSlots(slots: nat, run: seq<World>, events: seq<Event>)
    requires slots > 1 && Run(slots, run, events)
    ensures SumLeaves(Last(run).makes) + Last(run).pool <= slots
  {
    RunKeepsInv(slots, run, events);
    LeavesAndTokens(Last(run).makes);
  }

  /** Tokens are neither lost nor made: those in the pool and those taken add up. */
  lemma TokensAreConserved(slots: nat, run: seq<World>, events: seq<Event>)
    requires slots > 1 && Run(slots, run, events)
    ensures Last(run).pool + SumTaken(Last(run).makes) == slots - 1
  {
    RunKeepsInv(slots, run, events);
  }

  /** When the top make has no jobs left, all its descendants have exited. */
  lemma {:induction false} OnlyTopRuns(makes: seq<Make>, m: nat)
    requires Tree(makes) && makes[0].subs == {} && 0 < m < |makes|
    ensures makes[m].Exited?
  {
    if makes[m].Running? {
      assert HasParent(makes, m);
      var p := makes[m].parent;
      if p > 0 { OnlyTopRuns(makes, p); }
    }
  }

  lemma {:induction false} NothingTaken(makes: seq<Make>)
    requires forall m: nat :: m < |makes| ==> TakenOf(makes[m]) == 0
    ensures SumTaken(makes) == 0
  {
    if makes != [] { NothingTaken(makes[..|makes| - 1]); }
  }

  /** The check in clean_jobserver: when the top make has finished its jobs, the tokens it
      can acquire, plus its own, are exactly the slots it was given. */
  lemma TopMakeFindsAllTokens(slots: nat, run: seq<World>, events: seq<Event>)
    requires slots > 1 && Run(slots, run, events)
    requires |Last(run).makes| > 0 && Last(run).makes[0].Running? && Last(run).makes[0].tokens == 0
    ensures forall m: nat :: 0 < m < |Last(run).makes| ==> Last(run).makes[m].Exited?
    ensures 1 + Last(run).pool == slots
  {
    RunKeepsInv(slots, run, events);
    var makes := Last(run).makes;
    forall m: nat | 0 < m < |makes| ensures makes[m].Exited? {
      OnlyTopRuns(makes, m);
    }
    NothingTaken(makes);
  }

  /** No deadlock: while the top make has jobs, some make can finish a job or exit. */
  lemma SomeMakeCanProceed(slots: nat, run: seq<World>, events: seq<Event>) returns (e: Event, w': World)
    requires slots > 1 && Run(slots, run, events)
    requires |Last(run).makes| > 0 && Last(run).makes[0].Running? && Last(run).makes[0].tokens > 0
    ensures Step(Last(run), e, w') && (e.EndSub? || (e.Token? && e.event.Finish?))
  {
    RunKeepsInv(slots, run, events);
    var w := Last(run);
    var m := Youngest(w.makes, |w.makes|);
    var mk := w.makes[m];
    if mk.tokens == 0 {
      e := EndSub(m);
      assert HasParent(w.makes, m);
      var p := w.makes[mk.parent];
      w' := World(w.makes[m := Exited][mk.parent := p.(leaves := p.leaves + 1, subs := p.subs - {m})], w.pool);
    } else {
      e := Token(m, Finish);
      assert forall s :: s in mk.subs ==> IsSub(w.makes, m, s);
      assert mk.subs == {};
      w' := World(w.makes[m := mk.(tokens := mk.tokens - 1, leaves := mk.leaves - 1)],
                  if mk.tokens > 1 then w.pool + 1 else w.pool);
    }
  }

  /** The running make created last; it has no sub-makes. */
  lemma {:induction false} Youngest(makes: seq<Make>, n: nat) returns (m: nat)
    requires 0 < n <= |makes| && makes[0].Running?
    requires forall i :: n <= i < |makes| ==> makes[i].Exited?
    ensures m < |makes| && makes[m].Running? && forall i :: m < i < |makes| ==> makes[i].Exited?
  {
    if makes[n - 1].Running? {
      m := n - 1;
    } else {
      m := Youngest(makes, n - 1);
    }
  }

  /** A make can start a job when it has its free token, or when there is one in the pool. */
  lemma MakeCanStart(w: World, m: nat) returns (t: TokenEvent, w': World)
    requires m < |w.makes| && w.makes[m].Running? && (w.makes[m].tokens == 0 || w.pool > 0)
    ensures !t.Finish? && TokenAt(w, m, t, w') && w'.makes[m].leaves == w.makes[m].leaves + 1
  {
    var mk := w.makes[m];
    t := if mk.tokens == 0 then UseFree else Acquire;
    w' := World(w.makes[m := mk.(tokens := mk.tokens + 1, leaves := mk.leaves + 1)],
                if mk.tokens == 0 then w.pool else w.pool - 1);
  }

  /** The bound is reached: one make by itself can come to run as many jobs as there are slots. */
  lemma {:induction false} EverySlotCanBeUsed(slots: nat, jobs: nat) returns (run: seq<World>, events: seq<Event>)
    requires slots > 1 && jobs <= slots
    ensures Run(slots, run, events) && SumLeaves(Last(run).makes) == jobs
    ensures Last(run) == World([Running(0, jobs, jobs, {})], if jobs == 0 then slots - 1 else slots - jobs)
  {
    if jobs == 0 {
      run, events := [Init(slots)], [];
    } else {
      run, events := EverySlotCanBeUsed(slots, jobs - 1);
      var t, w' := MakeCanStart(Last(run), 0);
      run, events := run + [w'], events + [Token(0, t)];
    }
    var mk := Running(0, jobs, jobs, {});
    assert [] + [mk] == [mk];
    SumsAfterAppend([], mk);
  }

  // ----- what one make does in a run of all -----

  /** The token events of make m, in order. */
  function Local(events: seq<Event>, m: nat): seq<TokenEvent> {
    if events == [] then []
    else
      var rest, last := Local(events[..|events| - 1], m), events[|events| - 1];
      if last.Token? && last.make == m then rest + [last.event] else rest
  }

  /** The history tells what the world has of make m. */
  ghost predicate Tells(history: seq<TokenEvent>, w: World, m: nat) {
    && (m >= |w.makes| ==> history == [])
    && (m < |w.makes| && w.makes[m].Running? ==> TokensAfter(history) == Some(w.makes[m].tokens))
  }

  lemma TokenIsTold(w: World, i: nat, t: TokenEvent, w': World, m: nat, history: seq<TokenEvent>)
    requires TokenAt(w, i, t, w') && Tells(history, w, m)
    ensures Tells(if i == m then history + [t] else history, w', m)
  {
    if i == m { OneMoreEvent(history, t); }
  }

  lemma StartIsTold(w: World, i: nat, w': World, m: nat, history: seq<TokenEvent>)
    requires StartSubAt(w, i, w') && Tells(history, w, m)
    ensures Tells(history, w', m)
  {
  }

  lemma EndIsTold(w: World, s: nat, w': World, m: nat, history: seq<TokenEvent>)
    requires EndSubAt(w, s, w') && Tells(history, w, m)
    ensures Tells(history, w', m)
  {
  }

  lemma StepIsTold(w: World, e: Event, w': World, m: nat, history: seq<TokenEvent>)
    requires Step(w, e, w') && Tells(history, w, m)
    ensures Tells(if e.Token? && e.make == m then history + [e.event] else history, w', m)
  {
    match e
    case Token(i, t) => TokenIsTold(w, i, t, w', m, history);
    case StartSub(i) => StartIsTold(w, i, w', m, history);
    case EndSub(s) => EndIsTold(w, s, w', m, history);
  }

  lemma RunPrefix(slots: nat, run: seq<World>, events: seq<Event>, n: nat)
    requires slots > 1 && Run(slots, run, events) && n < |events|
    ensures Run(slots, run[..n + 1], events[..n]) && Last(run[..n + 1]) == run[n]
  {
  }

  /** Whatever the interleaving, each make by itself goes through a legal token history:
      the kind its scheduler keeps. */
  lemma {:induction false} EachMakeRunsItsOwnHistory(slots: nat, run: seq<World>, events: seq<Event>, m: nat)
    requires slots > 1 && Run(slots, run, events)
    ensures m >= |Last(run).makes| ==> Local(events, m) == []
    ensures m < |Last(run).makes| && Last(run).makes[m].Running? ==>
      TokensAfter(Local(events, m)) == Some(Last(run).makes[m].tokens)
  {
    if events != [] {
      var n := |events| - 1;
      RunPrefix(slots, run, events, n);
      EachMakeRunsItsOwnHistory(slots, run[..n + 1], events[..n], m);
      StepIsTold(run[n], events[n], run[n + 1], m, Local(events[..n], m));
    }
  }
}
