/**
  Anvil's node service: a block producer that mines one block at a time from a FIFO backlog, driven
  by a poll loop that also asks the miner for new batches. The environment is the list of answers the
  mining task and the miner give during a poll; an exhausted list keeps answering "pending".
 */
module NodeService {
  import opened Options

  type Batch = seq<nat>
  datatype Backend = Backend(id: nat)
  datatype Task = Task(batch: Batch, backend: Backend)
  datatype Outcome = Outcome(blockNumber: nat, batch: Batch)

  /** The block producer, with the outcomes it has returned so far. */
  datatype Producer = Producer(idle: Option<Backend>, mining: Option<Task>, queued: seq<Batch>, mined: seq<Outcome>)

  datatype Polled = TaskReady | TaskPending | MinerReady | MinerPending

  /** The service, with the batches handed over, the outcomes given to the pool, and the polls made. */
  datatype Node = Node(producer: Producer, handed: seq<Batch>, pool: seq<Outcome>, log: seq<Polled>)

  /** Answers of the mining task: a block number when ready. Answers of the miner: a batch when ready. */
  type TaskAnswers = seq<Option<nat>>
  type MinerAnswers = seq<Option<Batch>>

  function First<T>(answers: seq<Option<T>>): Option<T> {
    if answers == [] then None else answers[0]
  }

  function Rest<T>(answers: seq<Option<T>>): (r: seq<Option<T>>)
    ensures answers != [] ==> |r| == |answers| - 1
  {
    if answers == [] then [] else answers[1..]
  }

  // ---------------------------------------------------------------- specification

  /** Spawning a task if there is work and no block is being mined. */
  function Spawned(p: Producer): Producer {
    if p.queued != [] && p.idle.Some?
    then p.(idle := None, mining := Some(Task(p.queued[0], p.idle.value)), queued := p.queued[1..])
    else p
  }

  /** `BlockProducer::poll_next` */
  function PollNext(p: Producer, answer: Option<nat>): (Producer, Option<Outcome>) {
    var q := Spawned(p);
    if q.mining.None? || answer.None? then (q, None)
    else
      var outcome := Outcome(answer.value, q.mining.value.batch);
      (q.(idle := Some(q.mining.value.backend), mining := None, mined := q.mined + [outcome]), Some(outcome))
  }

  function Work(p: Producer): nat {
    |p.queued| + if p.mining.Some? then 1 else 0
  }

  /** One call of `poll_next` by the service: the pool gets the outcome, the poll is logged. */
  function Polls(n: Node, tasks: TaskAnswers): (Node, TaskAnswers, bool) {
    var busy := Spawned(n.producer).mining.Some?;
    var (p, outcome) := PollNext(n.producer, First(tasks));
    var polled := if !busy then [] else if outcome.Some? then [TaskReady] else [TaskPending];
    (Node(p, n.handed, if outcome.Some? then n.pool + [outcome.value] else n.pool, n.log + polled),
     if busy then Rest(tasks) else tasks, outcome.Some?)
  }

  /** The inner loop: polling until pending. */
  function Drain(n: Node, tasks: TaskAnswers): (Node, TaskAnswers)
    decreases Work(n.producer)
  {
    var (n', tasks', more) := Polls(n, tasks);
    if more then Drain(n', tasks') else (n', tasks')
  }

  /** A batch from the miner goes to the back of the queue. */
  function Accepted(n: Node, batch: Batch): Node {
    Node(n.producer.(queued := n.producer.queued + [batch]), n.handed + [batch], n.pool, n.log + [MinerReady])
  }

  /** `NodeService::poll`, the block production part. */
  function Poll(n: Node, tasks: TaskAnswers, miner: MinerAnswers): Node
    decreases |miner|
  {
    var (n', tasks') := Drain(n, tasks);
    match First(miner)
    case None => n'.(log := n'.log + [MinerPending])
    case Some(batch) =>
      Poll(Accepted(n', batch), tasks', miner[1..])
  }

  // ---------------------------------------------------------------- the objects

  class BlockProducer {
    var idleBackend: Option<Backend>
    var blockMining: Option<Task>
    var queued: seq<Batch>
    ghost var mined: seq<Outcome>

    ghost function State(): Producer
      reads this
    {
      Producer(idleBackend, blockMining, queued, mined)
    }

    constructor (backend: Backend)
      ensures State() == Producer(Some(backend), None, [], [])
    {
      idleBackend, blockMining, queued, mined := Some(backend), None, [], [];
    }

    /** `polled` says whether a mining task was there to be polled. */
    method Next(answer: Option<nat>) returns (r: Option<Outcome>, polled: bool)
      modifies this
      ensures (State(), r) == PollNext(old(State()), answer)
      ensures polled == Spawned(old(State())).mining.Some?
    {
      if queued != [] {
        if idleBackend.Some? {
          var backend := idleBackend.value;
          idleBackend := None;
          var transactions := queued[0];
          queued := queued[1..];
          blockMining := Some(Task(transactions, backend));
        }
      }
      polled := blockMining.Some?;
      if blockMining.Some? {
        var mining := blockMining.value;
        blockMining := None;
        if answer.Some? {
          idleBackend := Some(mining.backend);
          r := Some(Outcome(answer.value, mining.batch));
          mined := mined + [r.value];
          return;
        } else {
          blockMining := Some(mining);
        }
      }
      r := None;
    }
  }

  class Service {
    const producer: BlockProducer
    var pool: seq<Outcome>
    ghost var handed: seq<Batch>
    ghost var log: seq<Polled>

    ghost function State(): Node
      reads this, producer
    {
      Node(producer.State(), handed, pool, log)
    }

    constructor (backend: Backend)
      ensures State() == New(backend) && fresh(producer)
    {
      producer := new BlockProducer(backend);
      pool, handed, log := [], [], [];
    }

    method DrainProducer(tasks: TaskAnswers) returns (tasks': TaskAnswers)
      modifies this, producer
      ensures (State(), tasks') == Drain(old(State()), tasks)
    {
      tasks' := tasks;
      while true
        invariant Drain(State(), tasks') == Drain(old(State()), tasks)
        decreases Work(producer.State())
      {
        ghost var before := State();
        var outcome, polled := producer.Next(First(tasks'));
        if polled {
          tasks' := Rest(tasks');
          log := log + [if outcome.Some? then TaskReady else TaskPending];
        }
        if outcome.None? {
          assert before.log + [] == before.log;
          return;
        }
        pool := pool + [outcome.value];
      }
    }

    method PollService(taskAnswers: TaskAnswers, minerAnswers: MinerAnswers)
      modifies this, producer
      ensures State() == Poll(old(State()), taskAnswers, minerAnswers)
    {
      var tasks, miner := taskAnswers, minerAnswers;
      while true
        invariant Poll(State(), tasks, miner) == Poll(old(State()), taskAnswers, minerAnswers)
        decreases |miner|
      {
        tasks := DrainProducer(tasks);
        var answer := First(miner);
        if answer.Some? {
          producer.queued := producer.queued + [answer.value];
          handed := handed + [answer.value];
          log := log + [MinerReady];
          miner := miner[1..];
        } else {
          log := log + [MinerPending];
          break;
        }
      }
    }
  }

  // ---------------------------------------------------------------- conservation

  function New(backend: Backend): Node {
    Node(Producer(Some(backend), None, [], []), [], [], [])
  }

  function Batches(outcomes: seq<Outcome>): (r: seq<Batch>)
    ensures |r| == |outcomes|
  {
    seq(|outcomes|, i requires 0 <= i < |outcomes| => outcomes[i].batch)
  }

  function InFlight(p: Producer): seq<Batch> {
    if p.mining.Some? then [p.mining.value.batch] else []
  }

  /** Handed-over batches are the mined ones, then the one in flight, then the queue, in order; the
      backend is either idle or mining; the pool has seen every outcome once, in order. */
  ghost predicate Conserved(n: Node) {
    && n.handed == Order(n.producer)
    && (n.producer.idle.Some? <==> n.producer.mining.None?)
    && n.pool == n.producer.mined
  }

  lemma PollsConserved(n: Node, tasks: TaskAnswers)
    requires Conserved(n)
    ensures Conserved(Polls(n, tasks).0)
  {
    var p, q := n.producer, Spawned(n.producer);
    SpawnedOrder(p);
    var p' := Polls(n, tasks).0.producer;
    if |p'.mined| > |p.mined| {
      MinedOrder(q, p'.mined[|p.mined|]);
    }
  }

  /** All batches of a producer, oldest first. */
  function Order(p: Producer): seq<Batch> {
    Batches(p.mined) + InFlight(p) + p.queued
  }

  lemma SpawnedOrder(p: Producer)
    requires p.idle.Some? <==> p.mining.None?
    ensures Order(Spawned(p)) == Order(p)
  {
    assert p.queued != [] ==> p.queued == [p.queued[0]] + p.queued[1..];
  }

  lemma MinedOrder(p: Producer, outcome: Outcome)
    requires p.mining.Some? && outcome.batch == p.mining.value.batch
    ensures Order(p.(mining := None, mined := p.mined + [outcome])) == Order(p)
  {
    assert Batches(p.mined + [outcome]) == Batches(p.mined) + [outcome.batch];
  }

  lemma {:induction false} DrainConserved(n: Node, tasks: TaskAnswers)
    requires Conserved(n)
    ensures Conserved(Drain(n, tasks).0)
    decreases Work(n.producer)
  {
    PollsConserved(n, tasks);
    var (n', tasks', more) := Polls(n, tasks);
    if more {
      DrainConserved(n', tasks');
    }
  }

  lemma AcceptedConserved(n: Node, batch: Batch)
    requires Conserved(n)
    ensures Conserved(Accepted(n, batch))
  {
    assert n.handed + [batch]
        == Batches(n.producer.mined) + InFlight(n.producer) + (n.producer.queued + [batch]);
  }

  lemma {:induction false} PollConserved(n: Node, tasks: TaskAnswers, miner: MinerAnswers)
    requires Conserved(n)
    ensures Conserved(Poll(n, tasks, miner))
    decreases |miner|
  {
    DrainConserved(n, tasks);
    var (n', tasks') := Drain(n, tasks);
    if First(miner).Some? {
      AcceptedConserved(n', miner[0].value);
      PollConserved(Accepted(n', miner[0].value), tasks', miner[1..]);
    }
  }

  /** A run of the service: one entry of answers per poll. */
  function Run(n: Node, answers: seq<(TaskAnswers, MinerAnswers)>): Node {
    if answers == [] then n
    else
      var (tasks, miner) := answers[|answers| - 1];
      Poll(Run(n, answers[..|answers| - 1]), tasks, miner)
  }

  /** Between any two polls of any run nothing is lost, duplicated or reordered. */
  lemma {:induction false} RunConserved(backend: Backend, answers: seq<(TaskAnswers, MinerAnswers)>)
    ensures Conserved(Run(New(backend), answers))
  {
    if answers == [] {
      assert Batches([]) == [];
    } else {
      RunConserved(backend, answers[..|answers| - 1]);
      var (tasks, miner) := answers[|answers| - 1];
      PollConserved(Run(New(backend), answers[..|answers| - 1]), tasks, miner);
    }
  }

  // ---------------------------------------------------------------- what the answers become

  /** The batches the miner offers before it first answers pending. */
  function Offered(miner: MinerAnswers): seq<Batch> {
    if First(miner).None? then [] else [miner[0].value] + Offered(miner[1..])
  }

  lemma {:induction false} DrainHands(n: Node, tasks: TaskAnswers)
    ensures Drain(n, tasks).0.handed == n.handed
    decreases Work(n.producer)
  {
    var (n', tasks', more) := Polls(n, tasks);
    if more {
      DrainHands(n', tasks');
    }
  }

  /** A poll takes over exactly what the miner offers, in order. */
  lemma {:induction false} PollHands(n: Node, tasks: TaskAnswers, miner: MinerAnswers)
    ensures Poll(n, tasks, miner).handed == n.handed + Offered(miner)
    decreases |miner|
  {
    DrainHands(n, tasks);
    PollUnfolds(n, tasks, miner);
    if First(miner).Some? {
      var (n', tasks') := Drain(n, tasks);
      PollHands(Accepted(n', miner[0].value), tasks', miner[1..]);
    }
  }

  function Numbers(outcomes: seq<Outcome>): (r: seq<nat>)
    ensures |r| == |outcomes|
  {
    seq(|outcomes|, i requires 0 <= i < |outcomes| => outcomes[i].blockNumber)
  }

  /** The block numbers among the answers, in order. */
  function ReadyOnes(tasks: TaskAnswers): seq<nat> {
    if tasks == [] then [] else (if tasks[0].Some? then [tasks[0].value] else []) + ReadyOnes(tasks[1..])
  }

  lemma {:induction false} ReadyConcat(a: TaskAnswers, b: TaskAnswers)
    ensures ReadyOnes(a + b) == ReadyOnes(a) + ReadyOnes(b)
  {
    if a == [] {
      assert a + b == b;
    } else {
      assert (a + b)[0] == a[0] && (a + b)[1..] == a[1..] + b;
      ReadyConcat(a[1..], b);
    }
  }

  lemma DrainUnfolds(n: Node, tasks: TaskAnswers)
    ensures var r := Polls(n, tasks);
      && (r.2 ==> Work(r.0.producer) < Work(n.producer) && Drain(n, tasks) == Drain(r.0, r.1))
      && (!r.2 ==> Drain(n, tasks) == (r.0, r.1))
  {
  }

  /** What is left of the answers of mining tasks when a poll of the service returns. */
  function Left(n: Node, tasks: TaskAnswers, miner: MinerAnswers): TaskAnswers
    decreases |miner|
  {
    var r := Drain(n, tasks);
    if First(miner).None? then r.1 else Left(Accepted(r.0, miner[0].value), r.1, miner[1..])
  }

  /** What is left is the end of the list. */
  predicate EndOf(left: TaskAnswers, tasks: TaskAnswers) {
    |left| <= |tasks| && left == tasks[|tasks| - |left|..]
  }

  lemma EndOfEnd(a: TaskAnswers, b: TaskAnswers, c: TaskAnswers)
    requires EndOf(a, b) && EndOf(b, c)
    ensures EndOf(a, c)
  {
    assert forall i :: 0 <= i < |a| ==> a[i] == b[|b| - |a| + i] == c[|c| - |a| + i];
  }

  lemma {:induction false} DrainLeaves(n: Node, tasks: TaskAnswers)
    ensures EndOf(Drain(n, tasks).1, tasks)
    decreases Work(n.producer)
  {
    var r := Polls(n, tasks);
    DrainUnfolds(n, tasks);
    assert EndOf(r.1, tasks);
    if r.2 {
      DrainLeaves(r.0, r.1);
      EndOfEnd(Drain(r.0, r.1).1, r.1, tasks);
    }
  }

  lemma {:induction false} PollLeaves(n: Node, tasks: TaskAnswers, miner: MinerAnswers)
    ensures EndOf(Left(n, tasks, miner), tasks)
    decreases |miner|
  {
    var r := Drain(n, tasks);
    DrainLeaves(n, tasks);
    if First(miner).Some? {
      PollLeaves(Accepted(r.0, miner[0].value), r.1, miner[1..]);
      EndOfEnd(Left(n, tasks, miner), r.1, tasks);
    }
  }

  /** How many of `k` answers are left after `polls` more. */
  function Remaining(k: nat, polls: int): nat {
    if polls >= k then 0 else if polls < 0 then k else k - polls
  }

  lemma RemainingMore(k: nat, a: nat, b: nat)
    ensures Remaining(Remaining(k, a), b) == Remaining(k, a + b)
  {
  }

  lemma {:induction false} DrainCounts(n: Node, tasks: TaskAnswers)
    ensures |n.log| <= |Drain(n, tasks).0.log|
    ensures |Drain(n, tasks).1| == Remaining(|tasks|, |Drain(n, tasks).0.log| - |n.log|)
    decreases Work(n.producer)
  {
    var r := Polls(n, tasks);
    DrainUnfolds(n, tasks);
    if r.2 {
      DrainCounts(r.0, r.1);
    }
  }

  /** Each poll of a mining task uses up one answer: the polls made are those, one miner poll for every
      batch, and the last one. */
  lemma {:induction false} PollCounts(n: Node, tasks: TaskAnswers, miner: MinerAnswers)
    ensures var polls := |Poll(n, tasks, miner).log| - |n.log| - |Offered(miner)| - 1;
      polls >= 0 && |Left(n, tasks, miner)| == Remaining(|tasks|, polls)
    decreases |miner|
  {
    var r := Drain(n, tasks);
    DrainCounts(n, tasks);
    PollUnfolds(n, tasks, miner);
    if First(miner).Some? {
      PollCounts(Accepted(r.0, miner[0].value), r.1, miner[1..]);
      RemainingMore(|tasks|, |r.0.log| - |n.log|, |Poll(n, tasks, miner).log| - |r.0.log| - |Offered(miner)| - 1);
    }
  }

  // The block numbers in the pool, followed by those still to come, never change.

  function Total(n: Node, tasks: TaskAnswers): seq<nat> {
    Numbers(n.pool) + ReadyOnes(tasks)
  }

  lemma PollsTotal(n: Node, tasks: TaskAnswers)
    ensures Total(Polls(n, tasks).0, Polls(n, tasks).1) == Total(n, tasks)
  {
    var r := Polls(n, tasks);
    if r.2 {
      var v := First(tasks).value;
      NumbersSnoc(n.pool, r.0.pool[|n.pool|]);
      assert ReadyOnes(tasks) == [v] + ReadyOnes(r.1);
      Associative(Numbers(n.pool), [v], ReadyOnes(r.1));
    }
  }

  lemma NumbersSnoc(outcomes: seq<Outcome>, outcome: Outcome)
    ensures Numbers(outcomes + [outcome]) == Numbers(outcomes) + [outcome.blockNumber]
  {
  }

  lemma {:induction false} DrainTotal(n: Node, tasks: TaskAnswers)
    ensures Total(Drain(n, tasks).0, Drain(n, tasks).1) == Total(n, tasks)
    decreases Work(n.producer)
  {
    var r := Polls(n, tasks);
    PollsTotal(n, tasks);
    DrainUnfolds(n, tasks);
    if r.2 {
      DrainTotal(r.0, r.1);
    }
  }

  lemma {:induction false} PollTotal(n: Node, tasks: TaskAnswers, miner: MinerAnswers)
    ensures Total(Poll(n, tasks, miner), Left(n, tasks, miner)) == Total(n, tasks)
    decreases |miner|
  {
    var r := Drain(n, tasks);
    DrainTotal(n, tasks);
    PollUnfolds(n, tasks, miner);
    if First(miner).Some? {
      var next := Accepted(r.0, miner[0].value);
      assert Total(next, r.1) == Total(r.0, r.1);
      PollTotal(next, r.1, miner[1..]);
    }
  }

  lemma CancelRight<T>(a: seq<T>, b: seq<T>, c: seq<T>)
    requires a + c == b + c
    ensures a == b
  {
    assert |a| == |b|;
    assert (a + c)[..|a|] == a && (b + c)[..|b|] == b;
  }

  lemma Associative<T>(a: seq<T>, b: seq<T>, c: seq<T>)
    ensures a + b + c == a + (b + c)
  {
  }

  /** The answers a poll of the service has used up. */
  function UsedUp(n: Node, tasks: TaskAnswers, miner: MinerAnswers): TaskAnswers {
    var left := Left(n, tasks, miner);
    if |left| <= |tasks| then tasks[..|tasks| - |left|] else []
  }

  /** In one poll of the service the block numbers that reach the pool are the ready ones among the answers
      used up, in order. */
  lemma PollAnswered(n: Node, tasks: TaskAnswers, miner: MinerAnswers)
    ensures UsedUp(n, tasks, miner) + Left(n, tasks, miner) == tasks
    ensures Numbers(Poll(n, tasks, miner).pool) == Numbers(n.pool) + ReadyOnes(UsedUp(n, tasks, miner))
  {
    var used, left := UsedUp(n, tasks, miner), Left(n, tasks, miner);
    PollLeaves(n, tasks, miner);
    assert used + left == tasks;
    PollTotal(n, tasks, miner);
    ReadyConcat(used, left);
    Associative(Numbers(n.pool), ReadyOnes(used), ReadyOnes(left));
    CancelRight(Numbers(Poll(n, tasks, miner).pool), Numbers(n.pool) + ReadyOnes(used), ReadyOnes(left));
  }

  /** The block numbers among all answers used up in a run, poll by poll. */
  function RunReady(n: Node, answers: seq<(TaskAnswers, MinerAnswers)>): seq<nat> {
    if answers == [] then []
    else
      var front := answers[..|answers| - 1];
      var (tasks, miner) := answers[|answers| - 1];
      RunReady(n, front) + ReadyOnes(UsedUp(Run(n, front), tasks, miner))
  }

  /** All batches offered in a run. */
  function RunOffered(answers: seq<(TaskAnswers, MinerAnswers)>): seq<Batch> {
    if answers == [] then [] else RunOffered(answers[..|answers| - 1]) + Offered(answers[|answers| - 1].1)
  }

  /** The backend is in one place: idle, or with the mining task. */
  ghost predicate Holds(p: Producer, backend: Backend) {
    if p.mining.Some? then p.idle == None && p.mining.value.backend == backend else p.idle == Some(backend)
  }

  lemma {:induction false} DrainHolds(n: Node, tasks: TaskAnswers, backend: Backend)
    requires Holds(n.producer, backend)
    ensures Holds(Drain(n, tasks).0.producer, backend)
    decreases Work(n.producer)
  {
    var (n', tasks', more) := Polls(n, tasks);
    if more {
      DrainHolds(n', tasks', backend);
    }
  }

  lemma {:induction false} PollHolds(n: Node, tasks: TaskAnswers, miner: MinerAnswers, backend: Backend)
    requires Holds(n.producer, backend)
    ensures Holds(Poll(n, tasks, miner).producer, backend)
    decreases |miner|
  {
    DrainHolds(n, tasks, backend);
    PollUnfolds(n, tasks, miner);
    if First(miner).Some? {
      var (n', tasks') := Drain(n, tasks);
      PollHolds(Accepted(n', miner[0].value), tasks', miner[1..], backend);
    }
  }

  /**
    Over every run: the batches handed over are those the miner offered; the block numbers in the pool
    are the ready answers of the mining tasks polled, in order, one per mined batch; and the one backend
    is the one the service was built with.
   */
  lemma {:induction false} RunAnswers(backend: Backend, answers: seq<(TaskAnswers, MinerAnswers)>)
    ensures var n := Run(New(backend), answers);
      && n.handed == RunOffered(answers)
      && Numbers(n.pool) == RunReady(New(backend), answers)
      && Holds(n.producer, backend)
  {
    if answers == [] {
      assert Numbers([]) == [];
    } else {
      var front := answers[..|answers| - 1];
      var (tasks, miner) := answers[|answers| - 1];
      RunAnswers(backend, front);
      var n := Run(New(backend), front);
      PollHands(n, tasks, miner);
      PollAnswered(n, tasks, miner);
      PollHolds(n, tasks, miner, backend);
    }
  }

  // ---------------------------------------------------------------- no stalled backlog

  /** The producer has just answered pending. */
  ghost predicate Quiescent(n: Node) {
    && (n.producer.mining.None? ==> n.producer.queued == [])
    && (n.producer.mining.Some? ==> n.log != [] && n.log[|n.log| - 1] == TaskPending)
  }

  lemma {:induction false} DrainQuiescent(n: Node, tasks: TaskAnswers)
    requires Conserved(n)
    ensures Quiescent(Drain(n, tasks).0)
    decreases Work(n.producer)
  {
    PollsConserved(n, tasks);
    var (n', tasks', more) := Polls(n, tasks);
    if more {
      DrainQuiescent(n', tasks');
    }
  }

  /** The miner was polled last and is pending; waiting batches imply a mining task; a mining task was
      polled just before and is pending. */
  ghost predicate WillWake(n: Node) {
    && n.log != [] && n.log[|n.log| - 1] == MinerPending
    && (n.producer.queued != [] ==> n.producer.mining.Some?)
    && (n.producer.mining.Some? ==> |n.log| > 1 && n.log[|n.log| - 2] == TaskPending)
  }

  /**
    Whenever a poll of the service returns, whatever the environment answered: the miner was the last
    thing polled and was pending; a waiting batch implies a mining task; and a mining task was polled
    just before and was pending. So every waiting batch has something that will wake the service.
   */
  lemma {:induction false} NoStalledBacklog(n: Node, tasks: TaskAnswers, miner: MinerAnswers)
    requires Conserved(n)
    ensures WillWake(Poll(n, tasks, miner))
    decreases |miner|
  {
    DrainConserved(n, tasks);
    var (n', tasks') := Drain(n, tasks);
    if First(miner).None? {
      DrainQuiescent(n, tasks);
      assert WillWake(n'.(log := n'.log + [MinerPending]));
    } else {
      AcceptedConserved(n', miner[0].value);
      NoStalledBacklog(Accepted(n', miner[0].value), tasks', miner[1..]);
    }
  }

  // ---------------------------------------------------------------- the backlog is worked off

  predicate AllReady(tasks: TaskAnswers, k: nat) {
    k <= |tasks| && forall i :: 0 <= i < k ==> tasks[i].Some?
  }

  /** If the mining task is ready whenever it is polled, the inner loop mines everything that waits. */
  lemma {:induction false} DrainMinesAll(n: Node, tasks: TaskAnswers, k: nat)
    requires Conserved(n) && AllReady(tasks, Work(n.producer) + k)
    ensures var (n', tasks') := Drain(n, tasks);
      Work(n'.producer) == 0 && AllReady(tasks', k) && n'.handed == n.handed
    decreases Work(n.producer)
  {
    PollsConserved(n, tasks);
    var (n', tasks', more) := Polls(n, tasks);
    if more {
      DrainMinesAll(n', tasks', k);
    }
  }

  /** A miner that has these batches ready, one after the other. */
  function Offers(batches: seq<Batch>): (miner: MinerAnswers)
    ensures |miner| == |batches|
  {
    seq(|batches|, i requires 0 <= i < |batches| => Some(batches[i]))
  }

  /** With ready tasks, a single poll of the service mines the old backlog and all new batches. */
  lemma PollMinesAll(n: Node, tasks: TaskAnswers, batches: seq<Batch>)
    requires Conserved(n) && AllReady(tasks, Work(n.producer) + |batches|)
    ensures MinedAll(Poll(n, tasks, Offers(batches)), n.handed + batches)
  {
    PollResultMined(n, tasks, batches, Poll(n, tasks, Offers(batches)));
  }

  lemma {:induction false} PollResultMined(n: Node, tasks: TaskAnswers, batches: seq<Batch>, r: Node)
    requires Conserved(n) && AllReady(tasks, Work(n.producer) + |batches|)
    requires r == Poll(n, tasks, Offers(batches))
    ensures MinedAll(r, n.handed + batches)
    decreases |batches|
  {
    if batches == [] {
      PollMinesBacklog(n, tasks);
    } else {
      var n', tasks' := PollAccepts(n, tasks, batches);
      PollResultMined(n', tasks', batches[1..], r);
      HandOverOne(n.handed, batches);
    }
  }

  lemma HandOverOne(handed: seq<Batch>, batches: seq<Batch>)
    requires batches != []
    ensures handed + [batches[0]] + batches[1..] == handed + batches
  {
  }

  lemma PollMinesBacklog(n: Node, tasks: TaskAnswers)
    requires Conserved(n) && AllReady(tasks, Work(n.producer))
    ensures MinedAll(Poll(n, tasks, Offers([])), n.handed + [])
  {
    DrainConserved(n, tasks);
    DrainMinesAll(n, tasks, 0);
    IdleMeansMined(Drain(n, tasks).0);
    PollUnfolds(n, tasks, Offers([]));
    assert n.handed + [] == n.handed;
  }

  /** One round of the outer loop: drain, then take the next batch. */
  lemma PollAccepts(n: Node, tasks: TaskAnswers, batches: seq<Batch>) returns (n': Node, tasks': TaskAnswers)
    requires batches != [] && Conserved(n) && AllReady(tasks, Work(n.producer) + |batches|)
    ensures Poll(n, tasks, Offers(batches)) == Poll(n', tasks', Offers(batches[1..]))
    ensures Conserved(n') && n'.handed == n.handed + [batches[0]]
    ensures AllReady(tasks', Work(n'.producer) + |batches[1..]|)
  {
    var idle := Drain(n, tasks).0;
    n', tasks' := Accepted(idle, batches[0]), Drain(n, tasks).1;
    DrainConserved(n, tasks);
    DrainMinesAll(n, tasks, |batches|);
    AcceptedConserved(idle, batches[0]);
    PollTakes(n, tasks, batches, idle, tasks');
  }

  lemma PollTakes(n: Node, tasks: TaskAnswers, batches: seq<Batch>, idle: Node, tasks': TaskAnswers)
    requires batches != [] && Drain(n, tasks) == (idle, tasks')
    ensures Poll(n, tasks, Offers(batches)) == Poll(Accepted(idle, batches[0]), tasks', Offers(batches[1..]))
  {
    PollUnfolds(n, tasks, Offers(batches));
    assert Offers(batches)[1..] == Offers(batches[1..]);
  }

  /** All of these batches, in this order, were handed over, and each has reached the pool. */
  ghost predicate MinedAll(n: Node, batches: seq<Batch>) {
    n.handed == batches && Batches(n.pool) == batches
  }

  lemma PollUnfolds(n: Node, tasks: TaskAnswers, miner: MinerAnswers)
    ensures var (n', tasks') := Drain(n, tasks);
      Poll(n, tasks, miner) ==
        if First(miner).None? then n'.(log := n'.log + [MinerPending])
        else Poll(Accepted(n', miner[0].value), tasks', miner[1..])
  {
  }

  lemma IdleMeansMined(n: Node)
    requires Conserved(n) && Work(n.producer) == 0
    ensures Batches(n.pool) == n.handed
  {
    assert n.handed == Batches(n.pool) + [] + [];
  }
}
