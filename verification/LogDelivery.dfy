/**
  Logs of new blocks: `filter_logs` numbers and filters the logs of a block, `LogsSubscription` pushes
  them one at a time, `LogsFilter` hands out everything since the last poll. Both deliver the same
  logs in the same order.
 */
module LogDelivery {
  import opened Options

  type Hash = nat
  datatype RawLog = RawLog(address: nat, topics: seq<Hash>, data: nat)
  type Receipt = seq<RawLog>
  datatype Block = Block(hash: Hash, number: nat, timestamp: nat, transactions: seq<Hash>)
  datatype Log = Log(inner: RawLog, blockHash: Hash, blockNumber: nat, transactionHash: Hash,
                     transactionIndex: nat, logIndex: nat, blockTimestamp: nat)

  /** No filter, or the four tests a filter makes. */
  datatype FilteredParams = NoFilter
    | Filter(blockRange: nat -> bool, blockHash: Hash -> bool, address: nat -> bool, topics: seq<Hash> -> bool)

  const U32_LIMIT: nat := 0x1_0000_0000

  predicate AddLog(block: Block, l: RawLog, params: FilteredParams) {
    match params
    case NoFilter => true
    case Filter(blockRange, blockHash, address, topics) =>
      blockRange(block.number) && blockHash(block.hash) && address(l.address) && topics(l.topics)
  }

  /** The log of receipt `r` that stands at `position` among all logs of the block. */
  function Numbered(block: Block, r: nat, l: RawLog, position: nat): Log
    requires r < |block.transactions|
  {
    Log(l, block.hash, block.number, block.transactions[r], r, U32(position), block.timestamp)
  }

  /** A 32-bit counter after `n` increments. */
  function U32(n: nat): nat {
    n % U32_LIMIT
  }

  lemma U32Next(n: nat)
    ensures U32(U32(n) + 1) == U32(n + 1)
  {
  }

  // ---------------------------------------------------------------- filter_logs

  /** The logs of one receipt up to `j`, numbered from `start`, that pass the filter. */
  function Passing(block: Block, r: nat, receipt: Receipt, j: nat, start: nat, params: FilteredParams): seq<Log>
    requires r < |block.transactions| && j <= |receipt|
  {
    if j == 0 then []
    else
      Passing(block, r, receipt, j - 1, start, params)
      + if AddLog(block, receipt[j - 1], params) then [Numbered(block, r, receipt[j - 1], start + j - 1)] else []
  }

  /** How many logs the receipts before `r` hold. */
  function Before(receipts: seq<Receipt>, r: nat): nat
    requires r <= |receipts|
  {
    if r == 0 then 0 else Before(receipts, r - 1) + |receipts[r - 1]|
  }

  function FilterUpTo(block: Block, receipts: seq<Receipt>, r: nat, params: FilteredParams): seq<Log>
    requires r <= |receipts| <= |block.transactions|
  {
    if r == 0 then []
    else
      FilterUpTo(block, receipts, r - 1, params)
      + Passing(block, r - 1, receipts[r - 1], |receipts[r - 1]|, Before(receipts, r - 1), params)
  }

  function FilterLogs(block: Block, receipts: seq<Receipt>, params: FilteredParams): seq<Log>
    requires |receipts| <= |block.transactions|
  {
    FilterUpTo(block, receipts, |receipts|, params)
  }

  /** `filter_logs`, with its running 32-bit log index. */
  method CollectLogs(block: Block, receipts: seq<Receipt>, params: FilteredParams) returns (logs: seq<Log>)
    requires |receipts| <= |block.transactions|
    ensures logs == FilterLogs(block, receipts, params)
  {
    logs := [];
    var logIndex: nat := 0;
    for r := 0 to |receipts|
      invariant logs == FilterUpTo(block, receipts, r, params)
      invariant logIndex == U32(Before(receipts, r))
    {
      var passing;
      passing, logIndex := CollectReceipt(block, r, receipts[r], Before(receipts, r), logIndex, params);
      logs := logs + passing;
    }
  }

  /** The inner loop over one receipt. */
  method CollectReceipt(block: Block, r: nat, receipt: Receipt, ghost start: nat, index: nat, params: FilteredParams)
    returns (logs: seq<Log>, logIndex: nat)
    requires r < |block.transactions| && index == U32(start)
    ensures logs == Passing(block, r, receipt, |receipt|, start, params)
    ensures logIndex == U32(start + |receipt|)
  {
    logs, logIndex := [], index;
    for j := 0 to |receipt|
      invariant logs == Passing(block, r, receipt, j, start, params)
      invariant logIndex == U32(start + j)
    {
      var log := receipt[j];
      if AddLog(block, log, params) {
        logs := logs + [Log(log, block.hash, block.number, block.transactions[r], r, logIndex, block.timestamp)];
      }
      U32Next(start + j);
      logIndex := U32(logIndex + 1);
    }
  }

  // ---------------------------------------------------------------- number everything, then filter

  /** All logs of the first `n` receipts, one after the other, each with the number of its receipt. */
  function AllLogs(receipts: seq<Receipt>, n: nat): (all: seq<(nat, RawLog)>)
    requires n <= |receipts|
    ensures |all| == Before(receipts, n)
    ensures forall p :: 0 <= p < |all| ==> all[p].0 < n
  {
    if n == 0 then []
    else
      var receipt := receipts[n - 1];
      AllLogs(receipts, n - 1) + seq(|receipt|, j requires 0 <= j < |receipt| => (n - 1, receipt[j]))
  }

  /** Every log with its position in the whole block as index. */
  function NumberAll(block: Block, all: seq<(nat, RawLog)>): (logs: seq<Log>)
    requires forall p :: 0 <= p < |all| ==> all[p].0 < |block.transactions|
    ensures |logs| == |all|
  {
    seq(|all|, p requires 0 <= p < |all| => Numbered(block, all[p].0, all[p].1, p))
  }

  /** The logs that pass, in their order. */
  function Keep(block: Block, logs: seq<Log>, params: FilteredParams): seq<Log> {
    if logs == [] then []
    else
      var last := logs[|logs| - 1];
      Keep(block, logs[..|logs| - 1], params) + if AddLog(block, last.inner, params) then [last] else []
  }

  lemma KeepSnoc(block: Block, logs: seq<Log>, log: Log, params: FilteredParams)
    ensures Keep(block, logs + [log], params) ==
      Keep(block, logs, params) + if AddLog(block, log.inner, params) then [log] else []
  {
    assert (logs + [log])[..|logs|] == logs;
  }

  lemma {:induction false} KeepConcat(block: Block, a: seq<Log>, b: seq<Log>, params: FilteredParams)
    ensures Keep(block, a + b, params) == Keep(block, a, params) + Keep(block, b, params)
  {
    if b == [] {
      assert a + b == a;
    } else {
      var b', last := b[..|b| - 1], b[|b| - 1];
      KeepConcat(block, a, b', params);
      assert a + b == a + b' + [last];
      KeepSnoc(block, a + b', last, params);
    }
  }

  /** The first `j` logs of one receipt, numbered from `start`. */
  function NumberFrom(block: Block, r: nat, receipt: Receipt, j: nat, start: nat): (logs: seq<Log>)
    requires r < |block.transactions| && j <= |receipt|
    ensures |logs| == j
  {
    seq(j, i requires 0 <= i < j => Numbered(block, r, receipt[i], start + i))
  }

  lemma {:induction false} PassingIsKeep(
    block: Block, r: nat, receipt: Receipt, j: nat, start: nat, params: FilteredParams)
    requires r < |block.transactions| && j <= |receipt|
    ensures Passing(block, r, receipt, j, start, params) == Keep(block, NumberFrom(block, r, receipt, j, start), params)
  {
    if j > 0 {
      PassingIsKeep(block, r, receipt, j - 1, start, params);
      var log := Numbered(block, r, receipt[j - 1], start + j - 1);
      assert NumberFrom(block, r, receipt, j, start) == NumberFrom(block, r, receipt, j - 1, start) + [log];
      KeepSnoc(block, NumberFrom(block, r, receipt, j - 1, start), log, params);
    }
  }

  lemma NumberStep(block: Block, receipts: seq<Receipt>, n: nat)
    requires n < |receipts| <= |block.transactions|
    ensures NumberAll(block, AllLogs(receipts, n + 1)) ==
      NumberAll(block, AllLogs(receipts, n)) + NumberFrom(block, n, receipts[n], |receipts[n]|, Before(receipts, n))
  {
  }

  lemma {:induction false} FilterIsKeep(block: Block, receipts: seq<Receipt>, n: nat, params: FilteredParams)
    requires n <= |receipts| <= |block.transactions|
    ensures FilterUpTo(block, receipts, n, params) == Keep(block, NumberAll(block, AllLogs(receipts, n)), params)
  {
    if n > 0 {
      var r := n - 1;
      FilterIsKeep(block, receipts, r, params);
      PassingIsKeep(block, r, receipts[r], |receipts[r]|, Before(receipts, r), params);
      NumberStep(block, receipts, r);
      KeepConcat(block, NumberAll(block, AllLogs(receipts, r)),
                 NumberFrom(block, r, receipts[r], |receipts[r]|, Before(receipts, r)), params);
    }
  }

  predicate Ascending(logs: seq<Log>) {
    forall i, k :: 0 <= i < k < |logs| ==> logs[i].logIndex < logs[k].logIndex
  }

  predicate Within(logs: seq<Log>, lo: int, hi: int) {
    forall i :: 0 <= i < |logs| ==> lo <= logs[i].logIndex < hi
  }

  lemma {:induction false} PassingAscends(
    block: Block, r: nat, receipt: Receipt, n: nat, start: nat, params: FilteredParams)
    requires r < |block.transactions| && n <= |receipt| && start + n <= U32_LIMIT
    ensures Ascending(Passing(block, r, receipt, n, start, params))
    ensures Within(Passing(block, r, receipt, n, start, params), start, start + n)
  {
    if n > 0 {
      PassingAscends(block, r, receipt, n - 1, start, params);
      assert U32(start + n - 1) == start + n - 1;
    }
  }

  lemma {:induction false} FilterAscends(block: Block, receipts: seq<Receipt>, n: nat, params: FilteredParams)
    requires n <= |receipts| <= |block.transactions| && Before(receipts, n) <= U32_LIMIT
    ensures Ascending(FilterUpTo(block, receipts, n, params))
    ensures Within(FilterUpTo(block, receipts, n, params), 0, Before(receipts, n))
  {
    if n > 0 {
      FilterAscends(block, receipts, n - 1, params);
      PassingAscends(block, n - 1, receipts[n - 1], |receipts[n - 1]|, Before(receipts, n - 1), params);
    }
  }

  /**
    `filter_logs` is "number all logs of the block across its receipts, then filter": the very sequence,
    with the receipt as transaction and the position in the unfiltered block (a 32-bit counter) as log
    index. While the counter does not wrap, log indices strictly increase.
   */
  lemma FilterLogsMeaning(block: Block, receipts: seq<Receipt>, params: FilteredParams)
    requires |receipts| <= |block.transactions|
    ensures FilterLogs(block, receipts, params) == Keep(block, NumberAll(block, AllLogs(receipts, |receipts|)), params)
    ensures Before(receipts, |receipts|) <= U32_LIMIT ==> Ascending(FilterLogs(block, receipts, params))
  {
    FilterIsKeep(block, receipts, |receipts|, params);
    if Before(receipts, |receipts|) <= U32_LIMIT {
      FilterAscends(block, receipts, |receipts|, params);
    }
  }

  /** The block range, block hash, address and topics tests, all of which a filter makes. */
  predicate AllTests(block: Block, l: RawLog, params: FilteredParams) {
    params.Filter? ==>
      && params.blockRange(block.number) && params.blockHash(block.hash)
      && params.address(l.address) && params.topics(l.topics)
  }

  /** The log at place `j` of receipt `r`, as it is to be reported, field by field. */
  predicate ReportedFrom(block: Block, receipts: seq<Receipt>, log: Log, r: int, j: int)
    requires |receipts| <= |block.transactions|
  {
    && 0 <= r < |receipts| && 0 <= j < |receipts[r]|
    && log.inner == receipts[r][j]
    && log.blockHash == block.hash && log.blockNumber == block.number && log.blockTimestamp == block.timestamp
    && log.transactionHash == block.transactions[r] && log.transactionIndex == r
    && log.logIndex == (Before(receipts, r) + j) % 0x1_0000_0000
  }

  lemma {:induction false} AllLogsAt(receipts: seq<Receipt>, n: nat, r: nat, j: nat)
    requires r < n <= |receipts| && j < |receipts[r]|
    ensures Before(receipts, r) + j < |AllLogs(receipts, n)|
    ensures AllLogs(receipts, n)[Before(receipts, r) + j] == (r, receipts[r][j])
    decreases n
  {
    if r < n - 1 {
      AllLogsAt(receipts, n - 1, r, j);
    }
  }

  lemma {:induction false} PlaceOf(receipts: seq<Receipt>, n: nat, p: nat) returns (r: nat, j: nat)
    requires n <= |receipts| && p < |AllLogs(receipts, n)|
    ensures r < n && j < |receipts[r]| && p == Before(receipts, r) + j
  {
    if p >= Before(receipts, n - 1) {
      r, j := n - 1, p - Before(receipts, n - 1);
    } else {
      r, j := PlaceOf(receipts, n - 1, p);
    }
  }

  lemma {:induction false} KeepMember(block: Block, logs: seq<Log>, params: FilteredParams, log: Log)
    ensures log in Keep(block, logs, params) <==> log in logs && AllTests(block, log.inner, params)
  {
    if logs != [] {
      var front, last := logs[..|logs| - 1], logs[|logs| - 1];
      KeepMember(block, front, params, log);
      assert logs == front + [last];
    }
  }

  lemma ReportedAt(block: Block, receipts: seq<Receipt>, p: nat) returns (r: nat, j: nat)
    requires |receipts| <= |block.transactions| && p < |AllLogs(receipts, |receipts|)|
    ensures ReportedFrom(block, receipts, NumberAll(block, AllLogs(receipts, |receipts|))[p], r, j)
  {
    r, j := PlaceOf(receipts, |receipts|, p);
    AllLogsAt(receipts, |receipts|, r, j);
  }

  lemma ReportedStands(block: Block, receipts: seq<Receipt>, log: Log, r: nat, j: nat)
    requires |receipts| <= |block.transactions| && ReportedFrom(block, receipts, log, r, j)
    ensures log in NumberAll(block, AllLogs(receipts, |receipts|))
  {
    AllLogsAt(receipts, |receipts|, r, j);
    assert NumberAll(block, AllLogs(receipts, |receipts|))[Before(receipts, r) + j] == log;
  }

  /** A log is in the result exactly if it passes all tests and is reported from some place of the block. */
  lemma FilteredLog(block: Block, receipts: seq<Receipt>, params: FilteredParams, log: Log)
    requires |receipts| <= |block.transactions|
    ensures log in FilterLogs(block, receipts, params) <==>
      AllTests(block, log.inner, params) && exists r, j :: ReportedFrom(block, receipts, log, r, j)
  {
    var logs := NumberAll(block, AllLogs(receipts, |receipts|));
    FilterIsKeep(block, receipts, |receipts|, params);
    KeepMember(block, logs, params, log);
    if log in logs {
      var p :| 0 <= p < |logs| && logs[p] == log;
      var r, j := ReportedAt(block, receipts, p);
    }
    forall r, j | ReportedFrom(block, receipts, log, r, j) ensures log in logs {
      ReportedStands(block, receipts, log, r, j);
    }
  }

  // ---------------------------------------------------------------- storage and notifications

  /** Stable block storage; a block may be missing, or its receipts. */
  datatype Chain = Chain(blocks: map<Hash, Block>, receipts: map<Hash, seq<Receipt>>) {
    ghost predicate Valid() {
      forall h :: h in blocks && h in receipts ==> |receipts[h]| <= |blocks[h].transactions|
    }
    predicate Stored(h: Hash) {
      h in blocks && h in receipts
    }
  }

  /** What a notification is worth: the filtered logs of its block, nothing if it is not stored. */
  function LogsOf(chain: Chain, params: FilteredParams, h: Hash): seq<Log>
    requires chain.Valid()
  {
    if chain.Stored(h) then FilterLogs(chain.blocks[h], chain.receipts[h], params) else []
  }

  function Delivered(chain: Chain, params: FilteredParams, hashes: seq<Hash>): seq<Log>
    requires chain.Valid()
  {
    if hashes == [] then []
    else Delivered(chain, params, hashes[..|hashes| - 1]) + LogsOf(chain, params, hashes[|hashes| - 1])
  }

  lemma DeliveredSnoc(chain: Chain, params: FilteredParams, hashes: seq<Hash>, h: Hash)
    requires chain.Valid()
    ensures Delivered(chain, params, hashes + [h]) == Delivered(chain, params, hashes) + LogsOf(chain, params, h)
  {
    assert (hashes + [h])[..|hashes|] == hashes;
  }

  lemma Associative<T>(a: seq<T>, b: seq<T>, c: seq<T>)
    ensures a + (b + c) == a + b + c
  {
  }

  lemma DeliveredOne(chain: Chain, params: FilteredParams, h: Hash)
    requires chain.Valid()
    ensures Delivered(chain, params, [h]) == LogsOf(chain, params, h)
  {
    assert [h][..0] == [];
    assert [] + LogsOf(chain, params, h) == LogsOf(chain, params, h);
  }

  lemma {:induction false} DeliveredConcat(chain: Chain, params: FilteredParams, a: seq<Hash>, b: seq<Hash>)
    requires chain.Valid()
    ensures Delivered(chain, params, a + b) == Delivered(chain, params, a) + Delivered(chain, params, b)
  {
    if b == [] {
      assert a + b == a;
    } else {
      var b', last := b[..|b| - 1], b[|b| - 1];
      DeliveredConcat(chain, params, a, b');
      assert b == b' + [last];
      DeliveredConcatSnoc(chain, params, a, b', last);
    }
  }

  lemma DeliveredConcatSnoc(chain: Chain, params: FilteredParams, a: seq<Hash>, b: seq<Hash>, last: Hash)
    requires chain.Valid()
    requires Delivered(chain, params, a + b) == Delivered(chain, params, a) + Delivered(chain, params, b)
    ensures Delivered(chain, params, a + (b + [last]))
         == Delivered(chain, params, a) + Delivered(chain, params, b + [last])
  {
    Associative(a, b, [last]);
    DeliveredSnoc(chain, params, a + b, last);
    DeliveredSnoc(chain, params, b, last);
    Associative(Delivered(chain, params, a), Delivered(chain, params, b), LogsOf(chain, params, last));
  }

  // ---------------------------------------------------------------- push: the subscription

  /** The receiver's waiting notifications, whether its sender is gone, the queue of matched logs, and
      what has been taken from the receiver and given to the client. */
  datatype Sub = Sub(inbox: seq<Hash>, closed: bool, queued: seq<Log>, consumed: seq<Hash>, emitted: seq<Log>)

  datatype Answer = Ready(log: Log) | Closed | Pending

  function Taken(s: Sub): Sub
    requires s.inbox != []
  {
    s.(inbox := s.inbox[1..], consumed := s.consumed + [s.inbox[0]])
  }

  /** `LogsSubscription::poll` */
  function SubPoll(chain: Chain, params: FilteredParams, s: Sub): (Sub, Answer)
    requires chain.Valid()
    decreases |s.inbox|
  {
    if s.queued != [] then
      (s.(queued := s.queued[1..], emitted := s.emitted + [s.queued[0]]), Ready(s.queued[0]))
    else if s.inbox == [] then (s, if s.closed then Closed else Pending)
    else if chain.Stored(s.inbox[0]) then
      SubPoll(chain, params, Taken(s).(queued := LogsOf(chain, params, s.inbox[0])))
    else (Taken(s), Pending)
  }

  class LogsSubscription {
    const chain: Chain
    const filter: FilteredParams
    var inbox: seq<Hash>
    var closed: bool
    var queued: seq<Log>
    ghost var consumed: seq<Hash>
    ghost var emitted: seq<Log>

    ghost function State(): Sub
      reads this
    {
      Sub(inbox, closed, queued, consumed, emitted)
    }

    constructor (chain: Chain, filter: FilteredParams)
      ensures this.chain == chain && this.filter == filter
      ensures State() == Sub([], false, [], [], [])
    {
      this.chain, this.filter := chain, filter;
      inbox, closed, queued := [], false, [];
      consumed, emitted := [], [];
    }

    method Poll() returns (r: Answer)
      requires chain.Valid()
      modifies this
      ensures (State(), r) == SubPoll(chain, filter, old(State()))
    {
      while true
        invariant SubPoll(chain, filter, State()) == SubPoll(chain, filter, old(State()))
        decreases |inbox|, |queued| == 0
      {
        if queued != [] {
          var log := queued[0];
          queued := queued[1..];
          emitted := emitted + [log];
          return Ready(log);
        }
        if inbox == [] {
          return if closed then Closed else Pending;
        }
        var h := inbox[0];
        inbox := inbox[1..];
        consumed := consumed + [h];
        if chain.Stored(h) {
          var logs := CollectLogs(chain.blocks[h], chain.receipts[h], filter);
          if logs == [] {
            continue;
          }
          assert [] + logs == logs;
          queued := queued + logs;
        }
        if queued == [] {
          return Pending;
        }
      }
    }
  }

  // ---------------------------------------------------------------- pull: the polled filter

  datatype Pull = Pull(inbox: seq<Hash>, historic: Option<seq<Log>>, consumed: seq<Hash>, answered: seq<Log>)

  /** `LogsFilter::poll` */
  function PullPoll(chain: Chain, params: FilteredParams, p: Pull): (Pull, seq<Log>)
    requires chain.Valid()
  {
    var logs := (if p.historic.Some? then p.historic.value else []) + Delivered(chain, params, p.inbox);
    (Pull([], None, p.consumed + p.inbox, p.answered + logs), logs)
  }

  class LogsFilter {
    const chain: Chain
    const filter: FilteredParams
    var inbox: seq<Hash>
    var historic: Option<seq<Log>>
    ghost var consumed: seq<Hash>
    ghost var answered: seq<Log>

    ghost function State(): Pull
      reads this
    {
      Pull(inbox, historic, consumed, answered)
    }

    constructor (chain: Chain, filter: FilteredParams, historic: Option<seq<Log>>)
      ensures this.chain == chain && this.filter == filter
      ensures State() == Pull([], historic, [], [])
    {
      this.chain, this.filter, this.historic := chain, filter, historic;
      inbox := [];
      consumed, answered := [], [];
    }

    method Poll() returns (logs: seq<Log>)
      requires chain.Valid()
      modifies this
      ensures (State(), logs) == PullPoll(chain, filter, old(State()))
    {
      logs := if historic.Some? then historic.value else [];
      historic := None;
      ghost var total := logs + Delivered(chain, filter, inbox);
      while inbox != []
        invariant historic == None && answered == old(answered)
        invariant consumed + inbox == old(consumed) + old(inbox)
        invariant logs + Delivered(chain, filter, inbox) == total
        decreases |inbox|
      {
        TakeOne(chain, filter, logs, consumed, inbox);
        var h := inbox[0];
        inbox := inbox[1..];
        consumed := consumed + [h];
        if chain.Stored(h) {
          var more := CollectLogs(chain.blocks[h], chain.receipts[h], filter);
          logs := logs + more;
        }
      }
      Emptied(chain, filter, logs, consumed, inbox);
      answered := answered + logs;
    }
  }

  /** Taking the first waiting notification: its logs move from what is to come to what is there. */
  lemma TakeOne(chain: Chain, params: FilteredParams, logs: seq<Log>, consumed: seq<Hash>, inbox: seq<Hash>)
    requires chain.Valid() && inbox != []
    ensures consumed + [inbox[0]] + inbox[1..] == consumed + inbox
    ensures logs + LogsOf(chain, params, inbox[0]) + Delivered(chain, params, inbox[1..])
         == logs + Delivered(chain, params, inbox)
    ensures !chain.Stored(inbox[0]) ==> logs + LogsOf(chain, params, inbox[0]) == logs
  {
    var h, rest := inbox[0], inbox[1..];
    assert inbox == [h] + rest;
    DeliveredConcat(chain, params, [h], rest);
    DeliveredOne(chain, params, h);
    Associative(logs, LogsOf(chain, params, h), Delivered(chain, params, rest));
  }

  lemma Emptied(chain: Chain, params: FilteredParams, logs: seq<Log>, consumed: seq<Hash>, inbox: seq<Hash>)
    requires chain.Valid() && inbox == []
    ensures logs + Delivered(chain, params, inbox) == logs && consumed + inbox == consumed
  {
  }

  // ---------------------------------------------------------------- exact answers

  /** A stored block without matching logs: the poll passes over it. */
  predicate Silent(chain: Chain, params: FilteredParams, h: Hash)
    requires chain.Valid()
  {
    chain.Stored(h) && LogsOf(chain, params, h) == []
  }

  /** How many flags at the front are set. */
  function Leading(flags: seq<bool>): (k: nat)
    ensures k <= |flags|
    ensures forall i :: 0 <= i < k ==> flags[i]
    ensures k < |flags| ==> !flags[k]
  {
    if flags == [] || !flags[0] then 0 else 1 + Leading(flags[1..])
  }

  function Silences(chain: Chain, params: FilteredParams, inbox: seq<Hash>): (flags: seq<bool>)
    requires chain.Valid()
    ensures |flags| == |inbox|
  {
    seq(|inbox|, i requires 0 <= i < |inbox| => Silent(chain, params, inbox[i]))
  }

  /** How many waiting notifications are passed over. */
  function Skip(chain: Chain, params: FilteredParams, inbox: seq<Hash>): (k: nat)
    requires chain.Valid()
    ensures k <= |inbox|
  {
    Leading(Silences(chain, params, inbox))
  }

  /**
    The answer of a subscription poll, from what waits before it: with an empty queue it passes over
    the silent blocks and then reports the next log, the end of the stream, or pending. Pending means
    an exhausted open receiver, or that the first block not passed over is missing from storage; in
    the latter case notifications may be left unread.
   */
  lemma SubPollAnswer(chain: Chain, params: FilteredParams, s: Sub)
    requires chain.Valid() && s.queued == []
    ensures Answers(chain, params, s, Skip(chain, params, s.inbox))
  {
    var flags, k := Silences(chain, params, s.inbox), Skip(chain, params, s.inbox);
    PassOver(chain, params, s, flags, k);
    var t := TakenUpTo(s, k);
    if k == |s.inbox| {
      AnswersDrained(chain, params, t);
    } else {
      assert flags[k] == Silent(chain, params, s.inbox[k]);
      AnswersFirst(chain, params, t);
    }
    AnswersShift(chain, params, s, k);
  }

  /** The subscription after taking `k` notifications. */
  function TakenUpTo(s: Sub, k: nat): Sub
    requires k <= |s.inbox|
  {
    s.(inbox := s.inbox[k..], consumed := s.consumed + s.inbox[..k])
  }

  /** Silent blocks are passed over. */
  lemma {:induction false} PassOver(chain: Chain, params: FilteredParams, s: Sub, flags: seq<bool>, k: nat)
    requires chain.Valid() && s.queued == [] && flags == Silences(chain, params, s.inbox)
    requires k <= |flags| && forall i :: 0 <= i < k ==> flags[i]
    ensures SubPoll(chain, params, s) == SubPoll(chain, params, TakenUpTo(s, k))
    decreases k
  {
    if k == 0 {
      assert TakenUpTo(s, 0) == s;
    } else {
      PassOver(chain, params, s, flags, k - 1);
      assert flags[k - 1] == Silent(chain, params, s.inbox[k - 1]);
      PassOne(chain, params, TakenUpTo(s, k - 1));
      TakenNext(s, k - 1);
    }
  }

  lemma PassOne(chain: Chain, params: FilteredParams, s: Sub)
    requires chain.Valid() && s.queued == [] && s.inbox != [] && Silent(chain, params, s.inbox[0])
    ensures SubPoll(chain, params, s) == SubPoll(chain, params, Taken(s))
  {
    assert Taken(s).(queued := []) == Taken(s);
  }

  lemma TakenNext(s: Sub, k: nat)
    requires k < |s.inbox|
    ensures Taken(TakenUpTo(s, k)) == TakenUpTo(s, k + 1)
  {
    assert s.consumed + s.inbox[..k] + [s.inbox[k]] == s.consumed + s.inbox[..k + 1];
  }

  lemma AnswersShift(chain: Chain, params: FilteredParams, s: Sub, k: nat)
    requires chain.Valid() && k <= |s.inbox| && Answers(chain, params, TakenUpTo(s, k), 0)
    requires SubPoll(chain, params, s) == SubPoll(chain, params, TakenUpTo(s, k))
    ensures Answers(chain, params, s, k)
  {
    assert k < |s.inbox| ==> s.inbox[k..][1..] == s.inbox[k + 1..];
  }

  lemma AnswersDrained(chain: Chain, params: FilteredParams, s: Sub)
    requires chain.Valid() && s.inbox == [] && s.queued == []
    ensures Answers(chain, params, s, 0)
  {
  }

  lemma AnswersFirst(chain: Chain, params: FilteredParams, s: Sub)
    requires chain.Valid() && s.inbox != [] && s.queued == [] && !Silent(chain, params, s.inbox[0])
    ensures Answers(chain, params, s, 0)
  {
    if chain.Stored(s.inbox[0]) {
      AnswersReady(chain, params, s);
    } else {
      AnswersMissing(chain, params, s);
    }
  }

  lemma AnswersMissing(chain: Chain, params: FilteredParams, s: Sub)
    requires chain.Valid() && s.inbox != [] && s.queued == [] && !chain.Stored(s.inbox[0])
    ensures Answers(chain, params, s, 0)
  {
    assert SubPoll(chain, params, s) == (Taken(s), Pending);
  }

  lemma AnswersReady(chain: Chain, params: FilteredParams, s: Sub)
    requires chain.Valid() && s.inbox != [] && s.queued == []
    requires chain.Stored(s.inbox[0]) && LogsOf(chain, params, s.inbox[0]) != []
    ensures Answers(chain, params, s, 0)
  {
    var t := Taken(s).(queued := LogsOf(chain, params, s.inbox[0]));
    assert SubPoll(chain, params, s) == SubPoll(chain, params, t);
    assert [t.queued[0]] + t.queued[1..] == t.queued;
  }

  ghost predicate Answers(chain: Chain, params: FilteredParams, s: Sub, k: nat)
    requires chain.Valid() && k <= |s.inbox|
  {
    var (s', r) := SubPoll(chain, params, s);
    && (r == Closed <==> k == |s.inbox| && s.closed)
    && (r == Pending <==> (k == |s.inbox| && !s.closed) || (k < |s.inbox| && !chain.Stored(s.inbox[k])))
    && (r.Ready? ==> k < |s.inbox| && [r.log] + s'.queued == LogsOf(chain, params, s.inbox[k]))
    && s'.inbox == (if k == |s.inbox| then [] else s.inbox[k + 1..])
    && (r.Ready? || s'.queued == []) && s'.closed == s.closed
  }

  /** When storage holds every notified block, pending means drained: the queue and the open receiver
      are empty. So no notification is left behind without a wake-up. */
  lemma PendingMeansDrained(chain: Chain, params: FilteredParams, s: Sub)
    requires chain.Valid() && forall h :: h in s.inbox ==> chain.Stored(h)
    requires SubPoll(chain, params, s).1 == Pending
    ensures var s' := SubPoll(chain, params, s).0; s'.queued == [] && s'.inbox == [] && !s'.closed
  {
    SubPollAnswer(chain, params, s);
  }

  /** Without that, a poll does leave notifications behind: one missing block in front is enough. */
  lemma MissingBlockStalls(chain: Chain, params: FilteredParams, missing: Hash, later: seq<Hash>)
    requires chain.Valid() && !chain.Stored(missing)
    ensures SubPoll(chain, params, Sub([missing] + later, false, [], [], []))
         == (Sub(later, false, [], [missing], []), Pending)
  {
    assert ([missing] + later)[1..] == later;
    assert [] + [missing] == [missing];
  }

  // ---------------------------------------------------------------- push and pull agree

  /** Both receivers get every notification; each side is polled at its own times. */
  datatype Event = Notify(h: Hash) | Close | PollPush | PollPull

  datatype World = World(push: Sub, pull: Pull, notified: seq<Hash>)

  function Start(historic: Option<seq<Log>>): World {
    World(Sub([], false, [], [], []), Pull([], historic, [], []), [])
  }

  function Step(chain: Chain, params: FilteredParams, w: World, e: Event): World
    requires chain.Valid()
  {
    match e
    case Notify(h) =>
      World(w.push.(inbox := w.push.inbox + [h]), w.pull.(inbox := w.pull.inbox + [h]), w.notified + [h])
    case Close => w.(push := w.push.(closed := true))
    case PollPush => w.(push := SubPoll(chain, params, w.push).0)
    case PollPull => w.(pull := PullPoll(chain, params, w.pull).0)
  }

  function Run(chain: Chain, params: FilteredParams, w: World, evs: seq<Event>): World
    requires chain.Valid()
  {
    if evs == [] then w
    else Step(chain, params, Run(chain, params, w, evs[..|evs| - 1]), evs[|evs| - 1])
  }

  /** Emitted and queued logs are those of the consumed notifications, none lost or repeated. */
  ghost predicate PushOk(chain: Chain, params: FilteredParams, s: Sub)
    requires chain.Valid()
  {
    s.emitted + s.queued == Delivered(chain, params, s.consumed)
  }

  ghost predicate PullOk(chain: Chain, params: FilteredParams, p: Pull, historic: seq<Log>)
    requires chain.Valid()
  {
    if p.historic.Some? then p.historic.value == historic && p.answered == [] && p.consumed == []
    else p.answered == historic + Delivered(chain, params, p.consumed)
  }

  lemma {:induction false} SubPollOk(chain: Chain, params: FilteredParams, s: Sub)
    requires chain.Valid() && PushOk(chain, params, s)
    ensures var s' := SubPoll(chain, params, s).0;
      PushOk(chain, params, s') && s'.consumed + s'.inbox == s.consumed + s.inbox
    decreases |s.inbox|
  {
    if s.queued != [] {
      assert s.emitted + s.queued == s.emitted + [s.queued[0]] + s.queued[1..];
    } else if s.inbox != [] {
      TakenOk(chain, params, s);
      if chain.Stored(s.inbox[0]) {
        SubPollOk(chain, params, Taken(s).(queued := LogsOf(chain, params, s.inbox[0])));
      }
    }
  }

  /** Taking the next notification with an empty queue: its logs are the new queue. */
  lemma TakenOk(chain: Chain, params: FilteredParams, s: Sub)
    requires chain.Valid() && PushOk(chain, params, s) && s.queued == [] && s.inbox != []
    ensures var t := Taken(s).(queued := LogsOf(chain, params, s.inbox[0]));
      PushOk(chain, params, t) && t.consumed + t.inbox == s.consumed + s.inbox
    ensures !chain.Stored(s.inbox[0]) ==> PushOk(chain, params, Taken(s))
  {
    DeliveredSnoc(chain, params, s.consumed, s.inbox[0]);
    assert s.emitted + s.queued == s.emitted;
    assert s.consumed + [s.inbox[0]] + s.inbox[1..] == s.consumed + s.inbox;
  }

  lemma PullPollOk(chain: Chain, params: FilteredParams, p: Pull, historic: seq<Log>)
    requires chain.Valid() && PullOk(chain, params, p, historic)
    ensures PullOk(chain, params, PullPoll(chain, params, p).0, historic)
  {
    var d := Delivered(chain, params, p.inbox);
    assert [] + d == d && [] + (historic + d) == historic + d && [] + p.inbox == p.inbox;
    if p.historic.None? {
      DeliveredConcat(chain, params, p.consumed, p.inbox);
      Associative(historic, Delivered(chain, params, p.consumed), d);
    }
  }

  lemma {:induction false} RunOk(chain: Chain, params: FilteredParams, historic: Option<seq<Log>>, evs: seq<Event>)
    requires chain.Valid()
    ensures var w := Run(chain, params, Start(historic), evs);
      && PushOk(chain, params, w.push)
      && PullOk(chain, params, w.pull, if historic.Some? then historic.value else [])
      && w.push.consumed + w.push.inbox == w.notified
      && w.pull.consumed + w.pull.inbox == w.notified
  {
    if evs != [] {
      RunOk(chain, params, historic, evs[..|evs| - 1]);
      var w := Run(chain, params, Start(historic), evs[..|evs| - 1]);
      match evs[|evs| - 1] {
        case Notify(h) =>
          assert w.push.consumed + (w.push.inbox + [h]) == w.notified + [h];
          assert w.pull.consumed + (w.pull.inbox + [h]) == w.notified + [h];
        case Close =>
        case PollPush =>
          SubPollOk(chain, params, w.push);
        case PollPull =>
          PullPollOk(chain, params, w.pull, if historic.Some? then historic.value else []);
          assert w.pull.consumed + w.pull.inbox + [] == w.notified;
      }
    }
  }

  /** The hashes of the blocks notified in a run. */
  function Sent(evs: seq<Event>): seq<Hash> {
    if evs == [] then []
    else Sent(evs[..|evs| - 1]) + if evs[|evs| - 1].Notify? then [evs[|evs| - 1].h] else []
  }

  lemma {:induction false} NotifiedIsSent(chain: Chain, params: FilteredParams, w: World, evs: seq<Event>)
    requires chain.Valid() && w.notified == []
    ensures Run(chain, params, w, evs).notified == Sent(evs)
  {
    if evs != [] {
      NotifiedIsSent(chain, params, w, evs[..|evs| - 1]);
    }
  }

  /** What the subscription's polls have returned to the client, one log per ready answer. */
  function Pushed(chain: Chain, params: FilteredParams, w: World, evs: seq<Event>): seq<Log>
    requires chain.Valid()
  {
    if evs == [] then []
    else
      var front := evs[..|evs| - 1];
      var answer := SubPoll(chain, params, Run(chain, params, w, front).push).1;
      Pushed(chain, params, w, front)
      + if evs[|evs| - 1].PollPush? && answer.Ready? then [answer.log] else []
  }

  /** What the filter's polls have returned to the client. */
  function Pulled(chain: Chain, params: FilteredParams, w: World, evs: seq<Event>): seq<Log>
    requires chain.Valid()
  {
    if evs == [] then []
    else
      var front := evs[..|evs| - 1];
      Pulled(chain, params, w, front)
      + if evs[|evs| - 1].PollPull? then PullPoll(chain, params, Run(chain, params, w, front).pull).1 else []
  }

  lemma {:induction false} SubPollReturns(chain: Chain, params: FilteredParams, s: Sub)
    requires chain.Valid()
    ensures var (s', r) := SubPoll(chain, params, s);
      && s'.emitted == s.emitted + (if r.Ready? then [r.log] else [])
      && (s.queued != [] ==> r == Ready(s.queued[0]) && s' == s.(queued := s.queued[1..], emitted := s'.emitted))
    decreases |s.inbox|
  {
    if s.queued == [] && s.inbox != [] && chain.Stored(s.inbox[0]) {
      SubPollReturns(chain, params, Taken(s).(queued := LogsOf(chain, params, s.inbox[0])));
    }
  }

  lemma {:induction false} ReturnedIsCounted(
    chain: Chain, params: FilteredParams, historic: Option<seq<Log>>, evs: seq<Event>)
    requires chain.Valid()
    ensures Pushed(chain, params, Start(historic), evs) == Run(chain, params, Start(historic), evs).push.emitted
    ensures Pulled(chain, params, Start(historic), evs) == Run(chain, params, Start(historic), evs).pull.answered
  {
    if evs != [] {
      var front := evs[..|evs| - 1];
      ReturnedIsCounted(chain, params, historic, front);
      StepReturns(chain, params, Run(chain, params, Start(historic), front), evs[|evs| - 1]);
    }
  }

  lemma StepReturns(chain: Chain, params: FilteredParams, w: World, e: Event)
    requires chain.Valid()
    ensures var answer := SubPoll(chain, params, w.push).1;
      Step(chain, params, w, e).push.emitted ==
        w.push.emitted + if e.PollPush? && answer.Ready? then [answer.log] else []
    ensures Step(chain, params, w, e).pull.answered ==
      w.pull.answered + if e.PollPull? then PullPoll(chain, params, w.pull).1 else []
  {
    SubPollReturns(chain, params, w.push);
  }

  /**
    Push and pull agree over every interleaving of notifications and polls: what the subscription has
    returned or still queues are the logs of the first so many notifications, in order and each once;
    what the filter has returned, once it has been polled, is its historic logs and then the logs of the
    first so many. When both are drained they have returned the same, up to the historic logs.
   */
  lemma PushPullAgree(chain: Chain, params: FilteredParams, historic: Option<seq<Log>>, evs: seq<Event>)
    requires chain.Valid()
    ensures var w := Run(chain, params, Start(historic), evs);
      var pushed, pulled := Pushed(chain, params, Start(historic), evs), Pulled(chain, params, Start(historic), evs);
      var first := if historic.Some? then historic.value else [];
      && w.notified == Sent(evs)
      && w.push.consumed <= w.notified && w.pull.consumed <= w.notified
      && pushed + w.push.queued == Delivered(chain, params, w.push.consumed)
      && pulled == (if w.pull.historic.Some? then [] else first + Delivered(chain, params, w.pull.consumed))
      && (w.push.inbox == [] && w.push.queued == [] && w.pull.inbox == [] && w.pull.historic.None? ==>
            pulled == first + pushed)
  {
    RunOk(chain, params, historic, evs);
    ReturnedIsCounted(chain, params, historic, evs);
    NotifiedIsSent(chain, params, Start(historic), evs);
    var w := Run(chain, params, Start(historic), evs);
    assert w.push.inbox == [] ==> w.push.consumed == w.notified;
    assert w.pull.inbox == [] ==> w.pull.consumed == w.notified;
    assert w.push.queued == [] ==> w.push.emitted + w.push.queued == w.push.emitted;
  }

  /** The first poll of the filter takes the historic logs, and each poll takes everything that waits. */
  lemma PulledIsDrained(chain: Chain, params: FilteredParams, historic: Option<seq<Log>>, evs: seq<Event>)
    requires chain.Valid()
    ensures var w := Run(chain, params, Start(historic), evs + [PollPull]);
      w.pull.inbox == [] && w.pull.historic.None? && w.pull.consumed == Sent(evs)
  {
    RunOk(chain, params, historic, evs);
    NotifiedIsSent(chain, params, Start(historic), evs);
    assert (evs + [PollPull])[..|evs|] == evs;
  }
}
