/**
  The state-diff recorder of the cheatcodes inspector: a stack of record lists that the
  call/create hooks push to and pop from while SLOAD/SSTORE steps append to the top list.
  This module holds the records, the step functions and the EVM side of a run.
 */
module StateDiffModel {

  type Address = nat
  type Word = nat
  type Key = (Address, Word)
  type Storage = map<Key, Word>

  datatype Scheme = Call | CallCode | DelegateCall | StaticCall | Create
  datatype Query = Extcodecopy | Extcodesize | Extcodehash | Balance
  datatype AccessKind = Entered(scheme: Scheme) | Queried(query: Query) | SelfDestructed | Resume

  datatype StorageAccess = StorageAccess(
    account: Address, slot: Word, isWrite: bool, previousValue: Word, newValue: Word, reverted: bool)

  datatype AccountAccess = AccountAccess(
    kind: AccessKind, accessor: Address, account: Address, depth: nat, reverted: bool,
    storageAccesses: seq<StorageAccess>)

  type Records = seq<AccountAccess>

  /** What the EVM does, as the inspector hooks see it. */
  datatype Event =
    | Enter(scheme: Scheme, accessor: Address, account: Address)
    | Exit(isRevert: bool)
    | Sload(account: Address, slot: Word)
    | Sstore(account: Address, slot: Word, value: Word)
    | Ext(query: Query, accessor: Address, account: Address)
    | SelfDestruct(accessor: Address, account: Address)

  /** The journal: current storage, and for every open frame the storage to roll back to. */
  datatype Evm = Evm(storage: Storage, checkpoints: seq<Storage>) {
    function Depth(): nat { |checkpoints| }
  }

  datatype State = State(stack: seq<Records>, evm: Evm)

  function Read(s: Storage, k: Key): Word {
    if k in s then s[k] else 0
  }

  /** Only a running frame executes opcodes or ends. */
  predicate Legal(e: Event, depth: int) {
    !e.Enter? ==> depth > 0
  }

  function EvmStep(evm: Evm, e: Event): Evm {
    match e
    case Enter(_, _, _) => evm.(checkpoints := evm.checkpoints + [evm.storage])
    case Exit(isRevert) =>
      if |evm.checkpoints| == 0 then evm
      else
        var top := |evm.checkpoints| - 1;
        Evm(if isRevert then evm.checkpoints[top] else evm.storage, evm.checkpoints[..top])
    case Sstore(account, slot, value) => evm.(storage := evm.storage[(account, slot) := value])
    case _ => evm
  }

  /** The EVM after the first `n` events of a run. */
  function EvmRun(evm: Evm, evs: seq<Event>, n: nat): Evm
    requires n <= |evs|
  {
    if n == 0 then evm else EvmStep(EvmRun(evm, evs, n - 1), evs[n - 1])
  }

  // ---------------------------------------------------------------- record lists

  function MarkAccess(a: StorageAccess): StorageAccess {
    a.(reverted := true)
  }

  function MarkAccesses(accesses: seq<StorageAccess>): (r: seq<StorageAccess>)
    ensures |r| == |accesses|
  {
    seq(|accesses|, i requires 0 <= i < |accesses| => MarkAccess(accesses[i]))
  }

  function MarkRecord(r: AccountAccess): AccountAccess {
    r.(reverted := true, storageAccesses := MarkAccesses(r.storageAccesses))
  }

  function MarkRecords(records: Records): (r: Records)
    ensures |r| == |records|
  {
    seq(|records|, i requires 0 <= i < |records| => MarkRecord(records[i]))
  }

  /** `append_storage_access`: where a storage access of the running frame goes. */
  function AppendStorageAccess(last: Records, access: StorageAccess, depth: nat): Records {
    if |last| == 0 || last[0].depth >= depth then last
    else if |last| == 1 then
      [last[0].(storageAccesses := last[0].storageAccesses + [access])]
    else
      var tail := last[|last| - 1];
      if tail.kind.Resume? then
        last[|last| - 1 := tail.(storageAccesses := tail.storageAccesses + [access])]
      else
        last + [AccountAccess(Resume, last[0].accessor, last[0].account, last[0].depth,
                              last[0].reverted, [access])]
  }

  /** The recording part of `call_end` and `create_end`, with the depth the hook sees. */
  function EndFrame(stack: seq<Records>, depth: nat, isRevert: bool): seq<Records> {
    if depth == 0 || |stack| == 0 then stack
    else
      var rest := stack[..|stack| - 1];
      var ended := stack[|stack| - 1];
      var merged := if isRevert then MarkRecords(ended) else ended;
      if |merged| == 0 then rest
      else if |rest| > 0 then rest[|rest| - 1 := rest[|rest| - 1] + merged]
      else [merged]
  }

  function StorageAccessOf(evm: Evm, e: Event): StorageAccess
    requires e.Sload? || e.Sstore?
  {
    var present := Read(evm.storage, (e.account, e.slot));
    StorageAccess(e.account, e.slot, e.Sstore?, present, if e.Sstore? then e.value else present, false)
  }

  /** One hook: what the event does to the record stack, given the EVM state the hook sees. */
  function RecordStep(stack: seq<Records>, evm: Evm, e: Event): seq<Records> {
    match e
    case Enter(scheme, accessor, account) =>
      stack + [[AccountAccess(Entered(scheme), accessor, account, evm.Depth(), false, [])]]
    case Exit(isRevert) =>
      if evm.Depth() == 0 then stack else EndFrame(stack, evm.Depth() - 1, isRevert)
    case Ext(query, accessor, account) =>
      var record := AccountAccess(Queried(query), accessor, account, evm.Depth(), false, []);
      if |stack| == 0 then [[record]]
      else stack[|stack| - 1 := stack[|stack| - 1] + [record]]
    case SelfDestruct(accessor, account) =>
      var record := AccountAccess(SelfDestructed, accessor, account, evm.Depth(), false, []);
      if |stack| == 0 then stack
      else stack[|stack| - 1 := stack[|stack| - 1] + [record]]
    case _ =>
      if |stack| == 0 then stack
      else
        var top := stack[|stack| - 1];
        stack[|stack| - 1 := AppendStorageAccess(top, StorageAccessOf(evm, e), evm.Depth())]
  }

  function Step(s: State, e: Event): State {
    State(RecordStep(s.stack, s.evm, e), EvmStep(s.evm, e))
  }

  /** The state after the first `n` events of a run. */
  function Run(s: State, evs: seq<Event>, n: nat): State
    requires n <= |evs|
  {
    if n == 0 then s else Step(Run(s, evs, n - 1), evs[n - 1])
  }

  /** The recorder does not influence the EVM. */
  lemma {:induction false} EvmOfRun(s: State, evs: seq<Event>, n: nat)
    requires n <= |evs|
    ensures Run(s, evs, n).evm == EvmRun(s.evm, evs, n)
  {
    if n > 0 {
      EvmOfRun(s, evs, n - 1);
    }
  }

  /** The state in which recording has just been started inside some running transaction. */
  function Started(evm: Evm): State {
    State([], evm)
  }
}

/** The hooks themselves, as methods that update the recorder in place. */
module StateDiffHooks {
  import opened Options
  import opened StateDiffModel

  datatype SlotDiff = SlotDiff(previousValue: Word, newValue: Word)
  type StateDiffs = map<Address, map<Word, SlotDiff>>

  // ---------------------------------------------------------------- the reported order

  /** One reported item: the header of a (non-Resume) record, or a storage access. */
  datatype Entry =
    | Header(kind: AccessKind, accessor: Address, account: Address, depth: nat, flag: bool)
    | Touch(access: StorageAccess)
  {
    function Marked(): Entry {
      match this
      case Header(kind, accessor, account, depth, _) => Header(kind, accessor, account, depth, true)
      case Touch(a) => Touch(MarkAccess(a))
    }
  }

  function Touches(accesses: seq<StorageAccess>): (r: seq<Entry>)
    ensures |r| == |accesses|
  {
    seq(|accesses|, i requires 0 <= i < |accesses| => Touch(accesses[i]))
  }

  function ViewRecord(r: AccountAccess): seq<Entry> {
    (if r.kind.Resume? then [] else [Header(r.kind, r.accessor, r.account, r.depth, r.reverted)])
    + Touches(r.storageAccesses)
  }

  function ViewRecords(records: Records): seq<Entry> {
    if records == [] then []
    else ViewRecords(records[..|records| - 1]) + ViewRecord(records[|records| - 1])
  }

  /** The stack flattened below its `j`-th list, Resume headers left out. */
  function Below(stack: seq<Records>, j: nat): seq<Entry>
    requires j <= |stack|
  {
    if j == 0 then [] else Below(stack, j - 1) + ViewRecords(stack[j - 1])
  }

  /** Everything the recorder holds, in stack order. */
  function View(stack: seq<Records>): seq<Entry> {
    Below(stack, |stack|)
  }

  /** The records of the lists below the `j`-th, one after the other. */
  function Flatten(stack: seq<Records>, j: nat): Records
    requires j <= |stack|
  {
    if j == 0 then [] else Flatten(stack, j - 1) + stack[j - 1]
  }

  /** How many records the lists below the `j`-th hold. */
  function Offset(stack: seq<Records>, j: nat): (n: nat)
    requires j <= |stack|
    ensures n == |Flatten(stack, j)|
  {
    if j == 0 then 0 else Offset(stack, j - 1) + |stack[j - 1]|
  }

  /** Flattening keeps every record, in stack order. */
  lemma {:induction false} FlattenAt(stack: seq<Records>, n: nat, i: nat, j: nat)
    requires i < n <= |stack| && j < |stack[i]|
    ensures Offset(stack, i) + j < Offset(stack, n) && Flatten(stack, n)[Offset(stack, i) + j] == stack[i][j]
    decreases n
  {
    if i < n - 1 {
      FlattenAt(stack, n - 1, i, j);
    }
  }

  lemma {:induction false} ViewFlatten(stack: seq<Records>, j: nat)
    requires j <= |stack|
    ensures ViewRecords(Flatten(stack, j)) == Below(stack, j)
  {
    if j > 0 {
      ViewFlatten(stack, j - 1);
      ViewRecordsConcat(Flatten(stack, j - 1), stack[j - 1]);
    }
  }

  // ---------------------------------------------------------------- folding into diffs

  predicate Survives(e: Entry) {
    e.Touch? && e.access.isWrite && !e.access.reverted
  }

  predicate WritesTo(e: Entry, k: Key) {
    Survives(e) && e.access.account == k.0 && e.access.slot == k.1
  }

  /** The surviving writes of one slot, in order. */
  function Writes(log: seq<Entry>, k: Key): seq<StorageAccess> {
    if log == [] then []
    else
      var e := log[|log| - 1];
      Writes(log[..|log| - 1], k) + if WritesTo(e, k) then [e.access] else []
  }

  function Lookup(d: StateDiffs, k: Key): Option<SlotDiff> {
    if k.0 in d && k.1 in d[k.0] then Some(d[k.0][k.1]) else None
  }

  function FoldOne(d: StateDiffs, e: Entry): StateDiffs {
    if !Survives(e) then d
    else
      var a := e.access;
      var slots := if a.account in d then d[a.account] else map[];
      var previous := if a.slot in slots then slots[a.slot].previousValue else a.previousValue;
      d[a.account := slots[a.slot := SlotDiff(previous, a.newValue)]]
  }

  function Fold(log: seq<Entry>): StateDiffs {
    if log == [] then map[] else FoldOne(Fold(log[..|log| - 1]), log[|log| - 1])
  }

  /** What a reported slot means: first surviving previous value, last surviving new value. */
  lemma {:induction false} FoldMeaning(log: seq<Entry>, k: Key)
    ensures var w := Writes(log, k);
      Lookup(Fold(log), k) ==
        if w == [] then None else Some(SlotDiff(w[0].previousValue, w[|w| - 1].newValue))
    ensures k.0 in Fold(log) <==> exists i :: 0 <= i < |log| && Survives(log[i]) && log[i].access.account == k.0
  {
    if log != [] {
      FoldMeaning(log[..|log| - 1], k);
    }
  }

  lemma {:induction false} FoldConcat(log: seq<Entry>, e: Entry)
    ensures Fold(log + [e]) == FoldOne(Fold(log), e)
  {
    assert (log + [e])[..|log|] == log;
  }

  // ---------------------------------------------------------------- the recorder object

  class Cheatcodes {
    var recorded: Option<seq<Records>>

    constructor ()
      ensures recorded == None
    {
      recorded := None;
    }

    /** `vm.startStateDiffRecording` */
    method StartStateDiffRecording()
      modifies this
      ensures recorded == Some([])
    {
      recorded := Some([]);
    }

    /** The recording part of the `call` and `create` hooks. */
    method EnterFrame(scheme: Scheme, accessor: Address, account: Address, evm: Evm)
      modifies this
      ensures recorded == if old(recorded).None? then None
                          else Some(RecordStep(old(recorded).value, evm, Enter(scheme, accessor, account)))
    {
      if recorded.Some? {
        var record := AccountAccess(Entered(scheme), accessor, account, evm.Depth(), false, []);
        recorded := Some(recorded.value + [[record]]);
      }
    }

    /** The recording part of the `call_end` and `create_end` hooks at the given journal depth. */
    method LeaveFrame(depth: nat, isRevert: bool)
      modifies this
      ensures recorded == if old(recorded).None? then None
                          else Some(EndFrame(old(recorded).value, depth, isRevert))
    {
      if recorded.Some? {
        var stack := recorded.value;
        if depth > 0 && |stack| > 0 {
          var ended := stack[|stack| - 1];
          stack := stack[..|stack| - 1];
          if isRevert {
            ended := MarkAllReverted(ended);
          }
          if |ended| > 0 {
            if |stack| > 0 {
              stack := stack[|stack| - 1 := stack[|stack| - 1] + ended];
            } else {
              stack := [ended];
            }
          }
          recorded := Some(stack);
        }
      }
    }

    /** The two nested `for_each` loops that set the `reverted` flags. */
    method MarkAllReverted(records: Records) returns (r: Records)
      ensures r == MarkRecords(records)
      ensures forall i :: 0 <= i < |r| ==> AllMarked(records[i], r[i])
    {
      r := records;
      for i := 0 to |records|
        invariant |r| == |records|
        invariant forall j :: 0 <= j < i ==> r[j] == MarkRecord(records[j])
        invariant forall j :: i <= j < |r| ==> r[j] == records[j]
      {
        var accesses := r[i].storageAccesses;
        for k := 0 to |accesses|
          invariant |accesses| == |records[i].storageAccesses|
          invariant forall j :: 0 <= j < k ==> accesses[j] == MarkAccess(records[i].storageAccesses[j])
          invariant forall j :: k <= j < |accesses| ==> accesses[j] == records[i].storageAccesses[j]
        {
          accesses := accesses[k := accesses[k].(reverted := true)];
        }
        assert accesses == MarkAccesses(records[i].storageAccesses);
        r := r[i := r[i].(reverted := true, storageAccesses := accesses)];
      }
      assert r == MarkRecords(records);
    }

    /** `record_state_diffs`: the opcodes that touch accounts or storage. */
    method RecordOpcode(e: Event, evm: Evm)
      requires !e.Enter? && !e.Exit?
      modifies this
      ensures recorded == if old(recorded).None? then None
                          else Some(RecordStep(old(recorded).value, evm, e))
    {
      if recorded.None? {
        return;
      }
      var stack := recorded.value;
      if e.Ext? {
        var record := AccountAccess(Queried(e.query), e.accessor, e.account, evm.Depth(), false, []);
        if |stack| > 0 {
          stack := stack[|stack| - 1 := stack[|stack| - 1] + [record]];
        } else {
          stack := [[record]];
        }
      } else if |stack| == 0 {
        return;
      } else if e.SelfDestruct? {
        var record := AccountAccess(SelfDestructed, e.accessor, e.account, evm.Depth(), false, []);
        stack := stack[|stack| - 1 := stack[|stack| - 1] + [record]];
      } else {
        var top := stack[|stack| - 1];
        stack := stack[|stack| - 1 := AppendStorageAccess(top, StorageAccessOf(evm, e), evm.Depth())];
      }
      recorded := Some(stack);
    }

    /** A whole run of hooks, driven by the events of an execution. */
    method Drive(evm0: Evm, evs: seq<Event>) returns (evm: Evm)
      requires recorded.Some?
      modifies this
      ensures recorded == Some(Run(State(old(recorded).value, evm0), evs, |evs|).stack)
      ensures evm == Run(State(old(recorded).value, evm0), evs, |evs|).evm
    {
      evm := evm0;
      for i := 0 to |evs|
        invariant recorded == Some(Run(State(old(recorded).value, evm0), evs, i).stack)
        invariant evm == Run(State(old(recorded).value, evm0), evs, i).evm
      {
        match evs[i] {
          case Enter(scheme, accessor, account) =>
            EnterFrame(scheme, accessor, account, evm);
          case Exit(isRevert) =>
            // The journal has already closed the frame when the end hook runs.
            if evm.Depth() > 0 {
              LeaveFrame(evm.Depth() - 1, isRevert);
            }
          case _ =>
            RecordOpcode(evs[i], evm);
        }
        evm := EvmStep(evm, evs[i]);
      }
    }

    /** `get_state_diff`: hands out the flattened records and keeps recording from scratch. */
    method StopAndReturnStateDiff() returns (records: Records)
      modifies this
      ensures recorded == Some([])
      ensures records == if old(recorded).Some? then Flatten(old(recorded).value, |old(recorded).value|) else []
      ensures ViewRecords(records) == if old(recorded).Some? then View(old(recorded).value) else []
    {
      records := [];
      if recorded.Some? {
        var stack := recorded.value;
        for i := 0 to |stack|
          invariant records == Flatten(stack, i)
        {
          records := records + stack[i];
        }
        ViewFlatten(stack, |stack|);
      }
      recorded := Some([]);
    }

    /** `get_recorded_state_diffs`, the storage part: one pass over all records. */
    method GetRecordedStateDiffs() returns (diffs: StateDiffs)
      ensures diffs == Fold(if recorded.Some? then View(recorded.value) else [])
    {
      diffs := map[];
      if recorded.Some? {
        var stack := recorded.value;
        ghost var log := [];
        for i := 0 to |stack|
          invariant log == Below(stack, i)
          invariant diffs == Fold(log)
        {
          diffs, log := FoldRecords(diffs, log, stack[i]);
        }
      }
    }

    method FoldRecords(diffs0: StateDiffs, ghost log0: seq<Entry>, records: Records)
      returns (diffs: StateDiffs, ghost log: seq<Entry>)
      requires diffs0 == Fold(log0)
      ensures log == log0 + ViewRecords(records)
      ensures diffs == Fold(log)
    {
      diffs, log := diffs0, log0;
      for j := 0 to |records|
        invariant log == log0 + ViewRecords(records[..j])
        invariant diffs == Fold(log)
      {
        diffs, log := FoldRecord(diffs, log, records[j]);
        ViewRecordsStep(log0, records, j);
      }
      assert records[..|records|] == records;
    }

    method FoldRecord(diffs0: StateDiffs, ghost log0: seq<Entry>, record: AccountAccess)
      returns (diffs: StateDiffs, ghost log: seq<Entry>)
      requires diffs0 == Fold(log0)
      ensures log == log0 + ViewRecord(record)
      ensures diffs == Fold(log)
    {
      diffs := diffs0;
      log := log0;
      ghost var touches := Touches(record.storageAccesses);
      if !record.kind.Resume? {
        ghost var header := Header(record.kind, record.accessor, record.account, record.depth, record.reverted);
        log := log0 + [header];
        FoldConcat(log0, header);
      }
      ghost var start := log;
      for k := 0 to |record.storageAccesses|
        invariant log == start + touches[..k]
        invariant diffs == Fold(log)
      {
        var a := record.storageAccesses[k];
        diffs := FoldAccess(diffs, a);
        FoldConcat(log, Touch(a));
        log := log + [Touch(a)];
        ExtendPrefix(start, touches, k);
      }
      assert touches[..|touches|] == touches;
      assert log == log0 + ViewRecord(record);
    }

    /** The vacant and the occupied entry of the two nested maps. */
    method FoldAccess(diffs0: StateDiffs, a: StorageAccess) returns (diffs: StateDiffs)
      ensures diffs == FoldOne(diffs0, Touch(a))
    {
      diffs := diffs0;
      if a.isWrite && !a.reverted {
        var slots := if a.account in diffs then diffs[a.account] else map[];
        if a.slot in slots {
          slots := slots[a.slot := slots[a.slot].(newValue := a.newValue)];
        } else {
          slots := slots[a.slot := SlotDiff(a.previousValue, a.newValue)];
        }
        diffs := diffs[a.account := slots];
      }
    }
  }

  /** `r'` is `r` with every flag set and all other fields as they were. */
  predicate AllMarked(r: AccountAccess, r': AccountAccess) {
    && r'.reverted
    && (r'.kind, r'.accessor, r'.account, r'.depth) == (r.kind, r.accessor, r.account, r.depth)
    && |r'.storageAccesses| == |r.storageAccesses|
    && forall j :: 0 <= j < |r.storageAccesses| ==>
         var a, a' := r.storageAccesses[j], r'.storageAccesses[j];
         && a'.reverted
         && (a'.account, a'.slot, a'.isWrite, a'.previousValue, a'.newValue)
            == (a.account, a.slot, a.isWrite, a.previousValue, a.newValue)
  }

  lemma ViewRecordsStep(before: seq<Entry>, records: Records, j: nat)
    requires j < |records|
    ensures before + ViewRecords(records[..j + 1]) == before + ViewRecords(records[..j]) + ViewRecord(records[j])
  {
    assert records[..j + 1][..j] == records[..j];
  }

  lemma ViewRecordsSnoc(l: Records, r: AccountAccess)
    ensures ViewRecords(l + [r]) == ViewRecords(l) + ViewRecord(r)
  {
    assert (l + [r])[..|l|] == l;
  }

  lemma {:induction false} ViewRecordsConcat(a: Records, b: Records)
    ensures ViewRecords(a + b) == ViewRecords(a) + ViewRecords(b)
  {
    if b == [] {
      assert a + b == a;
    } else {
      var b', last := b[..|b| - 1], b[|b| - 1];
      ViewRecordsConcat(a, b');
      assert b == b' + [last];
      ViewRecordsConcatSnoc(a, b', last);
    }
  }

  lemma ViewRecordsConcatSnoc(a: Records, b: Records, last: AccountAccess)
    requires ViewRecords(a + b) == ViewRecords(a) + ViewRecords(b)
    ensures ViewRecords(a + (b + [last])) == ViewRecords(a) + ViewRecords(b + [last])
  {
    Associative(a, b, [last]);
    ViewRecordsSnoc(a + b, last);
    ViewRecordsSnoc(b, last);
    Associative(ViewRecords(a), ViewRecords(b), ViewRecord(last));
  }

  lemma ExtendPrefix<T>(before: seq<T>, s: seq<T>, k: nat)
    requires k < |s|
    ensures before + s[..k + 1] == before + s[..k] + [s[k]]
  {
  }

  lemma Associative<T>(a: seq<T>, b: seq<T>, c: seq<T>)
    ensures a + (b + c) == a + b + c
  {
  }
}
