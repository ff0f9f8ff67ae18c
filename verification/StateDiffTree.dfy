/**
  The same end-to-end statement against a recursive call tree: a frame runs its body and, if it
  reverts, storage is what it was when the frame was entered. The tree says, slot by slot, what is
  reported and exactly when that is right.
 */
module StateDiffTree {
  import opened Options
  import opened StateDiffModel
  import opened StateDiffHooks
  import opened StateDiffStack
  import opened StateDiffTrace
  import opened StateDiffEffect

  datatype Code =
    | Done
    | Load(account: Address, slot: Word, rest: Code)
    | Store(account: Address, slot: Word, value: Word, rest: Code)
    | Look(query: Query, accessor: Address, account: Address, rest: Code)
    | Invoke(scheme: Scheme, accessor: Address, account: Address, body: Code, reverts: bool, rest: Code)

  /** Storage after running the code, with rollback. */
  function Exec(c: Code, s: Storage): Storage {
    match c
    case Done => s
    case Load(_, _, rest) => Exec(rest, s)
    case Store(account, slot, value, rest) => Exec(rest, s[(account, slot) := value])
    case Look(_, _, _, rest) => Exec(rest, s)
    case Invoke(_, _, _, body, reverts, rest) => Exec(rest, if reverts then s else Exec(body, s))
  }

  function Or(a: Option<Word>, v: Word): Word {
    if a.Some? then a.value else v
  }

  /** The last write to the slot that is not inside a reverting frame. */
  function LastStore(c: Code, k: Key): Option<Word> {
    match c
    case Done => None
    case Load(_, _, rest) => LastStore(rest, k)
    case Store(account, slot, value, rest) =>
      if LastStore(rest, k).Some? then LastStore(rest, k) else if (account, slot) == k then Some(value) else None
    case Look(_, _, _, rest) => LastStore(rest, k)
    case Invoke(_, _, _, body, reverts, rest) =>
      if LastStore(rest, k).Some? then LastStore(rest, k) else if reverts then None else LastStore(body, k)
  }

  /** What should be reported of a slot: its value before and after, if some write to it survives. */
  function Effect(c: Code, s: Storage, k: Key): Option<SlotDiff> {
    if LastStore(c, k).Some? then Some(SlotDiff(Read(s, k), Read(Exec(c, s), k))) else None
  }

  /** The same, leaving out the writes of the top frame itself. */
  function LastEntered(c: Code, k: Key): Option<Word> {
    match c
    case Done => None
    case Load(_, _, rest) => LastEntered(rest, k)
    case Store(_, _, _, rest) => LastEntered(rest, k)
    case Look(_, _, _, rest) => LastEntered(rest, k)
    case Invoke(_, _, _, body, reverts, rest) =>
      if LastEntered(rest, k).Some? then LastEntered(rest, k) else if reverts then None else LastStore(body, k)
  }

  /** The last write of the top frame that no surviving entered write follows. */
  function Late(c: Code, k: Key): Option<Word> {
    match c
    case Done => None
    case Load(_, _, rest) => Late(rest, k)
    case Store(account, slot, value, rest) =>
      if Late(rest, k).Some? then Late(rest, k)
      else if (account, slot) == k && LastEntered(rest, k).None? then Some(value) else None
    case Look(_, _, _, rest) => Late(rest, k)
    case Invoke(_, _, _, _, _, rest) => Late(rest, k)
  }

  /** The last write of the top frame before the first surviving entered write. */
  function Early(c: Code, k: Key): Option<Word> {
    match c
    case Done => None
    case Load(_, _, rest) => Early(rest, k)
    case Store(account, slot, value, rest) =>
      if Early(rest, k).Some? then Early(rest, k)
      else if (account, slot) == k && LastEntered(rest, k).Some? then Some(value) else None
    case Look(_, _, _, rest) => Early(rest, k)
    case Invoke(_, _, _, body, reverts, rest) =>
      if !reverts && LastStore(body, k).Some? then None else Early(rest, k)
  }

  /** The top frame does not itself write the slot. */
  predicate Quiet(c: Code, k: Key) {
    match c
    case Done => true
    case Load(_, _, rest) => Quiet(rest, k)
    case Store(account, slot, _, rest) => (account, slot) != k && Quiet(rest, k)
    case Look(_, _, _, rest) => Quiet(rest, k)
    case Invoke(_, _, _, _, _, rest) => Quiet(rest, k)
  }

  /** The events the inspector sees. */
  function Events(c: Code): seq<Event> {
    match c
    case Done => []
    case Load(account, slot, rest) => [Sload(account, slot)] + Events(rest)
    case Store(account, slot, value, rest) => [Sstore(account, slot, value)] + Events(rest)
    case Look(query, accessor, account, rest) => [Ext(query, accessor, account)] + Events(rest)
    case Invoke(scheme, accessor, account, body, reverts, rest) =>
      [Enter(scheme, accessor, account)] + Events(body) + ([Exit(reverts)] + Events(rest))
  }

  // ---------------------------------------------------------------- runs compose

  /** The EVM, the flat log and the recorder after all the events. */
  function EvmAfter(evm: Evm, evs: seq<Event>): Evm {
    EvmRun(evm, evs, |evs|)
  }

  function FlatAfter(evm: Evm, f: Flat, evs: seq<Event>): Flat {
    FlatRun(evm, f, evs, |evs|)
  }

  function After(s: State, evs: seq<Event>): State {
    Run(s, evs, |evs|)
  }

  lemma {:induction false} RunPrefix(evm: Evm, f: Flat, a: seq<Event>, b: seq<Event>, n: nat)
    requires n <= |a|
    ensures EvmRun(evm, a + b, n) == EvmRun(evm, a, n) && FlatRun(evm, f, a + b, n) == FlatRun(evm, f, a, n)
  {
    if n > 0 {
      RunPrefix(evm, f, a, b, n - 1);
    }
  }

  lemma {:induction false} RunConcat(evm: Evm, f: Flat, a: seq<Event>, b: seq<Event>, n: nat)
    requires n <= |b|
    ensures var evm', f' := EvmAfter(evm, a), FlatAfter(evm, f, a);
      EvmRun(evm, a + b, |a| + n) == EvmRun(evm', b, n) && FlatRun(evm, f, a + b, |a| + n) == FlatRun(evm', f', b, n)
  {
    if n == 0 {
      RunPrefix(evm, f, a, b, |a|);
    } else {
      RunConcat(evm, f, a, b, n - 1);
      NextAgrees(evm, f, a + b, |a| + n - 1, EvmAfter(evm, a), FlatAfter(evm, f, a), b, n - 1);
    }
  }

  /** Two runs that are in the same state and see the same event next. */
  lemma NextAgrees(evm: Evm, f: Flat, evs: seq<Event>, n: nat, evm': Evm, f': Flat, evs': seq<Event>, n': nat)
    requires n < |evs| && n' < |evs'| && evs[n] == evs'[n']
    requires EvmRun(evm, evs, n) == EvmRun(evm', evs', n') && FlatRun(evm, f, evs, n) == FlatRun(evm', f', evs', n')
    ensures EvmRun(evm, evs, n + 1) == EvmRun(evm', evs', n' + 1)
    ensures FlatRun(evm, f, evs, n + 1) == FlatRun(evm', f', evs', n' + 1)
  {
  }

  lemma AfterConcat(evm: Evm, f: Flat, a: seq<Event>, b: seq<Event>)
    ensures EvmAfter(evm, a + b) == EvmAfter(EvmAfter(evm, a), b)
    ensures FlatAfter(evm, f, a + b) == FlatAfter(EvmAfter(evm, a), FlatAfter(evm, f, a), b)
  {
    RunConcat(evm, f, a, b, |b|);
  }

  lemma AfterOne(evm: Evm, f: Flat, e: Event)
    ensures EvmAfter(evm, [e]) == EvmStep(evm, e) && FlatAfter(evm, f, [e]) == FlatStep(f, evm, e)
  {
    assert EvmRun(evm, [e], 0) == evm;
    assert FlatRun(evm, f, [e], 0) == f;
  }

  lemma AfterCons(evm: Evm, f: Flat, e: Event, evs: seq<Event>)
    ensures EvmAfter(evm, [e] + evs) == EvmAfter(EvmStep(evm, e), evs)
    ensures FlatAfter(evm, f, [e] + evs) == FlatAfter(EvmStep(evm, e), FlatStep(f, evm, e), evs)
  {
    AfterConcat(evm, f, [e], evs);
    AfterOne(evm, f, e);
  }

  // ---------------------------------------------------------------- code adds a stretch of log

  /** Two diffs of a slot, one after the other. */
  function Join(a: Option<SlotDiff>, b: Option<SlotDiff>): Option<SlotDiff> {
    if a.None? then b else if b.None? then a else Some(SlotDiff(a.value.previousValue, b.value.newValue))
  }

  /** The diff of the writes made by the code itself, if they are seen, and by the frames it enters. */
  function Diff(c: Code, s: Storage, k: Key, seen: bool): Option<SlotDiff> {
    match c
    case Done => None
    case Load(_, _, rest) => Diff(rest, s, k, seen)
    case Store(account, slot, value, rest) =>
      Join(if seen && (account, slot) == k then Some(SlotDiff(Read(s, k), value)) else None,
           Diff(rest, s[(account, slot) := value], k, seen))
    case Look(_, _, _, rest) => Diff(rest, s, k, seen)
    case Invoke(_, _, _, body, reverts, rest) =>
      Join(if reverts then None else Diff(body, s, k, true),
           Diff(rest, if reverts then s else Exec(body, s), k, seen))
  }

  function Summary(w: seq<StorageAccess>): Option<SlotDiff> {
    if w == [] then None else Some(SlotDiff(w[0].previousValue, w[|w| - 1].newValue))
  }

  /** `log'` is `log` plus entries whose surviving writes to the slot amount to the diff. */
  ghost predicate Adds(log: seq<Entry>, log': seq<Entry>, k: Key, d: Option<SlotDiff>) {
    |log| <= |log'| && log'[..|log|] == log && Summary(Writes(log'[|log|..], k)) == d
  }

  lemma AddsNothing(log: seq<Entry>, k: Key)
    ensures Adds(log, log, k, None)
  {
    assert Writes(log[|log|..], k) == [];
  }

  lemma AddsOne(log: seq<Entry>, e: Entry, k: Key)
    ensures Adds(log, log + [e], k,
                 if WritesTo(e, k) then Some(SlotDiff(e.access.previousValue, e.access.newValue)) else None)
  {
    assert (log + [e])[|log|..] == [e];
    WritesSnoc([], e, k);
    assert [] + [e] == [e];
  }

  lemma AddsTrans(l0: seq<Entry>, l1: seq<Entry>, l2: seq<Entry>, k: Key, a: Option<SlotDiff>, b: Option<SlotDiff>)
    requires Adds(l0, l1, k, a) && Adds(l1, l2, k, b)
    ensures Adds(l0, l2, k, Join(a, b))
  {
    assert l2[..|l0|] == l2[..|l1|][..|l0|];
    assert l2[|l0|..] == l1[|l0|..] + l2[|l1|..];
    WritesConcat(l1[|l0|..], l2[|l1|..], k);
  }

  /** A reverting frame marks everything it added, its own header included. */
  lemma AddsReverted(l0: seq<Entry>, l1: seq<Entry>, k: Key)
    requires |l0| <= |l1| && l1[..|l0|] == l0
    ensures Adds(l0, MarkFrom(l1, |l0|), k, None)
  {
    var added := l1[|l0|..];
    assert l1 == l0 + added;
    MarkSuffix(l0, added);
    assert (l0 + MarkFrom(added, 0))[|l0|..] == MarkFrom(added, 0);
    WritesMarked(added, k);
  }

  ghost predicate Runs(evm: Evm, f: Flat, c: Code, k: Key) {
    var evm', f' := EvmAfter(evm, Events(c)), FlatAfter(evm, f, Events(c));
    && evm' == Evm(Exec(c, evm.storage), evm.checkpoints)
    && f'.cuts == f.cuts
    && Adds(f.log, f'.log, k, Diff(c, evm.storage, k, f.cuts != []))
  }

  /** The diff of a single opcode. */
  function OpcodeDiff(s: Storage, e: Event, k: Key, seen: bool): Option<SlotDiff> {
    if seen && WritesSlot(e, k) then Some(SlotDiff(Read(s, k), e.value)) else None
  }

  lemma AddsOpcode(f: Flat, evm: Evm, e: Event, k: Key)
    requires !e.Enter? && !e.Exit?
    ensures Adds(f.log, FlatStep(f, evm, e).log, k, OpcodeDiff(evm.storage, e, k, f.cuts != []))
    ensures FlatStep(f, evm, e).cuts == f.cuts
  {
    var f1 := FlatStep(f, evm, e);
    if |f1.log| > |f.log| {
      AddsOne(f.log, f1.log[|f.log|], k);
    } else {
      AddsNothing(f.log, k);
    }
  }

  /** One opcode before the rest of the code. */
  lemma RunsOpcode(evm: Evm, f: Flat, e: Event, c: Code, rest: Code, k: Key)
    requires !e.Enter? && !e.Exit? && Events(c) == [e] + Events(rest)
    requires var next := EvmStep(evm, e).storage;
      && Exec(c, evm.storage) == Exec(rest, next)
      && Diff(c, evm.storage, k, f.cuts != []) ==
           Join(OpcodeDiff(evm.storage, e, k, f.cuts != []), Diff(rest, next, k, f.cuts != []))
    requires Runs(EvmStep(evm, e), FlatStep(f, evm, e), rest, k)
    ensures Runs(evm, f, c, k)
  {
    var f1, evm1, seen := FlatStep(f, evm, e), EvmStep(evm, e), f.cuts != [];
    AfterCons(evm, f, e, Events(rest));
    AddsOpcode(f, evm, e, k);
    AddsTrans(f.log, f1.log, FlatAfter(evm, f, Events(c)).log, k,
              OpcodeDiff(evm.storage, e, k, seen), Diff(rest, evm1.storage, k, seen));
  }

  /** A frame: entering it, its body, and its end. */
  lemma RunsFrame(evm: Evm, f: Flat, e: Event, body: Code, reverts: bool, k: Key)
    requires e.Enter? && evm.Depth() > 0
    requires Runs(EvmStep(evm, e), FlatStep(f, evm, e), body, k)
    ensures var evs := [e] + Events(body) + [Exit(reverts)];
      var evm', f' := EvmAfter(evm, evs), FlatAfter(evm, f, evs);
      && evm' == Evm(if reverts then evm.storage else Exec(body, evm.storage), evm.checkpoints)
      && f'.cuts == f.cuts
      && Adds(f.log, f'.log, k, if reverts then None else Diff(body, evm.storage, k, true))
  {
    var evm1, f1 := EvmStep(evm, e), FlatStep(f, evm, e);
    var evm2, f2 := EvmAfter(evm1, Events(body)), FlatAfter(evm1, f1, Events(body));
    AfterCons(evm, f, e, Events(body));
    AfterConcat(evm, f, [e] + Events(body), [Exit(reverts)]);
    AfterOne(evm2, f2, Exit(reverts));
    AddsOne(f.log, f1.log[|f.log|], k);
    AddsTrans(f.log, f1.log, f2.log, k, None, Diff(body, evm.storage, k, true));
    if reverts {
      AddsReverted(f.log, f2.log, k);
    }
  }

  /** Every code, in a frame entered since recording began or not, runs like this. */
  lemma {:induction false} CodeRuns(evm: Evm, f: Flat, c: Code, k: Key)
    requires evm.Depth() > 0
    ensures Runs(evm, f, c, k)
    decreases c
  {
    match c {
      case Done =>
        AddsNothing(f.log, k);
      case Load(account, slot, rest) =>
        var e := Sload(account, slot);
        CodeRuns(EvmStep(evm, e), FlatStep(f, evm, e), rest, k);
        RunsOpcode(evm, f, e, c, rest, k);
      case Store(account, slot, value, rest) =>
        var e := Sstore(account, slot, value);
        CodeRuns(EvmStep(evm, e), FlatStep(f, evm, e), rest, k);
        RunsOpcode(evm, f, e, c, rest, k);
      case Look(query, accessor, account, rest) =>
        var e := Ext(query, accessor, account);
        CodeRuns(EvmStep(evm, e), FlatStep(f, evm, e), rest, k);
        RunsOpcode(evm, f, e, c, rest, k);
      case Invoke(_, _, _, _, _, _) =>
        CodeRunsFrame(evm, f, c, k);
    }
  }

  lemma {:induction false} CodeRunsFrame(evm: Evm, f: Flat, c: Code, k: Key)
    requires c.Invoke? && evm.Depth() > 0
    ensures Runs(evm, f, c, k)
    decreases c, 0
  {
    var e := Enter(c.scheme, c.accessor, c.account);
    var frame := [e] + Events(c.body) + [Exit(c.reverts)];
    assert Events(c) == frame + Events(c.rest);
    CodeRuns(EvmStep(evm, e), FlatStep(f, evm, e), c.body, k);
    RunsFrame(evm, f, e, c.body, c.reverts, k);
    var evm1, f1 := EvmAfter(evm, frame), FlatAfter(evm, f, frame);
    CodeRuns(evm1, f1, c.rest, k);
    AfterConcat(evm, f, frame, Events(c.rest));
    RunsThen(evm, f, evm1, f1, c, k);
  }

  /** A frame followed by the rest of the code. */
  lemma RunsThen(evm: Evm, f: Flat, evm1: Evm, f1: Flat, c: Code, k: Key)
    requires c.Invoke?
    requires evm1 == Evm(if c.reverts then evm.storage else Exec(c.body, evm.storage), evm.checkpoints)
    requires f1.cuts == f.cuts
    requires Adds(f.log, f1.log, k, if c.reverts then None else Diff(c.body, evm.storage, k, true))
    requires Runs(evm1, f1, c.rest, k)
    requires EvmAfter(evm, Events(c)) == EvmAfter(evm1, Events(c.rest))
    requires FlatAfter(evm, f, Events(c)) == FlatAfter(evm1, f1, Events(c.rest))
    ensures Runs(evm, f, c, k)
  {
    AddsTrans(f.log, f1.log, FlatAfter(evm, f, Events(c)).log, k,
              if c.reverts then None else Diff(c.body, evm.storage, k, true),
              Diff(c.rest, evm1.storage, k, f.cuts != []));
  }

  // ---------------------------------------------------------------- the diff, from the tree alone

  lemma {:induction false} ExecRead(c: Code, s: Storage, k: Key)
    ensures Read(Exec(c, s), k) == Or(LastStore(c, k), Read(s, k))
  {
    match c {
      case Done =>
      case Load(_, _, rest) => ExecRead(rest, s, k);
      case Store(account, slot, value, rest) => ExecRead(rest, s[(account, slot) := value], k);
      case Look(_, _, _, rest) => ExecRead(rest, s, k);
      case Invoke(_, _, _, body, reverts, rest) =>
        ExecRead(body, s, k);
        ExecRead(rest, if reverts then s else Exec(body, s), k);
    }
  }

  /** When the code's own writes are seen, the diff is its effect. */
  lemma {:induction false} SeenDiff(c: Code, s: Storage, k: Key)
    ensures Diff(c, s, k, true) == Effect(c, s, k)
  {
    ExecRead(c, s, k);
    match c {
      case Done =>
      case Load(_, _, rest) => SeenDiff(rest, s, k);
      case Store(account, slot, value, rest) => SeenDiff(rest, s[(account, slot) := value], k);
      case Look(_, _, _, rest) => SeenDiff(rest, s, k);
      case Invoke(_, _, _, body, reverts, rest) =>
        SeenDiff(body, s, k);
        ExecRead(body, s, k);
        SeenDiff(rest, if reverts then s else Exec(body, s), k);
    }
  }

  /** What is reported of a slot when the top frame's own writes are not seen. */
  function TopReport(c: Code, s: Storage, k: Key): Option<SlotDiff> {
    if LastEntered(c, k).None? then None
    else Some(SlotDiff(Or(Early(c, k), Read(s, k)), LastEntered(c, k).value))
  }

  lemma {:induction false} UnseenDiff(c: Code, s: Storage, k: Key)
    ensures Diff(c, s, k, false) == TopReport(c, s, k)
  {
    match c {
      case Done =>
      case Load(_, _, rest) => UnseenDiff(rest, s, k);
      case Store(account, slot, value, rest) => UnseenDiff(rest, s[(account, slot) := value], k);
      case Look(_, _, _, rest) => UnseenDiff(rest, s, k);
      case Invoke(_, _, _, body, reverts, rest) =>
        SeenDiff(body, s, k);
        ExecRead(body, s, k);
        UnseenDiff(rest, if reverts then s else Exec(body, s), k);
    }
  }

  /** The last write is a late one of the top frame, or else an entered one. */
  lemma {:induction false} LateOrEntered(c: Code, k: Key)
    ensures LastStore(c, k) == if Late(c, k).Some? then Late(c, k) else LastEntered(c, k)
  {
    match c {
      case Done =>
      case Load(_, _, rest) => LateOrEntered(rest, k);
      case Store(_, _, _, rest) => LateOrEntered(rest, k);
      case Look(_, _, _, rest) => LateOrEntered(rest, k);
      case Invoke(_, _, _, _, _, rest) => LateOrEntered(rest, k);
    }
  }

  lemma {:induction false} QuietTop(c: Code, k: Key)
    requires Quiet(c, k)
    ensures Late(c, k) == None && Early(c, k) == None
  {
    if !c.Done? {
      QuietTop(c.rest, k);
    }
  }

  // ---------------------------------------------------------------- a call tree is a trace

  /** The depth after the events. */
  function End(evs: seq<Event>, d: int): int {
    if evs == [] then d else End(evs[..|evs| - 1], d) + Delta(evs[|evs| - 1])
  }

  /** Every event is legal at the depth it runs at. */
  predicate AllLegal(evs: seq<Event>, d: int) {
    evs == [] || (AllLegal(evs[..|evs| - 1], d) && Legal(evs[|evs| - 1], End(evs[..|evs| - 1], d)))
  }

  lemma LegalSnoc(evs: seq<Event>, e: Event, d: int)
    ensures End(evs + [e], d) == End(evs, d) + Delta(e)
    ensures AllLegal(evs + [e], d) <==> AllLegal(evs, d) && Legal(e, End(evs, d))
  {
    assert (evs + [e])[..|evs|] == evs;
  }

  lemma LegalOne(e: Event, d: int)
    ensures End([e], d) == d + Delta(e) && (AllLegal([e], d) <==> Legal(e, d))
  {
    LegalSnoc([], e, d);
    assert [] + [e] == [e];
  }

  lemma {:induction false} LegalConcat(a: seq<Event>, b: seq<Event>, d: int)
    ensures End(a + b, d) == End(b, End(a, d))
    ensures AllLegal(a + b, d) <==> AllLegal(a, d) && AllLegal(b, End(a, d))
  {
    if b == [] {
      assert a + b == a;
    } else {
      var b', last := b[..|b| - 1], b[|b| - 1];
      LegalConcat(a, b', d);
      assert a + b == a + b' + [last];
      LegalSnoc(a + b', last, d);
    }
  }

  lemma {:induction false} LegalTrace(evs: seq<Event>, d: nat)
    requires AllLegal(evs, d)
    ensures Trace(Depths(d, evs), evs, d) && Depths(d, evs)[|evs|] == End(evs, d)
  {
    if evs != [] {
      var front := evs[..|evs| - 1];
      LegalTrace(front, d);
      var ds, ds' := Depths(d, front), Depths(d, evs);
      forall i | 0 <= i < |evs| ensures Legal(evs[i], ds'[i]) {
        assert ds'[i] == ds[i] && (i < |front| ==> evs[i] == front[i]);
      }
    }
  }

  /** Code run inside a frame keeps within it, and ends at its depth. */
  lemma {:induction false} CodeLegal(c: Code, d: int)
    requires d > 0
    ensures AllLegal(Events(c), d) && End(Events(c), d) == d
  {
    if c.Invoke? {
      var e, x := Enter(c.scheme, c.accessor, c.account), Exit(c.reverts);
      CodeLegal(c.body, d + 1);
      CodeLegal(c.rest, d);
      LegalOne(e, d);
      LegalConcat([e], Events(c.body), d);
      LegalOne(x, d + 1);
      LegalConcat([x], Events(c.rest), d + 1);
      LegalConcat([e] + Events(c.body), [x] + Events(c.rest), d);
    } else if !c.Done? {
      var e := Events(c)[0];
      assert Events(c) == [e] + Events(c.rest);
      CodeLegal(c.rest, d);
      LegalOne(e, d);
      LegalConcat([e], Events(c.rest), d);
    }
  }

  /** The stack holds the log of the code. */
  lemma CodeView(evm: Evm, c: Code)
    requires evm.Depth() > 0
    ensures View(After(Started(evm), Events(c)).stack) == FlatAfter(evm, NoEntries, Events(c)).log
  {
    CodeLegal(c, evm.Depth());
    LegalTrace(Events(c), evm.Depth());
    ViewIsLog(evm, Depths(evm.Depth(), Events(c)), Events(c), |Events(c)|);
  }

  /**
    For every tree of calls run under recording and every slot: what is reported, and that it is right
    exactly under conditions on the tree. Applied to the old storage it gives the new one exactly if
    the top frame has no late write to the slot, or one that leaves the value reported (or else there
    at the start). A reported previous value is the value at the start exactly if the top frame has no
    early write to the slot, or one that leaves that value.
   */
  lemma TreeReport(evm: Evm, c: Code, k: Key)
    requires evm.Depth() > 0
    ensures var s, v := After(Started(evm), Events(c)), Read(evm.storage, k);
      && s.evm == Evm(Exec(c, evm.storage), evm.checkpoints)
      && Lookup(Report(s), k) == TopReport(c, evm.storage, k)
      && (Patched(evm.storage, Report(s), k) == Read(Exec(c, evm.storage), k) <==>
            Late(c, k).None? || Late(c, k).value == Or(LastEntered(c, k), v))
      && (Lookup(Report(s), k).Some? ==>
            (Lookup(Report(s), k).value.previousValue == v <==> Early(c, k).None? || Early(c, k).value == v))
  {
    CodeRuns(evm, NoEntries, c, k);
    EvmOfRun(Started(evm), Events(c), |Events(c)|);
    CodeView(evm, c);
    AddsReport(FlatAfter(evm, NoEntries, Events(c)).log, k, Diff(c, evm.storage, k, false));
    UnseenDiff(c, evm.storage, k);
    ExecRead(c, evm.storage, k);
    LateOrEntered(c, k);
  }

  /**
    In particular, for every slot that the top frame does not write itself: it is reported exactly
    when a write to it survives, with its value before the run and its value after rollback.
   */
  lemma ReportMatchesTree(evm: Evm, c: Code, k: Key)
    requires evm.Depth() > 0 && Quiet(c, k)
    ensures var s := After(Started(evm), Events(c));
      && s.evm == Evm(Exec(c, evm.storage), evm.checkpoints)
      && Lookup(Report(s), k) == Effect(c, evm.storage, k)
      && Patched(evm.storage, Report(s), k) == Read(Exec(c, evm.storage), k)
  {
    TreeReport(evm, c, k);
    QuietTop(c, k);
    LateOrEntered(c, k);
    ExecRead(c, evm.storage, k);
  }

  /** The whole feature on the object: start recording, run a call tree under the hooks, ask for the
      diffs. The answer is known for every slot, and it is the effect of the tree on every slot that
      the top frame does not write itself. */
  method RecordAndReport(cheats: Cheatcodes, evm0: Evm, c: Code) returns (evm: Evm, diffs: StateDiffs)
    requires evm0.Depth() > 0
    modifies cheats
    ensures evm == Evm(Exec(c, evm0.storage), evm0.checkpoints)
    ensures forall k :: Lookup(diffs, k) == TopReport(c, evm0.storage, k)
    ensures forall k :: Quiet(c, k) ==> Lookup(diffs, k) == Effect(c, evm0.storage, k)
  {
    cheats.StartStateDiffRecording();
    evm := cheats.Drive(evm0, Events(c));
    diffs := cheats.GetRecordedStateDiffs();
    TreeReport(evm0, c, (0, 0));
    forall k ensures Lookup(diffs, k) == TopReport(c, evm0.storage, k) {
      TreeReport(evm0, c, k);
    }
    forall k | Quiet(c, k) ensures Lookup(diffs, k) == Effect(c, evm0.storage, k) {
      ReportMatchesTree(evm0, c, k);
    }
  }

  // ---------------------------------------------------------------- where the report goes wrong

  /** A write by the frame that started the recording itself is not reported. */
  lemma UnenteredWriteIsMissed(evm: Evm, k: Key, v: Word)
    requires evm.Depth() > 0 && v != Read(evm.storage, k)
    ensures var c := Store(k.0, k.1, v, Done);
      var s := After(Started(evm), Events(c));
      Patched(evm.storage, Report(s), k) == Read(evm.storage, k) && Read(s.evm.storage, k) == v
  {
    TreeReport(evm, Store(k.0, k.1, v, Done), k);
  }

  /** Such a write before a reported one is taken for the value before recording. */
  lemma UnenteredWriteIsPrevious(evm: Evm, k: Key, v: Word, w: Word)
    requires evm.Depth() > 0 && v != Read(evm.storage, k)
    ensures var c := Store(k.0, k.1, v, Invoke(Call, k.0, k.0, Store(k.0, k.1, w, Done), false, Done));
      Lookup(Report(After(Started(evm), Events(c))), k) == Some(SlotDiff(v, w))
  {
    var inner := Store(k.0, k.1, w, Done);
    var call := Invoke(Call, k.0, k.0, inner, false, Done);
    assert LastStore(Done, k) == None && LastStore(inner, k) == Some(w);
    assert LastEntered(Done, k) == None && LastEntered(call, k) == Some(w);
    assert Early(call, k) == None;
    TreeReport(evm, Store(k.0, k.1, v, call), k);
  }

  /** What a root call's body leaves behind. */
  lemma RootAdds(evm: Evm, e: Event, body: Code, k: Key)
    requires evm.Depth() == 0 && e.Enter?
    ensures EvmAfter(evm, [e] + Events(body)) == Evm(Exec(body, evm.storage), [evm.storage])
    ensures Adds([], FlatAfter(evm, NoEntries, [e] + Events(body)).log, k, Diff(body, evm.storage, k, true))
  {
    var evm1, f1 := EvmStep(evm, e), FlatStep(NoEntries, evm, e);
    var h := Header(Entered(e.scheme), e.accessor, e.account, 0, false);
    assert evm1 == Evm(evm.storage, [evm.storage]);
    assert f1 == Flat([] + [h], [0]);
    AddsOne([], h, k);
    CodeRuns(evm1, f1, body, k);
    AfterCons(evm, NoEntries, e, Events(body));
    AddsTrans([], f1.log, FlatAfter(evm1, f1, Events(body)).log, k, None, Diff(body, evm.storage, k, true));
  }

  lemma RootView(evm: Evm, e: Event, body: Code)
    requires evm.Depth() == 0 && e.Enter?
    ensures View(After(Started(evm), [e] + Events(body)).stack) == FlatAfter(evm, NoEntries, [e] + Events(body)).log
  {
    var evs := [e] + Events(body);
    CodeLegal(body, 1);
    LegalOne(e, 0);
    LegalConcat([e], Events(body), 0);
    LegalTrace(evs, 0);
    ViewIsLog(evm, Depths(0, evs), evs, |evs|);
  }

  /** One more event, on the recorder. */
  lemma {:induction false} RunSame(s: State, evs: seq<Event>, e: Event, n: nat)
    requires n <= |evs|
    ensures Run(s, evs + [e], n) == Run(s, evs, n)
  {
    if n > 0 {
      RunSame(s, evs, e, n - 1);
    }
  }

  lemma RootEnd(evm: Evm, evs: seq<Event>, reverts: bool)
    requires EvmAfter(evm, evs).Depth() == 1
    ensures var s, evm1 := After(Started(evm), evs + [Exit(reverts)]), EvmAfter(evm, evs);
      && s.stack == After(Started(evm), evs).stack
      && s.evm.storage == if reverts then evm1.checkpoints[0] else evm1.storage
  {
    RunSame(Started(evm), evs, Exit(reverts), |evs|);
    EvmOfRun(Started(evm), evs, |evs|);
  }

  /** What a stretch of log that starts from nothing reports. */
  lemma AddsReport(log: seq<Entry>, k: Key, d: Option<SlotDiff>)
    requires Adds([], log, k, d)
    ensures Lookup(Fold(log), k) == d
  {
    assert log[0..] == log;
    FoldMeaning(log, k);
  }

  /**
    A root call made while recording is on: its end hook never marks anything, so the report is that
    of the body whether or not the call reverts, and it agrees with storage exactly when the call
    succeeds or its body leaves the slot's value as it was.
   */
  lemma RootCallReport(evm: Evm, e: Event, body: Code, reverts: bool, k: Key)
    requires evm.Depth() == 0 && e.Enter?
    ensures var s := After(Started(evm), [e] + Events(body) + [Exit(reverts)]);
      var pre, post := Read(evm.storage, k), Read(Exec(body, evm.storage), k);
      && Read(s.evm.storage, k) == (if reverts then pre else post)
      && Lookup(Report(s), k) == Effect(body, evm.storage, k)
      && (Patched(evm.storage, Report(s), k) == Read(s.evm.storage, k) <==> !reverts || pre == post)
  {
    RootAdds(evm, e, body, k);
    RootView(evm, e, body);
    RootEnd(evm, [e] + Events(body), reverts);
    AddsReport(FlatAfter(evm, NoEntries, [e] + Events(body)).log, k, Diff(body, evm.storage, k, true));
    SeenDiff(body, evm.storage, k);
    ExecRead(body, evm.storage, k);
  }

  /** An input for which it does not: a root call that writes a slot and reverts. */
  lemma RootRevertIsMissed()
    ensures var evm, e, body, k := Evm(map[], []), Enter(Call, 0, 1), Store(1, 0, 7, Done), (1, 0);
      var s := After(Started(evm), [e] + Events(body) + [Exit(true)]);
      Patched(evm.storage, Report(s), k) == 7 && Read(s.evm.storage, k) == 0
  {
    var evm, body, k := Evm(map[], []), Store(1, 0, 7, Done), (1, 0);
    RootCallReport(evm, Enter(Call, 0, 1), body, true, k);
    assert LastStore(body, k) == Some(7);
    ExecRead(body, evm.storage, k);
  }
}
