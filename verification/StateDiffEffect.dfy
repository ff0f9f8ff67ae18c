/**
  End to end, for arbitrary event sequences and one slot at a time: what the diffs report and what
  storage holds, each stated on the bare events and their call depths. Comparing the two says exactly
  when the report is right.
 */
module StateDiffEffect {
  import opened Options
  import opened StateDiffModel
  import opened StateDiffHooks
  import opened StateDiffStack
  import opened StateDiffTrace

  // ---------------------------------------------------------------- surviving writes of a log

  lemma WritesSnoc(log: seq<Entry>, e: Entry, k: Key)
    ensures Writes(log + [e], k) == Writes(log, k) + if WritesTo(e, k) then [e.access] else []
  {
    assert (log + [e])[..|log|] == log;
  }

  lemma {:induction false} WritesConcat(a: seq<Entry>, b: seq<Entry>, k: Key)
    ensures Writes(a + b, k) == Writes(a, k) + Writes(b, k)
  {
    if b == [] {
      assert a + b == a;
    } else {
      var b', last := b[..|b| - 1], b[|b| - 1];
      WritesConcat(a, b', k);
      assert b == b' + [last];
      Associative(a, b', [last]);
      WritesSnoc(a + b', last, k);
    }
  }

  lemma {:induction false} WritesMarked(log: seq<Entry>, k: Key)
    ensures Writes(MarkFrom(log, 0), k) == []
  {
    if log != [] {
      WritesMarked(log[..|log| - 1], k);
      assert MarkFrom(log, 0)[..|log| - 1] == MarkFrom(log[..|log| - 1], 0);
    }
  }

  // ---------------------------------------------------------------- first and last

  function LastTrue(flags: seq<bool>): (r: Option<nat>)
    ensures r.Some? ==> r.value < |flags| && flags[r.value] && forall j :: r.value < j < |flags| ==> !flags[j]
    ensures r.None? ==> forall j :: 0 <= j < |flags| ==> !flags[j]
  {
    if flags == [] then None
    else if flags[|flags| - 1] then Some(|flags| - 1)
    else LastTrue(flags[..|flags| - 1])
  }

  function FirstTrue(flags: seq<bool>): (r: Option<nat>)
    ensures r.Some? ==> r.value < |flags| && flags[r.value] && forall j :: 0 <= j < r.value ==> !flags[j]
    ensures r.None? ==> forall j :: 0 <= j < |flags| ==> !flags[j]
  {
    if flags == [] then None
    else if FirstTrue(flags[..|flags| - 1]).Some? then FirstTrue(flags[..|flags| - 1])
    else if flags[|flags| - 1] then Some(|flags| - 1) else None
  }

  /** More flags, none of them set, do not change the last one. */
  lemma LastTrueSame(a: seq<bool>, b: seq<bool>)
    requires |a| <= |b|
    requires forall j :: 0 <= j < |a| ==> a[j] == b[j]
    requires forall j :: |a| <= j < |b| ==> !b[j]
    ensures LastTrue(a) == LastTrue(b)
  {
  }

  /** `h` shows the flags `w` at an increasing list of positions that misses none that is set. */
  ghost predicate Through(h: seq<bool>, w: seq<bool>, ix: seq<nat>) {
    && |h| == |ix|
    && (forall j, l :: 0 <= j < l < |ix| ==> ix[j] < ix[l])
    && (forall j :: 0 <= j < |ix| ==> ix[j] < |w| && h[j] == w[ix[j]])
    && (forall i :: 0 <= i < |w| && w[i] ==> i in ix)
  }

  lemma PositionOf(h: seq<bool>, w: seq<bool>, ix: seq<nat>, i: nat) returns (j: nat)
    requires Through(h, w, ix) && i < |w| && w[i]
    ensures j < |ix| && ix[j] == i && h[j]
  {
    j :| 0 <= j < |ix| && ix[j] == i;
  }

  lemma FirstThrough(h: seq<bool>, w: seq<bool>, ix: seq<nat>)
    requires Through(h, w, ix)
    ensures FirstTrue(w) == match FirstTrue(h) case Some(a) => Some(ix[a]) case None => None
  {
    var f := FirstTrue(w);
    if f.Some? {
      var j := PositionOf(h, w, ix, f.value);
      var a := FirstTrue(h).value;
      assert w[ix[a]];
    }
  }

  lemma LastThrough(h: seq<bool>, w: seq<bool>, ix: seq<nat>)
    requires Through(h, w, ix)
    ensures LastTrue(w) == match LastTrue(h) case Some(b) => Some(ix[b]) case None => None
  {
    var f := LastTrue(w);
    if f.Some? {
      var j := PositionOf(h, w, ix, f.value);
      var b := LastTrue(h).value;
      assert w[ix[b]];
    }
  }

  /** Which entries of a log are surviving writes to the slot. */
  ghost function Hits(log: seq<Entry>, k: Key): (h: seq<bool>)
    ensures |h| == |log|
  {
    seq(|log|, j requires 0 <= j < |log| => WritesTo(log[j], k))
  }

  lemma {:induction false} WritesEnds(log: seq<Entry>, k: Key)
    ensures var h, w := Hits(log, k), Writes(log, k);
      && (w == [] <==> LastTrue(h).None?) && (w == [] <==> FirstTrue(h).None?)
      && (w != [] ==> w[0] == log[FirstTrue(h).value].access && w[|w| - 1] == log[LastTrue(h).value].access)
  {
    if log != [] {
      var front := log[..|log| - 1];
      WritesEnds(front, k);
      assert Hits(log, k)[..|log| - 1] == Hits(front, k);
    }
  }

  lemma FirstTrueSame(a: seq<bool>, b: seq<bool>)
    requires |a| <= |b|
    requires forall j :: 0 <= j < |a| ==> a[j] == b[j]
    requires forall j :: |a| <= j < |b| ==> !b[j]
    ensures FirstTrue(a) == FirstTrue(b)
  {
  }

  // ---------------------------------------------------------------- what happened, on the events

  predicate WritesSlot(e: Event, k: Key) {
    e.Sstore? && (e.account, e.slot) == k
  }

  /** Event `i` writes the slot in a frame entered since recording began, and none of the frames
      around it (the root excepted) has reverted within the first `n` events. */
  ghost predicate SurvivingWrite(ds: seq<int>, evs: seq<Event>, n: nat, k: Key, i: int)
    requires n <= |evs| && |ds| == |evs| + 1
  {
    0 <= i < n && WritesSlot(evs[i], k) && InEnteredFrame(ds, evs, i) && !RolledBack(ds, evs, i, n)
  }

  /** Some frame around event `i`, whichever it is, has reverted within the first `n` events. */
  ghost predicate Undone(ds: seq<int>, evs: seq<Event>, i: nat, n: nat)
    requires n <= |evs| && |ds| == |evs| + 1
  {
    exists j :: i < j < n && evs[j] == Exit(true) && Encloses(ds, i, j)
  }

  /** Event `i` writes the slot, in whatever frame, and the write is in force after `n` events. */
  ghost predicate KeptWrite(ds: seq<int>, evs: seq<Event>, n: nat, k: Key, i: int)
    requires n <= |evs| && |ds| == |evs| + 1
  {
    0 <= i < n && WritesSlot(evs[i], k) && !Undone(ds, evs, i, n)
  }

  /** Event `j` reverts a frame that was already open when recording began. */
  ghost predicate OlderRevert(ds: seq<int>, evs: seq<Event>, j: int)
    requires |ds| == |evs| + 1
  {
    0 <= j < |evs| && evs[j] == Exit(true) && !InEnteredFrame(ds, evs, j)
  }

  ghost function Surviving(ds: seq<int>, evs: seq<Event>, n: nat, k: Key): (r: seq<bool>)
    requires n <= |evs| && |ds| == |evs| + 1
    ensures |r| == n
  {
    seq(n, i requires 0 <= i < n => SurvivingWrite(ds, evs, n, k, i))
  }

  ghost function Kept(ds: seq<int>, evs: seq<Event>, n: nat, k: Key): (r: seq<bool>)
    requires n <= |evs| && |ds| == |evs| + 1
    ensures |r| == n
  {
    seq(n, i requires 0 <= i < n => KeptWrite(ds, evs, n, k, i))
  }

  ghost function OlderReverts(ds: seq<int>, evs: seq<Event>, n: nat): (r: seq<bool>)
    requires n <= |evs| && |ds| == |evs| + 1
    ensures |r| == n
  {
    seq(n, j requires 0 <= j < n => OlderRevert(ds, evs, j))
  }

  /** What the slot holds when no write is in force: its value at the start, or the one that the last
      revert of an older frame went back to. */
  ghost function Base(evm: Evm, ds: seq<int>, evs: seq<Event>, n: nat, k: Key): Word
    requires n <= |evs| && |ds| == |evs| + 1
  {
    match LastTrue(OlderReverts(ds, evs, n))
    case None => Read(evm.storage, k)
    case Some(j) => if 0 < ds[j] <= evm.Depth() then Read(evm.checkpoints[ds[j] - 1], k) else 0
  }

  /** The value of the last write in force, or else the base value. */
  ghost function Held(evm: Evm, ds: seq<int>, evs: seq<Event>, n: nat, k: Key): Word
    requires n <= |evs| && |ds| == |evs| + 1
  {
    match LastTrue(Kept(ds, evs, n, k))
    case None => Base(evm, ds, evs, n, k)
    case Some(i) => evs[i].value
  }

  /** What is reported: what the slot held before its first surviving write, and what the last one
      wrote. */
  ghost function Told(evm: Evm, ds: seq<int>, evs: seq<Event>, n: nat, k: Key): Option<SlotDiff>
    requires n <= |evs| && |ds| == |evs| + 1
  {
    match (FirstTrue(Surviving(ds, evs, n, k)), LastTrue(Surviving(ds, evs, n, k)))
    case (Some(a), Some(b)) => Some(SlotDiff(Held(evm, ds, evs, a, k), evs[b].value))
    case _ => None
  }

  // ---------------------------------------------------------------- storage holds the last write in force

  /** Event `e` entered the frame in which event `n` runs. */
  ghost predicate Enters(ds: seq<int>, evs: seq<Event>, e: nat, n: nat)
    requires n <= |evs| && |ds| == |evs| + 1
  {
    e < n && evs[e].Enter? && ds[e] == ds[n] - 1 && forall m :: e < m <= n ==> ds[m] > ds[e]
  }

  /** The checkpoint of a frame stays the same while the frame is open. */
  lemma {:induction false} CheckpointStays(evm: Evm, evs: seq<Event>, q: nat, a: nat, n: nat)
    requires a <= n <= |evs| && forall m :: a <= m <= n ==> EvmRun(evm, evs, m).Depth() > q
    ensures q < EvmRun(evm, evs, n).Depth() && q < EvmRun(evm, evs, a).Depth()
    ensures EvmRun(evm, evs, n).checkpoints[q] == EvmRun(evm, evs, a).checkpoints[q]
    decreases n
  {
    assert EvmRun(evm, evs, n).Depth() > q && EvmRun(evm, evs, a).Depth() > q;
    if a < n {
      CheckpointStays(evm, evs, q, a, n - 1);
      CheckpointKept(EvmRun(evm, evs, n - 1), evs[n - 1], q);
    }
  }

  lemma CheckpointKept(evm: Evm, e: Event, q: nat)
    requires q < evm.Depth() && q < EvmStep(evm, e).Depth()
    ensures EvmStep(evm, e).checkpoints[q] == evm.checkpoints[q]
  {
  }

  /** A revert goes back to the checkpoint the frame has had since event `a`. */
  lemma RevertGoesBack(evm: Evm, evs: seq<Event>, a: nat, n: nat)
    requires a <= n < |evs| && evs[n] == Exit(true) && EvmRun(evm, evs, n).Depth() > 0
    requires forall m :: a <= m <= n ==> EvmRun(evm, evs, m).Depth() >= EvmRun(evm, evs, n).Depth()
    ensures var d := EvmRun(evm, evs, n).Depth();
      d <= EvmRun(evm, evs, a).Depth() && EvmRun(evm, evs, n + 1).storage == EvmRun(evm, evs, a).checkpoints[d - 1]
  {
    CheckpointStays(evm, evs, EvmRun(evm, evs, n).Depth() - 1, a, n);
  }

  /** The depths of the run bound those of the EVM. */
  lemma DepthsAbove(evm: Evm, ds: seq<int>, evs: seq<Event>, a: nat, n: nat, d: int)
    requires a <= n <= |evs| && Trace(ds, evs, evm.Depth()) && forall m :: a <= m <= n ==> ds[m] >= d
    ensures forall m :: a <= m <= n ==> EvmRun(evm, evs, m).Depth() >= d
  {
    forall m | a <= m <= n ensures EvmRun(evm, evs, m).Depth() >= d {
      DepthTracks(evm, ds, evs, m);
    }
  }

  lemma LowestHere(ds: seq<int>, evs: seq<Event>, d0: int, n: nat)
    requires n <= |evs| && DepthsOf(ds, evs, d0) && !InEnteredFrame(ds, evs, n)
    ensures forall m :: 0 <= m <= n ==> ds[m] >= ds[n]
  {
    EnteredAbove(ds, evs, d0, n);
    LowestBetween(ds, 0, n);
    LowestBound(ds, 0, n, ds[n]);
  }

  /** Reverting an entered frame puts back the writes in force at its entry, and no others. */
  lemma UndoneAfterRevert(ds: seq<int>, evs: seq<Event>, d0: int, e: nat, n: nat, i: nat)
    requires n < |evs| && DepthsOf(ds, evs, d0) && evs[n] == Exit(true) && Enters(ds, evs, e, n)
    ensures i < e ==> (Undone(ds, evs, i, n + 1) <==> Undone(ds, evs, i, e))
    ensures e <= i < n ==> Undone(ds, evs, i, n + 1)
  {
    if e <= i < n {
      assert Encloses(ds, i, n);
    } else if i < e && Undone(ds, evs, i, n + 1) {
      var j :| i < j < n + 1 && evs[j] == Exit(true) && Encloses(ds, i, j);
    }
  }

  lemma KeptAfterRevert(ds: seq<int>, evs: seq<Event>, d0: int, e: nat, n: nat, k: Key)
    requires n < |evs| && DepthsOf(ds, evs, d0) && evs[n] == Exit(true) && Enters(ds, evs, e, n)
    ensures LastTrue(Kept(ds, evs, n + 1, k)) == LastTrue(Kept(ds, evs, e, k))
    ensures LastTrue(OlderReverts(ds, evs, n + 1)) == LastTrue(OlderReverts(ds, evs, e))
  {
    var a, b := Kept(ds, evs, e, k), Kept(ds, evs, n + 1, k);
    forall i | 0 <= i < |b| ensures b[i] == (i < e && a[i]) {
      UndoneAfterRevert(ds, evs, d0, e, n, i);
    }
    LastTrueSame(a, b);
    var c, d := OlderReverts(ds, evs, e), OlderReverts(ds, evs, n + 1);
    forall j | e <= j < |d| ensures !d[j] {
      assert j > e ==> InEnteredFrame(ds, evs, j);
    }
    LastTrueSame(c, d);
  }

  lemma UndoneAfterOther(ds: seq<int>, evs: seq<Event>, i: nat, n: nat)
    requires n < |evs| && |ds| == |evs| + 1 && evs[n] != Exit(true)
    ensures Undone(ds, evs, i, n + 1) <==> Undone(ds, evs, i, n)
  {
  }

  /** An event that is no revert: older writes stay as they are. */
  lemma KeptAfterOther(ds: seq<int>, evs: seq<Event>, n: nat, k: Key)
    requires n < |evs| && |ds| == |evs| + 1 && evs[n] != Exit(true)
    ensures LastTrue(Kept(ds, evs, n + 1, k)) ==
      if WritesSlot(evs[n], k) then Some(n) else LastTrue(Kept(ds, evs, n, k))
    ensures LastTrue(OlderReverts(ds, evs, n + 1)) == LastTrue(OlderReverts(ds, evs, n))
  {
    var a, b := Kept(ds, evs, n, k), Kept(ds, evs, n + 1, k);
    forall i | 0 <= i < n ensures a[i] == b[i] {
      UndoneAfterOther(ds, evs, i, n);
    }
    assert b[n] == WritesSlot(evs[n], k);
    if !b[n] {
      LastTrueSame(a, b);
    }
    LastTrueSame(OlderReverts(ds, evs, n), OlderReverts(ds, evs, n + 1));
  }

  /** Reverting an older frame undoes everything. */
  lemma KeptAfterOlder(ds: seq<int>, evs: seq<Event>, d0: int, n: nat, k: Key)
    requires n < |evs| && DepthsOf(ds, evs, d0) && OlderRevert(ds, evs, n)
    ensures LastTrue(Kept(ds, evs, n + 1, k)) == None
    ensures LastTrue(OlderReverts(ds, evs, n + 1)) == Some(n)
  {
    var b := Kept(ds, evs, n + 1, k);
    forall i | 0 <= i < |b| ensures !b[i] {
      UndoneAfterOlder(ds, evs, d0, n, i);
    }
    assert OlderReverts(ds, evs, n + 1)[n];
  }

  lemma UndoneAfterOlder(ds: seq<int>, evs: seq<Event>, d0: int, n: nat, i: nat)
    requires n < |evs| && DepthsOf(ds, evs, d0) && OlderRevert(ds, evs, n)
    ensures i < n ==> Undone(ds, evs, i, n + 1)
  {
    LowestHere(ds, evs, d0, n);
    assert i < n ==> Encloses(ds, i, n);
  }

  ghost predicate Holds(evm: Evm, ds: seq<int>, evs: seq<Event>, n: nat, k: Key)
    requires n <= |evs| && |ds| == |evs| + 1
  {
    Read(EvmRun(evm, evs, n).storage, k) == Held(evm, ds, evs, n, k)
  }

  lemma {:induction false} HoldsUpTo(evm: Evm, ds: seq<int>, evs: seq<Event>, n: nat, k: Key)
    requires n <= |evs| && Trace(ds, evs, evm.Depth())
    ensures forall m :: 0 <= m <= n ==> Holds(evm, ds, evs, m, k)
  {
    if n == 0 {
      HeldAtStart(evm, ds, evs, k);
    } else {
      HoldsUpTo(evm, ds, evs, n - 1, k);
      HoldsNext(evm, ds, evs, n - 1, k);
    }
  }

  lemma HoldsNext(evm: Evm, ds: seq<int>, evs: seq<Event>, n: nat, k: Key)
    requires n < |evs| && Trace(ds, evs, evm.Depth())
    requires forall m :: 0 <= m <= n ==> Holds(evm, ds, evs, m, k)
    ensures Holds(evm, ds, evs, n + 1, k)
  {
    if evs[n] != Exit(true) {
      HoldsOther(evm, ds, evs, n, k);
    } else if InEnteredFrame(ds, evs, n) {
      var e := EntryBefore(ds, evs, evm.Depth(), n);
      HoldsRevert(evm, ds, evs, e, n, k);
    } else {
      HoldsOlder(evm, ds, evs, n, k);
    }
  }

  /** In every run, after every event, storage holds the last write in force. */
  lemma StorageHolds(evm: Evm, ds: seq<int>, evs: seq<Event>, n: nat, k: Key)
    requires n <= |evs| && Trace(ds, evs, evm.Depth())
    ensures Read(EvmRun(evm, evs, n).storage, k) == Held(evm, ds, evs, n, k)
  {
    HoldsUpTo(evm, ds, evs, n, k);
    assert Holds(evm, ds, evs, n, k);
  }

  lemma HoldsOther(evm: Evm, ds: seq<int>, evs: seq<Event>, n: nat, k: Key)
    requires n < |evs| && |ds| == |evs| + 1 && evs[n] != Exit(true) && Holds(evm, ds, evs, n, k)
    ensures Holds(evm, ds, evs, n + 1, k)
  {
    KeptAfterOther(ds, evs, n, k);
    OtherStep(evm, evs, n, k);
  }

  lemma HoldsRevert(evm: Evm, ds: seq<int>, evs: seq<Event>, e: nat, n: nat, k: Key)
    requires n < |evs| && Trace(ds, evs, evm.Depth()) && evs[n] == Exit(true) && Enters(ds, evs, e, n)
    requires Holds(evm, ds, evs, e, k)
    ensures Holds(evm, ds, evs, n + 1, k)
  {
    HeldAfterRevert(evm, ds, evs, e, n, k);
    RevertRestores(evm, ds, evs, e, n);
  }

  lemma HeldAfterRevert(evm: Evm, ds: seq<int>, evs: seq<Event>, e: nat, n: nat, k: Key)
    requires n < |evs| && DepthsOf(ds, evs, evm.Depth()) && evs[n] == Exit(true) && Enters(ds, evs, e, n)
    ensures Held(evm, ds, evs, n + 1, k) == Held(evm, ds, evs, e, k)
  {
    KeptAfterRevert(ds, evs, evm.Depth(), e, n, k);
  }

  lemma HoldsOlder(evm: Evm, ds: seq<int>, evs: seq<Event>, n: nat, k: Key)
    requires n < |evs| && Trace(ds, evs, evm.Depth()) && OlderRevert(ds, evs, n)
    ensures Holds(evm, ds, evs, n + 1, k)
  {
    KeptAfterOlder(ds, evs, evm.Depth(), n, k);
    OlderRevertRestores(evm, ds, evs, n);
  }

  lemma HeldAtStart(evm: Evm, ds: seq<int>, evs: seq<Event>, k: Key)
    requires |ds| == |evs| + 1
    ensures Held(evm, ds, evs, 0, k) == Read(evm.storage, k)
  {
    assert Kept(ds, evs, 0, k) == [] && OlderReverts(ds, evs, 0) == [];
  }

  lemma OtherStep(evm: Evm, evs: seq<Event>, n: nat, k: Key)
    requires n < |evs| && evs[n] != Exit(true)
    ensures Read(EvmRun(evm, evs, n + 1).storage, k) ==
      if WritesSlot(evs[n], k) then evs[n].value else Read(EvmRun(evm, evs, n).storage, k)
  {
  }

  lemma EntryBefore(ds: seq<int>, evs: seq<Event>, d0: int, n: nat) returns (e: nat)
    requires n <= |evs| && DepthsOf(ds, evs, d0) && InEnteredFrame(ds, evs, n)
    ensures Enters(ds, evs, e, n)
  {
    var m :| 0 <= m < n && evs[m].Enter? && forall l :: m < l <= n ==> ds[l] > ds[m];
    e := EntryOf(ds, evs, d0, n, n, m);
  }

  lemma RevertRestores(evm: Evm, ds: seq<int>, evs: seq<Event>, e: nat, n: nat)
    requires n < |evs| && Trace(ds, evs, evm.Depth()) && evs[n] == Exit(true) && Enters(ds, evs, e, n)
    ensures EvmRun(evm, evs, n + 1).storage == EvmRun(evm, evs, e).storage
  {
    DepthTracks(evm, ds, evs, n);
    DepthsAbove(evm, ds, evs, e + 1, n, ds[n]);
    RevertGoesBack(evm, evs, e + 1, n);
    EntryCheckpoint(evm, ds, evs, e);
  }

  /** The checkpoint of a frame just entered is the storage at its entry. */
  lemma EntryCheckpoint(evm: Evm, ds: seq<int>, evs: seq<Event>, e: nat)
    requires e < |evs| && Trace(ds, evs, evm.Depth()) && evs[e].Enter?
    ensures 0 <= ds[e] < EvmRun(evm, evs, e + 1).Depth()
    ensures EvmRun(evm, evs, e + 1).checkpoints[ds[e]] == EvmRun(evm, evs, e).storage
  {
    DepthTracks(evm, ds, evs, e);
  }

  lemma OlderRevertRestores(evm: Evm, ds: seq<int>, evs: seq<Event>, n: nat)
    requires n < |evs| && Trace(ds, evs, evm.Depth()) && OlderRevert(ds, evs, n)
    ensures 0 < ds[n] <= evm.Depth()
    ensures EvmRun(evm, evs, n + 1).storage == evm.checkpoints[ds[n] - 1]
  {
    LowestHere(ds, evs, evm.Depth(), n);
    DepthTracks(evm, ds, evs, n);
    DepthsAbove(evm, ds, evs, 0, n, ds[n]);
    RevertGoesBack(evm, evs, 0, n);
  }

  // ---------------------------------------------------------------- what the report means

  /** What `get_recorded_state_diffs` returns after the run. */
  function Report(s: State): StateDiffs {
    Fold(View(s.stack))
  }

  /** Applying reported diffs to a storage, slot by slot. */
  function Patched(storage: Storage, d: StateDiffs, k: Key): Word {
    match Lookup(d, k) case Some(diff) => diff.newValue case None => Read(storage, k)
  }

  /** The entries that count are those of the surviving writes, with what they saw and wrote. */
  lemma HitsAreWrites(evm: Evm, ds: seq<int>, evs: seq<Event>, n: nat, k: Key, j: nat)
    requires n <= |evs| && Trace(ds, evs, evm.Depth()) && j < |Reports(ds, evs, n)|
    ensures var log, i := View(Run(Started(evm), evs, n).stack), Reports(ds, evs, n)[j];
      && |log| == |Reports(ds, evs, n)|
      && (WritesTo(log[j], k) <==> SurvivingWrite(ds, evs, n, k, i))
      && (WritesTo(log[j], k) ==>
            && log[j].access.previousValue == Read(EvmRun(evm, evs, i).storage, k)
            && log[j].access.newValue == evs[i].value)
  {
    StackRefinesCallTree(evm, ds, evs, n);
  }

  /**
    What is recorded of the storage accesses of any run, field by field: the entry of a reported SLOAD or
    SSTORE at event `i` names its account and slot, and what the slot held then; a read has that value
    as its new value too, a write the value written; and it is flagged exactly if a frame around the
    event, other than the root, has reverted.
   */
  lemma AccessesRecorded(evm: Evm, ds: seq<int>, evs: seq<Event>, n: nat, j: nat)
    requires n <= |evs| && Trace(ds, evs, evm.Depth()) && j < |Reports(ds, evs, n)|
    requires var e := evs[Reports(ds, evs, n)[j]]; e.Sload? || e.Sstore?
    ensures var log, i := View(Run(Started(evm), evs, n).stack), Reports(ds, evs, n)[j];
      && j < |log| && log[j].Touch?
      && var a, e := log[j].access, evs[i];
         && a.account == e.account && a.slot == e.slot && a.isWrite == e.Sstore?
         && a.previousValue == Held(evm, ds, evs, i, (e.account, e.slot))
         && a.newValue == (if e.Sstore? then e.value else Held(evm, ds, evs, i, (e.account, e.slot)))
         && a.reverted == RolledBack(ds, evs, i, n)
  {
    var i := Reports(ds, evs, n)[j];
    StackRefinesCallTree(evm, ds, evs, n);
    StorageHolds(evm, ds, evs, i, (evs[i].account, evs[i].slot));
  }

  /** The same for calls, creates, account queries and self-destructs: who, whom, and at which depth. */
  lemma AccountsRecorded(evm: Evm, ds: seq<int>, evs: seq<Event>, n: nat, j: nat)
    requires n <= |evs| && Trace(ds, evs, evm.Depth()) && j < |Reports(ds, evs, n)|
    requires var e := evs[Reports(ds, evs, n)[j]]; e.Enter? || e.Ext? || e.SelfDestruct?
    ensures var log, i := View(Run(Started(evm), evs, n).stack), Reports(ds, evs, n)[j];
      && j < |log| && log[j].Header?
      && var h, e := log[j], evs[i];
         && (e.Enter? ==> h.kind == Entered(e.scheme)) && (e.Ext? ==> h.kind == Queried(e.query))
         && (e.SelfDestruct? ==> h.kind == SelfDestructed)
         && h.accessor == e.accessor && h.account == e.account && h.depth == ds[i]
         && h.flag == RolledBack(ds, evs, i, n)
  {
    StackRefinesCallTree(evm, ds, evs, n);
    DepthTracks(evm, ds, evs, Reports(ds, evs, n)[j]);
  }

  lemma EndsOfRun(evm: Evm, ds: seq<int>, evs: seq<Event>, n: nat, k: Key)
    requires n <= |evs| && Trace(ds, evs, evm.Depth())
    ensures var log, w, ix := View(Run(Started(evm), evs, n).stack), Surviving(ds, evs, n, k), Reports(ds, evs, n);
      var h := Hits(log, k);
      && |h| == |ix|
      && FirstTrue(w) == (match FirstTrue(h) case Some(a) => Some(ix[a]) case None => None)
      && LastTrue(w) == (match LastTrue(h) case Some(b) => Some(ix[b]) case None => None)
  {
    var h, w, ix := Hits(View(Run(Started(evm), evs, n).stack), k), Surviving(ds, evs, n, k), Reports(ds, evs, n);
    StackRefinesCallTree(evm, ds, evs, n);
    forall j | 0 <= j < |ix| ensures h[j] == w[ix[j]] {
      HitsAreWrites(evm, ds, evs, n, k, j);
    }
    ReportsComplete(ds, evs, n);
    forall i | 0 <= i < |w| && w[i] ensures i in ix {
      assert Reported(ds, evs, i);
    }
    FirstThrough(h, w, ix);
    LastThrough(h, w, ix);
  }

  lemma ReportTells(evm: Evm, ds: seq<int>, evs: seq<Event>, n: nat, k: Key)
    requires n <= |evs| && Trace(ds, evs, evm.Depth())
    ensures Lookup(Report(Run(Started(evm), evs, n)), k) == Told(evm, ds, evs, n, k)
  {
    var log, ix := View(Run(Started(evm), evs, n).stack), Reports(ds, evs, n);
    var h := Hits(log, k);
    FoldMeaning(log, k);
    WritesEnds(log, k);
    EndsOfRun(evm, ds, evs, n, k);
    if LastTrue(h).Some? {
      var a, b := FirstTrue(h).value, LastTrue(h).value;
      HitsAreWrites(evm, ds, evs, n, k, a);
      HitsAreWrites(evm, ds, evs, n, k, b);
      StorageHolds(evm, ds, evs, ix[a], k);
    }
  }

  /**
    After any number of events of any run, for every slot, with no assumption on the run: what is
    reported and what storage holds, both from the events. So the report applied to the old storage is
    the current storage exactly if the last surviving entered write (or else the start) and the last
    write in force (or else the base) left the same value; and a reported previous value is the value
    at the start exactly if that is what the slot held before its first surviving write.
   */
  lemma ReportIsExact(evm: Evm, ds: seq<int>, evs: seq<Event>, n: nat, k: Key)
    requires n <= |evs| && Trace(ds, evs, evm.Depth())
    ensures var s, v, told := Run(Started(evm), evs, n), Read(evm.storage, k), Told(evm, ds, evs, n, k);
      && Lookup(Report(s), k) == told
      && Read(s.evm.storage, k) == Held(evm, ds, evs, n, k)
      && (Patched(evm.storage, Report(s), k) == Read(s.evm.storage, k) <==>
            Held(evm, ds, evs, n, k) == if told.Some? then told.value.newValue else v)
  {
    ReportTells(evm, ds, evs, n, k);
    StorageHolds(evm, ds, evs, n, k);
    EvmOfRun(Started(evm), evs, n);
  }

  /**
    A slot is reported if and only if some write to it, made in a frame entered since recording
    began, was not undone by a revert of a frame around it. This needs no assumption on the run.
   */
  lemma ReportedIffSurvivingWrite(evm: Evm, ds: seq<int>, evs: seq<Event>, n: nat, k: Key)
    requires n <= |evs| && Trace(ds, evs, evm.Depth())
    ensures Lookup(Report(Run(Started(evm), evs, n)), k).Some? <==> exists i :: SurvivingWrite(ds, evs, n, k, i)
  {
    ReportTells(evm, ds, evs, n, k);
    var w := Surviving(ds, evs, n, k);
    assert forall i :: 0 <= i < n ==> w[i] == SurvivingWrite(ds, evs, n, k, i);
  }

  // ---------------------------------------------------------------- when nothing escapes the recorder

  /** The slot is only written in frames entered since recording began, no root call reverts, and
      an older frame that reverts does not undo an even older write to the slot. */
  ghost predicate Covered(evm: Evm, ds: seq<int>, evs: seq<Event>, k: Key)
    requires |ds| == |evs| + 1
  {
    forall i :: 0 <= i < |evs| ==>
      && (WritesSlot(evs[i], k) ==> InEnteredFrame(ds, evs, i))
      && (evs[i] == Exit(true) ==> ds[i] > 1 && (InEnteredFrame(ds, evs, i) || Undisturbed(evm, ds[i] - 1, k)))
  }

  ghost predicate Undisturbed(evm: Evm, q: int, k: Key) {
    0 <= q < |evm.checkpoints| ==> Read(evm.checkpoints[q], k) == Read(evm.storage, k)
  }

  lemma CoveredKept(evm: Evm, ds: seq<int>, evs: seq<Event>, n: nat, k: Key)
    requires n <= |evs| && |ds| == |evs| + 1 && Covered(evm, ds, evs, k)
    ensures Kept(ds, evs, n, k) == Surviving(ds, evs, n, k)
  {
    forall i | 0 <= i < n ensures KeptWrite(ds, evs, n, k, i) == SurvivingWrite(ds, evs, n, k, i) {
      assert Undone(ds, evs, i, n) <==> RolledBack(ds, evs, i, n);
    }
  }

  lemma CoveredBase(evm: Evm, ds: seq<int>, evs: seq<Event>, n: nat, k: Key)
    requires n <= |evs| && Trace(ds, evs, evm.Depth()) && Covered(evm, ds, evs, k)
    ensures Base(evm, ds, evs, n, k) == Read(evm.storage, k)
  {
    var j := LastTrue(OlderReverts(ds, evs, n));
    if j.Some? {
      assert OlderRevert(ds, evs, j.value);
      OlderRevertRestores(evm, ds, evs, j.value);
    }
  }

  /** Before the first surviving write no write is in force: a later revert that undid it would have
      undone the surviving one as well. */
  lemma CoveredFirst(evm: Evm, ds: seq<int>, evs: seq<Event>, n: nat, k: Key, a: nat)
    requires n <= |evs| && |ds| == |evs| + 1 && Covered(evm, ds, evs, k)
    requires FirstTrue(Surviving(ds, evs, n, k)) == Some(a)
    ensures LastTrue(Kept(ds, evs, a, k)) == None
  {
    var w, kept := Surviving(ds, evs, n, k), Kept(ds, evs, a, k);
    assert w[a] == SurvivingWrite(ds, evs, n, k, a);
    forall i | 0 <= i < a ensures !kept[i] {
      assert w[i] == SurvivingWrite(ds, evs, n, k, i);
      UndoneTogether(ds, evs, i, a, n);
    }
  }

  /** A revert that undoes an earlier event after a later one undoes both. */
  lemma UndoneTogether(ds: seq<int>, evs: seq<Event>, i: nat, a: nat, n: nat)
    requires i < a < n <= |evs| && |ds| == |evs| + 1 && !evs[a].Exit?
    ensures RolledBack(ds, evs, i, n) ==> Undone(ds, evs, i, a) || RolledBack(ds, evs, a, n)
  {
    if RolledBack(ds, evs, i, n) {
      var j :| i < j < n && evs[j] == Exit(true) && ds[j] > 1 && Encloses(ds, i, j);
      assert j > a ==> Encloses(ds, a, j);
    }
  }

  /** For every covered slot the report is right: it turns the old storage into the current one, and a
      reported previous value is the value when recording began. */
  lemma CoveredReportIsRight(evm: Evm, ds: seq<int>, evs: seq<Event>, n: nat, k: Key)
    requires n <= |evs| && Trace(ds, evs, evm.Depth()) && Covered(evm, ds, evs, k)
    ensures var s := Run(Started(evm), evs, n);
      && Patched(evm.storage, Report(s), k) == Read(s.evm.storage, k)
      && (Lookup(Report(s), k).Some? ==> Lookup(Report(s), k).value.previousValue == Read(evm.storage, k))
  {
    ReportIsExact(evm, ds, evs, n, k);
    CoveredKept(evm, ds, evs, n, k);
    CoveredBase(evm, ds, evs, n, k);
    var a := FirstTrue(Surviving(ds, evs, n, k));
    if a.Some? {
      CoveredFirst(evm, ds, evs, n, k, a.value);
      CoveredBase(evm, ds, evs, a.value, k);
    }
  }

  // ---------------------------------------------------------------- reverting an older frame

  /** The reported new value, or else a given one. */
  function NewOr(d: Option<SlotDiff>, v: Word): Word {
    if d.Some? then d.value.newValue else v
  }

  /** After `n` events the diff reported of the slot is `told`, and the report turns the old storage into
      the current one exactly if `right`. */
  ghost predicate ReportedAs(evm: Evm, evs: seq<Event>, n: nat, k: Key, told: Option<SlotDiff>, right: bool)
    requires n <= |evs|
  {
    var s := Run(Started(evm), evs, n);
    && Lookup(Report(s), k) == told
    && (Patched(evm.storage, Report(s), k) == Read(s.evm.storage, k) <==> right)
  }

  lemma ReportedExactly(evm: Evm, ds: seq<int>, evs: seq<Event>, n: nat, k: Key)
    requires n <= |evs| && Trace(ds, evs, evm.Depth())
    ensures var told := Told(evm, ds, evs, n, k);
      ReportedAs(evm, evs, n, k, told, Held(evm, ds, evs, n, k) == NewOr(told, Read(evm.storage, k)))
  {
    ReportIsExact(evm, ds, evs, n, k);
  }

  /** What an older revert leaves in storage. */
  lemma OlderRevertHeld(evm: Evm, ds: seq<int>, evs: seq<Event>, n: nat, k: Key)
    requires n < |evs| && Trace(ds, evs, evm.Depth()) && OlderRevert(ds, evs, n)
    ensures 0 < ds[n] <= evm.Depth()
    ensures Held(evm, ds, evs, n + 1, k) == Read(evm.checkpoints[ds[n] - 1], k)
  {
    OlderRevertRestores(evm, ds, evs, n);
    KeptAfterOlder(ds, evs, evm.Depth(), n, k);
  }

  /**
    When a frame that was open before recording began reverts (and is not the root), everything is
    marked, so nothing is reported; storage goes back to that frame's own checkpoint. The report is
    then right exactly if the frame had left the slot as it was up to the start of recording.
   */
  lemma OlderRevertReport(evm: Evm, ds: seq<int>, evs: seq<Event>, n: nat, k: Key)
    requires n < |evs| && Trace(ds, evs, evm.Depth()) && OlderRevert(ds, evs, n) && ds[n] > 1
    ensures ReportedAs(evm, evs, n + 1, k, None, Undisturbed(evm, ds[n] - 1, k))
  {
    ReportedExactly(evm, ds, evs, n + 1, k);
    OlderRevertHeld(evm, ds, evs, n, k);
    NothingSurvives(evm, ds, evs, n, k);
  }

  lemma NothingSurvives(evm: Evm, ds: seq<int>, evs: seq<Event>, n: nat, k: Key)
    requires n < |evs| && DepthsOf(ds, evs, evm.Depth()) && OlderRevert(ds, evs, n) && ds[n] > 1
    ensures Told(evm, ds, evs, n + 1, k) == None
  {
    var w := Surviving(ds, evs, n + 1, k);
    forall i | 0 <= i < |w| ensures !w[i] {
      OlderRevertUndoes(ds, evs, evm.Depth(), n, i);
    }
  }

  lemma OlderRevertUndoes(ds: seq<int>, evs: seq<Event>, d0: int, n: nat, i: nat)
    requires n < |evs| && DepthsOf(ds, evs, d0) && OlderRevert(ds, evs, n) && ds[n] > 1
    ensures i < n ==> RolledBack(ds, evs, i, n + 1)
  {
    LowestHere(ds, evs, d0, n);
    assert i < n ==> Encloses(ds, i, n);
  }

  /**
    When the root call inside which recording began reverts, nothing is marked: the report stays what it
    was, and storage goes back to what the call started from. The report is then right exactly if that
    is the value reported, or else the value when recording began.
   */
  lemma OlderRootRevertReport(evm: Evm, ds: seq<int>, evs: seq<Event>, n: nat, k: Key)
    requires n < |evs| && Trace(ds, evs, evm.Depth()) && OlderRevert(ds, evs, n) && ds[n] == 1
    ensures evm.Depth() > 0
    ensures var told := Told(evm, ds, evs, n, k);
      ReportedAs(evm, evs, n + 1, k, told, Read(evm.checkpoints[0], k) == NewOr(told, Read(evm.storage, k)))
  {
    ReportedExactly(evm, ds, evs, n + 1, k);
    OlderRevertHeld(evm, ds, evs, n, k);
    RootRevertMarksNothing(evm, ds, evs, n, k);
  }

  lemma RootRevertMarksNothing(evm: Evm, ds: seq<int>, evs: seq<Event>, n: nat, k: Key)
    requires n < |evs| && |ds| == |evs| + 1 && evs[n].Exit? && ds[n] == 1
    ensures Told(evm, ds, evs, n + 1, k) == Told(evm, ds, evs, n, k)
  {
    var a, b := Surviving(ds, evs, n, k), Surviving(ds, evs, n + 1, k);
    forall i | 0 <= i < n ensures a[i] == b[i] {
      assert RolledBack(ds, evs, i, n + 1) <==> RolledBack(ds, evs, i, n);
    }
    assert !b[n];
    LastTrueSame(a, b);
    FirstTrueSame(a, b);
  }

  /** An input for which the report is wrong: a slot written just before recording began, in a frame that then
      reverts. */
  lemma OlderRevertIsMissed()
    ensures var evm, k := Evm(map[(1, 0) := 7], [map[], map[]]), (1, 0);
      var s := Run(Started(evm), [Exit(true)], 1);
      Patched(evm.storage, Report(s), k) == 7 && Read(s.evm.storage, k) == 0
  {
    var evm, k := Evm(map[(1, 0) := 7], [map[], map[]]), (1, 0);
    var evs := [Exit(true)];
    assert Run(Started(evm), evs, 0) == Started(evm);
    assert View(Run(Started(evm), evs, 1).stack) == [];
  }
}
