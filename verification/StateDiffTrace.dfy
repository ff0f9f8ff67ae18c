/**
  The record stack refines the call tree of the run: read in stack order it lists, in execution
  order, everything done since recording began, and an entry carries the reverted flag exactly
  when a frame around it has already ended in a revert (the root frame excepted).
  Both sides are stated on the bare event sequence and its call depths, with no stack in sight.
 */
module StateDiffTrace {
  import opened StateDiffModel
  import opened StateDiffHooks
  import opened StateDiffStack

  // ---------------------------------------------------------------- the event sequence

  function Delta(e: Event): int {
    if e.Enter? then 1 else if e.Exit? then -1 else 0
  }

  /** `ds` holds the call depth just before each event, and after the last one. */
  ghost predicate DepthsOf(ds: seq<int>, evs: seq<Event>, d0: int) {
    && |ds| == |evs| + 1 && ds[0] == d0
    && forall i {:trigger evs[i]} :: 0 <= i < |evs| ==> ds[i + 1] == ds[i] + Delta(evs[i])
  }

  /** Every event sequence has its depths. */
  function Depths(d0: int, evs: seq<Event>): (ds: seq<int>)
    ensures DepthsOf(ds, evs, d0)
  {
    if evs == [] then [d0]
    else
      var before := Depths(d0, evs[..|evs| - 1]);
      before + [before[|evs| - 1] + Delta(evs[|evs| - 1])]
  }

  /** A run from depth `d0`: frames end and opcodes execute only inside a frame. */
  ghost predicate Trace(ds: seq<int>, evs: seq<Event>, d0: int) {
    && DepthsOf(ds, evs, d0) && 0 <= d0
    && forall i {:trigger evs[i]} :: 0 <= i < |evs| ==> Legal(evs[i], ds[i])
  }

  predicate Opens(e: Event) {
    e.Enter? || e.Ext?
  }

  /** Event `i` runs inside a frame that was entered after recording began. */
  ghost predicate InEnteredFrame(ds: seq<int>, evs: seq<Event>, i: nat)
    requires i <= |evs| && |ds| == |evs| + 1
  {
    exists e :: 0 <= e < i && evs[e].Enter? && forall m :: e < m <= i ==> ds[m] > ds[e]
  }

  /** Event `i` leaves an entry: frames and account queries always, storage accesses in entered
      frames, a self-destruct once anything has been recorded. */
  ghost predicate Reported(ds: seq<int>, evs: seq<Event>, i: nat)
    requires i < |evs| && |ds| == |evs| + 1
  {
    match evs[i]
    case Enter(_, _, _) => true
    case Ext(_, _, _) => true
    case Exit(_) => false
    case SelfDestruct(_, _) => exists j :: 0 <= j < i && Opens(evs[j])
    case _ => InEnteredFrame(ds, evs, i)
  }

  ghost function Reports(ds: seq<int>, evs: seq<Event>, n: nat): (r: seq<nat>)
    requires n <= |evs| && |ds| == |evs| + 1
    ensures forall k :: 0 <= k < |r| ==> r[k] < n && Reported(ds, evs, r[k])
  {
    if n == 0 then []
    else Reports(ds, evs, n - 1) + if Reported(ds, evs, n - 1) then [n - 1] else []
  }

  /** Event `i` lies within the frame that event `j` ends. */
  ghost predicate Encloses(ds: seq<int>, i: nat, j: nat)
    requires j < |ds|
  {
    forall m :: i < m <= j ==> ds[m] >= ds[j]
  }

  /** Some frame around event `i` other than the root has reverted within the first `n` events. */
  ghost predicate RolledBack(ds: seq<int>, evs: seq<Event>, i: nat, n: nat)
    requires n <= |evs| && |ds| == |evs| + 1
  {
    exists j :: i < j < n && evs[j] == Exit(true) && ds[j] > 1 && Encloses(ds, i, j)
  }

  ghost function Expected(evm: Evm, e: Event, flag: bool): Entry
    requires !e.Exit?
  {
    if e.Enter? then Header(Entered(e.scheme), e.accessor, e.account, evm.Depth(), flag)
    else if e.Ext? then Header(Queried(e.query), e.accessor, e.account, evm.Depth(), flag)
    else if e.SelfDestruct? then Header(SelfDestructed, e.accessor, e.account, evm.Depth(), flag)
    else
      var present := Read(evm.storage, (e.account, e.slot));
      Touch(StorageAccess(e.account, e.slot, e.Sstore?, present, if e.Sstore? then e.value else present, flag))
  }

  // ---------------------------------------------------------------- facts about depths

  function Min(a: int, b: int): int {
    if a < b then a else b
  }

  /** The lowest depth among positions `i..n`, both included. */
  function Lowest(ds: seq<int>, i: nat, n: nat): int
    requires i <= n < |ds|
    decreases n
  {
    if i == n then ds[n] else Min(Lowest(ds, i, n - 1), ds[n])
  }

  lemma {:induction false} LowestBound(ds: seq<int>, i: nat, n: nat, x: int)
    requires i <= n < |ds|
    ensures Lowest(ds, i, n) >= x <==> forall m :: i <= m <= n ==> ds[m] >= x
    decreases n
  {
    if i < n {
      LowestBound(ds, i, n - 1, x);
    }
  }

  lemma LowestBetween(ds: seq<int>, i: nat, n: nat)
    requires i <= n < |ds|
    ensures Lowest(ds, 0, n) <= Lowest(ds, i, n) <= ds[n]
  {
    LowestBound(ds, i, n, Lowest(ds, 0, n));
    LowestBound(ds, 0, n, Lowest(ds, 0, n));
  }

  lemma EnteredAbove(ds: seq<int>, evs: seq<Event>, d0: int, i: nat)
    requires i <= |evs| && DepthsOf(ds, evs, d0)
    ensures InEnteredFrame(ds, evs, i) <==> ds[i] > Lowest(ds, 0, i)
  {
    LowestBound(ds, 0, i, ds[i]);
    LowestBound(ds, 0, i, Lowest(ds, 0, i));
    if ds[i] > Lowest(ds, 0, i) {
      var m :| 0 <= m <= i && ds[m] < ds[i];
      var e := EntryOf(ds, evs, d0, i, i, m);
    }
  }

  /** Walking back from `i`, the last event below its depth is the one that entered its frame. */
  lemma {:induction false} EntryOf(ds: seq<int>, evs: seq<Event>, d0: int, i: nat, k: nat, m: nat) returns (e: nat)
    requires DepthsOf(ds, evs, d0) && m < k <= i <= |evs| && ds[m] < ds[i]
    requires forall l :: k <= l <= i ==> ds[l] >= ds[i]
    ensures e < i && evs[e].Enter? && ds[e] == ds[i] - 1 && forall l :: e < l <= i ==> ds[l] > ds[e]
    decreases k
  {
    if ds[k - 1] < ds[i] {
      e := k - 1;
      assert ds[e + 1] == ds[e] + Delta(evs[e]);
    } else {
      e := EntryOf(ds, evs, d0, i, k - 1, m);
    }
  }

  lemma {:induction false} ReportsStart(ds: seq<int>, evs: seq<Event>, n: nat)
    requires n <= |evs| && |ds| == |evs| + 1
    ensures Reports(ds, evs, n) == [] <==> forall j :: 0 <= j < n ==> !Opens(evs[j])
  {
    if n > 0 {
      ReportsStart(ds, evs, n - 1);
    }
  }

  lemma RolledBackStep(ds: seq<int>, evs: seq<Event>, i: nat, n: nat)
    requires i < n < |evs| && |ds| == |evs| + 1
    ensures RolledBack(ds, evs, i, n + 1) <==>
      RolledBack(ds, evs, i, n) || (evs[n] == Exit(true) && ds[n] > 1 && Lowest(ds, i + 1, n) >= ds[n])
  {
    LowestBound(ds, i + 1, n, ds[n]);
  }

  // ---------------------------------------------------------------- flat log against events

  /** A cut at `cut` of the frame `p` levels above the lowest one: entry `k`, left by event `i`,
      was made inside that frame exactly if it comes at or after the cut. */
  ghost predicate Separates(ds: seq<int>, n: nat, p: nat, cut: nat, k: nat, i: nat)
    requires i < n < |ds|
  {
    k >= cut <==> Lowest(ds, i + 1, n) >= Lowest(ds, 0, n) + 1 + p
  }

  ghost predicate CutsFit(ds: seq<int>, evs: seq<Event>, n: nat, cuts: seq<nat>)
    requires n <= |evs| && |ds| == |evs| + 1
  {
    var ix := Reports(ds, evs, n);
    && |cuts| == ds[n] - Lowest(ds, 0, n)
    && (forall p :: 0 <= p < |cuts| ==> cuts[p] <= |ix|)
    && forall k, p :: 0 <= k < |ix| && 0 <= p < |cuts| ==> Separates(ds, n, p, cuts[p], k, ix[k])
  }

  lemma LowestStep(ds: seq<int>, n: nat)
    requires n + 1 < |ds| && -1 <= ds[n + 1] - ds[n] <= 1
    ensures var r, r' := ds[n] - Lowest(ds, 0, n), ds[n + 1] - Lowest(ds, 0, n + 1);
      && 0 <= r && r' == if r == 0 && ds[n + 1] < ds[n] then 0 else r + ds[n + 1] - ds[n]
  {
  }

  lemma SeparatesOld(ds: seq<int>, n: nat, p: nat, cut: nat, k: nat, i: nat)
    requires i < n && n + 1 < |ds| && -1 <= ds[n + 1] - ds[n] <= 1
    requires p < ds[n] - Lowest(ds, 0, n) && p < ds[n + 1] - Lowest(ds, 0, n + 1)
    requires Separates(ds, n, p, cut, k, i)
    ensures Separates(ds, n + 1, p, cut, k, i)
  {
    assert Lowest(ds, i + 1, n + 1) == Min(Lowest(ds, i + 1, n), ds[n + 1]);
    assert Lowest(ds, 0, n + 1) == Min(Lowest(ds, 0, n), ds[n + 1]);
  }

  /** A frame entered by event `n` has no earlier entry, and every cut lies before a new entry. */
  lemma SeparatesNew(ds: seq<int>, n: nat, p: nat, cut: nat, k: nat, i: nat)
    requires i <= n && n + 1 < |ds| && -1 <= ds[n + 1] - ds[n] <= 1
    requires p < ds[n + 1] - Lowest(ds, 0, n + 1)
    requires i == n ==> k >= cut
    requires i < n ==> k < cut && p == ds[n] - Lowest(ds, 0, n)
    ensures Separates(ds, n + 1, p, cut, k, i)
  {
    assert Lowest(ds, 0, n + 1) == Min(Lowest(ds, 0, n), ds[n + 1]);
    if i < n {
      LowestBetween(ds, i + 1, n);
      assert Lowest(ds, i + 1, n + 1) == Min(Lowest(ds, i + 1, n), ds[n + 1]);
    }
  }

  lemma CutsFitStep(ds: seq<int>, evs: seq<Event>, d0: int, n: nat, f: Flat, evm: Evm)
    requires DepthsOf(ds, evs, d0) && n < |evs| && CutsFit(ds, evs, n, f.cuts)
    requires |f.log| == |Reports(ds, evs, n)|
    ensures CutsFit(ds, evs, n + 1, FlatStep(f, evm, evs[n]).cuts)
  {
    var ix, ix', cuts' := Reports(ds, evs, n), Reports(ds, evs, n + 1), FlatStep(f, evm, evs[n]).cuts;
    LowestStep(ds, n);
    forall k, p | 0 <= k < |ix'| && 0 <= p < |cuts'|
      ensures Separates(ds, n + 1, p, cuts'[p], k, ix'[k])
    {
      CutAfter(f, evm, evs[n], p);
      SeparatesStep(ds, n, |ix|, f.cuts, p, cuts'[p], k, ix'[k]);
    }
  }

  /** An event keeps the cuts that remain, or adds one at the end of the log. */
  lemma CutAfter(f: Flat, evm: Evm, e: Event, p: nat)
    requires p < |FlatStep(f, evm, e).cuts|
    ensures p <= |f.cuts| && FlatStep(f, evm, e).cuts[p] == if p < |f.cuts| then f.cuts[p] else |f.log|
  {
  }

  /** Old or new entry against old or new cut; `len` entries are old. */
  lemma SeparatesStep(ds: seq<int>, n: nat, len: nat, cuts: seq<nat>, p: nat, cut: nat, k: nat, i: nat)
    requires n + 1 < |ds| && -1 <= ds[n + 1] - ds[n] <= 1
    requires |cuts| == ds[n] - Lowest(ds, 0, n) && p < ds[n + 1] - Lowest(ds, 0, n + 1)
    requires p <= |cuts| && cut <= len && cut == if p < |cuts| then cuts[p] else len
    requires k <= len && (k == len ==> i == n)
    requires k < len ==> i < n && (p < |cuts| ==> Separates(ds, n, p, cut, k, i))
    ensures Separates(ds, n + 1, p, cut, k, i)
  {
    if k < len && p < |cuts| {
      SeparatesOld(ds, n, p, cut, k, i);
    } else {
      SeparatesNew(ds, n, p, cut, k, i);
    }
  }

  /** The entry left by event `i`, as it stands after `n` events. */
  ghost predicate EntryFits(evm: Evm, ds: seq<int>, evs: seq<Event>, n: nat, entry: Entry, i: nat)
    requires i < n <= |evs| && |ds| == |evs| + 1
  {
    !evs[i].Exit? && entry == Expected(EvmRun(evm, evs, i), evs[i], RolledBack(ds, evs, i, n))
  }

  ghost predicate LogFits(evm: Evm, ds: seq<int>, evs: seq<Event>, n: nat, log: seq<Entry>)
    requires n <= |evs| && |ds| == |evs| + 1
  {
    var ix := Reports(ds, evs, n);
    |log| == |ix| && forall k :: 0 <= k < |ix| ==> EntryFits(evm, ds, evs, n, log[k], ix[k])
  }

  lemma EvmStepDepth(evm: Evm, e: Event)
    requires Legal(e, evm.Depth())
    ensures EvmStep(evm, e).Depth() == evm.Depth() + Delta(e)
  {
  }

  lemma {:induction false} DepthTracks(evm: Evm, ds: seq<int>, evs: seq<Event>, n: nat)
    requires n <= |evs| && Trace(ds, evs, evm.Depth())
    ensures EvmRun(evm, evs, n).Depth() == ds[n]
  {
    if n > 0 {
      DepthTracks(evm, ds, evs, n - 1);
      EvmStepDepth(EvmRun(evm, evs, n - 1), evs[n - 1]);
    }
  }

  lemma LegalAt(evm: Evm, ds: seq<int>, evs: seq<Event>, n: nat)
    requires n < |evs| && Trace(ds, evs, evm.Depth())
    ensures Legal(evs[n], EvmRun(evm, evs, n).Depth())
  {
    DepthTracks(evm, ds, evs, n);
  }

  /** The revert flags after one more event, on the event side. */
  lemma FlagsStep(ds: seq<int>, evs: seq<Event>, n: nat, cuts: seq<nat>, k: nat)
    requires n < |evs| && |ds| == |evs| + 1 && CutsFit(ds, evs, n, cuts)
    requires k < |Reports(ds, evs, n)|
    ensures var i := Reports(ds, evs, n)[k];
      RolledBack(ds, evs, i, n + 1) <==>
        RolledBack(ds, evs, i, n) || (evs[n] == Exit(true) && ds[n] > 1
          && (cuts == [] || k >= cuts[|cuts| - 1]))
  {
    var i := Reports(ds, evs, n)[k];
    RolledBackStep(ds, evs, i, n);
    LowestBetween(ds, i + 1, n);
    if cuts != [] {
      assert Separates(ds, n, |cuts| - 1, cuts[|cuts| - 1], k, i);
    }
  }

  predicate Extends(f: Flat, e: Event) {
    || e.Enter? || e.Ext? || (e.SelfDestruct? && f.log != [])
    || ((e.Sload? || e.Sstore?) && f.cuts != [])
  }

  /** Which events get an entry, on the log side. */
  lemma ReportedAgrees(ds: seq<int>, evs: seq<Event>, d0: int, n: nat, f: Flat)
    requires DepthsOf(ds, evs, d0) && n < |evs| && CutsFit(ds, evs, n, f.cuts)
    requires |f.log| == |Reports(ds, evs, n)|
    ensures Reported(ds, evs, n) <==> Extends(f, evs[n])
  {
    ReportsStart(ds, evs, n);
    EnteredAbove(ds, evs, d0, n);
    LowestBetween(ds, 0, n);
  }

  /** One step of the flat log, entry by entry. */
  lemma LogStep(f: Flat, evm: Evm, e: Event)
    ensures var log := FlatStep(f, evm, e).log;
      && |log| == |f.log| + (if Extends(f, e) then 1 else 0)
      && (Extends(f, e) ==> log[|f.log|] == Expected(evm, e, false))
      && forall k :: 0 <= k < |f.log| ==>
           log[k] == if e == Exit(true) && evm.Depth() > 1 && (f.cuts == [] || k >= f.cuts[|f.cuts| - 1])
                     then f.log[k].Marked() else f.log[k]
  {
  }

  lemma ExpectedMarked(evm: Evm, e: Event, flag: bool)
    requires !e.Exit?
    ensures Expected(evm, e, flag).Marked() == Expected(evm, e, true)
  {
  }

  /** The entry made by the event itself, if it is reported. */
  lemma NewEntryFits(evm: Evm, ds: seq<int>, evs: seq<Event>, n: nat, f: Flat)
    requires Trace(ds, evs, evm.Depth()) && n < |evs|
    requires CutsFit(ds, evs, n, f.cuts) && LogFits(evm, ds, evs, n, f.log)
    ensures var ix, log := Reports(ds, evs, n + 1), FlatStep(f, EvmRun(evm, evs, n), evs[n]).log;
      && |log| == |ix|
      && (|log| > |f.log| ==>
            |log| == |f.log| + 1 && ix[|f.log|] == n && EntryFits(evm, ds, evs, n + 1, log[|f.log|], n))
  {
    ReportedAgrees(ds, evs, evm.Depth(), n, f);
    LogStep(f, EvmRun(evm, evs, n), evs[n]);
    assert !RolledBack(ds, evs, n, n + 1);
  }

  /** An entry that was there before: marked by the step exactly if the event rolls it back. */
  lemma OldEntryFits(evm: Evm, ds: seq<int>, evs: seq<Event>, n: nat, f: Flat, k: nat)
    requires Trace(ds, evs, evm.Depth()) && n < |evs|
    requires CutsFit(ds, evs, n, f.cuts) && LogFits(evm, ds, evs, n, f.log)
    requires k < |Reports(ds, evs, n)|
    ensures var i, log := Reports(ds, evs, n)[k], FlatStep(f, EvmRun(evm, evs, n), evs[n]).log;
      k < |log| && EntryFits(evm, ds, evs, n + 1, log[k], i)
  {
    var i := Reports(ds, evs, n)[k];
    assert EntryFits(evm, ds, evs, n, f.log[k], i);
    DepthTracks(evm, ds, evs, n);
    LogStep(f, EvmRun(evm, evs, n), evs[n]);
    FlagsStep(ds, evs, n, f.cuts, k);
    ExpectedMarked(EvmRun(evm, evs, i), evs[i], RolledBack(ds, evs, i, n));
  }

  lemma LogFitsStep(evm: Evm, ds: seq<int>, evs: seq<Event>, n: nat, f: Flat)
    requires Trace(ds, evs, evm.Depth()) && n < |evs|
    requires CutsFit(ds, evs, n, f.cuts) && LogFits(evm, ds, evs, n, f.log)
    ensures LogFits(evm, ds, evs, n + 1, FlatStep(f, EvmRun(evm, evs, n), evs[n]).log)
  {
    var ix, log' := Reports(ds, evs, n), FlatStep(f, EvmRun(evm, evs, n), evs[n]).log;
    NewEntryFits(evm, ds, evs, n, f);
    forall k | 0 <= k < |ix| ensures k < |log'| && EntryFits(evm, ds, evs, n + 1, log'[k], ix[k]) {
      OldEntryFits(evm, ds, evs, n, f, k);
    }
    LogFitsTogether(evm, ds, evs, n, log');
  }

  lemma LogFitsTogether(evm: Evm, ds: seq<int>, evs: seq<Event>, n: nat, log: seq<Entry>)
    requires n < |evs| && |ds| == |evs| + 1 && |log| == |Reports(ds, evs, n + 1)|
    requires forall k :: 0 <= k < |Reports(ds, evs, n)| ==>
      k < |log| && EntryFits(evm, ds, evs, n + 1, log[k], Reports(ds, evs, n)[k])
    requires var k := |Reports(ds, evs, n)|; |log| > k ==> |log| == k + 1 && EntryFits(evm, ds, evs, n + 1, log[k], n)
    ensures LogFits(evm, ds, evs, n + 1, log)
  {
  }

  /** Cuts and entries of a flat log fit the first `n` events. */
  ghost predicate Fits(evm: Evm, ds: seq<int>, evs: seq<Event>, n: nat, f: Flat)
    requires n <= |evs| && |ds| == |evs| + 1
  {
    CutsFit(ds, evs, n, f.cuts) && LogFits(evm, ds, evs, n, f.log)
  }

  lemma FitsStep(evm: Evm, ds: seq<int>, evs: seq<Event>, n: nat, f: Flat)
    requires n < |evs| && Trace(ds, evs, evm.Depth()) && Fits(evm, ds, evs, n, f)
    ensures Fits(evm, ds, evs, n + 1, FlatStep(f, EvmRun(evm, evs, n), evs[n]))
  {
    CutsFitStep(ds, evs, evm.Depth(), n, f, EvmRun(evm, evs, n));
    LogFitsStep(evm, ds, evs, n, f);
  }

  lemma FlatRunNext(evm: Evm, f: Flat, evs: seq<Event>, n: nat)
    requires n < |evs|
    ensures FlatRun(evm, f, evs, n + 1) == FlatStep(FlatRun(evm, f, evs, n), EvmRun(evm, evs, n), evs[n])
  {
  }

  lemma {:induction false} FlatFits(evm: Evm, ds: seq<int>, evs: seq<Event>, n: nat)
    requires n <= |evs| && Trace(ds, evs, evm.Depth())
    ensures Fits(evm, ds, evs, n, FlatRun(evm, NoEntries, evs, n))
  {
    if n == 0 {
      FitsStart(evm, ds, evs);
    } else {
      FlatFits(evm, ds, evs, n - 1);
      FlatFitsNext(evm, ds, evs, n - 1);
    }
  }

  lemma FlatFitsNext(evm: Evm, ds: seq<int>, evs: seq<Event>, n: nat)
    requires n < |evs| && Trace(ds, evs, evm.Depth()) && Fits(evm, ds, evs, n, FlatRun(evm, NoEntries, evs, n))
    ensures Fits(evm, ds, evs, n + 1, FlatRun(evm, NoEntries, evs, n + 1))
  {
    FlatRunNext(evm, NoEntries, evs, n);
    FitsStep(evm, ds, evs, n, FlatRun(evm, NoEntries, evs, n));
  }

  lemma FitsStart(evm: Evm, ds: seq<int>, evs: seq<Event>)
    requires |ds| == |evs| + 1
    ensures Fits(evm, ds, evs, 0, NoEntries)
  {
    assert Reports(ds, evs, 0) == [];
  }

  // ---------------------------------------------------------------- whole runs

  ghost predicate RefinesAt(evm: Evm, evs: seq<Event>, n: nat)
    requires n <= |evs|
  {
    var s := Run(Started(evm), evs, n);
    Refines(s.stack, FlatRun(evm, NoEntries, evs, n), s.evm.Depth())
  }

  lemma RefinesStart(depth: nat)
    ensures Refines([], NoEntries, depth)
  {
    assert Below([], 0) == [];
  }

  lemma RefinesAtStart(evm: Evm, evs: seq<Event>)
    ensures RefinesAt(evm, evs, 0)
  {
    RefinesStart(evm.Depth());
  }

  /** After every event the stack refines the flat log. */
  lemma {:induction false} RefinesRun(evm: Evm, ds: seq<int>, evs: seq<Event>, n: nat)
    requires n <= |evs| && Trace(ds, evs, evm.Depth())
    ensures forall m :: 0 <= m <= n ==> RefinesAt(evm, evs, m)
  {
    if n == 0 {
      RefinesAtStart(evm, evs);
    } else {
      RefinesRun(evm, ds, evs, n - 1);
      RefinesNext(evm, ds, evs, n - 1);
    }
  }

  lemma RefinesNext(evm: Evm, ds: seq<int>, evs: seq<Event>, n: nat)
    requires n < |evs| && Trace(ds, evs, evm.Depth()) && RefinesAt(evm, evs, n)
    ensures RefinesAt(evm, evs, n + 1)
  {
    LegalAt(evm, ds, evs, n);
    EvmOfRun(Started(evm), evs, n);
    RefinesStep(Run(Started(evm), evs, n), FlatRun(evm, NoEntries, evs, n), evs[n]);
  }

  lemma ViewIsLog(evm: Evm, ds: seq<int>, evs: seq<Event>, n: nat)
    requires n <= |evs| && Trace(ds, evs, evm.Depth())
    ensures View(Run(Started(evm), evs, n).stack) == FlatRun(evm, NoEntries, evs, n).log
  {
    RefinesRun(evm, ds, evs, n);
    assert RefinesAt(evm, evs, n);
  }

  /**
    At every step of every run: the flattened record stack lists exactly the reported events in
    execution order with the values they saw, each marked reverted if and only if a frame around
    it, other than the root, has ended in a revert.
   */
  lemma StackRefinesCallTree(evm: Evm, ds: seq<int>, evs: seq<Event>, n: nat)
    requires n <= |evs| && Trace(ds, evs, evm.Depth())
    ensures var log, ix := View(Run(Started(evm), evs, n).stack), Reports(ds, evs, n);
      && |log| == |ix|
      && forall k :: 0 <= k < |ix| ==>
           log[k] == Expected(EvmRun(evm, evs, ix[k]), evs[ix[k]], RolledBack(ds, evs, ix[k], n))
  {
    ViewIsLog(evm, ds, evs, n);
    FlatFits(evm, ds, evs, n);
    var ix, log := Reports(ds, evs, n), FlatRun(evm, NoEntries, evs, n).log;
    assert forall k :: 0 <= k < |ix| ==> EntryFits(evm, ds, evs, n, log[k], ix[k]);
  }

  /** `Reports` is what its name says: every reported event once, in execution order. */
  lemma {:induction false} ReportsComplete(ds: seq<int>, evs: seq<Event>, n: nat)
    requires n <= |evs| && |ds| == |evs| + 1
    ensures forall k, l :: 0 <= k < l < |Reports(ds, evs, n)| ==> Reports(ds, evs, n)[k] < Reports(ds, evs, n)[l]
    ensures forall i :: 0 <= i < n && Reported(ds, evs, i) ==> i in Reports(ds, evs, n)
  {
    if n > 0 {
      ReportsComplete(ds, evs, n - 1);
    }
  }

  /** The depth invariant: while a frame entered since recording began is running, the first record
      of the top list sits one depth below it, so its storage accesses are never dropped. */
  lemma TopListDepth(evm: Evm, ds: seq<int>, evs: seq<Event>, n: nat)
    requires n <= |evs| && Trace(ds, evs, evm.Depth()) && InEnteredFrame(ds, evs, n)
    ensures var s := Run(Started(evm), evs, n);
      && s.stack != [] && s.stack[|s.stack| - 1] != []
      && s.stack[|s.stack| - 1][0].depth == s.evm.Depth() - 1
  {
    RefinesRun(evm, ds, evs, n);
    assert RefinesAt(evm, evs, n);
    FlatFits(evm, ds, evs, n);
    EnteredAbove(ds, evs, evm.Depth(), n);
  }
}
