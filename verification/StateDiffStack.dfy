/**
  The record stack against a flat log: one list per open frame, merged on exit, amounts to one
  log of entries with a start position for every open frame, a suffix of which is marked when a
  frame reverts.
 */
module StateDiffStack {
  import opened StateDiffModel
  import opened StateDiffHooks

  /** All entries in reported order, and for each open entered frame where its entries start. */
  datatype Flat = Flat(log: seq<Entry>, cuts: seq<nat>)

  const NoEntries := Flat([], [])

  function MarkFrom(log: seq<Entry>, from: nat): (r: seq<Entry>)
    ensures |r| == |log|
  {
    seq(|log|, i requires 0 <= i < |log| => if i >= from then log[i].Marked() else log[i])
  }

  function DropLast<T>(s: seq<T>): seq<T> {
    if s == [] then [] else s[..|s| - 1]
  }

  function FlatStep(f: Flat, evm: Evm, e: Event): Flat {
    match e
    case Enter(scheme, accessor, account) =>
      Flat(f.log + [Header(Entered(scheme), accessor, account, evm.Depth(), false)], f.cuts + [|f.log|])
    case Exit(isRevert) =>
      var from := if f.cuts == [] then 0 else f.cuts[|f.cuts| - 1];
      Flat(if isRevert && evm.Depth() > 1 then MarkFrom(f.log, from) else f.log, DropLast(f.cuts))
    case Ext(query, accessor, account) =>
      f.(log := f.log + [Header(Queried(query), accessor, account, evm.Depth(), false)])
    case SelfDestruct(accessor, account) =>
      if f.log == [] then f
      else f.(log := f.log + [Header(SelfDestructed, accessor, account, evm.Depth(), false)])
    case _ =>
      if f.cuts == [] then f else f.(log := f.log + [Touch(StorageAccessOf(evm, e))])
  }

  function FlatRun(evm: Evm, f: Flat, evs: seq<Event>, n: nat): Flat
    requires n <= |evs|
  {
    if n == 0 then f
    else FlatStep(FlatRun(evm, f, evs, n - 1), EvmRun(evm, evs, n - 1), evs[n - 1])
  }

  // ---------------------------------------------------------------- the stack invariant

  predicate Anchored(l: Records) {
    l != [] && !l[0].kind.Resume?
  }

  /** With `r` open entered frames: one list per such frame, whose first record sits one depth
      below it, on top of at most one list of already merged frames (more only between root calls). */
  ghost predicate Shape(stack: seq<Records>, r: nat, depth: int) {
    && r <= |stack| && r <= depth
    && (forall j :: 0 <= j < |stack| ==> Anchored(stack[j]))
    && (forall j :: |stack| - r <= j < |stack| ==> stack[j][0].depth == depth - |stack| + j)
    && (|stack| > r ==> stack[|stack| - r - 1][0].depth >= depth - r)
    && (|stack| <= r + 1 || depth == r)
  }

  ghost predicate Cut(stack: seq<Records>, f: Flat) {
    && |f.cuts| <= |stack|
    && Below(stack, |stack|) == f.log
    && CutsAt(stack, |stack| - |f.cuts|, f.cuts)
  }

  /** The `p`-th cut is where the list `b + p` starts. */
  ghost predicate CutsAt(stack: seq<Records>, b: nat, cuts: seq<nat>) {
    && b + |cuts| <= |stack| + 1
    && forall j :: b <= j < b + |cuts| ==> StartsAt(stack, b, cuts, j)
  }

  ghost predicate StartsAt(stack: seq<Records>, b: nat, cuts: seq<nat>, j: nat)
    requires b <= j < b + |cuts| && j <= |stack|
  {
    |Below(stack, j)| == cuts[j - b]
  }

  ghost predicate Refines(stack: seq<Records>, f: Flat, depth: int) {
    Shape(stack, |f.cuts|, depth) && Cut(stack, f)
  }

  /** Lists above `j` do not matter. */
  lemma {:induction false} BelowSame(stack: seq<Records>, stack': seq<Records>, j: nat)
    requires j <= |stack| && j <= |stack'|
    requires forall i :: 0 <= i < j ==> stack[i] == stack'[i]
    ensures Below(stack, j) == Below(stack', j)
  {
    if j > 0 {
      BelowSame(stack, stack', j - 1);
    }
  }

  // ---------------------------------------------------------------- reported order of a list

  lemma ViewRecordAppend(r: AccountAccess, a: StorageAccess)
    ensures ViewRecord(r.(storageAccesses := r.storageAccesses + [a])) == ViewRecord(r) + [Touch(a)]
  {
    assert Touches(r.storageAccesses + [a]) == Touches(r.storageAccesses) + [Touch(a)];
  }

  /** Appending to the last record of a list. */
  lemma ExtendLast(front: Records, tail: AccountAccess, a: StorageAccess)
    ensures ViewRecords(front + [tail.(storageAccesses := tail.storageAccesses + [a])])
         == ViewRecords(front + [tail]) + [Touch(a)]
  {
    ViewRecordAppend(tail, a);
    ViewRecordsSnoc(front, tail);
    ViewRecordsSnoc(front, tail.(storageAccesses := tail.storageAccesses + [a]));
  }

  /** All fields of a record but its accesses. */
  function Context(r: AccountAccess): (AccessKind, Address, Address, nat, bool) {
    (r.kind, r.accessor, r.account, r.depth, r.reverted)
  }

  /** Wherever `append_storage_access` puts an access, it is the last one in reported order. The records
      keep their other fields; a new one resumes the context of the first. */
  lemma AppendView(last: Records, a: StorageAccess, depth: nat)
    requires Anchored(last) && last[0].depth < depth
    ensures var r := AppendStorageAccess(last, a, depth);
      && ViewRecords(r) == ViewRecords(last) + [Touch(a)]
      && Anchored(r) && r[0].depth == last[0].depth
    ensures var r := AppendStorageAccess(last, a, depth);
      && |last| <= |r| <= |last| + 1
      && (forall j :: 0 <= j < |last| ==> Context(r[j]) == Context(last[j]))
      && (|r| > |last| ==>
            && Context(r[|last|]) == (Resume, last[0].accessor, last[0].account, last[0].depth, last[0].reverted)
            && r[|last|].storageAccesses == [a])
      && (|r| > |last| <==> |last| > 1 && !last[|last| - 1].kind.Resume?)
  {
    var front, tail := last[..|last| - 1], last[|last| - 1];
    assert last == front + [tail];
    if |last| == 1 || tail.kind.Resume? {
      assert AppendStorageAccess(last, a, depth)
          == front + [tail.(storageAccesses := tail.storageAccesses + [a])];
      ExtendLast(front, tail, a);
    } else {
      var resumed := AccountAccess(Resume, last[0].accessor, last[0].account, last[0].depth,
                                   last[0].reverted, [a]);
      assert AppendStorageAccess(last, a, depth) == last + [resumed];
      assert ViewRecord(resumed) == [Touch(a)];
      ViewRecordsSnoc(last, resumed);
    }
  }

  lemma {:induction false} AnchoredView(l: Records)
    requires Anchored(l)
    ensures ViewRecords(l) != []
  {
    if |l| > 1 {
      AnchoredView(l[..|l| - 1]);
    }
  }

  lemma {:induction false} ViewMarked(l: Records)
    ensures ViewRecords(MarkRecords(l)) == MarkFrom(ViewRecords(l), 0)
  {
    if l != [] {
      var front, tail := l[..|l| - 1], l[|l| - 1];
      ViewMarked(front);
      assert MarkRecords(l)[..|l| - 1] == MarkRecords(front);
      ViewRecordMarked(tail);
      MarkConcat(ViewRecords(front), ViewRecord(tail));
    }
  }

  lemma ViewRecordMarked(r: AccountAccess)
    ensures ViewRecord(MarkRecord(r)) == MarkFrom(ViewRecord(r), 0)
  {
  }

  lemma MarkConcat(a: seq<Entry>, b: seq<Entry>)
    ensures MarkFrom(a + b, 0) == MarkFrom(a, 0) + MarkFrom(b, 0)
  {
  }

  lemma MarkSuffix(a: seq<Entry>, b: seq<Entry>)
    ensures MarkFrom(a + b, |a|) == a + MarkFrom(b, 0)
  {
  }

  // ---------------------------------------------------------------- one lemma per hook

  /** Extending the top list by one entry. */
  lemma RefinesTop(stack: seq<Records>, f: Flat, depth: int, top: Records, e: Entry)
    requires Refines(stack, f, depth) && stack != []
    requires Anchored(top) && top[0].depth == stack[|stack| - 1][0].depth
    requires ViewRecords(top) == ViewRecords(stack[|stack| - 1]) + [e]
    ensures Refines(stack[|stack| - 1 := top], f.(log := f.log + [e]), depth)
  {
    ShapeTop(stack, |f.cuts|, depth, top);
    CutTop(stack, f, top, e);
  }

  lemma ShapeTop(stack: seq<Records>, r: nat, depth: int, top: Records)
    requires Shape(stack, r, depth) && stack != []
    requires Anchored(top) && top[0].depth == stack[|stack| - 1][0].depth
    ensures Shape(stack[|stack| - 1 := top], r, depth)
  {
  }

  lemma CutTop(stack: seq<Records>, f: Flat, top: Records, e: Entry)
    requires Cut(stack, f) && stack != []
    requires ViewRecords(top) == ViewRecords(stack[|stack| - 1]) + [e]
    ensures Cut(stack[|stack| - 1 := top], f.(log := f.log + [e]))
  {
    var n := |stack| - 1;
    var stack' := stack[n := top];
    BelowSame(stack, stack', n);
    assert Below(stack', n + 1) == Below(stack, n) + (ViewRecords(stack[n]) + [e]);
    assert Below(stack', n + 1) == Below(stack, n + 1) + [e];
    CutsSame(stack, stack', |stack| - |f.cuts|, f.cuts);
  }

  /** The cuts of a stack only depend on the lists below the last one that has a cut. */
  lemma CutsSame(stack: seq<Records>, stack': seq<Records>, b: nat, cuts: seq<nat>)
    requires CutsAt(stack, b, cuts) && b + |cuts| <= |stack'| + 1
    requires forall i :: 0 <= i < b + |cuts| - 1 ==> stack[i] == stack'[i]
    ensures CutsAt(stack', b, cuts)
  {
    forall j | b <= j < b + |cuts| ensures StartsAt(stack', b, cuts, j) {
      assert StartsAt(stack, b, cuts, j);
      BelowSame(stack, stack', j);
    }
  }

  lemma RefinesEnter(stack: seq<Records>, f: Flat, evm: Evm, e: Event)
    requires e.Enter? && Refines(stack, f, evm.Depth())
    ensures Refines(RecordStep(stack, evm, e), FlatStep(f, evm, e), evm.Depth() + 1)
  {
    var record := AccountAccess(Entered(e.scheme), e.accessor, e.account, evm.Depth(), false, []);
    ViewRecordsSnoc([], record);
    assert [] + [record] == [record];
    ShapePush(stack, |f.cuts|, evm.Depth(), record);
    CutPush(stack, f, [record], Header(Entered(e.scheme), e.accessor, e.account, evm.Depth(), false));
  }

  lemma ShapePush(stack: seq<Records>, r: nat, depth: nat, record: AccountAccess)
    requires Shape(stack, r, depth) && record.depth == depth && !record.kind.Resume?
    ensures Shape(stack + [[record]], r + 1, depth + 1)
  {
  }

  lemma CutPush(stack: seq<Records>, f: Flat, l: Records, e: Entry)
    requires Cut(stack, f) && ViewRecords(l) == [e]
    ensures Cut(stack + [l], Flat(f.log + [e], f.cuts + [|f.log|]))
  {
    var n, stack', b := |stack|, stack + [l], |stack| - |f.cuts|;
    var cuts := f.cuts + [|f.log|];
    BelowSame(stack, stack', n);
    assert Below(stack', n + 1) == f.log + [e];
    forall j | b <= j < b + |cuts| ensures StartsAt(stack, b, cuts, j) {
      assert j < n ==> StartsAt(stack, b, f.cuts, j);
    }
    CutsSame(stack, stack', b, cuts);
  }

  lemma RefinesAccess(stack: seq<Records>, f: Flat, evm: Evm, e: Event)
    requires (e.Sload? || e.Sstore?) && Refines(stack, f, evm.Depth())
    ensures Refines(RecordStep(stack, evm, e), FlatStep(f, evm, e), evm.Depth())
  {
    if stack != [] {
      var last := stack[|stack| - 1];
      if f.cuts == [] {
        assert RecordStep(stack, evm, e) == stack;
      } else {
        var a := StorageAccessOf(evm, e);
        AppendView(last, a, evm.Depth());
        RefinesTop(stack, f, evm.Depth(), AppendStorageAccess(last, a, evm.Depth()), Touch(a));
      }
    }
  }

  lemma EmptyLog(stack: seq<Records>, f: Flat, depth: int)
    requires Refines(stack, f, depth)
    ensures f.log == [] <==> stack == []
  {
    if stack != [] {
      AnchoredView(stack[|stack| - 1]);
    }
  }

  lemma RefinesAccount(stack: seq<Records>, f: Flat, evm: Evm, e: Event)
    requires (e.Ext? || e.SelfDestruct?) && Refines(stack, f, evm.Depth())
    ensures Refines(RecordStep(stack, evm, e), FlatStep(f, evm, e), evm.Depth())
  {
    EmptyLog(stack, f, evm.Depth());
    var kind := if e.Ext? then Queried(e.query) else SelfDestructed;
    var record := AccountAccess(kind, e.accessor, e.account, evm.Depth(), false, []);
    var entry := Header(kind, e.accessor, e.account, evm.Depth(), false);
    assert ViewRecord(record) == [entry];
    if stack != [] {
      var last := stack[|stack| - 1];
      ViewRecordsSnoc(last, record);
      RefinesTop(stack, f, evm.Depth(), last + [record], entry);
    } else if e.Ext? {
      RefinesFirst(f, evm.Depth(), record, entry);
    }
  }

  lemma RefinesFirst(f: Flat, depth: nat, record: AccountAccess, e: Entry)
    requires Refines([], f, depth) && ViewRecord(record) == [e]
    requires record.depth == depth && !record.kind.Resume?
    ensures Refines([[record]], f.(log := [e]), depth)
  {
    assert [record][..0] == [];
    assert ViewRecords([record]) == [e];
    assert Below([[record]], 0) == [];
    assert Below([[record]], 1) == [e];
  }

  lemma ShapeExit(stack: seq<Records>, r: nat, depth: nat, isRevert: bool)
    requires depth > 1 && Shape(stack, r, depth)
    ensures Shape(EndFrame(stack, depth - 1, isRevert), if r == 0 then 0 else r - 1, depth - 1)
  {
  }

  function Merge(rest: seq<Records>, l: Records): seq<Records> {
    if rest == [] then [l] else rest[|rest| - 1 := rest[|rest| - 1] + l]
  }

  lemma MergeBelow(rest: seq<Records>, l: Records)
    ensures var stack' := Merge(rest, l);
      Below(stack', |stack'|) == Below(rest, |rest|) + ViewRecords(l)
  {
    var stack' := Merge(rest, l);
    if rest != [] {
      var n := |rest| - 1;
      BelowSame(rest, stack', n);
      ViewRecordsConcat(rest[n], l);
      assert stack'[n] == rest[n] + l;
      assert Below(stack', n + 1) == Below(rest, n) + ViewRecords(rest[n] + l);
      assert Below(rest, n) + (ViewRecords(rest[n]) + ViewRecords(l)) == Below(rest, n + 1) + ViewRecords(l);
    } else {
      assert Below(stack', 0) == [];
      assert Below(stack', 1) == [] + ViewRecords(l);
    }
  }

  lemma EndFrameMerges(stack: seq<Records>, depth: nat, isRevert: bool)
    requires depth > 0 && stack != [] && stack[|stack| - 1] != []
    ensures var ended := stack[|stack| - 1];
      EndFrame(stack, depth, isRevert) ==
        Merge(stack[..|stack| - 1], if isRevert then MarkRecords(ended) else ended)
  {
  }

  /** The merge in reported order: popping, marking and appending only marks a suffix. */
  lemma MergeView(stack: seq<Records>, depth: nat, isRevert: bool)
    requires depth > 0 && stack != [] && stack[|stack| - 1] != []
    ensures var stack', log := EndFrame(stack, depth, isRevert), Below(stack, |stack|);
      var from := |Below(stack, |stack| - 1)|;
      Below(stack', |stack'|) == if isRevert then MarkFrom(log, from) else log
  {
    var rest, ended := stack[..|stack| - 1], stack[|stack| - 1];
    EndFrameMerges(stack, depth, isRevert);
    BelowSame(stack, rest, |rest|);
    if isRevert {
      MergeBelow(rest, MarkRecords(ended));
      ViewMarked(ended);
      MarkSuffix(Below(stack, |rest|), ViewRecords(ended));
    } else {
      MergeBelow(rest, ended);
    }
  }

  lemma MergeKeepsCuts(stack: seq<Records>, f: Flat, l: Records, log: seq<Entry>)
    requires Cut(stack, f) && stack != []
    requires var stack' := Merge(stack[..|stack| - 1], l); Below(stack', |stack'|) == log
    requires |stack| == 1 ==> |f.cuts| <= 1
    ensures Cut(Merge(stack[..|stack| - 1], l), Flat(log, DropLast(f.cuts)))
  {
    var stack', b, cuts := Merge(stack[..|stack| - 1], l), |stack| - |f.cuts|, DropLast(f.cuts);
    if f.cuts != [] {
      forall j | b <= j < b + |cuts| ensures StartsAt(stack, b, cuts, j) {
        assert StartsAt(stack, b, f.cuts, j);
      }
      CutsSame(stack, stack', b, cuts);
    }
  }

  /** The entries of the frame that ends start at the last cut; with no cut they are all there is. */
  lemma LastCut(stack: seq<Records>, cuts: seq<nat>)
    requires stack != [] && |cuts| <= |stack| && CutsAt(stack, |stack| - |cuts|, cuts) && (cuts == [] ==> |stack| == 1)
    ensures |Below(stack, |stack| - 1)| == if cuts == [] then 0 else cuts[|cuts| - 1]
  {
    if cuts == [] {
      assert Below(stack, 0) == [];
    } else {
      assert StartsAt(stack, |stack| - |cuts|, cuts, |stack| - 1);
    }
  }

  lemma CutExit(stack: seq<Records>, f: Flat, depth: nat, isRevert: bool)
    requires depth > 1 && Cut(stack, f) && stack != [] && stack[|stack| - 1] != []
    requires f.cuts == [] ==> |stack| == 1
    ensures var from := if f.cuts == [] then 0 else f.cuts[|f.cuts| - 1];
      Cut(EndFrame(stack, depth - 1, isRevert),
          Flat(if isRevert then MarkFrom(f.log, from) else f.log, DropLast(f.cuts)))
  {
    var from := if f.cuts == [] then 0 else f.cuts[|f.cuts| - 1];
    var l := MergedView(stack, f, depth - 1, isRevert);
    MergeKeepsCuts(stack, f, l, if isRevert then MarkFrom(f.log, from) else f.log);
  }

  /** The list that is merged, and what the merge reads like. */
  lemma MergedView(stack: seq<Records>, f: Flat, depth: nat, isRevert: bool) returns (l: Records)
    requires depth > 0 && Cut(stack, f) && stack != [] && stack[|stack| - 1] != []
    requires f.cuts == [] ==> |stack| == 1
    ensures EndFrame(stack, depth, isRevert) == Merge(stack[..|stack| - 1], l)
    ensures var stack' := Merge(stack[..|stack| - 1], l);
      var from := if f.cuts == [] then 0 else f.cuts[|f.cuts| - 1];
      Below(stack', |stack'|) == if isRevert then MarkFrom(f.log, from) else f.log
  {
    var ended := stack[|stack| - 1];
    LastCut(stack, f.cuts);
    l := if isRevert then MarkRecords(ended) else ended;
    EndFrameMerges(stack, depth, isRevert);
    MergeView(stack, depth, isRevert);
  }

  lemma RefinesExit(stack: seq<Records>, f: Flat, evm: Evm, e: Event)
    requires e.Exit? && evm.Depth() > 0 && Refines(stack, f, evm.Depth())
    ensures Refines(RecordStep(stack, evm, e), FlatStep(f, evm, e), evm.Depth() - 1)
  {
    if evm.Depth() > 1 {
      RefinesInnerExit(stack, f, evm.Depth(), e.isRevert);
    } else {
      RefinesRootExit(stack, f);
    }
  }

  lemma RefinesInnerExit(stack: seq<Records>, f: Flat, depth: nat, isRevert: bool)
    requires depth > 1 && Refines(stack, f, depth)
    ensures var from := if f.cuts == [] then 0 else f.cuts[|f.cuts| - 1];
      Refines(EndFrame(stack, depth - 1, isRevert),
              Flat(if isRevert then MarkFrom(f.log, from) else f.log, DropLast(f.cuts)), depth - 1)
  {
    ShapeExit(stack, |f.cuts|, depth, isRevert);
    if stack != [] {
      CutExit(stack, f, depth, isRevert);
    }
  }

  lemma RefinesRootExit(stack: seq<Records>, f: Flat)
    requires Refines(stack, f, 1)
    ensures Refines(stack, Flat(f.log, DropLast(f.cuts)), 0)
  {
  }

  lemma RefinesStep(s: State, f: Flat, e: Event)
    requires Legal(e, s.evm.Depth()) && Refines(s.stack, f, s.evm.Depth())
    ensures Refines(Step(s, e).stack, FlatStep(f, s.evm, e), Step(s, e).evm.Depth())
  {
    match e {
      case Enter(_, _, _) => RefinesEnter(s.stack, f, s.evm, e);
      case Exit(_) => RefinesExit(s.stack, f, s.evm, e);
      case Ext(_, _, _) => RefinesAccount(s.stack, f, s.evm, e);
      case SelfDestruct(_, _) => RefinesAccount(s.stack, f, s.evm, e);
      case Sload(_, _) => RefinesAccess(s.stack, f, s.evm, e);
      case Sstore(_, _, _) => RefinesAccess(s.stack, f, s.evm, e);
    }
  }
}
