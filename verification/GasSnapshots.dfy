/**
  `snapshotGas*`: starting, metering and stopping a gas snapshot. The code keeps a list of records,
  the name of the active snapshot and a recording flag; over every run of the three operations these
  stay in step, and what a snapshot reads is determined by the metered opcodes alone.
 */
module GasSnapshots {
  import opened Options

  datatype Outcome<+T> = Ok(value: T) | Bail | Panic

  const U64_MAX: nat := 0xFFFF_FFFF_FFFF_FFFF
  /** Gas charged by the snapshot cheatcode itself. */
  const SNAPSHOT_OVERHEAD: nat := 171

  function SaturatingSub(a: nat, b: nat): nat {
    if a >= b then a - b else 0
  }

  function SaturatingAdd(a: nat, b: nat): nat {
    if a + b > U64_MAX then U64_MAX else a + b
  }

  datatype GasRecord = GasRecord(group: string, name: string, gasUsed: nat, depth: nat)

  /** The snapshot part of `GasMetering`, with the snapshots written so far. */
  datatype Meter = Meter(
    active: Option<(string, string)>, recording: bool, lastGasUsed: nat,
    records: seq<GasRecord>, snapshots: map<string, map<string, nat>>)

  predicate Named(r: GasRecord, group: string, name: string) {
    r.group == group && r.name == name
  }

  // ---------------------------------------------------------------- specification

  function Derive(running: string, group: Option<string>, name: Option<string>): (string, string) {
    (if group.Some? then group.value else running, if name.Some? then name.value else "default")
  }

  function Started(m: Meter, running: string, group: Option<string>, name: Option<string>, depth: nat): Meter {
    if m.active.Some? then m
    else
      var id := Derive(running, group, name);
      m.(active := Some(id), recording := true, records := m.records + [GasRecord(id.0, id.1, 0, depth)])
  }

  /** `retain(|r| r.group != group && r.name != name)` */
  function Retain(records: seq<GasRecord>, group: string, name: string): seq<GasRecord> {
    if records == [] then []
    else
      var r := records[|records| - 1];
      Retain(records[..|records| - 1], group, name) + if r.group != group && r.name != name then [r] else []
  }

  /** Removing the records of one snapshot and no other. */
  function Without(records: seq<GasRecord>, group: string, name: string): seq<GasRecord> {
    if records == [] then []
    else
      var r := records[|records| - 1];
      Without(records[..|records| - 1], group, name) + if !Named(r, group, name) then [r] else []
  }

  /** Which snapshot a stop refers to: both names, or else the active one (`unwrap` panics if none). */
  function Target(m: Meter, group: Option<string>, name: Option<string>): Option<(string, string)> {
    if group.Some? && name.Some? then Some((group.value, name.value)) else m.active
  }

  function Find(records: seq<GasRecord>, group: string, name: string): (i: nat)
    ensures i <= |records|
    ensures i < |records| ==> Named(records[i], group, name)
    ensures forall j :: 0 <= j < i ==> !Named(records[j], group, name)
  {
    if records == [] then 0
    else
      var i := Find(records[..|records| - 1], group, name);
      if i < |records| - 1 || Named(records[|records| - 1], group, name) then i else |records|
  }

  function Insert(snapshots: map<string, map<string, nat>>, group: string, name: string, v: nat)
    : map<string, map<string, nat>>
  {
    snapshots[group := (if group in snapshots then snapshots[group] else map[])[name := v]]
  }

  function Stopped(m: Meter, group: Option<string>, name: Option<string>): (Meter, Outcome<nat>) {
    match Target(m, group, name)
    case None => (m, Panic)
    case Some(id) =>
      var i := Find(m.records, id.0, id.1);
      if i == |m.records| then (m, Bail)
      else
        var value := SaturatingSub(m.records[i].gasUsed, SNAPSHOT_OVERHEAD);
        (Meter(if m.active == Some(id) then None else m.active, false, m.lastGasUsed,
               Retain(m.records, id.0, id.1), Insert(m.snapshots, id.0, id.1, value)),
         Ok(value))
  }

  function MeterRecords(records: seq<GasRecord>, last: nat, spent: nat, depth: nat): (seq<GasRecord>, nat) {
    if records == [] then ([], last)
    else
      var r := records[|records| - 1];
      var (front, last') := MeterRecords(records[..|records| - 1], last, spent, depth);
      if r.depth != depth then (front + [r], last')
      else
        var used := if last' != 0 then SaturatingAdd(r.gasUsed, SaturatingSub(spent, last')) else r.gasUsed;
        (front + [r.(gasUsed := used)], spent)
  }

  function Metered(m: Meter, spent: nat, depth: nat): Meter {
    if !m.recording then m
    else
      var (records, last) := MeterRecords(m.records, m.lastGasUsed, spent, depth);
      m.(records := records, lastGasUsed := last)
  }

  // ---------------------------------------------------------------- the object

  class GasMetering {
    var active: Option<(string, string)>
    var recording: bool
    var lastGasUsed: nat
    var records: seq<GasRecord>
    var snapshots: map<string, map<string, nat>>

    function State(): Meter
      reads this
    {
      Meter(active, recording, lastGasUsed, records, snapshots)
    }

    constructor ()
      ensures State() == Meter(None, false, 0, [], map[])
    {
      active, recording, lastGasUsed, records, snapshots := None, false, 0, [], map[];
    }

    method StartSnapshot(running: string, group: Option<string>, name: Option<string>, depth: nat)
      returns (r: Outcome<()>)
      modifies this
      ensures State() == Started(old(State()), running, group, name, depth)
      ensures r == if old(active).Some? then Bail else Ok(())
    {
      if active.Some? {
        return Bail;
      }
      var id := Derive(running, group, name);
      records := records + [GasRecord(id.0, id.1, 0, depth)];
      active := Some(id);
      recording := true;
      return Ok(());
    }

    method StopSnapshot(group: Option<string>, name: Option<string>) returns (r: Outcome<nat>)
      modifies this
      ensures (State(), r) == Stopped(old(State()), group, name)
    {
      var target := Target(State(), group, name);
      if target.None? {
        return Panic;
      }
      var id := target.value;
      var i := FindRecord(id.0, id.1);
      if i == |records| {
        return Bail;
      }
      var value := SaturatingSub(records[i].gasUsed, SNAPSHOT_OVERHEAD);
      var kept := RetainRecords(id.0, id.1);
      snapshots := Insert(snapshots, id.0, id.1, value);
      recording := false;
      records := kept;
      if active == Some(id) {
        active := None;
      }
      return Ok(value);
    }

    method FindRecord(group: string, name: string) returns (i: nat)
      ensures i == Find(records, group, name)
    {
      i := 0;
      while i < |records| && !Named(records[i], group, name)
        invariant i <= |records|
        invariant forall j :: 0 <= j < i ==> !Named(records[j], group, name)
      {
        i := i + 1;
      }
    }

    method RetainRecords(group: string, name: string) returns (kept: seq<GasRecord>)
      ensures kept == Retain(records, group, name)
    {
      kept := [];
      for i := 0 to |records|
        invariant kept == Retain(records[..i], group, name)
      {
        assert records[..i + 1][..i] == records[..i];
        if records[i].group != group && records[i].name != name {
          kept := kept + [records[i]];
        }
      }
      assert records[..|records|] == records;
    }

    /** One opcode of a frame that is still executing. */
    method MeterOpcode(spent: nat, depth: nat)
      modifies this
      ensures State() == Metered(old(State()), spent, depth)
    {
      if recording {
        ghost var before, last := records, lastGasUsed;
        var metered: seq<GasRecord> := [];
        for i := 0 to |records|
          invariant records == before && unchanged(`active) && unchanged(`recording) && unchanged(`snapshots)
          invariant (metered, lastGasUsed) == MeterRecords(before[..i], last, spent, depth)
        {
          assert before[..i + 1][..i] == before[..i];
          var record := records[i];
          if depth == record.depth {
            if lastGasUsed != 0 {
              record := record.(gasUsed := SaturatingAdd(record.gasUsed, SaturatingSub(spent, lastGasUsed)));
            }
            lastGasUsed := spent;
          }
          metered := metered + [record];
        }
        assert before[..|before|] == before;
        records := metered;
      }
    }
  }

  // ---------------------------------------------------------------- every run

  datatype Event =
    | Start(group: Option<string>, name: Option<string>, depth: nat)
    | Stop(group: Option<string>, name: Option<string>)
    | Opcode(spent: nat, depth: nat)

  function Step(m: Meter, running: string, e: Event): Meter {
    match e
    case Start(group, name, depth) => Started(m, running, group, name, depth)
    case Stop(group, name) => Stopped(m, group, name).0
    case Opcode(spent, depth) => Metered(m, spent, depth)
  }

  function Run(m: Meter, running: string, evs: seq<Event>): Meter {
    if evs == [] then m else Step(Run(m, running, evs[..|evs| - 1]), running, evs[|evs| - 1])
  }

  const Initial := Meter(None, false, 0, [], map[])

  /** At most one record, present exactly while its snapshot is active and recording is on. */
  predicate InStep(m: Meter) {
    && m.recording == m.active.Some?
    && match m.active
       case None => m.records == []
       case Some(id) => |m.records| == 1 && Named(m.records[0], id.0, id.1)
  }

  lemma RetainSingle(r: GasRecord, group: string, name: string)
    ensures Retain([r], group, name) == if r.group != group && r.name != name then [r] else []
  {
    assert [r][..0] == [];
  }

  lemma MeterSingle(r: GasRecord, last: nat, spent: nat, depth: nat)
    ensures MeterRecords([r], last, spent, depth) ==
      if r.depth != depth then ([r], last)
      else
        ([r.(gasUsed := if last != 0 then SaturatingAdd(r.gasUsed, SaturatingSub(spent, last)) else r.gasUsed)], spent)
  {
    assert [r][..0] == [];
    assert MeterRecords([r][..0], last, spent, depth) == ([], last);
    var r' := r.(gasUsed := if last != 0 then SaturatingAdd(r.gasUsed, SaturatingSub(spent, last)) else r.gasUsed);
    assert [] + [r] == [r] && [] + [r'] == [r'];
  }

  lemma StepInStep(m: Meter, running: string, e: Event)
    requires InStep(m)
    ensures InStep(Step(m, running, e))
  {
    match e {
      case Start(_, _, _) =>
      case Stop(group, name) =>
        if m.active.Some? {
          assert m.records == [m.records[0]];
          var id := Target(m, group, name).value;
          RetainSingle(m.records[0], id.0, id.1);
        }
      case Opcode(spent, depth) =>
        if m.active.Some? {
          assert m.records == [m.records[0]];
          MeterSingle(m.records[0], m.lastGasUsed, spent, depth);
        }
    }
  }

  lemma {:induction false} AlwaysInStep(running: string, evs: seq<Event>)
    ensures InStep(Run(Initial, running, evs))
  {
    if evs != [] {
      AlwaysInStep(running, evs[..|evs| - 1]);
      StepInStep(Run(Initial, running, evs[..|evs| - 1]), running, evs[|evs| - 1]);
    }
  }

  /** What has been written under a group and a name. */
  function Written(m: Meter, group: string, name: string): Option<nat> {
    if group in m.snapshots && name in m.snapshots[group] then Some(m.snapshots[group][name]) else None
  }

  lemma InsertWrites(m: Meter, id: (string, string), v: nat)
    ensures var m' := m.(snapshots := Insert(m.snapshots, id.0, id.1, v));
      Written(m', id.0, id.1) == Some(v) && forall g, n :: (g, n) != id ==> Written(m', g, n) == Written(m, g, n)
  {
  }

  /**
    In every reachable state a stop succeeds exactly when a snapshot is active and the stop names that one
    or does not name one in full; it then removes exactly that record, clears the active snapshot, stops
    recording, and writes the gas less the overhead under that group and name, keeping whatever is written
    under others. It panics exactly when nothing is active and a name is missing, and otherwise changes
    nothing.
   */
  lemma StopIsExact(running: string, evs: seq<Event>, group: Option<string>, name: Option<string>)
    ensures var m := Run(Initial, running, evs);
      var (m', r) := Stopped(m, group, name);
      && (r.Ok? <==> m.active.Some? && (group.Some? && name.Some? ==> m.active.value == (group.value, name.value)))
      && (r.Ok? ==>
            && m'.active == None && !m'.recording && m'.records == []
            && m'.records == Without(m.records, m.active.value.0, m.active.value.1)
            && m.records != [] && r.value == (if m.records[0].gasUsed < 171 then 0 else m.records[0].gasUsed - 171)
            && Written(m', m.active.value.0, m.active.value.1) == Some(r.value)
            && forall g, n :: (g, n) != m.active.value ==> Written(m', g, n) == Written(m, g, n))
      && (r.Panic? <==> m.active.None? && (group.None? || name.None?))
      && (!r.Ok? ==> m' == m)
  {
    AlwaysInStep(running, evs);
    var m := Run(Initial, running, evs);
    StopWhileActive(m, group, name);
    if Stopped(m, group, name).1.Ok? {
      StopWrites(m, group, name);
    }
  }

  lemma StopWhileActive(m: Meter, group: Option<string>, name: Option<string>)
    requires InStep(m)
    ensures var (m', r) := Stopped(m, group, name);
      && (r.Ok? <==> m.active.Some? && Target(m, group, name) == m.active)
      && (r.Ok? ==> m'.records == [] == Without(m.records, m.active.value.0, m.active.value.1) && m'.active == None)
  {
    if m.active.Some? {
      assert m.records == [m.records[0]] && m.records[..0] == [];
      var id := Target(m, group, name).value;
      RetainSingle(m.records[0], id.0, id.1);
    }
  }

  lemma StopWrites(m: Meter, group: Option<string>, name: Option<string>)
    requires Stopped(m, group, name).1.Ok?
    ensures var (m', r) := Stopped(m, group, name);
      var id := Target(m, group, name).value;
      && Written(m', id.0, id.1) == Some(r.value)
      && forall g, n :: (g, n) != id ==> Written(m', g, n) == Written(m, g, n)
  {
    InsertWrites(m, Target(m, group, name).value, Stopped(m, group, name).1.value);
  }

  /** On arbitrary record lists the `retain` with `&&` is exact if and only if no record shares just
      the group or just the name with the stopped one. */
  lemma {:induction false} RetainExactly(records: seq<GasRecord>, group: string, name: string)
    ensures |Retain(records, group, name)| <= |Without(records, group, name)|
    ensures Retain(records, group, name) == Without(records, group, name) <==>
      forall i :: 0 <= i < |records| ==> (records[i].group == group <==> records[i].name == name)
  {
    if records != [] {
      var front, r := records[..|records| - 1], records[|records| - 1];
      RetainExactly(front, group, name);
      var kept, exact := Retain(records, group, name), Without(records, group, name);
      assert records == front + [r];
      if (r.group == group) != (r.name == name) {
        assert |kept| < |exact| && records[|front|] == r;
      } else if !Named(r, group, name) {
        assert kept == Retain(front, group, name) + [r] && exact == Without(front, group, name) + [r];
        assert kept == exact ==> kept[..|kept| - 1] == exact[..|exact| - 1];
      } else {
        assert kept == Retain(front, group, name) && exact == Without(front, group, name);
      }
    }
  }

  // ---------------------------------------------------------------- what a snapshot reads

  /** The gas counters of the opcodes at one depth. */
  function Spents(evs: seq<Event>, depth: nat): seq<nat> {
    if evs == [] then []
    else
      var e := evs[|evs| - 1];
      Spents(evs[..|evs| - 1], depth) + if e.Opcode? && e.depth == depth then [e.spent] else []
  }

  /** The rises of a gas counter, one after the other, from `last`. A counter of zero counts as none,
      and one that falls, as when another frame at that depth begins, adds nothing. */
  function Rises(last: nat, ss: seq<nat>): nat {
    if ss == [] then 0
    else
      var before := ss[..|ss| - 1];
      Rises(last, before) + Rise(Latest(last, before), ss[|ss| - 1])
  }

  function Rise(from: nat, to: nat): nat {
    if from == 0 then 0 else SaturatingSub(to, from)
  }

  function Latest(last: nat, ss: seq<nat>): nat {
    if ss == [] then last else ss[|ss| - 1]
  }

  function Cap(n: nat): nat {
    if n > U64_MAX then U64_MAX else n
  }

  /** The one record after metering the counters `ss` at its depth, started with `last` left over. */
  ghost predicate Reads(m: Meter, id: (string, string), last: nat, depth: nat, ss: seq<nat>) {
    && InStep(m) && m.active == Some(id)
    && m.records[0].depth == depth
    && m.lastGasUsed == Latest(last, ss)
    && m.records[0].gasUsed == Cap(Rises(last, ss))
  }

  lemma ReadsOpcode(m: Meter, id: (string, string), last: nat, depth: nat, ss: seq<nat>, spent: nat, d: nat)
    requires Reads(m, id, last, depth, ss)
    ensures Reads(Metered(m, spent, d), id, last, depth, if d == depth then ss + [spent] else ss)
  {
    assert m.records == [m.records[0]];
    MeterSingle(m.records[0], m.lastGasUsed, spent, d);
    assert (ss + [spent])[..|ss|] == ss;
  }

  /** An event that does not end the snapshot: not a stop, or a stop that names another one. */
  predicate Within(e: Event, id: (string, string)) {
    e.Stop? ==> e.group.Some? && e.name.Some? && (e.group.value, e.name.value) != id
  }

  lemma ReadsStep(m: Meter, id: (string, string), last: nat, depth: nat, ss: seq<nat>, running: string, e: Event)
    requires Reads(m, id, last, depth, ss) && Within(e, id)
    ensures Reads(Step(m, running, e), id, last, depth, if e.Opcode? && e.depth == depth then ss + [e.spent] else ss)
  {
    if e.Opcode? {
      ReadsOpcode(m, id, last, depth, ss, e.spent, e.depth);
    } else if e.Stop? {
      assert !Named(m.records[0], e.group.value, e.name.value);
      assert Step(m, running, e) == m;
    } else {
      assert Step(m, running, e) == m;
    }
  }

  lemma {:induction false} MeterRises(m: Meter, id: (string, string), running: string, evs: seq<Event>, depth: nat)
    requires Reads(m, id, m.lastGasUsed, depth, [])
    requires forall i :: 0 <= i < |evs| ==> Within(evs[i], id)
    ensures Reads(Run(m, running, evs), id, m.lastGasUsed, depth, Spents(evs, depth))
  {
    if evs != [] {
      var front, e := evs[..|evs| - 1], evs[|evs| - 1];
      MeterRises(m, id, running, front, depth);
      var ss := Spents(front, depth);
      ReadsStep(Run(m, running, front), id, m.lastGasUsed, depth, ss, running, e);
      assert Spents(evs, depth) == if e.Opcode? && e.depth == depth then ss + [e.spent] else ss;
    }
  }

  /**
    What a snapshot reads, over any events that do not end it: the rises of the gas counter at its
    depth, from the counter an earlier snapshot left behind, up to the 64-bit limit, less the overhead.
    The group is the given one or the running contract, the name the given one or "default"; the snapshot
    is stopped by that group and name, or by none.
   */
  lemma SnapshotReading(
    m: Meter, running: string, evs: seq<Event>, group: Option<string>, name: Option<string>, depth: nat,
    id: (string, string))
    requires InStep(m) && m.active.None?
    requires id.0 == (if group.Some? then group.value else running)
    requires id.1 == (if name.Some? then name.value else "default")
    requires forall i :: 0 <= i < |evs| ==> Within(evs[i], id)
    ensures var m' := Run(Started(m, running, group, name, depth), running, evs);
      && Stopped(m', Some(id.0), Some(id.1)) == Stopped(m', None, None)
      && Stopped(m', None, None).1 == Ok(SaturatingSub(Cap(Rises(m.lastGasUsed, Spents(evs, depth))), 171))
      && m'.active == Some(id)
  {
    var m' := Started(m, running, group, name, depth);
    MeterRises(m', id, running, evs, depth);
    StopReads(Run(m', running, evs), id, m.lastGasUsed, depth, Spents(evs, depth));
  }

  lemma StopReads(m: Meter, id: (string, string), last: nat, depth: nat, ss: seq<nat>)
    requires Reads(m, id, last, depth, ss)
    ensures Stopped(m, Some(id.0), Some(id.1)) == Stopped(m, None, None)
    ensures Stopped(m, None, None).1 == Ok(SaturatingSub(Cap(Rises(last, ss)), 171))
  {
  }

  // ---------------------------------------------------------------- when the reading is the gas used

  predicate Growing(ss: seq<nat>) {
    && (forall i :: 0 <= i < |ss| ==> 0 < ss[i] <= U64_MAX)
    && (forall i, j :: 0 <= i < j < |ss| ==> ss[i] <= ss[j])
  }

  /** Growing counters telescope. */
  lemma {:induction false} RisesTelescope(last: nat, ss: seq<nat>)
    requires ss != [] && Growing(ss)
    ensures Rises(last, ss) == ss[|ss| - 1] - ss[0] + Rise(last, ss[0])
  {
    var before := ss[..|ss| - 1];
    if before == [] {
      assert Rises(last, before) == 0;
    } else {
      RisesTelescope(last, before);
    }
  }

  /**
    Over opcodes whose gas counter grows, the snapshot counts the gas spent between the first and the
    last of them if and only if no smaller counter was left behind by an earlier snapshot; otherwise it
    also counts what was spent since that earlier counter.
   */
  lemma ReadingIsGasUsed(last: nat, ss: seq<nat>)
    requires ss != [] && Growing(ss)
    ensures Cap(Rises(last, ss)) == ss[|ss| - 1] - ss[0] + Rise(last, ss[0])
    ensures Cap(Rises(last, ss)) == ss[|ss| - 1] - ss[0] <==> last == 0 || last >= ss[0]
  {
    RisesTelescope(last, ss);
    assert ss[0] <= ss[|ss| - 1] <= U64_MAX;
  }

  lemma RunSnoc(m: Meter, running: string, evs: seq<Event>, e: Event)
    ensures Run(m, running, evs + [e]) == Step(Run(m, running, evs), running, e)
  {
    assert (evs + [e])[..|evs|] == evs;
  }

  /** A run in which it does: the second snapshot meters a single opcode and still reads the 4900 spent
      since the first one ended. */
  lemma LeftoverCounterIsRead(running: string)
    ensures var evs := [Start(None, None, 1), Opcode(100, 1), Stop(None, None), Start(None, None, 1)];
      && Run(Initial, running, evs).active.Some?
      && Spents([Opcode(5000, 1)], 1) == [5000]
      && Stopped(Run(Initial, running, evs + [Opcode(5000, 1)]), None, None).1 == Ok(4729)
  {
    var first := [Start(None, None, 1), Opcode(100, 1), Stop(None, None)];
    var m := Run(Initial, running, first);
    FirstSnapshotLeaves(running);
    RunSnoc(Initial, running, first, Start(None, None, 1));
    var evs := [Start(None, None, 1), Opcode(100, 1), Stop(None, None), Start(None, None, 1)];
    assert evs == first + [Start(None, None, 1)];
    var m' := Run(Initial, running, evs);
    assert m'.records == [GasRecord(running, "default", 0, 1)];
    RunSnoc(Initial, running, evs, Opcode(5000, 1));
    MeterSingle(m'.records[0], 100, 5000, 1);
    assert [Opcode(5000, 1)][..0] == [];
  }

  lemma FirstSnapshotLeaves(running: string)
    ensures var m := Run(Initial, running, [Start(None, None, 1), Opcode(100, 1), Stop(None, None)]);
      m.active.None? && m.lastGasUsed == 100 && m.records == []
  {
    var start: seq<Event> := [Start(None, None, 1)];
    assert start[..0] == [] && Run(Initial, running, start[..0]) == Initial;
    var m := Run(Initial, running, start);
    assert m == Step(Initial, running, Start(None, None, 1));
    assert [] + [GasRecord(running, "default", 0, 1)] == [GasRecord(running, "default", 0, 1)];
    assert m.records == [GasRecord(running, "default", 0, 1)];
    RunSnoc(Initial, running, start, Opcode(100, 1));
    MeterSingle(m.records[0], 0, 100, 1);
    assert start + [Opcode(100, 1)] == [Start(None, None, 1), Opcode(100, 1)];
    RunSnoc(Initial, running, [Start(None, None, 1), Opcode(100, 1)], Stop(None, None));
    RetainSingle(m.records[0], running, "default");
    assert [Start(None, None, 1), Opcode(100, 1)] + [Stop(None, None)]
        == [Start(None, None, 1), Opcode(100, 1), Stop(None, None)];
  }
}
