/**
  `setArbitraryStorage` / `copyStorage`: random values handed out on cold reads, cached per source so
  that copies of one source agree. An inspector without arbitrary storage behaves like one whose maps
  are empty, so the maps are modelled directly.
 */
module ArbitraryStorage {
  import opened Options

  type Address = nat
  type Word = nat

  /** The cheatcode state, the journal's storage, the accounts the database fails to load, and the
      precompiles. */
  datatype World = World(
    values: map<Address, map<Word, Word>>, copies: map<Address, Address>, overwrites: set<Address>,
    storage: map<Address, map<Word, Word>>, broken: set<Address>, precompiles: set<Address>)

  function Slots(m: map<Address, map<Word, Word>>, a: Address): map<Word, Word> {
    if a in m then m[a] else map[]
  }

  function Data(w: World, a: Address, slot: Word): Word {
    if slot in Slots(w.storage, a) then Slots(w.storage, a)[slot] else 0
  }

  function Cached(w: World, a: Address, slot: Word): Option<Word> {
    if slot in Slots(w.values, a) then Some(w.values[a][slot]) else None
  }

  /** Writing one slot of an account, if the account loads. */
  function Put(w: World, a: Address, slot: Word, v: Word): World {
    if a in w.broken then w else w.(storage := w.storage[a := Slots(w.storage, a)[slot := v]])
  }

  function MarkedArbitrary(w: World, a: Address, overwrite: bool): World {
    w.(values := w.values[a := map[]],
       overwrites := if overwrite then w.overwrites + {a} else w.overwrites - {a})
  }

  function Saved(w: World, a: Address, slot: Word, v: Word): World {
    Put(w.(values := w.values[a := Slots(w.values, a)[slot := v]]), a, slot, v)
  }

  function CopyValue(w: World, target: Address, slot: Word, offer: Word): Word
    requires target in w.copies
  {
    match Cached(w, w.copies[target], slot) case Some(v) => v case None => offer
  }

  function Copied(w: World, target: Address, slot: Word, offer: Word): World
    requires target in w.copies
  {
    var source := w.copies[target];
    var v := CopyValue(w, target, slot, offer);
    Put(if Cached(w, source, slot).Some? then w else Saved(w, source, slot, v), target, slot, v)
  }

  /** `copyStorage`; `None` is the error for a target that has arbitrary storage itself. */
  function StorageCopied(w: World, from: Address, to: Address): Option<World> {
    if to in w.values then None
    else if from in w.broken || to in w.broken then Some(w)
    else
      var w' := w.(storage := w.storage[to := Slots(w.storage, from)]);
      Some(if from in w.values then w'.(copies := w.copies[to := from]) else w')
  }

  predicate ShouldOverwrite(w: World, a: Address, slot: Word) {
    a in w.overwrites && Cached(w, a, slot).None?
  }

  /** What a read of the slot does first: `load` only looks at cold zero slots, an SLOAD step also
      overwrites. */
  function Fill(w: World, a: Address, slot: Word, due: bool, offer: Word): World {
    if !due then w
    else if a in w.values then Saved(w, a, slot, offer)
    else if a in w.copies then Copied(w, a, slot, offer)
    else w
  }

  predicate SloadDue(w: World, a: Address, slot: Word, cold: bool) {
    a !in w.broken && ((cold && Data(w, a, slot) == 0) || ShouldOverwrite(w, a, slot))
  }

  predicate LoadDue(w: World, a: Address, slot: Word, cold: bool) {
    a !in w.precompiles && a !in w.broken && cold && Data(w, a, slot) == 0
  }

  // ---------------------------------------------------------------- the object

  class Storage {
    var values: map<Address, map<Word, Word>>
    var copies: map<Address, Address>
    var overwrites: set<Address>
    var storage: map<Address, map<Word, Word>>
    const broken: set<Address>
    const precompiles: set<Address>

    function State(): World
      reads this
    {
      World(values, copies, overwrites, storage, broken, precompiles)
    }

    ghost predicate Valid()
      reads this
    {
      SourcesMarked(State())
    }

    constructor (storage: map<Address, map<Word, Word>>, broken: set<Address>, precompiles: set<Address>)
      ensures Valid() && State() == World(map[], map[], {}, storage, broken, precompiles)
    {
      values, copies, overwrites := map[], map[], {};
      this.storage, this.broken, this.precompiles := storage, broken, precompiles;
    }

    method MarkArbitrary(a: Address, overwrite: bool)
      requires Valid()
      modifies this
      ensures Valid() && State() == MarkedArbitrary(old(State()), a, overwrite)
    {
      values := values[a := map[]];
      if overwrite {
        overwrites := overwrites + {a};
      } else {
        overwrites := overwrites - {a};
      }
    }

    method CopyStorage(from: Address, to: Address) returns (ok: bool)
      requires Valid()
      modifies this
      ensures Valid() && ok == StorageCopied(old(State()), from, to).Some?
      ensures State() == if ok then StorageCopied(old(State()), from, to).value else old(State())
    {
      if to in values {
        return false;
      }
      if from !in broken && to !in broken {
        storage := storage[to := Slots(storage, from)];
        if from in values {
          copies := copies[to := from];
        }
      }
      return true;
    }

    method Insert(a: Address, slot: Word, v: Word)
      modifies this`storage
      ensures State() == Put(old(State()), a, slot, v)
    {
      if a !in broken {
        storage := storage[a := Slots(storage, a)[slot := v]];
      }
    }

    /** The `expect` on the address entry is the precondition. */
    method Save(a: Address, slot: Word, v: Word)
      requires Valid() && a in values
      modifies this
      ensures Valid() && State() == Saved(old(State()), a, slot, v)
    {
      values := values[a := Slots(values, a)[slot := v]];
      Insert(a, slot, v);
    }

    /** The two `expect`s on the target and on its source are the preconditions. */
    method Copy(target: Address, slot: Word, offer: Word) returns (v: Word)
      requires Valid() && target in copies && copies[target] in values
      modifies this
      ensures Valid() && v == CopyValue(old(State()), target, slot, offer)
      ensures State() == Copied(old(State()), target, slot, offer)
    {
      var source := copies[target];
      if slot in values[source] {
        v := values[source][slot];
      } else {
        v := offer;
        values := values[source := Slots(values, source)[slot := v]];
        Insert(source, slot, v);
      }
      Insert(target, slot, v);
    }

    /** `arbitrary_storage_end`, when the next opcode is an SLOAD. */
    method BeforeSload(a: Address, slot: Word, cold: bool, offer: Word)
      requires Valid()
      modifies this
      ensures Valid() && State() == Fill(old(State()), a, slot, SloadDue(old(State()), a, slot, cold), offer)
    {
      if a in broken {
        return;
      }
      if (cold && Data(State(), a, slot) == 0) || ShouldOverwrite(State(), a, slot) {
        if a in values {
          Save(a, slot, offer);
        } else if a in copies {
          var _ := Copy(a, slot, offer);
        }
      }
    }

    /** `vm.load`; `None` is the error for a precompile or an account that does not load. */
    method Load(a: Address, slot: Word, cold: bool, offer: Word) returns (r: Option<Word>)
      requires Valid()
      modifies this
      ensures Valid() && State() == Fill(old(State()), a, slot, LoadDue(old(State()), a, slot, cold), offer)
      ensures r == if a in precompiles || a in broken then None else Some(Data(State(), a, slot))
    {
      if a in precompiles {
        return None;
      }
      if a in broken {
        return None;
      }
      var v := Data(State(), a, slot);
      if cold && v == 0 {
        if a in values {
          Save(a, slot, offer);
          v := offer;
        } else if a in copies {
          v := Copy(a, slot, offer);
        }
      }
      return Some(v);
    }
  }

  // ---------------------------------------------------------------- every run

  /** The cheatcodes, the reads, and storage writes: an SSTORE or a `vm.store`, or the journal undoing
      one. A write changes storage and never the cached values. */
  datatype Event =
    | Mark(a: Address, overwrite: bool)
    | CopyTo(from: Address, to: Address)
    | Sstore(a: Address, slot: Word, value: Word)
    | Sload(a: Address, slot: Word, cold: bool, offer: Word)
    | Load(a: Address, slot: Word, cold: bool, offer: Word)

  /** Whether a read reaches the random-value branch at all. */
  predicate Due(w: World, e: Event)
    requires e.Sload? || e.Load?
  {
    if e.Sload? then SloadDue(w, e.a, e.slot, e.cold) else LoadDue(w, e.a, e.slot, e.cold)
  }

  function Step(w: World, e: Event): World {
    match e
    case Mark(a, overwrite) => MarkedArbitrary(w, a, overwrite)
    case CopyTo(from, to) => (match StorageCopied(w, from, to) case Some(w') => w' case None => w)
    case Sstore(a, slot, value) => Put(w, a, slot, value)
    case _ => Fill(w, e.a, e.slot, Due(w, e), e.offer)
  }

  function Run(w: World, evs: seq<Event>, n: nat): World
    requires n <= |evs|
  {
    if n == 0 then w else Step(Run(w, evs, n - 1), evs[n - 1])
  }

  /** Every copy's source has a value map: what both `expect`s rely on. */
  predicate SourcesMarked(w: World) {
    forall t :: t in w.copies ==> w.copies[t] in w.values
  }

  lemma {:induction false} SourcesStayMarked(w: World, evs: seq<Event>, n: nat)
    requires n <= |evs| && SourcesMarked(w)
    ensures SourcesMarked(Run(w, evs, n))
  {
    if n > 0 {
      SourcesStayMarked(w, evs, n - 1);
      SourcesMarkedStep(Run(w, evs, n - 1), evs[n - 1]);
    }
  }

  lemma SourcesMarkedStep(w: World, e: Event)
    requires SourcesMarked(w)
    ensures SourcesMarked(Step(w, e))
  {
  }

  /** The event reads `slot` through the copy branch, with `source` behind it. */
  predicate CopyRead(w: World, e: Event, source: Address, slot: Word) {
    && (e.Sload? || e.Load?) && e.slot == slot && Due(w, e)
    && e.a !in w.values && e.a in w.copies && w.copies[e.a] == source
  }

  /** The event re-marks the source or saves a new value for this slot of it. */
  predicate Disturbs(w: World, e: Event, source: Address, slot: Word) {
    || (e.Mark? && e.a == source)
    || ((e.Sload? || e.Load?) && e.a == source && e.slot == slot && Due(w, e) && source in w.values)
  }

  lemma CacheStays(w: World, e: Event, source: Address, slot: Word)
    requires Cached(w, source, slot).Some? && !Disturbs(w, e, source, slot)
    ensures Cached(Step(w, e), source, slot) == Cached(w, source, slot)
  {
    if (e.Sload? || e.Load?) && Due(w, e) {
      FillKeeps(w, e.a, e.slot, e.offer, source, slot);
    }
  }

  /** Filling a slot changes no cached value but that of a marked account's own slot. */
  lemma FillKeeps(w: World, a: Address, slot: Word, offer: Word, source: Address, at: Word)
    requires Cached(w, source, at).Some? && !(a in w.values && a == source && slot == at)
    ensures Cached(Fill(w, a, slot, true, offer), source, at) == Cached(w, source, at)
  {
  }

  /** None of the events `i..j` disturbs the source's slot. */
  predicate Undisturbed(w: World, evs: seq<Event>, i: nat, j: nat, source: Address, slot: Word)
    requires j <= |evs|
  {
    forall m :: i <= m < j ==> !Disturbs(Run(w, evs, m), evs[m], source, slot)
  }

  lemma {:induction false} CacheStaysOver(w: World, evs: seq<Event>, i: nat, j: nat, source: Address, slot: Word)
    requires i <= j <= |evs| && Cached(Run(w, evs, i), source, slot).Some? && Undisturbed(w, evs, i, j, source, slot)
    ensures Cached(Run(w, evs, j), source, slot) == Cached(Run(w, evs, i), source, slot)
    decreases j
  {
    if i < j {
      CacheStaysOver(w, evs, i, j - 1, source, slot);
      CacheStays(Run(w, evs, j - 1), evs[j - 1], source, slot);
    }
  }

  predicate IsRead(e: Event) {
    e.Sload? || e.Load?
  }

  /** What a read of an account that can be read gets: storage after the slot has been filled. */
  function ReadResult(w: World, e: Event): Word
    requires IsRead(e)
  {
    Data(Step(w, e), e.a, e.slot)
  }

  lemma CopyReadCaches(w: World, e: Event, source: Address, slot: Word)
    requires CopyRead(w, e, source, slot)
    ensures Cached(Step(w, e), source, slot) == Some(ReadResult(w, e))
    ensures ReadResult(w, e) == CopyValue(w, e.a, slot, e.offer)
  {
  }

  // ---------------------------------------------------------------- what a read does

  /**
    A read of a marked account: if it is due, it gets the offered value, which is cached and stored;
    otherwise nothing changes. An SLOAD is due for a cold zero, and for every slot without a cached value
    if the account was marked to be overwritten; `load` only for a cold zero.
   */
  lemma MarkedRead(w: World, e: Event)
    requires IsRead(e) && e.a in w.values
    ensures Due(w, e) <==>
      && e.a !in w.broken && (e.Load? ==> e.a !in w.precompiles)
      && ((e.cold && Data(w, e.a, e.slot) == 0) || (e.Sload? && e.a in w.overwrites && Cached(w, e.a, e.slot).None?))
    ensures Due(w, e) ==> ReadResult(w, e) == e.offer && Cached(Step(w, e), e.a, e.slot) == Some(e.offer)
    ensures !Due(w, e) ==> Step(w, e) == w
  {
  }

  /** A first read through a copy also stores the offered value at the source; a later one leaves the source
      alone. */
  lemma CopyReadSource(w: World, e: Event, source: Address, slot: Word)
    requires CopyRead(w, e, source, slot) && e.a != source && source !in w.broken
    ensures Data(Step(w, e), source, slot) ==
      if Cached(w, source, slot).None? then e.offer else Data(w, source, slot)
  {
  }

  lemma PutFrame(w: World, a: Address, slot: Word, v: Word, b: Address, at: Word)
    requires (b, at) != (a, slot)
    ensures Data(Put(w, a, slot, v), b, at) == Data(w, b, at)
  {
  }

  lemma SavedFrame(w: World, a: Address, slot: Word, v: Word, b: Address, at: Word)
    requires (b, at) != (a, slot)
    ensures Cached(Saved(w, a, slot, v), b, at) == Cached(w, b, at)
    ensures Data(Saved(w, a, slot, v), b, at) == Data(w, b, at)
  {
    PutFrame(w.(values := w.values[a := Slots(w.values, a)[slot := v]]), a, slot, v, b, at);
  }

  lemma CopiedFrame(w: World, t: Address, slot: Word, offer: Word, b: Address, at: Word)
    requires t in w.copies && (b, at) != (t, slot) && (b, at) != (w.copies[t], slot)
    ensures Cached(Copied(w, t, slot, offer), b, at) == Cached(w, b, at)
    ensures Data(Copied(w, t, slot, offer), b, at) == Data(w, b, at)
  {
    var v := CopyValue(w, t, slot, offer);
    SavedFrame(w, w.copies[t], slot, v, b, at);
    PutFrame(if Cached(w, w.copies[t], slot).Some? then w else Saved(w, w.copies[t], slot, v), t, slot, v, b, at);
  }

  lemma FillFrame(w: World, a: Address, slot: Word, offer: Word, b: Address, at: Word)
    requires (b, at) != (a, slot)
    requires !(a !in w.values && a in w.copies && (b, at) == (w.copies[a], slot))
    ensures Cached(Fill(w, a, slot, true, offer), b, at) == Cached(w, b, at)
    ensures Data(Fill(w, a, slot, true, offer), b, at) == Data(w, b, at)
  {
    if a in w.values {
      SavedFrame(w, a, slot, offer, b, at);
    } else if a in w.copies {
      CopiedFrame(w, a, slot, offer, b, at);
    }
  }

  lemma FillFixed(w: World, a: Address, slot: Word, offer: Word)
    ensures var w' := Fill(w, a, slot, true, offer);
      w'.copies == w.copies && w'.overwrites == w.overwrites && w'.broken == w.broken
  {
  }

  /** A read touches its own slot, and the same slot of the source behind it, and nothing else. */
  lemma ReadFrame(w: World, e: Event, b: Address, at: Word)
    requires IsRead(e) && (b, at) != (e.a, e.slot)
    requires !(e.a !in w.values && e.a in w.copies && (b, at) == (w.copies[e.a], e.slot))
    ensures var w' := Step(w, e);
      && Cached(w', b, at) == Cached(w, b, at) && Data(w', b, at) == Data(w, b, at)
      && w'.copies == w.copies && w'.overwrites == w.overwrites
  {
    FillFrame(w, e.a, e.slot, e.offer, b, at);
    FillFixed(w, e.a, e.slot, e.offer);
  }

  /** The event caches a value for the slot: a due read of the account, or through a copy of it. */
  predicate Fills(w: World, e: Event, a: Address, slot: Word) {
    IsRead(e) && e.slot == slot && Due(w, e) && (if e.a in w.values then e.a == a else CopyRead(w, e, a, slot))
  }

  lemma FillsStep(w: World, e: Event, a: Address, slot: Word)
    requires a in w.values && !(e.Mark? && e.a == a)
    ensures a in Step(w, e).values && (a in Step(w, e).overwrites <==> a in w.overwrites)
    ensures Cached(Step(w, e), a, slot).Some? <==> Cached(w, a, slot).Some? || Fills(w, e, a, slot)
  {
    if IsRead(e) {
      if Fills(w, e, a, slot) {
        FillsCache(w, e, a, slot);
      } else if Due(w, e) {
        if Cached(w, a, slot).Some? {
          FillKeeps(w, e.a, e.slot, e.offer, a, slot);
        } else {
          ReadFrame(w, e, a, slot);
        }
      }
    }
  }

  lemma FillsCache(w: World, e: Event, a: Address, slot: Word)
    requires Fills(w, e, a, slot)
    ensures Cached(Step(w, e), a, slot) == Some(ReadResult(w, e))
  {
    if e.a in w.values {
      MarkedRead(w, e);
    } else {
      CopyReadCaches(w, e, a, slot);
    }
  }

  predicate NotMarked(evs: seq<Event>, i: nat, n: nat, a: Address)
    requires n <= |evs|
  {
    forall m :: i <= m < n ==> !(evs[m].Mark? && evs[m].a == a)
  }

  ghost predicate FilledBetween(w: World, evs: seq<Event>, i: nat, n: nat, a: Address, slot: Word)
    requires n <= |evs|
  {
    exists m {:trigger evs[m]} :: i <= m < n && Fills(Run(w, evs, m), evs[m], a, slot)
  }

  lemma {:induction false} FilledSinceMark(w: World, evs: seq<Event>, i: nat, n: nat, a: Address, slot: Word)
    requires i < n <= |evs| && evs[i].Mark? && evs[i].a == a && NotMarked(evs, i + 1, n, a)
    ensures var now := Run(w, evs, n);
      && a in now.values && (a in now.overwrites <==> evs[i].overwrite)
      && (Cached(now, a, slot).Some? <==> FilledBetween(w, evs, i + 1, n, a, slot))
    decreases n
  {
    if n > i + 1 {
      FilledSinceMark(w, evs, i, n - 1, a, slot);
      FillsStep(Run(w, evs, n - 1), evs[n - 1], a, slot);
      if Fills(Run(w, evs, n - 1), evs[n - 1], a, slot) {
        assert FilledBetween(w, evs, i + 1, n, a, slot);
      }
    }
  }

  /**
    In every run, from the last time an account was marked: an SLOAD of a slot gets the offered value exactly
    as due. If the account was marked to be overwritten, that is the first SLOAD of each slot, whatever the
    slot holds, unless a read through a copy came first; otherwise only cold zero slots are due.
   */
  lemma SloadSinceMark(w: World, evs: seq<Event>, i: nat, n: nat)
    requires i < n < |evs| && evs[n].Sload? && evs[i].Mark? && evs[i].a == evs[n].a
    requires NotMarked(evs, i + 1, n, evs[n].a)
    ensures var before, e := Run(w, evs, n), evs[n];
      && (Due(before, e) <==>
            && e.a !in before.broken
            && ((e.cold && Data(before, e.a, e.slot) == 0)
                || (evs[i].overwrite && !FilledBetween(w, evs, i + 1, n, e.a, e.slot))))
      && ReadResult(before, e) == (if Due(before, e) then e.offer else Data(before, e.a, e.slot))
  {
    FilledSinceMark(w, evs, i, n, evs[n].a, evs[n].slot);
    MarkedRead(Run(w, evs, n), evs[n]);
  }

  // ---------------------------------------------------------------- marking, copying and writing

  /** Marking forgets the cached values of the account, sets or clears its flag, and leaves storage alone. */
  lemma MarkEffect(w: World, a: Address, overwrite: bool, b: Address, slot: Word)
    ensures var w' := Step(w, Mark(a, overwrite));
      && a in w'.values && (b in w'.overwrites <==> if b == a then overwrite else b in w.overwrites)
      && Cached(w', b, slot) == (if b == a then None else Cached(w, b, slot))
      && Data(w', b, slot) == Data(w, b, slot) && w'.copies == w.copies
  {
  }

  /** Copying onto a marked account is refused and onto or from a broken one does nothing; otherwise every
      slot is copied, and the target is registered exactly if the source is marked. */
  lemma CopyEffect(w: World, from: Address, to: Address, b: Address, slot: Word)
    ensures var w' := Step(w, CopyTo(from, to));
      var done := to !in w.values && from !in w.broken && to !in w.broken;
      && (StorageCopied(w, from, to).None? <==> to in w.values)
      && Data(w', b, slot) == Data(w, if done && b == to then from else b, slot)
      && Cached(w', b, slot) == Cached(w, b, slot) && w'.overwrites == w.overwrites
      && w'.copies == (if done && from in w.values then w.copies[to := from] else w.copies)
  {
  }

  /** A write changes its own slot and nothing else. */
  lemma WriteEffect(w: World, a: Address, at: Word, v: Word, b: Address, slot: Word)
    ensures var w' := Step(w, Sstore(a, at, v));
      && Data(w', b, slot) == (if (b, slot) == (a, at) && a !in w.broken then v else Data(w, b, slot))
      && w'.values == w.values && w'.copies == w.copies && w'.overwrites == w.overwrites
  {
  }

  // ---------------------------------------------------------------- copies agree

  predicate CopyOf(w: World, t: Address, source: Address) {
    t !in w.values && t in w.copies && w.copies[t] == source
  }

  /** The account's storage holds the value cached for its slot. */
  predicate StoredAt(w: World, a: Address, slot: Word) {
    Cached(w, a, slot) == Some(Data(w, a, slot))
  }

  predicate WritesTo(w: World, e: Event, a: Address, slot: Word) {
    e.Sstore? && e.a == a && e.slot == slot && a !in w.broken
  }

  /** Whether a marked account's storage holds its cached value after the event. */
  predicate StoredNext(w: World, e: Event, a: Address, slot: Word) {
    if WritesTo(w, e, a, slot) then Cached(w, a, slot) == Some(e.value)
    else (IsRead(e) && e.a == a && e.slot == slot && Due(w, e)) || StoredAt(w, a, slot)
  }

  lemma StoredFill(w: World, b: Address, at: Word, offer: Word, a: Address, slot: Word)
    requires SourcesMarked(w) && Cached(w, a, slot).Some? && b !in w.broken
    ensures Cached(Fill(w, b, at, true, offer), a, slot).Some?
    ensures StoredAt(Fill(w, b, at, true, offer), a, slot) <==> (b == a && at == slot) || StoredAt(w, a, slot)
  {
    if b !in w.values && b in w.copies {
      StoredCopied(w, b, at, offer, a, slot);
    }
  }

  lemma StoredCopied(w: World, t: Address, at: Word, offer: Word, a: Address, slot: Word)
    requires SourcesMarked(w) && Cached(w, a, slot).Some? && t !in w.values && t in w.copies
    ensures Cached(Copied(w, t, at, offer), a, slot) == Cached(w, a, slot)
    ensures Data(Copied(w, t, at, offer), a, slot) == Data(w, a, slot)
  {
  }

  /** Exactly which events leave storage and cache of a slot in agreement. Without a write to the slot
      agreement is kept. */
  lemma StoredStep(w: World, e: Event, a: Address, slot: Word)
    requires SourcesMarked(w) && Cached(w, a, slot).Some? && !(e.Mark? && e.a == a)
    ensures Cached(Step(w, e), a, slot).Some?
    ensures StoredAt(Step(w, e), a, slot) <==> StoredNext(w, e, a, slot)
  {
    if IsRead(e) {
      if Due(w, e) {
        StoredFill(w, e.a, e.slot, e.offer, a, slot);
      }
    }
  }

  /** The same over the events `i..n`, by the last of them that matters. */
  predicate StoredBy(w: World, evs: seq<Event>, i: nat, n: nat, a: Address, slot: Word)
    requires i <= n <= |evs|
    decreases n
  {
    if n == i then StoredAt(Run(w, evs, i), a, slot)
    else
      var before, e := Run(w, evs, n - 1), evs[n - 1];
      if WritesTo(before, e, a, slot) then Cached(before, a, slot) == Some(e.value)
      else (IsRead(e) && e.a == a && e.slot == slot && Due(before, e)) || StoredBy(w, evs, i, n - 1, a, slot)
  }

  /**
    In every run, from the moment a value is cached for a slot and until the account is marked again:
    storage holds the cached value exactly if the last write to the slot wrote that value, or a read
    has filled the slot since.
   */
  lemma {:induction false} StoredIff(w: World, evs: seq<Event>, i: nat, n: nat, a: Address, slot: Word)
    requires i <= n <= |evs| && SourcesMarked(w)
    requires Cached(Run(w, evs, i), a, slot).Some? && NotMarked(evs, i, n, a)
    ensures Cached(Run(w, evs, n), a, slot).Some?
    ensures StoredAt(Run(w, evs, n), a, slot) <==> StoredBy(w, evs, i, n, a, slot)
    decreases n
  {
    if i < n {
      StoredIff(w, evs, i, n - 1, a, slot);
      SourcesStayMarked(w, evs, n - 1);
      StoredStep(Run(w, evs, n - 1), evs[n - 1], a, slot);
    }
  }

  // ---------------------------------------------------------------- settled copies

  /** `t` is a copy of `source` and its slot holds the value cached for the source. */
  predicate Settled(w: World, t: Address, source: Address, slot: Word) {
    CopyOf(w, t, source) && Cached(w, source, slot) == Some(Data(w, t, slot))
  }

  /** The event replaces the whole storage of `t`. */
  predicate CopiesOnto(w: World, e: Event, t: Address) {
    e.CopyTo? && e.to == t && e.from !in w.broken && t !in w.broken
  }

  /** The event makes `t` something else than a copy of `source`: marked itself, or a copy of another
      marked account. */
  predicate Leaves(w: World, e: Event, t: Address, source: Address) {
    (e.Mark? && e.a == t) || (CopiesOnto(w, e, t) && e.from in w.values && e.from != source)
  }

  /** Whether the slot of a copy is settled after the event. */
  predicate SettledNext(w: World, e: Event, t: Address, source: Address, slot: Word) {
    if WritesTo(w, e, t, slot) then Cached(w, source, slot) == Some(e.value)
    else if CopiesOnto(w, e, t) then Cached(w, source, slot) == Some(Data(w, e.from, slot))
    else (CopyRead(w, e, source, slot) && e.a == t) || Settled(w, t, source, slot)
  }

  lemma SettledFill(w: World, a: Address, at: Word, offer: Word, t: Address, source: Address, slot: Word)
    requires SourcesMarked(w) && CopyOf(w, t, source) && Cached(w, source, slot).Some?
    requires a !in w.broken && !(a == source && at == slot && a in w.values)
    ensures var w' := Fill(w, a, at, true, offer);
      CopyOf(w', t, source) && (Settled(w', t, source, slot) <==> (a == t && at == slot) || Settled(w, t, source, slot))
  {
    FillKeeps(w, a, at, offer, source, slot);
  }

  /**
    Exactly which events leave the slot of a copy settled. A read through the copy does; a write does
    if it writes the cached value; copying storage onto it does if what is copied is the cached value,
    which for the source itself means that the source's storage holds it.
   */
  lemma SettledStep(w: World, e: Event, t: Address, source: Address, slot: Word)
    requires SourcesMarked(w) && CopyOf(w, t, source) && Cached(w, source, slot).Some?
    requires !Disturbs(w, e, source, slot) && !Leaves(w, e, t, source)
    ensures CopyOf(Step(w, e), t, source)
    ensures Settled(Step(w, e), t, source, slot) <==> SettledNext(w, e, t, source, slot)
  {
    CacheStays(w, e, source, slot);
    if IsRead(e) {
      if Due(w, e) {
        SettledFill(w, e.a, e.slot, e.offer, t, source, slot);
      }
    }
  }

  /** Making an account a copy settles its slot exactly if the source's storage holds the cached value. */
  lemma CopySettlesIff(w: World, source: Address, t: Address, slot: Word)
    requires source in w.values && t !in w.values && source !in w.broken && t !in w.broken
    ensures CopyOf(Step(w, CopyTo(source, t)), t, source)
    ensures Settled(Step(w, CopyTo(source, t)), t, source, slot) <==> StoredAt(w, source, slot)
  {
    var w' := Step(w, CopyTo(source, t));
    assert Data(w', t, slot) == Data(w, source, slot) && Cached(w', source, slot) == Cached(w, source, slot);
  }

  /** Whether the slot is settled after the events `j..n`, by the last of them that matters. */
  predicate SettledBy(w: World, evs: seq<Event>, j: nat, n: nat, t: Address, source: Address, slot: Word)
    requires j <= n <= |evs|
    decreases n
  {
    if n == j then Settled(Run(w, evs, j), t, source, slot)
    else
      var before, e := Run(w, evs, n - 1), evs[n - 1];
      if WritesTo(before, e, t, slot) then Cached(before, source, slot) == Some(e.value)
      else if CopiesOnto(before, e, t) then Cached(before, source, slot) == Some(Data(before, e.from, slot))
      else (CopyRead(before, e, source, slot) && e.a == t) || SettledBy(w, evs, j, n - 1, t, source, slot)
  }

  /** `t` stays a copy of `source` during the events `i..j`. */
  predicate Remains(w: World, evs: seq<Event>, i: nat, j: nat, t: Address, source: Address)
    requires j <= |evs|
  {
    forall m :: i <= m < j ==> !Leaves(Run(w, evs, m), evs[m], t, source)
  }

  lemma {:induction false} SettledIff(
    w: World, evs: seq<Event>, j: nat, n: nat, t: Address, source: Address, slot: Word)
    requires j <= n <= |evs| && SourcesMarked(w)
    requires CopyOf(Run(w, evs, j), t, source) && Cached(Run(w, evs, j), source, slot).Some?
    requires Undisturbed(w, evs, j, n, source, slot) && Remains(w, evs, j, n, t, source)
    ensures CopyOf(Run(w, evs, n), t, source)
    ensures Settled(Run(w, evs, n), t, source, slot) <==> SettledBy(w, evs, j, n, t, source, slot)
    decreases n
  {
    if j < n {
      SettledIff(w, evs, j, n - 1, t, source, slot);
      CacheStaysOver(w, evs, j, n - 1, source, slot);
      SourcesStayMarked(w, evs, n - 1);
      SettledStep(Run(w, evs, n - 1), evs[n - 1], t, source, slot);
    }
  }

  /** A read through a copy, with a value cached for the source, gives that value exactly if the slot is
      due to be filled or settled. */
  lemma CopyReadResult(w: World, e: Event, source: Address, slot: Word)
    requires IsRead(e) && e.slot == slot && CopyOf(w, e.a, source) && Cached(w, source, slot).Some?
    ensures Cached(w, source, slot) == Some(ReadResult(w, e)) <==> Due(w, e) || Settled(w, e.a, source, slot)
  {
    if Due(w, e) {
      CopyReadCaches(w, e, source, slot);
    }
  }

  /**
    Over any run, storage writes included: let the slot be settled in one copy of a source, and let
    another account be a copy of it then or later. As long as nothing re-marks the source or saves that
    slot of it, and the second stays its copy, a read of the second sees the value the first had
    exactly if the slot is due to be filled, or the last event that touched it (a write, a copy onto it
    or a read through the copy, else how it started) left the cached value there. Random values offered
    and whether reads are cold do not matter otherwise.
   */
  lemma CopiesAgree(w: World, evs: seq<Event>, i: nat, j: nat, n: nat, t: Address, source: Address, slot: Word)
    requires i <= j <= n < |evs| && SourcesMarked(w)
    requires Settled(Run(w, evs, i), t, source, slot) && Undisturbed(w, evs, i, n, source, slot)
    requires IsRead(evs[n]) && evs[n].slot == slot
    requires CopyOf(Run(w, evs, j), evs[n].a, source) && Remains(w, evs, j, n, evs[n].a, source)
    ensures ReadResult(Run(w, evs, n), evs[n]) == Data(Run(w, evs, i), t, slot) <==>
      Due(Run(w, evs, n), evs[n]) || SettledBy(w, evs, j, n, evs[n].a, source, slot)
  {
    CacheStaysOver(w, evs, i, n, source, slot);
    CacheStaysOver(w, evs, i, j, source, slot);
    SettledIff(w, evs, j, n, evs[n].a, source, slot);
    CopyReadResult(Run(w, evs, n), evs[n], source, slot);
  }

  /** A run in which two copies of one source end up with different values: the source is written
      between a read through the first copy and the making of the second. */
  lemma WrittenSourceSplitsCopies()
    ensures var w0 := World(map[], map[], {}, map[], {}, {});
      var evs := [Mark(1, false), CopyTo(1, 3), Sload(3, 0, true, 5), Sstore(1, 0, 7), CopyTo(1, 2)];
      var w := Run(w0, evs, 5);
      && CopyOf(w, 2, 1) && CopyOf(w, 3, 1) && Cached(w, 1, 0) == Some(5)
      && Data(w, 1, 0) == 7 && Data(w, 2, 0) == 7 && Data(w, 3, 0) == 5
  {
    var w0 := World(map[], map[], {}, map[], {}, {});
    var evs := [Mark(1, false), CopyTo(1, 3), Sload(3, 0, true, 5), Sstore(1, 0, 7), CopyTo(1, 2)];
    var w3 := Run(w0, evs, 3);
    assert Run(w0, evs, 1) == MarkedArbitrary(w0, 1, false);
    assert CopyRead(Run(w0, evs, 2), evs[2], 1, 0);
    assert Cached(w3, 1, 0) == Some(5) && Data(w3, 3, 0) == 5;
    assert Run(w0, evs, 4) == Put(w3, 1, 0, 7);
    assert Run(w0, evs, 5) == Step(Run(w0, evs, 4), CopyTo(1, 2));
  }
}
