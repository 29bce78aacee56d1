/** windows/minifilter/paguro_flt.c: the per-stream cache of deny flags, tagged with the table's
    generation, under any interleaving of lookups, cache fills, updates, connects and disconnects.
    Writers hold the push lock exclusively from Begin to End and take several steps in between;
    lookups hold it shared; the cached path takes no lock at all, and reads the count, the stream
    context and the generation in three steps. */
module FilterCache {
  import opened Words
  import opened FilterTable

  /** What a holder of the exclusive lock is about to do. */
  datatype Change = Protect(key: Key, deny: nat) | Connect(process: nat) | Disconnect

  /** The writer's progress: before its change, after it, after the generation moved. */
  datatype Writer = NoWriter | Holding(change: Change) | Changed(bumps: bool) | Bumped

  /** Deny flags computed for a stream; `at` counts the generation changes up to then. */
  datatype Record = Record(generation: nat, deny: nat, at: nat)

  /** Where a thread stands in PgDenyFor: past the count, holding a stream context it has not compared
      yet, left without one, or holding flags it has not cached yet. */
  datatype Phase =
    | Counted(stream: nat)
    | Fetched(stream: nat, record: Record)
    | Missed(stream: nat)
    | Looked(stream: nat, record: Record)

  datatype State = State(
    table: seq<Entry>, count: int, generation: nat, service: Option<nat>, writer: Writer,
    cache: map<nat, Record>,    // stream contexts
    threads: map<nat, Phase>,   // threads inside PgDenyFor
    bumps: nat)                 // generation changes so far

  datatype Event =
    | Begin(change: Change)
    | Apply
    | Bump
    | End
    | Skip(stream: nat)
    | Pass(thread: nat, stream: nat)
    | Fetch(thread: nat)
    | Hit(thread: nat, deny: nat)
    | Miss(thread: nat)
    | LookUp(thread: nat)
    | Fill(thread: nat)
    | Drop(thread: nat)
    | Evict(stream: nat)

  ghost predicate Initial(s: State) {
    && |s.table| == MAX_PROTECTED && (forall i :: 0 <= i < |s.table| ==> s.table[i].Unused?) && s.count == 0
    && s.generation == 1 && s.service == None && s.writer == NoWriter
    && s.cache == map[] && s.threads == map[] && s.bumps == 0
  }

  /** The change itself: PgUpdate on the table and its count, or the service pointer. */
  function Changing(s: State, c: Change): State {
    match c
    case Protect(key, deny) =>
      s.(table := Updated(s.table, key, deny), writer := Changed(Accepts(s.table, key, deny)),
         count := s.count + Gained(s.table, key, deny))
    case Connect(process) => s.(service := Some(process), writer := Changed(true))
    case Disconnect => s.(service := None, writer := Changed(false))
  }

  function Moved(s: State, t: nat, p: Phase): State {
    s.(threads := s.threads[t := p])
  }

  function Left(s: State, t: nat): State {
    s.(threads := s.threads - {t})
  }

  /** What a lookup of a file returns now. */
  function Current(s: State, k: Key): Record {
    Record(s.generation, Deny(s.table, k), s.bumps)
  }

  /** `key` tells which file a stream belongs to. */
  ghost predicate Step(key: nat -> Key, s: State, e: Event, s': State) {
    match e
    case Begin(change) => s.writer == NoWriter && s' == s.(writer := Holding(change))
    case Apply => s.writer.Holding? && s' == Changing(s, s.writer.change)
    case Bump => s.writer == Changed(true) && s' == s.(generation := Increment(s.generation), bumps := s.bumps + 1, writer := Bumped)
    case End => (s.writer == Bumped || s.writer == Changed(false)) && s' == s.(writer := NoWriter)
    case Skip(stream) => s.count == 0 && s' == s
    case Pass(t, stream) => s.count != 0 && t !in s.threads && s' == Moved(s, t, Counted(stream))
    case Fetch(t) =>
      && t in s.threads && s.threads[t].Counted? && s.threads[t].stream in s.cache
      && s' == Moved(s, t, Fetched(s.threads[t].stream, s.cache[s.threads[t].stream]))
    case Hit(t, deny) =>
      && t in s.threads && s.threads[t].Fetched? && s.threads[t].record.generation == s.generation
      && deny == s.threads[t].record.deny && s' == Left(s, t)
    case Miss(t) =>
      && t in s.threads && (s.threads[t].Counted? || (s.threads[t].Fetched? && s.threads[t].record.generation != s.generation))
      && s' == Moved(s, t, Missed(s.threads[t].stream))
    case LookUp(t) =>
      && t in s.threads && s.threads[t].Missed? && s.writer == NoWriter
      && s' == Moved(s, t, Looked(s.threads[t].stream, Current(s, key(s.threads[t].stream))))
    case Fill(t) =>
      && t in s.threads && s.threads[t].Looked? && s.threads[t].record.generation != 0
      && s' == Left(s, t).(cache := s.cache[s.threads[t].stream := s.threads[t].record])
    case Drop(t) => t in s.threads && (s.threads[t].Missed? || s.threads[t].Looked?) && s' == Left(s, t)
    case Evict(stream) => s' == s.(cache := s.cache - {stream})
  }

  ghost predicate Run(key: nat -> Key, states: seq<State>, events: seq<Event>) {
    && |states| == |events| + 1 && Initial(states[0])
    && forall k :: 0 <= k < |events| ==> StepHolds(key, states, events, k)
  }

  ghost predicate StepHolds(key: nat -> Key, states: seq<State>, events: seq<Event>, k: int)
    requires |states| == |events| + 1 && 0 <= k < |events|
  {
    Step(key, states[k], events[k], states[k + 1])
  }

  // ---- the invariant -------------------------------------------------------

  /** The 32-bit generation after n changes. */
  function Generation(n: nat): nat {
    (1 + n) % TWO32
  }

  /** The table may have changed since the generation last did. */
  predicate Unsettled(w: Writer) {
    w == Changed(true)
  }

  /** A record carries the generation of its lookup, and is right as long as none has passed since. */
  ghost predicate Tagged(s: State, r: Record, k: Key) {
    && r.at <= s.bumps && r.generation == Generation(r.at)
    && (r.at == s.bumps && !Unsettled(s.writer) ==> r.deny == Deny(s.table, k))
  }

  predicate HasRecord(p: Phase) {
    p.Fetched? || p.Looked?
  }

  ghost predicate Inv(key: nat -> Key, s: State) {
    && |s.table| == MAX_PROTECTED && Proper(s.table) && s.count == InUse(s.table)
    && s.generation == Generation(s.bumps)
    && (forall stream :: stream in s.cache ==> Tagged(s, s.cache[stream], key(stream)))
    && (forall t :: t in s.threads && HasRecord(s.threads[t]) ==> Tagged(s, s.threads[t].record, key(s.threads[t].stream)))
  }

  lemma {:induction false} InvInitial(key: nat -> Key, s: State)
    requires Initial(s)
    ensures Inv(key, s)
  {
    Table.AllUnused(s.table);
  }

  lemma {:induction false} InvApply(key: nat -> Key, s: State)
    requires Inv(key, s) && s.writer.Holding?
    ensures Inv(key, Changing(s, s.writer.change))
  {
    match s.writer.change
    case Connect(process) =>
    case Disconnect =>
    case Protect(k, deny) =>
      var s' := Changing(s, s.writer.change);
      InUseUpdated(s.table, k, deny);
      UpdatedDeny(s.table, k, deny, k);
      if !Accepts(s.table, k, deny) {
        assert s'.table == s.table;
      }
  }

  lemma {:induction false} InvStep(key: nat -> Key, s: State, e: Event, s': State)
    requires Inv(key, s) && Step(key, s, e, s')
    ensures Inv(key, s')
  {
    match e
    case Apply => InvApply(key, s);
    case Bump => assert Increment(s.generation) == Generation(s.bumps + 1);
    case _ =>
  }

  lemma {:induction false} RunInv(key: nat -> Key, states: seq<State>, events: seq<Event>, k: nat)
    requires Run(key, states, events) && k < |states|
    ensures Inv(key, states[k])
  {
    if k == 0 {
      InvInitial(key, states[0]);
    } else {
      RunInv(key, states, events, k - 1);
      assert StepHolds(key, states, events, k - 1);
      InvStep(key, states[k - 1], events[k - 1], states[k]);
    }
  }

  // ---- coherence -----------------------------------------------------------

  /** Two generations look alike exactly when a multiple of 2^32 changes lies between them. */
  lemma {:induction false} SameGeneration(m: nat, n: nat)
    requires m <= n
    ensures Generation(m) == Generation(n) <==> (n - m) % TWO32 == 0
  {
  }

  /** The number of table changes since a record's flags were looked up. */
  function Age(s: State, r: Record): int {
    s.bumps - r.at
  }

  /** A thread compares the context it holds and answers from it, on flags n table changes old. */
  ghost predicate HitAt(s: State, e: Event, n: int) {
    e.Hit? && e.thread in s.threads && s.threads[e.thread].Fetched? && Age(s, s.threads[e.thread].record) == n
  }

  /** In every run, however long ago the thread fetched its context and whatever happened since, an answer
      whose compare does not fall between a table change and its new generation, on flags that fewer than
      2^32 table changes have passed by, is what a lookup in the current table would return; so, while no
      writer holds the lock, is the answer 0 given because no file is protected. */
  lemma {:induction false} Coherence(key: nat -> Key, states: seq<State>, events: seq<Event>, k: nat)
    requires Run(key, states, events) && k < |events|
    ensures events[k].Hit? ==> exists n: nat :: HitAt(states[k], events[k], n)
    ensures forall n :: HitAt(states[k], events[k], n) && n < TWO32 && !Unsettled(states[k].writer) ==>
              events[k].deny == Deny(states[k].table, key(states[k].threads[events[k].thread].stream))
    ensures events[k].Skip? && states[k].writer == NoWriter ==> Deny(states[k].table, key(events[k].stream)) == 0
  {
    RunInv(key, states, events, k);
    assert StepHolds(key, states, events, k);
    var s, e := states[k], events[k];
    if e.Hit? {
      var r := s.threads[e.thread].record;
      assert Tagged(s, r, key(s.threads[e.thread].stream));
      SameGeneration(r.at, s.bumps);
      assert HitAt(s, e, Age(s, r));
    }
    if e.Skip? {
      NoneInUse(s.table, key(e.stream));
    }
  }

  /** In every run the keys of the table stay unique and g_Count counts the used entries. */
  lemma {:induction false} TableIntact(key: nat -> Key, states: seq<State>, events: seq<Event>, k: nat)
    requires Run(key, states, events) && k < |states|
    ensures Proper(states[k].table) && states[k].count == InUse(states[k].table)
  {
    RunInv(key, states, events, k);
  }

  // ---- and no further ------------------------------------------------------

  ghost predicate RunTo(key: nat -> Key, states: seq<State>, events: seq<Event>, s: State) {
    Run(key, states, events) && states[|events|] == s
  }

  lemma {:induction false} Append(key: nat -> Key, states: seq<State>, events: seq<Event>, s: State, e: Event, s': State)
    requires RunTo(key, states, events, s) && Step(key, s, e, s')
    ensures RunTo(key, states + [s'], events + [e], s')
  {
    forall k | 0 <= k < |events + [e]| ensures StepHolds(key, states + [s'], events + [e], k) {
      if k < |events| {
        assert StepHolds(key, states, events, k);
      }
    }
  }

  /** One whole update from Begin to End. */
  lemma {:induction false} Protecting(key: nat -> Key, states: seq<State>, events: seq<Event>, s: State, k: Key, deny: nat)
    returns (states': seq<State>, events': seq<Event>)
    requires RunTo(key, states, events, s) && s.writer == NoWriter && Accepts(s.table, k, deny)
    ensures RunTo(key, states', events', Protected(s, k, deny))
  {
    var a := s.(writer := Holding(Protect(k, deny)));
    Append(key, states, events, s, Begin(Protect(k, deny)), a);
    var b := Changing(a, Protect(k, deny));
    Append(key, states + [a], events + [Begin(Protect(k, deny))], a, Apply, b);
    var c := b.(generation := Increment(s.generation), bumps := s.bumps + 1, writer := Bumped);
    Append(key, states + [a] + [b], events + [Begin(Protect(k, deny))] + [Apply], b, Bump, c);
    states' := states + [a] + [b] + [c] + [Protected(s, k, deny)];
    events' := events + [Begin(Protect(k, deny))] + [Apply] + [Bump] + [End];
    Append(key, states + [a] + [b] + [c], events + [Begin(Protect(k, deny))] + [Apply] + [Bump], c, End, Protected(s, k, deny));
  }

  function Protected(s: State, k: Key, deny: nat): State {
    s.(table := Updated(s.table, k, deny), count := s.count + Gained(s.table, k, deny),
       generation := Increment(s.generation), bumps := s.bumps + 1)
  }

  /** n more updates of a protected file. */
  lemma {:induction false} Churn(key: nat -> Key, states: seq<State>, events: seq<Event>, s: State, k: Key, n: nat)
    returns (states': seq<State>, events': seq<Event>, s': State)
    requires RunTo(key, states, events, s) && Inv(key, s) && s.writer == NoWriter && Deny(s.table, k) != 0
    ensures RunTo(key, states', events', s') && Inv(key, s') && s'.writer == NoWriter && s'.cache == s.cache && s'.threads == s.threads
    ensures s'.bumps == s.bumps + n && (n > 0 ==> Deny(s'.table, k) == 2) && (n == 0 ==> s' == s) && Deny(s'.table, k) != 0
  {
    states', events', s' := states, events, s;
    if n > 0 {
      states', events', s' := Churn(key, states, events, s, k, n - 1);
      var next := Protected(s', k, 2);
      UpdatedDeny(s'.table, k, 2, k);
      states', events' := Protecting(key, states', events', s', k, 2);
      s' := next;
      RunInv(key, states', events', |events'|);
    }
  }

  /** A run that ends in a hit, not between a table change and its new generation, on flags n changes
      old that are not what the table says. */
  ghost predicate WrongHit(key: nat -> Key, states: seq<State>, events: seq<Event>, n: int) {
    && Run(key, states, events) && |events| > 0
    && var s, e := states[|events| - 1], events[|events| - 1];
       HitAt(s, e, n) && !Unsettled(s.writer) && e.deny != Deny(s.table, key(s.threads[e.thread].stream))
  }

  /** A stream's flags looked up and cached right after its file was protected. */
  lemma {:induction false} Cached(key: nat -> Key) returns (states: seq<State>, events: seq<Event>, s: State)
    ensures RunTo(key, states, events, s) && Inv(key, s) && s.writer == NoWriter
    ensures s.bumps == 1 && s.cache == map[0 := Record(Generation(1), 1, 1)] && s.threads == map[] && Deny(s.table, key(0)) == 1
  {
    s := State(seq(MAX_PROTECTED, _ => Unused), 0, 1, None, NoWriter, map[], map[], 0);
    states, events := [s], [];
    var k := key(0);
    InvInitial(key, s);
    UpdatedDeny(s.table, k, 1, k);
    states, events := Protecting(key, states, events, s, k, 1);
    s := Protected(s, k, 1);
    RunInv(key, states, events, |events|);
    states, events, s := Filling(key, states, events, s);
    RunInv(key, states, events, |events|);
  }

  /** A thread finds no context, looks the stream's flags up and caches them. */
  lemma {:induction false} Filling(key: nat -> Key, states: seq<State>, events: seq<Event>, s: State)
    returns (states': seq<State>, events': seq<Event>, s': State)
    requires RunTo(key, states, events, s) && s.writer == NoWriter && s.count != 0 && s.threads == map[] && s.generation != 0
    ensures RunTo(key, states', events', s') && s' == s.(cache := s.cache[0 := Current(s, key(0))])
  {
    var a, b := Moved(s, 0, Counted(0)), Moved(s, 0, Missed(0));
    var c := Moved(s, 0, Looked(0, Current(s, key(0))));
    s' := s.(cache := s.cache[0 := Current(s, key(0))]);
    Append(key, states, events, s, Pass(0, 0), a);
    assert b == Moved(a, 0, Missed(0)) && c == Moved(b, 0, Looked(0, Current(b, key(0))));
    Append(key, states + [a], events + [Pass(0, 0)], a, Miss(0), b);
    Append(key, states + [a] + [b], events + [Pass(0, 0)] + [Miss(0)], b, LookUp(0), c);
    assert s' == Left(c, 0).(cache := s.cache[0 := Current(s, key(0))]);
    states' := states + [a] + [b] + [c] + [s'];
    events' := events + [Pass(0, 0)] + [Miss(0)] + [LookUp(0)] + [Fill(0)];
    Append(key, states + [a] + [b] + [c], events + [Pass(0, 0)] + [Miss(0)] + [LookUp(0)], c, Fill(0), s');
  }

  /** After any multiple of 2^32 further changes the cached flags carry the current generation again. */
  lemma {:induction false} StaleAfterWrap(key: nat -> Key, n: nat) returns (states: seq<State>, events: seq<Event>)
    requires n > 0 && n % TWO32 == 0
    ensures WrongHit(key, states, events, n)
  {
    var s, last;
    states, events, s := Cached(key);
    states, events, last := Churn(key, states, events, s, key(0), n);
    if last.count == 0 {
      NoneInUse(last.table, key(0));
    }
    SameGeneration(1, last.bumps);
    var a, b := Moved(last, 0, Counted(0)), Moved(last, 0, Fetched(0, last.cache[0]));
    Append(key, states, events, last, Pass(0, 0), a);
    assert b == Moved(a, 0, Fetched(0, a.cache[0]));
    Append(key, states + [a], events + [Pass(0, 0)], a, Fetch(0), b);
    Append(key, states + [a] + [b], events + [Pass(0, 0)] + [Fetch(0)], b, Hit(0, 1), Left(b, 0));
    states, events := states + [a] + [b] + [Left(b, 0)], events + [Pass(0, 0)] + [Fetch(0)] + [Hit(0, 1)];
  }

  /** The promise is broken exactly at those ages: some run hits wrong flags n changes old if and only
      if n is a positive multiple of 2^32. */
  lemma {:induction false} StaleExactly(key: nat -> Key, n: nat)
    ensures (exists states, events :: WrongHit(key, states, events, n)) <==> n > 0 && n % TWO32 == 0
  {
    if n > 0 && n % TWO32 == 0 {
      var states, events := StaleAfterWrap(key, n);
    }
    forall states: seq<State>, events: seq<Event> | WrongHit(key, states, events, n) ensures n > 0 && n % TWO32 == 0 {
      var k := |events| - 1;
      RunInv(key, states, events, k);
      assert StepHolds(key, states, events, k);
      var p := states[k].threads[events[k].thread];
      var r := p.record;
      assert Tagged(states[k], r, key(p.stream));
      SameGeneration(r.at, states[k].bumps);
    }
  }
}
