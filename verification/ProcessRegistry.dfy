/**
 The registry of running queries: `ProcessManager`, its `Ticket`s, and the gauge
 kept by the construction and destruction of `CancellableProcess`.

 `Registry` is the state, `Apply` the effect of one atomic step, and a run is a
 sequence of steps. The class at the end is the manager itself, whose methods
 are proved against the steps.
 */
module ProcessRegistry {
  import opened Integers
  import opened Option

  /** The identity of a cancellation handle: one per registered query, shared by ticket and process. */
  type Handle = nat

  datatype Process = Process(catalog: string, id: U32, handle: Handle, query: string)

  datatype Ticket = Ticket(catalog: string, id: U32, handle: Handle)

  /** The ticket handed out for a process. */
  function TicketOf(p: Process): Ticket {
    Ticket(p.catalog, p.id, p.handle)
  }

  datatype Registry = Registry(
    nextId: U32,
    catalogs: map<string, map<U32, Process>>,
    gauge: map<string, int>,
    nextHandle: Handle,
    cancelled: set<Handle>,
    pending: set<Process>,
    tickets: set<Ticket>)

  datatype Step =
    | IssueId
    | Construct(catalog: string, queryId: Option<U32>, query: string)
    | Insert(process: Process)
    | Deregister(catalog: string, id: U32)
    | DropTicket(ticket: Ticket)
    | Kill(catalog: string, id: U32)

  const EMPTY := Registry(0, map[], map[], 0, {}, {}, {})

  // ---------- The steps ----------

  function NextId(id: U32): U32 {
    (id + 1) % 0x1_0000_0000
  }

  function Reading(gauge: map<string, int>, c: string): int {
    if c in gauge then gauge[c] else 0
  }

  predicate Registered(catalogs: map<string, map<U32, Process>>, c: string, id: U32) {
    c in catalogs && id in catalogs[c]
  }

  function Without<K, V>(m: map<K, V>, k: K): map<K, V> {
    map x | x in m && x != k :: m[x]
  }

  /** Dropping the process registered under an id, if there is one, decrements the gauge of its catalog. */
  function GaugeWithout(s: Registry, c: string, id: U32): map<string, int> {
    if Registered(s.catalogs, c, id) then
      var name := s.catalogs[c][id].catalog;
      s.gauge[name := Reading(s.gauge, name) - 1]
    else s.gauge
  }

  /** `CancellableProcess::new`, with the id taken from the counter unless the caller brings one. */
  function AfterConstruct(s: Registry, c: string, queryId: Option<U32>, query: string): Registry {
    var id := if queryId.Some? then queryId.value else s.nextId;
    s.(nextId := if queryId.Some? then s.nextId else NextId(s.nextId),
       nextHandle := s.nextHandle + 1,
       gauge := s.gauge[c := Reading(s.gauge, c) + 1],
       pending := s.pending + {Process(c, id, s.nextHandle, query)})
  }

  /** The insertion under the lock; an entry with the same id is replaced and dropped. */
  function AfterInsert(s: Registry, p: Process): Registry {
    var inner := if p.catalog in s.catalogs then s.catalogs[p.catalog] else map[];
    s.(catalogs := s.catalogs[p.catalog := inner[p.id := p]],
       gauge := GaugeWithout(s, p.catalog, p.id),
       pending := s.pending - {p},
       tickets := s.tickets + {TicketOf(p)})
  }

  /** `deregister_query`: a catalog left without entries, or found without any, is removed. */
  function AfterDeregister(s: Registry, c: string, id: U32): Registry {
    if c !in s.catalogs then s
    else
      var inner := Without(s.catalogs[c], id);
      s.(catalogs := if inner == map[] then Without(s.catalogs, c) else s.catalogs[c := inner],
         gauge := GaugeWithout(s, c, id))
  }

  /** `kill_local_process`: the entry is removed and cancelled; its catalog stays, even without entries. */
  function AfterKill(s: Registry, c: string, id: U32): Registry {
    if !Registered(s.catalogs, c, id) then s
    else
      s.(catalogs := s.catalogs[c := Without(s.catalogs[c], id)],
         gauge := GaugeWithout(s, c, id),
         cancelled := s.cancelled + {s.catalogs[c][id].handle})
  }

  function Apply(s: Registry, step: Step): Registry {
    match step
    case IssueId => s.(nextId := NextId(s.nextId))
    case Construct(c, queryId, query) => AfterConstruct(s, c, queryId, query)
    case Insert(p) => AfterInsert(s, p)
    case Deregister(c, id) => AfterDeregister(s, c, id)
    case DropTicket(t) => AfterDeregister(s.(tickets := s.tickets - {t}), t.catalog, t.id)
    case Kill(c, id) => AfterKill(s, c, id)
  }

  /** A process is inserted once after its construction; a ticket is dropped once. */
  predicate Enabled(s: Registry, step: Step) {
    match step
    case Insert(p) => p in s.pending
    case DropTicket(t) => t in s.tickets
    case _ => true
  }

  /** The steps can be taken in this order. */
  predicate Runs(s: Registry, steps: seq<Step>)
    decreases steps
  {
    steps == [] || (Enabled(s, steps[0]) && Runs(Apply(s, steps[0]), steps[1..]))
  }

  function Final(s: Registry, steps: seq<Step>): Registry
    decreases steps
  {
    if steps == [] then s else Final(Apply(s, steps[0]), steps[1..])
  }

  // ---------- What every step keeps ----------

  /** Every entry is held by its own undropped ticket. */
  ghost predicate EntriesHeld(s: Registry) {
    forall c, id :: Registered(s.catalogs, c, id) ==>
      var p := s.catalogs[c][id];
      p.catalog == c && p.id == id && p.handle !in s.cancelled && Ticket(c, id, p.handle) in s.tickets
  }

  ghost predicate CatalogHeld(s: Registry, c: string) {
    exists t :: t in s.tickets && t.catalog == c
  }

  /** Every catalog, even one whose entries a kill removed, is held by an undropped ticket. */
  ghost predicate CatalogsHeld(s: Registry) {
    forall c :: c in s.catalogs ==> CatalogHeld(s, c)
  }

  function EntryCount(s: Registry, c: string): nat {
    if c in s.catalogs then |s.catalogs[c]| else 0
  }

  function PendingIn(s: Registry, c: string): set<Process> {
    set p | p in s.pending && p.catalog == c
  }

  /** The gauge counts the entries and the registrations between construction and insertion. */
  ghost predicate GaugeExact(s: Registry) {
    forall c :: Reading(s.gauge, c) == EntryCount(s, c) + |PendingIn(s, c)|
  }

  ghost predicate HandlesFresh(s: Registry) {
    && (forall p :: p in s.pending ==> p.handle < s.nextHandle && p.handle !in s.cancelled)
    && (forall t :: t in s.tickets ==> t.handle < s.nextHandle)
    && (forall h :: h in s.cancelled ==> h < s.nextHandle)
    && (forall p, t :: p in s.pending && t in s.tickets ==> p.handle != t.handle)
    && (forall p, q :: p in s.pending && q in s.pending && p.handle == q.handle ==> p == q)
    && (forall t, u :: t in s.tickets && u in s.tickets && t.handle == u.handle ==> t == u)
  }

  ghost predicate Inv(s: Registry) {
    EntriesHeld(s) && CatalogsHeld(s) && GaugeExact(s) && HandlesFresh(s)
  }

  /** A deregistration removes one entry and leaves the others as they are. */
  lemma DeregisterRemovesOne(s: Registry, c: string, id: U32, d: string, k: U32)
    ensures var s' := AfterDeregister(s, c, id);
      && s' == s.(catalogs := s'.catalogs, gauge := s'.gauge)
      && (Registered(s'.catalogs, d, k) <==> Registered(s.catalogs, d, k) && !(d == c && k == id))
      && (Registered(s'.catalogs, d, k) ==> s'.catalogs[d][k] == s.catalogs[d][k])
  {
    if c in s.catalogs && d == c && k in s.catalogs[c] && k != id {
      assert k in Without(s.catalogs[c], id);
    }
  }

  /** Deregistering removes a catalog exactly when it leaves no entry in it. */
  lemma DeregisterRemovesEmptied(s: Registry, c: string, id: U32, d: string)
    ensures d in AfterDeregister(s, c, id).catalogs <==>
            d in s.catalogs && (d == c ==> exists j :: j != id && j in s.catalogs[d])
  {
    if c in s.catalogs {
      var inner := Without(s.catalogs[c], id);
      if j :| j != id && j in s.catalogs[c] {
        assert j in inner;
      } else {
        assert inner == map[];
      }
    }
  }

  lemma KillRemovesOne(s: Registry, c: string, id: U32, d: string, k: U32)
    ensures var s' := AfterKill(s, c, id);
      && s'.catalogs.Keys == s.catalogs.Keys
      && (Registered(s'.catalogs, d, k) <==> Registered(s.catalogs, d, k) && !(d == c && k == id))
      && (Registered(s'.catalogs, d, k) ==> s'.catalogs[d][k] == s.catalogs[d][k])
  {
  }

  lemma StepKeepsEntriesHeld(s: Registry, step: Step)
    requires EntriesHeld(s) && HandlesFresh(s) && Enabled(s, step)
    ensures EntriesHeld(Apply(s, step))
  {
    var s' := Apply(s, step);
    forall c, id | Registered(s'.catalogs, c, id)
      ensures var p := s'.catalogs[c][id];
        p.catalog == c && p.id == id && p.handle !in s'.cancelled && Ticket(c, id, p.handle) in s'.tickets
    {
      match step
      case Insert(p) => if !(c == p.catalog && id == p.id) { assert Registered(s.catalogs, c, id); }
      case Deregister(d, k) => DeregisterRemovesOne(s, d, k, c, id);
      case DropTicket(t) => DeregisterRemovesOne(s.(tickets := s.tickets - {t}), t.catalog, t.id, c, id);
      case Kill(d, k) =>
        KillRemovesOne(s, d, k, c, id);
        KillSparesOthers(s, d, k, c, id);
      case _ => assert Registered(s.catalogs, c, id);
    }
  }

  lemma KillSparesOthers(s: Registry, d: string, k: U32, c: string, id: U32)
    requires EntriesHeld(s) && HandlesFresh(s)
    requires Registered(s.catalogs, c, id) && !(c == d && id == k)
    ensures s.catalogs[c][id].handle !in AfterKill(s, d, k).cancelled
  {
    if Registered(s.catalogs, d, k) {
      assert Ticket(d, k, s.catalogs[d][k].handle) in s.tickets;
      assert Ticket(c, id, s.catalogs[c][id].handle) in s.tickets;
    }
  }

  lemma StepKeepsCatalogsHeld(s: Registry, step: Step)
    requires EntriesHeld(s) && CatalogsHeld(s) && Enabled(s, step)
    ensures CatalogsHeld(Apply(s, step))
  {
    var s' := Apply(s, step);
    forall c | c in s'.catalogs ensures CatalogHeld(s', c) {
      match step
      case Insert(p) =>
        if c == p.catalog {
          assert TicketOf(p) in s'.tickets;
        } else {
          var t :| t in s.tickets && t.catalog == c;
          assert t in s'.tickets;
        }
      case DropTicket(t) =>
        if c == t.catalog {
          RemainingEntryHolds(s, t);
        } else {
          var u :| u in s.tickets && u.catalog == c;
          assert u in s'.tickets;
        }
      case _ =>
        var t :| t in s.tickets && t.catalog == c;
        assert t in s'.tickets;
    }
  }

  /** A catalog that survives the drop of one of its tickets has an entry left, and that entry a ticket. */
  lemma RemainingEntryHolds(s: Registry, t: Ticket)
    requires EntriesHeld(s) && t in s.tickets
    requires t.catalog in Apply(s, DropTicket(t)).catalogs
    ensures CatalogHeld(Apply(s, DropTicket(t)), t.catalog)
  {
    var inner := Without(s.catalogs[t.catalog], t.id);
    assert inner.Keys != {};
    var id :| id in inner;
    assert Registered(s.catalogs, t.catalog, id);
    assert Ticket(t.catalog, id, inner[id].handle) in Apply(s, DropTicket(t)).tickets;
  }

  lemma StepKeepsHandlesFresh(s: Registry, step: Step)
    requires EntriesHeld(s) && HandlesFresh(s) && Enabled(s, step)
    ensures HandlesFresh(Apply(s, step))
  {
    match step
    case Construct(c, queryId, query) => ConstructKeepsHandlesFresh(s, c, queryId, query);
    case Insert(p) => InsertKeepsHandlesFresh(s, p);
    case Kill(c, id) => KillKeepsHandlesFresh(s, c, id);
    case _ =>
  }

  lemma ConstructKeepsHandlesFresh(s: Registry, c: string, queryId: Option<U32>, query: string)
    requires HandlesFresh(s)
    ensures HandlesFresh(AfterConstruct(s, c, queryId, query))
  {
  }

  lemma InsertKeepsHandlesFresh(s: Registry, p: Process)
    requires HandlesFresh(s) && p in s.pending
    ensures HandlesFresh(AfterInsert(s, p))
  {
  }

  lemma KillKeepsHandlesFresh(s: Registry, c: string, id: U32)
    requires EntriesHeld(s) && HandlesFresh(s)
    ensures HandlesFresh(AfterKill(s, c, id))
  {
    if Registered(s.catalogs, c, id) {
      assert Ticket(c, id, s.catalogs[c][id].handle) in s.tickets;
    }
  }

  lemma WithoutSize<K, V>(m: map<K, V>, k: K)
    ensures |Without(m, k)| == if k in m then |m| - 1 else |m|
  {
    assert Without(m, k).Keys == m.Keys - {k};
  }

  lemma StepKeepsGaugeExact(s: Registry, step: Step)
    requires EntriesHeld(s) && HandlesFresh(s) && GaugeExact(s) && Enabled(s, step)
    ensures GaugeExact(Apply(s, step))
  {
    var s' := Apply(s, step);
    forall c ensures Reading(s'.gauge, c) == EntryCount(s', c) + |PendingIn(s', c)| {
      assert Reading(s.gauge, c) == EntryCount(s, c) + |PendingIn(s, c)|;
      match step
      case IssueId => assert PendingIn(s', c) == PendingIn(s, c);
      case Construct(d, queryId, query) => ConstructCounts(s, d, queryId, query, c);
      case Insert(p) => InsertCounts(s, p, c);
      case Deregister(d, id) => DeregisterCounts(s, d, id, c);
      case DropTicket(t) => DeregisterCounts(s.(tickets := s.tickets - {t}), t.catalog, t.id, c);
      case Kill(d, id) =>
        assert PendingIn(s', c) == PendingIn(s, c);
        if Registered(s.catalogs, d, id) { WithoutSize(s.catalogs[d], id); }
    }
  }

  lemma ConstructCounts(s: Registry, d: string, queryId: Option<U32>, query: string, c: string)
    requires HandlesFresh(s)
    ensures var s' := AfterConstruct(s, d, queryId, query);
      EntryCount(s', c) == EntryCount(s, c) && |PendingIn(s', c)| == |PendingIn(s, c)| + if c == d then 1 else 0
  {
    var s' := AfterConstruct(s, d, queryId, query);
    var p :| p in s'.pending && p !in s.pending && s'.pending == s.pending + {p} && p.catalog == d;
    assert PendingIn(s', c) == if c == d then PendingIn(s, c) + {p} else PendingIn(s, c);
  }

  lemma InsertCounts(s: Registry, p: Process, c: string)
    requires EntriesHeld(s) && p in s.pending
    ensures var s' := AfterInsert(s, p);
      Reading(s'.gauge, c) - Reading(s.gauge, c) ==
      EntryCount(s', c) + |PendingIn(s', c)| - EntryCount(s, c) - |PendingIn(s, c)|
  {
    var s' := AfterInsert(s, p);
    if c == p.catalog {
      assert PendingIn(s', c) == PendingIn(s, c) - {p};
    } else {
      assert PendingIn(s', c) == PendingIn(s, c);
    }
  }

  lemma DeregisterCounts(s: Registry, d: string, id: U32, c: string)
    requires forall c, id :: Registered(s.catalogs, c, id) ==> s.catalogs[c][id].catalog == c
    ensures var s' := AfterDeregister(s, d, id);
      && PendingIn(s', c) == PendingIn(s, c)
      && Reading(s'.gauge, c) - Reading(s.gauge, c) == EntryCount(s', c) - EntryCount(s, c)
  {
    if d in s.catalogs {
      WithoutSize(s.catalogs[d], id);
    }
  }

  lemma StepKeepsInv(s: Registry, step: Step)
    requires Inv(s) && Enabled(s, step)
    ensures Inv(Apply(s, step))
  {
    StepKeepsEntriesHeld(s, step);
    StepKeepsCatalogsHeld(s, step);
    StepKeepsGaugeExact(s, step);
    StepKeepsHandlesFresh(s, step);
  }

  /** The invariant holds at the end of every run, colliding ids and explicit deregistrations included. */
  lemma {:induction false} RunKeepsInv(s: Registry, steps: seq<Step>)
    requires Inv(s) && Runs(s, steps)
    ensures Inv(Final(s, steps))
    decreases steps
  {
    if steps == [] {
    } else {
      StepKeepsInv(s, steps[0]);
      RunKeepsInv(Apply(s, steps[0]), steps[1..]);
    }
  }

  lemma EmptyInv()
    ensures Inv(EMPTY)
  {
    forall c ensures |PendingIn(EMPTY, c)| == 0 {
      assert PendingIn(EMPTY, c) == {};
    }
  }

  /**
   In every run from the empty registry each entry is held by its own undropped
   ticket, each catalog by an undropped ticket, and the gauge is exact; so once
   all tickets are dropped and no registration is under way, nothing is left.
   */
  lemma RunLeavesNothingBehind(steps: seq<Step>)
    requires Runs(EMPTY, steps)
    ensures var s := Final(EMPTY, steps);
      && EntriesHeld(s) && CatalogsHeld(s) && GaugeExact(s)
      && (s.tickets == {} ==> s.catalogs == map[])
      && (s.tickets == {} && s.pending == {} ==> forall c :: Reading(s.gauge, c) == 0)
  {
    EmptyInv();
    RunKeepsInv(EMPTY, steps);
    var s := Final(EMPTY, steps);
    if s.tickets == {} {
      assert forall c :: !CatalogHeld(s, c);
      assert s.catalogs == map[];
      if s.pending == {} {
        forall c ensures Reading(s.gauge, c) == 0 {
          assert PendingIn(s, c) == {};
        }
      }
    }
  }

  // ---------- What the list shows ----------

  /** A query that still runs: its ticket is neither dropped nor cancelled. */
  predicate Live(s: Registry, t: Ticket) {
    t in s.tickets && t.handle !in s.cancelled
  }

  /** The ticket's own process is in the list. */
  predicate Listed(s: Registry, t: Ticket) {
    Registered(s.catalogs, t.catalog, t.id) && s.catalogs[t.catalog][t.id].handle == t.handle
  }

  /** The list shows exactly the live queries. */
  ghost predicate ListExact(s: Registry) {
    forall t :: Live(s, t) <==> Listed(s, t)
  }

  /** No live ticket other than `but` has this catalog and id. */
  ghost predicate NoLive(s: Registry, c: string, id: U32, but: Option<Ticket>) {
    forall t :: Live(s, t) && t.catalog == c && t.id == id ==> Some(t) == but
  }

  /** The condition to check before a step so that the list stays exact. */
  ghost predicate Guard(s: Registry, step: Step) {
    match step
    case Insert(p) => NoLive(s, p.catalog, p.id, None)
    case Deregister(c, id) => NoLive(s, c, id, None)
    case DropTicket(t) => NoLive(s, t.catalog, t.id, Some(t))
    case _ => true
  }

  lemma InsertedIsLive(s: Registry, p: Process)
    requires HandlesFresh(s) && p in s.pending
    ensures var t := TicketOf(p);
      Live(AfterInsert(s, p), t) && Listed(AfterInsert(s, p), t)
  {
  }

  lemma GuardedStepKeepsList(s: Registry, step: Step)
    requires Inv(s) && ListExact(s) && Enabled(s, step) && Guard(s, step)
    ensures ListExact(Apply(s, step))
  {
    forall t ensures Live(Apply(s, step), t) <==> Listed(Apply(s, step), t) {
      assert Live(s, t) <==> Listed(s, t);
      match step
      case Insert(p) => InsertKeepsListed(s, p, t);
      case Deregister(c, id) => DeregisterRemovesOne(s, c, id, t.catalog, t.id);
      case DropTicket(u) => DeregisterRemovesOne(s.(tickets := s.tickets - {u}), u.catalog, u.id, t.catalog, t.id);
      case Kill(c, id) => KillKeepsListed(s, c, id, t);
      case _ =>
    }
  }

  lemma InsertKeepsListed(s: Registry, p: Process, t: Ticket)
    requires HandlesFresh(s) && p in s.pending && NoLive(s, p.catalog, p.id, None)
    requires Live(s, t) <==> Listed(s, t)
    ensures Live(AfterInsert(s, p), t) <==> Listed(AfterInsert(s, p), t)
  {
    if t.catalog == p.catalog && t.id == p.id {
      assert !Live(s, t);
    }
  }

  lemma KillKeepsListed(s: Registry, c: string, id: U32, t: Ticket)
    requires EntriesHeld(s) && HandlesFresh(s)
    requires Live(s, t) <==> Listed(s, t)
    ensures Live(AfterKill(s, c, id), t) <==> Listed(AfterKill(s, c, id), t)
  {
    KillRemovesOne(s, c, id, t.catalog, t.id);
    if Registered(s.catalogs, c, id) {
      assert Ticket(c, id, s.catalogs[c][id].handle) in s.tickets;
    }
  }

  lemma UnguardedStepBreaksList(s: Registry, step: Step)
    requires Inv(s) && ListExact(s) && Enabled(s, step) && !Guard(s, step)
    ensures !ListExact(Apply(s, step))
  {
    match step
    case Insert(p) =>
      var t :| Live(s, t) && t.catalog == p.catalog && t.id == p.id;
      assert Live(Apply(s, step), t) && !Listed(Apply(s, step), t);
    case Deregister(c, id) =>
      var t :| Live(s, t) && t.catalog == c && t.id == id;
      DeregisterRemovesOne(s, c, id, t.catalog, t.id);
      assert Live(Apply(s, step), t);
    case DropTicket(u) =>
      var t :| Live(s, t) && t.catalog == u.catalog && t.id == u.id && t != u;
      DeregisterRemovesOne(s.(tickets := s.tickets - {u}), u.catalog, u.id, t.catalog, t.id);
      assert Live(Apply(s, step), t);
  }

  ghost predicate AlwaysExact(s: Registry, steps: seq<Step>)
    decreases steps
  {
    ListExact(s) && (steps == [] || AlwaysExact(Apply(s, steps[0]), steps[1..]))
  }

  ghost predicate Guarded(s: Registry, steps: seq<Step>)
    decreases steps
  {
    steps == [] || (Guard(s, steps[0]) && Guarded(Apply(s, steps[0]), steps[1..]))
  }

  /** The list is exact after every step of a run exactly when every step of the run meets its guard. */
  lemma {:induction false} ListExactIffGuarded(s: Registry, steps: seq<Step>)
    requires Inv(s) && ListExact(s) && Runs(s, steps)
    ensures AlwaysExact(s, steps) <==> Guarded(s, steps)
    decreases steps
  {
    if steps == [] {
    } else {
      var s' := Apply(s, steps[0]);
      StepKeepsInv(s, steps[0]);
      if Guard(s, steps[0]) {
        GuardedStepKeepsList(s, steps[0]);
        ListExactIffGuarded(s', steps[1..]);
      } else {
        UnguardedStepBreaksList(s, steps[0]);
      }
    }
  }

  /** Two queries under one id: the drop of the first ticket takes the second query off the list. */
  lemma CollisionHidesALiveQuery(c: string, id: U32, query: string)
    ensures var p, q := Process(c, id, 0, query), Process(c, id, 1, query);
      var steps := [Construct(c, Some(id), query), Insert(p), Construct(c, Some(id), query), Insert(q),
                    DropTicket(Ticket(c, id, 0))];
      var t := Ticket(c, id, 1);
      Runs(EMPTY, steps) && Live(Final(EMPTY, steps), t) && !Listed(Final(EMPTY, steps), t)
  {
    var p, q := Process(c, id, 0, query), Process(c, id, 1, query);
    var steps := [Construct(c, Some(id), query), Insert(p), Construct(c, Some(id), query), Insert(q),
                  DropTicket(Ticket(c, id, 0))];
    var s1 := Apply(EMPTY, steps[0]);
    var s2 := Apply(s1, steps[1]);
    var s3 := Apply(s2, steps[2]);
    var s4 := Apply(s3, steps[3]);
    var s5 := Apply(s4, steps[4]);
    assert steps[1..] == [steps[1]] + steps[2..] && steps[2..] == [steps[2]] + steps[3..];
    assert steps[3..] == [steps[3]] + steps[4..] && steps[4..] == [steps[4]] + [];
    assert steps == [steps[0]] + steps[1..];
    FinalOf(EMPTY, steps[0], steps[1..]);
    FinalOf(s1, steps[1], steps[2..]);
    FinalOf(s2, steps[2], steps[3..]);
    FinalOf(s3, steps[3], steps[4..]);
    FinalOf(s4, steps[4], []);
  }

  lemma FinalOf(s: Registry, step: Step, rest: seq<Step>)
    ensures Final(s, [step] + rest) == Final(Apply(s, step), rest)
    ensures Runs(s, [step] + rest) <==> Enabled(s, step) && Runs(Apply(s, step), rest)
  {
    assert ([step] + rest)[1..] == rest;
  }

  // ---------- Ids from the shared counter ----------

  /** No query being registered and no undropped ticket has the id. */
  ghost predicate Free(s: Registry, id: U32) {
    (forall p :: p in s.pending ==> p.id != id) && (forall t :: t in s.tickets ==> t.id != id)
  }

  /**
   Every id comes from the counter: a registration draws one, or brings one that
   `next_id` issued to its session and that no other query of the session holds.
   Only ticket drops deregister.
   */
  ghost predicate CounterStep(s: Registry, sessions: set<U32>, step: Step) {
    match step
    case Construct(_, Some(id), _) => id in sessions && Free(s, id)
    case Deregister(_, _) => false
    case _ => true
  }

  /** The ids issued to sessions so far. */
  function Sessions(s: Registry, sessions: set<U32>, step: Step): set<U32> {
    if step.IssueId? then sessions + {s.nextId} else sessions
  }

  ghost predicate CounterRun(s: Registry, sessions: set<U32>, steps: seq<Step>)
    decreases steps
  {
    steps == [] ||
    (CounterStep(s, sessions, steps[0]) && CounterRun(Apply(s, steps[0]), Sessions(s, sessions, steps[0]), steps[1..]))
  }

  predicate Issues(step: Step) {
    step.IssueId? || (step.Construct? && step.queryId.None?)
  }

  function Issued(steps: seq<Step>): nat {
    if steps == [] then 0 else (if Issues(steps[0]) then 1 else 0) + Issued(steps[1..])
  }

  /** Ids in use are below the counter, which has not wrapped, and no two registrations share one. */
  ghost predicate IdsDistinct(s: Registry, sessions: set<U32>, issued: nat) {
    && (issued < 0x1_0000_0000 ==> s.nextId == issued)
    && (forall id :: id in sessions ==> id < issued)
    && (forall t :: t in s.tickets ==> t.id < issued)
    && (forall p :: p in s.pending ==> p.id < issued)
    && (forall t, u :: t in s.tickets && u in s.tickets && t.id == u.id ==> t.handle == u.handle)
    && (forall p, t :: p in s.pending && t in s.tickets ==> p.id != t.id)
    && (forall p, q :: p in s.pending && q in s.pending && p.id == q.id ==> p.handle == q.handle)
  }

  lemma CounterStepKeepsIds(s: Registry, sessions: set<U32>, step: Step, issued: nat)
    requires Inv(s) && IdsDistinct(s, sessions, issued) && Enabled(s, step) && CounterStep(s, sessions, step)
    requires issued + (if Issues(step) then 1 else 0) <= 0x1_0000_0000
    ensures IdsDistinct(Apply(s, step), Sessions(s, sessions, step), issued + if Issues(step) then 1 else 0)
  {
    match step
    case Construct(c, None, query) => DrawKeepsIds(s, sessions, c, query, issued);
    case Construct(c, Some(id), query) => BringKeepsIds(s, sessions, c, id, query, issued);
    case Insert(p) => InsertKeepsIds(s, sessions, p, issued);
    case _ =>
  }

  lemma DrawKeepsIds(s: Registry, sessions: set<U32>, c: string, query: string, issued: nat)
    requires IdsDistinct(s, sessions, issued) && issued < 0x1_0000_0000
    ensures IdsDistinct(AfterConstruct(s, c, None, query), sessions, issued + 1)
  {
    var p := Process(c, s.nextId, s.nextHandle, query);
    assert AfterConstruct(s, c, None, query).pending == s.pending + {p};
  }

  lemma BringKeepsIds(s: Registry, sessions: set<U32>, c: string, id: U32, query: string, issued: nat)
    requires IdsDistinct(s, sessions, issued) && id in sessions && Free(s, id)
    ensures IdsDistinct(AfterConstruct(s, c, Some(id), query), sessions, issued)
  {
    var p := Process(c, id, s.nextHandle, query);
    assert AfterConstruct(s, c, Some(id), query).pending == s.pending + {p};
  }

  lemma InsertKeepsIds(s: Registry, sessions: set<U32>, p: Process, issued: nat)
    requires IdsDistinct(s, sessions, issued) && HandlesFresh(s) && p in s.pending
    ensures IdsDistinct(AfterInsert(s, p), sessions, issued)
  {
  }

  lemma CounterStepIsGuarded(s: Registry, sessions: set<U32>, step: Step, issued: nat)
    requires Inv(s) && IdsDistinct(s, sessions, issued) && Enabled(s, step) && CounterStep(s, sessions, step)
    ensures Guard(s, step)
  {
  }

  lemma {:induction false} CounterRunIsGuarded(s: Registry, sessions: set<U32>, steps: seq<Step>, issued: nat)
    requires Inv(s) && IdsDistinct(s, sessions, issued) && Runs(s, steps) && CounterRun(s, sessions, steps)
    requires issued + Issued(steps) <= 0x1_0000_0000
    ensures Guarded(s, steps)
    decreases steps
  {
    if steps == [] {
    } else {
      var step := steps[0];
      StepKeepsInv(s, step);
      CounterStepKeepsIds(s, sessions, step, issued);
      CounterStepIsGuarded(s, sessions, step, issued);
      var next := issued + if Issues(step) then 1 else 0;
      CounterRunIsGuarded(Apply(s, step), Sessions(s, sessions, step), steps[1..], next);
    }
  }

  /**
   Where the list is exact, a kill finds its target exactly when a live query has
   that catalog and id, and then cancels that query and no other.
   */
  lemma KillHitsItsTarget(s: Registry, c: string, id: U32)
    requires Inv(s) && ListExact(s)
    ensures Registered(s.catalogs, c, id) <==> exists t :: Live(s, t) && t.catalog == c && t.id == id
    ensures forall t :: Live(s, t) && t.catalog == c && t.id == id ==>
      AfterKill(s, c, id).cancelled == s.cancelled + {t.handle}
    ensures forall t :: Live(s, t) ==> (Live(AfterKill(s, c, id), t) <==> !(t.catalog == c && t.id == id))
  {
    if Registered(s.catalogs, c, id) {
      var t := Ticket(c, id, s.catalogs[c][id].handle);
      assert Listed(s, t);
      assert Live(s, t);
    }
    forall t | Live(s, t) && t.catalog == c && t.id == id
      ensures Registered(s.catalogs, c, id) && s.catalogs[c][id].handle == t.handle
    {
      assert Listed(s, t);
    }
  }

  // ---------- Listing ----------

  /** The processes of one catalog, or of all. */
  function Processes(s: Registry, catalog: Option<string>): set<Process> {
    match catalog
    case Some(c) => if c in s.catalogs then s.catalogs[c].Values else {}
    case None => set c, id | c in s.catalogs && id in s.catalogs[c] :: s.catalogs[c][id]
  }

  lemma CatalogOfListed(s: Registry, p: Process, c: string)
    requires EntriesHeld(s)
    ensures p in Processes(s, Some(c)) <==> p in Processes(s, None) && p.catalog == c
    ensures p in Processes(s, None) ==> p.catalog in s.catalogs
  {
    if p in Processes(s, Some(c)) {
      var id :| id in s.catalogs[c] && s.catalogs[c][id] == p;
      assert Registered(s.catalogs, c, id);
      assert p in Processes(s, None);
    }
    if p in Processes(s, None) {
      var d, id :| d in s.catalogs && id in s.catalogs[d] && s.catalogs[d][id] == p;
      assert Registered(s.catalogs, d, id);
      assert p in Processes(s, Some(d));
    }
  }

  /** The listing of all catalogs shows this ticket's process. */
  ghost predicate Shown(s: Registry, t: Ticket) {
    exists p :: p in Processes(s, None) && TicketOf(p) == t
  }

  /** The processes listed are those of the live queries. */
  ghost predicate ListingExact(s: Registry) {
    forall t :: Live(s, t) <==> Shown(s, t)
  }

  lemma ListedIsShown(s: Registry, t: Ticket)
    requires EntriesHeld(s)
    ensures Listed(s, t) <==> Shown(s, t)
  {
    if Listed(s, t) {
      var p := s.catalogs[t.catalog][t.id];
      assert p in Processes(s, None) && TicketOf(p) == t;
    }
    if Shown(s, t) {
      var p :| p in Processes(s, None) && TicketOf(p) == t;
      var c, id :| c in s.catalogs && id in s.catalogs[c] && s.catalogs[c][id] == p;
      assert Registered(s.catalogs, c, id);
    }
  }

  /** The listing of one catalog shows the tickets of that catalog. */
  lemma ShownIn(s: Registry, catalog: Option<string>, t: Ticket)
    requires EntriesHeld(s)
    ensures (exists p :: p in Processes(s, catalog) && TicketOf(p) == t) <==>
            Shown(s, t) && (catalog.None? || t.catalog == catalog.value)
  {
    if catalog.Some? {
      forall p ensures p in Processes(s, catalog) <==> p in Processes(s, None) && p.catalog == catalog.value {
        CatalogOfListed(s, p, catalog.value);
      }
    }
  }

  /** Exactness of the entries and of what `local_processes` returns are the same. */
  lemma ListingIsList(s: Registry)
    requires EntriesHeld(s)
    ensures ListingExact(s) <==> ListExact(s)
  {
    forall t ensures Listed(s, t) <==> Shown(s, t) { ListedIsShown(s, t); }
    if ListingExact(s) {
      forall t ensures Live(s, t) <==> Listed(s, t) { assert Live(s, t) <==> Shown(s, t); }
    }
    if ListExact(s) {
      forall t ensures Live(s, t) <==> Shown(s, t) { assert Live(s, t) <==> Listed(s, t); }
    }
  }

  /** The listing is exact at the start and after every step. */
  ghost predicate AlwaysListed(s: Registry, steps: seq<Step>)
    decreases steps
  {
    ListingExact(s) && (steps == [] || AlwaysListed(Apply(s, steps[0]), steps[1..]))
  }

  lemma {:induction false} AlwaysListedIsExact(s: Registry, steps: seq<Step>)
    requires Inv(s) && Runs(s, steps)
    ensures AlwaysListed(s, steps) <==> AlwaysExact(s, steps)
    decreases steps
  {
    ListingIsList(s);
    if steps == [] {
    } else {
      StepKeepsInv(s, steps[0]);
      AlwaysListedIsExact(Apply(s, steps[0]), steps[1..]);
    }
  }

  /**
   Along every run the processes listed are exactly those of the live queries, at
   the start and after every step, if and only if every step meets its guard.
   */
  lemma ListingExactIffGuarded(s: Registry, steps: seq<Step>)
    requires Inv(s) && ListingExact(s) && Runs(s, steps)
    ensures AlwaysListed(s, steps) <==> Guarded(s, steps)
  {
    ListingIsList(s);
    AlwaysListedIsExact(s, steps);
    ListExactIffGuarded(s, steps);
  }

  /**
   With ids from the shared counter, at most 2^32 of them, one query at a time for
   each session, and deregistration by ticket drops alone, the processes listed
   are exactly those of the live queries after every step.
   */
  lemma CounterRunListsLiveQueries(steps: seq<Step>)
    requires Runs(EMPTY, steps) && CounterRun(EMPTY, {}, steps)
    requires Issued(steps) <= 0x1_0000_0000
    ensures AlwaysListed(EMPTY, steps)
  {
    EmptyInv();
    CounterRunIsGuarded(EMPTY, {}, steps, 0);
    assert ListExact(EMPTY);
    ListingIsList(EMPTY);
    ListingExactIffGuarded(EMPTY, steps);
  }

  lemma {:induction false} AlwaysListedAtEnd(s: Registry, steps: seq<Step>)
    requires AlwaysListed(s, steps)
    ensures ListingExact(Final(s, steps))
    decreases steps
  {
    if steps == [] {
    } else {
      AlwaysListedAtEnd(Apply(s, steps[0]), steps[1..]);
    }
  }

  /**
   What a client sees at the end of every run whose steps met their guards: the
   listing of all catalogs is the disjoint union of the listings of the catalogs,
   it holds exactly the processes of the live queries, and a kill finds its target
   exactly when a live query has that catalog and id, cancels it and spares the rest.
   */
  lemma GuardedRunServes(steps: seq<Step>, c: string, id: U32)
    requires Runs(EMPTY, steps) && Guarded(EMPTY, steps)
    ensures var s := Final(EMPTY, steps);
      && ListingExact(s)
      && (forall p :: p in Processes(s, None) <==> exists d :: p in Processes(s, Some(d)))
      && (forall d, e :: d != e ==> Processes(s, Some(d)) !! Processes(s, Some(e)))
      && (Registered(s.catalogs, c, id) <==> exists t :: Live(s, t) && t.catalog == c && t.id == id)
      && (forall t :: Live(s, t) && t.catalog == c && t.id == id ==>
            AfterKill(s, c, id).cancelled == s.cancelled + {t.handle})
      && (forall t :: Live(s, t) ==> (Live(AfterKill(s, c, id), t) <==> !(t.catalog == c && t.id == id)))
      && ListingExact(AfterKill(s, c, id))
  {
    EmptyInv();
    ListingIsList(EMPTY);
    ListingExactIffGuarded(EMPTY, steps);
    AlwaysListedAtEnd(EMPTY, steps);
    RunKeepsInv(EMPTY, steps);
    var s := Final(EMPTY, steps);
    ListingIsList(s);
    ListingsPartition(s);
    KillHitsItsTarget(s, c, id);
    KillKeepsListing(s, c, id);
  }

  lemma KillKeepsListing(s: Registry, c: string, id: U32)
    requires Inv(s) && ListExact(s)
    ensures ListingExact(AfterKill(s, c, id))
  {
    GuardedStepKeepsList(s, Kill(c, id));
    StepKeepsInv(s, Kill(c, id));
    ListingIsList(AfterKill(s, c, id));
  }

  /** The same for every run that takes its ids from the counter. */
  lemma CounterRunServes(steps: seq<Step>, c: string, id: U32)
    requires Runs(EMPTY, steps) && CounterRun(EMPTY, {}, steps)
    requires Issued(steps) <= 0x1_0000_0000
    ensures var s := Final(EMPTY, steps);
      && ListingExact(s)
      && (forall p :: p in Processes(s, None) <==> exists d :: p in Processes(s, Some(d)))
      && (forall d, e :: d != e ==> Processes(s, Some(d)) !! Processes(s, Some(e)))
      && (Registered(s.catalogs, c, id) <==> exists t :: Live(s, t) && t.catalog == c && t.id == id)
      && (forall t :: Live(s, t) && t.catalog == c && t.id == id ==>
            AfterKill(s, c, id).cancelled == s.cancelled + {t.handle})
      && (forall t :: Live(s, t) ==> (Live(AfterKill(s, c, id), t) <==> !(t.catalog == c && t.id == id)))
      && ListingExact(AfterKill(s, c, id))
  {
    EmptyInv();
    CounterRunIsGuarded(EMPTY, {}, steps, 0);
    GuardedRunServes(steps, c, id);
  }

  // ---------- What is listed is what was registered ----------

  /** The process was made for a registration of the run, with its catalog, query and id. */
  ghost predicate Constructed(p: Process, steps: seq<Step>) {
    exists i :: 0 <= i < |steps| && Constructs(steps[i], p)
  }

  predicate Constructs(step: Step, p: Process) {
    && step.Construct? && step.catalog == p.catalog && step.query == p.query
    && (step.queryId.Some? ==> step.queryId.value == p.id)
  }

  /** Entries were inserted, and entries and pending processes constructed, by these steps. */
  ghost predicate Traced(s: Registry, steps: seq<Step>) {
    && (forall p :: p in s.pending ==> Constructed(p, steps))
    && (forall c, id :: Registered(s.catalogs, c, id) ==>
          Insert(s.catalogs[c][id]) in steps && Constructed(s.catalogs[c][id], steps))
  }

  lemma ConstructedLonger(p: Process, steps: seq<Step>, more: seq<Step>)
    requires Constructed(p, steps) && steps <= more
    ensures Constructed(p, more)
  {
    var i :| 0 <= i < |steps| && Constructs(steps[i], p);
    assert Constructs(more[i], p);
  }

  lemma StepTraced(s: Registry, step: Step, steps: seq<Step>)
    requires Traced(s, steps) && Enabled(s, step)
    ensures Traced(Apply(s, step), steps + [step])
  {
    var s', more := Apply(s, step), steps + [step];
    assert more[|steps|] == step;
    forall p | p in s'.pending ensures Constructed(p, more) {
      if p in s.pending {
        ConstructedLonger(p, steps, more);
      } else {
        assert Constructs(more[|steps|], p);
      }
    }
    forall c, id | Registered(s'.catalogs, c, id)
      ensures Insert(s'.catalogs[c][id]) in more && Constructed(s'.catalogs[c][id], more)
    {
      var p := s'.catalogs[c][id];
      EntryBefore(s, step, c, id);
      if Registered(s.catalogs, c, id) && s.catalogs[c][id] == p {
        ConstructedLonger(p, steps, more);
      } else {
        ConstructedLonger(p, steps, more);
        assert more[|steps|] == Insert(p);
      }
    }
  }

  /** An entry after a step was there before, or is the process inserted. */
  lemma EntryBefore(s: Registry, step: Step, c: string, id: U32)
    requires Enabled(s, step) && Registered(Apply(s, step).catalogs, c, id)
    ensures var p := Apply(s, step).catalogs[c][id];
      (Registered(s.catalogs, c, id) && s.catalogs[c][id] == p) || (step == Insert(p) && p in s.pending)
  {
    match step
    case Deregister(d, k) => DeregisterRemovesOne(s, d, k, c, id);
    case DropTicket(t) => DeregisterRemovesOne(s.(tickets := s.tickets - {t}), t.catalog, t.id, c, id);
    case Kill(d, k) => KillRemovesOne(s, d, k, c, id);
    case _ =>
  }

  lemma {:induction false} RunTraced(s: Registry, done: seq<Step>, steps: seq<Step>)
    requires Traced(s, done) && Runs(s, steps)
    ensures Traced(Final(s, steps), done + steps)
    decreases steps
  {
    if steps == [] {
      assert done + steps == done;
    } else {
      StepTraced(s, steps[0], done);
      RunTraced(Apply(s, steps[0]), done + [steps[0]], steps[1..]);
      assert done + [steps[0]] + steps[1..] == done + steps;
    }
  }

  /**
   At the end of every run, a process listed is one that the run inserted, and its
   catalog and query, and its id if one was brought, are those of a registration.
   */
  lemma ListedWasRegistered(steps: seq<Step>, p: Process)
    requires Runs(EMPTY, steps) && p in Processes(Final(EMPTY, steps), None)
    ensures Insert(p) in steps && Constructed(p, steps)
  {
    assert Traced(EMPTY, []);
    RunTraced(EMPTY, [], steps);
    assert [] + steps == steps;
    var s := Final(EMPTY, steps);
    var c, id :| c in s.catalogs && id in s.catalogs[c] && s.catalogs[c][id] == p;
    assert Registered(s.catalogs, c, id);
  }

  /** The list of all catalogs is the disjoint union of the lists of the catalogs. */
  lemma ListingsPartition(s: Registry)
    requires EntriesHeld(s)
    ensures forall p :: p in Processes(s, None) <==> exists c :: p in Processes(s, Some(c))
    ensures forall c, d :: c != d ==> Processes(s, Some(c)) !! Processes(s, Some(d))
  {
    forall p, c ensures p in Processes(s, Some(c)) <==> p in Processes(s, None) && p.catalog == c {
      CatalogOfListed(s, p, c);
    }
    forall p | p in Processes(s, None) ensures exists c :: p in Processes(s, Some(c)) {
      assert p in Processes(s, Some(p.catalog));
    }
  }

  ghost predicate NoDuplicates(ps: seq<Process>) {
    forall i, j :: 0 <= i < j < |ps| ==> ps[i] != ps[j]
  }

  lemma NoDuplicatesConcat(xs: seq<Process>, ys: seq<Process>)
    requires NoDuplicates(xs) && NoDuplicates(ys) && forall p :: p in ys ==> p !in xs
    ensures NoDuplicates(xs + ys)
  {
    forall i, j | 0 <= i < j < |xs + ys| ensures (xs + ys)[i] != (xs + ys)[j] {
      if i < |xs| <= j {
        assert xs[i] in xs && ys[j - |xs|] in ys;
      }
    }
  }

  // ---------- The manager ----------

  /** `ProcessManager`. The tickets handed out and the processes not yet inserted are not part of its memory. */
  class ProcessManager {
    var nextId: U32
    var catalogs: map<string, map<U32, Process>>
    var gauge: map<string, int>
    var nextHandle: Handle
    var cancelled: set<Handle>
    ghost var pending: set<Process>
    ghost var tickets: set<Ticket>

    ghost function State(): Registry
      reads this
    {
      Registry(nextId, catalogs, gauge, nextHandle, cancelled, pending, tickets)
    }

    constructor ()
      ensures State() == EMPTY && Inv(State())
    {
      nextId, catalogs, gauge, nextHandle, cancelled := 0, map[], map[], 0, {};
      pending, tickets := {}, {};
      new;
      EmptyInv();
    }

    /** `next_id`. */
    method IssueNextId() returns (id: U32)
      requires Inv(State())
      modifies this
      ensures State() == Apply(old(State()), IssueId) && Inv(State())
      ensures id == old(nextId)
    {
      StepKeepsInv(State(), IssueId);
      id := nextId;
      nextId := NextId(nextId);
    }

    method NewProcess(catalog: string, queryId: Option<U32>, query: string) returns (p: Process)
      requires Inv(State())
      modifies this
      ensures State() == Apply(old(State()), Construct(catalog, queryId, query)) && Inv(State())
      ensures p in pending && p.catalog == catalog && p.query == query && p.handle == old(nextHandle)
      ensures p.id == if queryId.Some? then queryId.value else old(nextId)
    {
      StepKeepsInv(State(), Construct(catalog, queryId, query));
      var id;
      if queryId.Some? {
        id := queryId.value;
      } else {
        id := nextId;
        nextId := NextId(nextId);
      }
      p := Process(catalog, id, nextHandle, query);
      nextHandle := nextHandle + 1;
      gauge := gauge[catalog := Reading(gauge, catalog) + 1];
      pending := pending + {p};
    }

    method InsertProcess(p: Process) returns (t: Ticket)
      requires Inv(State()) && p in pending
      modifies this
      ensures State() == Apply(old(State()), Insert(p)) && Inv(State())
      ensures t == TicketOf(p) && t in tickets && Listed(State(), t) && Live(State(), t)
      ensures p in Processes(State(), Some(p.catalog))
    {
      ghost var s := State();
      StepKeepsInv(s, Insert(p));
      InsertedIsLive(s, p);
      t := Put(p);
    }

    method Put(p: Process) returns (t: Ticket)
      modifies this
      ensures State() == AfterInsert(old(State()), p)
      ensures t == TicketOf(p)
    {
      var inner := if p.catalog in catalogs then catalogs[p.catalog] else map[];
      if p.id in inner {
        var replaced := inner[p.id];
        gauge := gauge[replaced.catalog := Reading(gauge, replaced.catalog) - 1];
      }
      catalogs := catalogs[p.catalog := inner[p.id := p]];
      t := TicketOf(p);
      pending, tickets := pending - {p}, tickets + {t};
    }

    /** `register_query`: construction outside the lock, then insertion under it. */
    method RegisterQuery(catalog: string, queryId: Option<U32>, query: string) returns (t: Ticket)
      requires Inv(State())
      modifies this
      ensures t.catalog == catalog && t.id == (if queryId.Some? then queryId.value else old(nextId))
      ensures State() == Final(old(State()), [Construct(catalog, queryId, query),
                                              Insert(Process(catalog, t.id, t.handle, query))])
      ensures Inv(State()) && t !in old(tickets) && Listed(State(), t) && Live(State(), t)
      ensures Process(catalog, t.id, t.handle, query) in Processes(State(), Some(catalog))
    {
      ghost var s := State();
      var p := NewProcess(catalog, queryId, query);
      t := InsertProcess(p);
      FinalOf(s, Construct(catalog, queryId, query), [Insert(p)]);
      FinalOf(Apply(s, Construct(catalog, queryId, query)), Insert(p), []);
      assert [Construct(catalog, queryId, query)] + [Insert(p)] == [Construct(catalog, queryId, query), Insert(p)];
      assert [Insert(p)] + [] == [Insert(p)];
    }

    /** `deregister_query`. */
    method DeregisterQuery(catalog: string, id: U32)
      requires Inv(State())
      modifies this
      ensures State() == Apply(old(State()), Deregister(catalog, id)) && Inv(State())
      ensures !Registered(catalogs, catalog, id)
    {
      StepKeepsInv(State(), Deregister(catalog, id));
      Remove(catalog, id);
    }

    /** `Ticket::drop`. */
    method Drop(t: Ticket)
      requires Inv(State()) && t in tickets
      modifies this
      ensures State() == Apply(old(State()), DropTicket(t)) && Inv(State())
      ensures !Listed(State(), t)
    {
      StepKeepsInv(State(), DropTicket(t));
      tickets := tickets - {t};
      Remove(t.catalog, t.id);
    }

    method Remove(catalog: string, id: U32)
      modifies this
      ensures State() == AfterDeregister(old(State()), catalog, id)
      ensures !Registered(catalogs, catalog, id)
    {
      DeregisterRemovesOne(State(), catalog, id, catalog, id);
      if catalog in catalogs {
        if id in catalogs[catalog] {
          var process := catalogs[catalog][id];
          gauge := gauge[process.catalog := Reading(gauge, process.catalog) - 1];
        }
        catalogs := catalogs[catalog := Without(catalogs[catalog], id)];
        if catalogs[catalog] == map[] {
          catalogs := Without(catalogs, catalog);
        }
      }
      assert State().catalogs == AfterDeregister(old(State()), catalog, id).catalogs;
    }

    /** `kill_local_process`. */
    method KillLocalProcess(catalog: string, id: U32) returns (killed: bool)
      requires Inv(State())
      modifies this
      ensures State() == Apply(old(State()), Kill(catalog, id)) && Inv(State())
      ensures killed <==> Registered(old(catalogs), catalog, id)
      ensures killed ==> cancelled == old(cancelled) + {old(catalogs)[catalog][id].handle}
      ensures !killed ==> State() == old(State())
    {
      StepKeepsInv(State(), Kill(catalog, id));
      killed := Cancel(catalog, id);
    }

    method Cancel(catalog: string, id: U32) returns (found: bool)
      modifies this
      ensures State() == AfterKill(old(State()), catalog, id)
      ensures found <==> Registered(old(catalogs), catalog, id)
    {
      found := catalog in catalogs && id in catalogs[catalog];
      if found {
        var process := catalogs[catalog][id];
        catalogs := catalogs[catalog := Without(catalogs[catalog], id)];
        cancelled := cancelled + {process.handle};
        gauge := gauge[process.catalog := Reading(gauge, process.catalog) - 1];
      }
    }

    /** `local_processes`: every process of the catalog, or of all catalogs, once and in some order. */
    method LocalProcesses(catalog: Option<string>) returns (r: seq<Process>)
      requires Inv(State())
      ensures NoDuplicates(r)
      ensures forall p :: p in r <==> p in Processes(State(), catalog)
      ensures ListingExact(State()) ==>
        forall t :: Live(State(), t) && (catalog.None? || t.catalog == catalog.value) <==>
                    exists p :: p in r && TicketOf(p) == t
    {
      r := AllOrOne(catalog);
      if ListingExact(State()) {
        forall t ensures Live(State(), t) && (catalog.None? || t.catalog == catalog.value) <==>
                         exists p :: p in r && TicketOf(p) == t
        {
          assert Live(State(), t) <==> Shown(State(), t);
          ShownIn(State(), catalog, t);
        }
      }
    }

    method AllOrOne(catalog: Option<string>) returns (r: seq<Process>)
      requires Inv(State())
      ensures NoDuplicates(r)
      ensures forall p :: p in r <==> p in Processes(State(), catalog)
    {
      r := [];
      if catalog.Some? {
        if catalog.value in catalogs {
          r := CatalogProcesses(catalog.value);
        }
      } else {
        var rest := catalogs.Keys;
        while rest != {}
          invariant rest <= catalogs.Keys
          invariant NoDuplicates(r)
          invariant forall p :: p in r <==> p in Processes(State(), None) && p.catalog !in rest
        {
          var c :| c in rest;
          var ps := CatalogProcesses(c);
          forall p ensures p in ps <==> p in Processes(State(), None) && p.catalog == c {
            CatalogOfListed(State(), p, c);
          }
          NoDuplicatesConcat(r, ps);
          r := r + ps;
          rest := rest - {c};
        }
        forall p | p in Processes(State(), None) ensures p.catalog in catalogs {
          CatalogOfListed(State(), p, p.catalog);
        }
      }
    }

    method CatalogProcesses(c: string) returns (r: seq<Process>)
      requires Inv(State()) && c in catalogs
      ensures NoDuplicates(r)
      ensures forall p :: p in r <==> p in Processes(State(), Some(c))
    {
      r := [];
      var rest := catalogs[c].Keys;
      while rest != {}
        invariant rest <= catalogs[c].Keys
        invariant NoDuplicates(r)
        invariant forall p :: p in r <==> exists id :: id in catalogs[c] && id !in rest && catalogs[c][id] == p
      {
        var id :| id in rest;
        assert Registered(catalogs, c, id);
        assert forall p :: p in r ==> p.id in catalogs[c] && p.id !in rest by {
          forall p | p in r ensures p.id in catalogs[c] && p.id !in rest {
            var k :| k in catalogs[c] && k !in rest && catalogs[c][k] == p;
            assert Registered(catalogs, c, k);
          }
        }
        r := r + [catalogs[c][id]];
        rest := rest - {id};
      }
    }
  }
}
