/**
 The peers of a gRPC client and their background health refresh. A refresh takes
 a snapshot of the peers, probes them without the lock, and installs its verdicts
 only if the generation it saw is still current; `set_peers` may replace the list
 at any time. `Peers` is the state, extended by the refreshes in flight and by an
 epoch, the number of `set_peers` so far, of which the generation is the low 64 bits.
 */
module PeerSet {
  import opened Integers
  import opened Option

  datatype Target = Target(index: nat, address: string)

  /** A refresh in flight: the snapshot it took, and the verdicts of the probes that have finished. */
  datatype Refresh = Refresh(generation: U64, epoch: nat, targets: seq<Target>, verdicts: seq<Option<bool>>)

  datatype Peers = Peers(
    addresses: seq<string>,
    active: seq<nat>,
    inactive: seq<nat>,
    generation: U64,
    epoch: nat,
    inFlight: map<nat, Refresh>,
    started: nat,
    installed: Option<Refresh>)

  datatype Step =
    | SetPeers(addresses: seq<string>)
    | BeginRefresh
    | Probe(refresh: nat, k: nat, healthy: bool)
    | Commit(refresh: nat)

  // ---------- The steps ----------

  function Range(n: nat): (r: seq<nat>)
    ensures |r| == n && forall i :: 0 <= i < n ==> r[i] == i
  {
    seq(n, i => i)
  }

  function Initial(addresses: seq<string>): Peers {
    Peers(addresses, Range(|addresses|), [], 0, 0, map[], 0, None)
  }

  function AfterSetPeers(s: Peers, addresses: seq<string>): Peers {
    s.(addresses := addresses,
       active := Range(|addresses|),
       inactive := [],
       generation := (s.generation + 1) % 0x1_0000_0000_0000_0000,
       epoch := s.epoch + 1,
       installed := None)
  }

  /** The snapshot: the active peers followed by the inactive ones, with their addresses. */
  function Snapshot(s: Peers): Refresh
    requires InRange(s)
  {
    var indices := s.active + s.inactive;
    Refresh(s.generation, s.epoch,
            seq(|indices|, i requires 0 <= i < |indices| => Target(indices[i], s.addresses[indices[i]])),
            seq(|indices|, _ => None))
  }

  predicate Complete(r: Refresh) {
    |r.verdicts| == |r.targets| && forall k :: 0 <= k < |r.verdicts| ==> r.verdicts[k].Some?
  }

  /** The indices of the targets with the given verdict, in the order of the targets. */
  function WithVerdict(targets: seq<Target>, verdicts: seq<Option<bool>>, healthy: bool): seq<nat>
    requires |targets| == |verdicts|
  {
    if targets == [] then []
    else
      var n := |targets| - 1;
      WithVerdict(targets[..n], verdicts[..n], healthy) +
      (if verdicts[n] == Some(healthy) then [targets[n].index] else [])
  }

  function AfterCommit(s: Peers, r: Refresh): Peers
    requires Complete(r)
  {
    if s.generation == r.generation then
      s.(active := WithVerdict(r.targets, r.verdicts, true),
         inactive := WithVerdict(r.targets, r.verdicts, false),
         installed := Some(r))
    else s
  }

  predicate InRange(s: Peers) {
    forall i :: 0 <= i < |s.active + s.inactive| ==> (s.active + s.inactive)[i] < |s.addresses|
  }

  predicate Enabled(s: Peers, step: Step) {
    match step
    case SetPeers(_) => true
    case BeginRefresh => InRange(s)
    case Probe(id, k, _) => id in s.inFlight && k < |s.inFlight[id].verdicts| && s.inFlight[id].verdicts[k].None?
    case Commit(id) => id in s.inFlight && Complete(s.inFlight[id])
  }

  function Apply(s: Peers, step: Step): Peers
    requires Enabled(s, step)
  {
    match step
    case SetPeers(addresses) => AfterSetPeers(s, addresses)
    case BeginRefresh => s.(inFlight := s.inFlight[s.started := Snapshot(s)], started := s.started + 1)
    case Probe(id, k, healthy) =>
      var r := s.inFlight[id];
      s.(inFlight := s.inFlight[id := r.(verdicts := r.verdicts[k := Some(healthy)])])
    case Commit(id) => AfterCommit(s, s.inFlight[id]).(inFlight := s.inFlight - {id})
  }

  predicate Runs(s: Peers, steps: seq<Step>)
    decreases steps
  {
    steps == [] || (Enabled(s, steps[0]) && Runs(Apply(s, steps[0]), steps[1..]))
  }

  function Final(s: Peers, steps: seq<Step>): Peers
    requires Runs(s, steps)
    decreases steps
  {
    if steps == [] then s else Final(Apply(s, steps[0]), steps[1..])
  }

  /** The number of `set_peers` between the snapshot of a refresh and its commit is no positive multiple of 2^64. */
  predicate Timely(s: Peers, step: Step)
    requires Enabled(s, step)
  {
    step.Commit? ==>
      var epoch := s.inFlight[step.refresh].epoch;
      !(s.epoch > epoch && (s.epoch - epoch) % 0x1_0000_0000_0000_0000 == 0)
  }

  predicate AllTimely(s: Peers, steps: seq<Step>)
    requires Runs(s, steps)
    decreases steps
  {
    steps == [] || (Timely(s, steps[0]) && AllTimely(Apply(s, steps[0]), steps[1..]))
  }

  // ---------- What every step keeps ----------

  function Indices(targets: seq<Target>): seq<nat> {
    seq(|targets|, k requires 0 <= k < |targets| => targets[k].index)
  }

  /** Every index once, in any order. */
  ghost predicate Permutation(xs: seq<nat>, n: nat) {
    multiset(xs) == multiset(Range(n))
  }

  /** The targets are the peers of the list: each index once, each with the address stored there. */
  ghost predicate Covers(r: Refresh, addresses: seq<string>) {
    && |r.verdicts| == |r.targets|
    && Permutation(Indices(r.targets), |addresses|)
    && forall k :: 0 <= k < |r.targets| ==>
         r.targets[k].index < |addresses| && r.targets[k].address == addresses[r.targets[k].index]
  }

  ghost predicate RefreshInv(s: Peers, r: Refresh) {
    && r.epoch <= s.epoch
    && r.generation == r.epoch % 0x1_0000_0000_0000_0000
    && |r.verdicts| == |r.targets|
    && (r.epoch == s.epoch ==> Covers(r, s.addresses))
  }

  /** The classification is the initial one, or made of the verdicts about the current peers. */
  ghost predicate Classified(s: Peers) {
    match s.installed
    case None => s.active == Range(|s.addresses|) && s.inactive == []
    case Some(r) =>
      && r.epoch == s.epoch && Complete(r) && Covers(r, s.addresses)
      && s.active == WithVerdict(r.targets, r.verdicts, true)
      && s.inactive == WithVerdict(r.targets, r.verdicts, false)
  }

  ghost predicate Inv(s: Peers) {
    && s.generation == s.epoch % 0x1_0000_0000_0000_0000
    && (forall id :: id in s.inFlight ==> RefreshInv(s, s.inFlight[id]))
    && Classified(s)
  }

  lemma {:induction false} VerdictsPartition(targets: seq<Target>, verdicts: seq<Option<bool>>)
    requires |targets| == |verdicts| && forall k :: 0 <= k < |verdicts| ==> verdicts[k].Some?
    ensures multiset(WithVerdict(targets, verdicts, true)) + multiset(WithVerdict(targets, verdicts, false)) ==
            multiset(Indices(targets))
  {
    if targets == [] {
    } else {
      var n := |targets| - 1;
      VerdictsPartition(targets[..n], verdicts[..n]);
      assert Indices(targets) == Indices(targets[..n]) + [targets[n].index];
      VerdictsNext(targets, verdicts, verdicts[n].value);
    }
  }

  lemma VerdictsNext(targets: seq<Target>, verdicts: seq<Option<bool>>, healthy: bool)
    requires |targets| == |verdicts| > 0 && verdicts[|targets| - 1] == Some(healthy)
    ensures var n := |targets| - 1;
      && WithVerdict(targets, verdicts, healthy) ==
         WithVerdict(targets[..n], verdicts[..n], healthy) + [targets[n].index]
      && WithVerdict(targets, verdicts, !healthy) == WithVerdict(targets[..n], verdicts[..n], !healthy)
  {
    assert Some(healthy) != Some(!healthy);
  }

  lemma ClassifiedIsPermutation(s: Peers)
    requires Classified(s)
    ensures Permutation(s.active + s.inactive, |s.addresses|)
    ensures InRange(s)
  {
    if s.installed.Some? {
      VerdictsPartition(s.installed.value.targets, s.installed.value.verdicts);
    } else {
      assert s.active + s.inactive == Range(|s.addresses|);
    }
    PermutationMembers(s.active + s.inactive, |s.addresses|);
  }

  lemma PermutationMembers(xs: seq<nat>, n: nat)
    requires Permutation(xs, n)
    ensures |xs| == n
    ensures forall i :: 0 <= i < |xs| ==> xs[i] < n
    ensures forall x: nat :: x in xs <==> x < n
  {
    assert |multiset(xs)| == |xs| && |multiset(Range(n))| == n;
    forall x: nat ensures x in xs <==> x < n {
      assert x in xs <==> x in multiset(xs);
      assert x in Range(n) <==> x in multiset(Range(n));
      if x < n { assert Range(n)[x] == x; }
    }
    forall i | 0 <= i < |xs| ensures xs[i] < n {
      assert xs[i] in xs;
    }
  }

  /** No index is both active and inactive. */
  lemma ClassifiedOnce(s: Peers, i: nat)
    requires Classified(s)
    ensures !(i in s.active && i in s.inactive)
  {
    ClassifiedIsPermutation(s);
    RangeHasOne(|s.addresses|, i);
    assert multiset(s.active + s.inactive)[i] == multiset(s.active)[i] + multiset(s.inactive)[i];
  }

  lemma {:induction false} RangeHasOne(n: nat, i: nat)
    ensures multiset(Range(n))[i] <= 1
  {
    if n == 0 {
    } else {
      assert Range(n) == Range(n - 1) + [n - 1];
      RangeHasOne(n - 1, i);
      assert i == n - 1 ==> i !in Range(n - 1);
    }
  }

  lemma SnapshotCovers(s: Peers)
    requires Classified(s)
    ensures InRange(s) && Covers(Snapshot(s), s.addresses)
  {
    ClassifiedIsPermutation(s);
    assert Indices(Snapshot(s).targets) == s.active + s.inactive;
  }

  /** Within 2^64 replacements, equal generations mean that the list was not replaced. */
  lemma GenerationTells(now: nat, then_: nat)
    requires then_ <= now
    ensures now % 0x1_0000_0000_0000_0000 == then_ % 0x1_0000_0000_0000_0000 <==>
            (now - then_) % 0x1_0000_0000_0000_0000 == 0
    ensures now < then_ + 0x1_0000_0000_0000_0000 ==>
      (now % 0x1_0000_0000_0000_0000 == then_ % 0x1_0000_0000_0000_0000 <==> now == then_)
  {
  }

  lemma StepKeepsInv(s: Peers, step: Step)
    requires Inv(s) && Enabled(s, step) && Timely(s, step)
    ensures Inv(Apply(s, step))
  {
    var s' := Apply(s, step);
    match step
    case SetPeers(_) =>
    case BeginRefresh => SnapshotCovers(s);
    case Probe(id, k, healthy) =>
    case Commit(id) =>
      assert RefreshInv(s, s.inFlight[id]);
      GenerationTells(s.epoch, s.inFlight[id].epoch);
  }

  lemma InitialInv(addresses: seq<string>)
    ensures Inv(Initial(addresses))
  {
  }

  /** The invariant holds throughout every interleaving of replacements and timely refreshes. */
  lemma {:induction false} RunKeepsInv(s: Peers, steps: seq<Step>)
    requires Inv(s) && Runs(s, steps) && AllTimely(s, steps)
    ensures Inv(Final(s, steps))
    decreases steps
  {
    if steps == [] {
    } else {
      StepKeepsInv(s, steps[0]);
      RunKeepsInv(Apply(s, steps[0]), steps[1..]);
    }
  }

  /** A refresh can always begin: the snapshot never indexes past the addresses. */
  lemma RefreshNeverBlocked(s: Peers)
    requires Inv(s)
    ensures Enabled(s, BeginRefresh)
  {
    ClassifiedIsPermutation(s);
  }

  // ---------- The list in force ----------

  /** The list given last, or the one before. */
  function LastPeers(steps: seq<Step>, before: seq<string>): seq<string> {
    if steps == [] then before
    else
      var last := steps[|steps| - 1];
      if last.SetPeers? then last.addresses else LastPeers(steps[..|steps| - 1], before)
  }

  function Replacements(steps: seq<Step>): nat {
    if steps == [] then 0
    else Replacements(steps[..|steps| - 1]) + (if steps[|steps| - 1].SetPeers? then 1 else 0)
  }

  lemma {:induction false} RunSnoc(s: Peers, steps: seq<Step>)
    requires Runs(s, steps) && steps != []
    ensures var init, last := steps[..|steps| - 1], steps[|steps| - 1];
      Runs(s, init) && Enabled(Final(s, init), last) && Final(s, steps) == Apply(Final(s, init), last)
    decreases |steps|
  {
    if |steps| == 1 {
      assert steps[..0] == [];
    } else {
      RunSnoc(Apply(s, steps[0]), steps[1..]);
      assert steps[1..][..|steps| - 2] == steps[..|steps| - 1][1..];
    }
  }

  /** At the end of every run the list is the one given last, and the epoch has counted the lists. */
  lemma {:induction false} RunAddresses(s: Peers, steps: seq<Step>)
    requires Runs(s, steps)
    ensures Final(s, steps).addresses == LastPeers(steps, s.addresses)
    ensures Final(s, steps).epoch == s.epoch + Replacements(steps)
    decreases |steps|
  {
    if steps == [] {
    } else {
      RunSnoc(s, steps);
      RunAddresses(s, steps[..|steps| - 1]);
    }
  }

  // ---------- Picking a peer ----------

  /** The indices `get_peer` may pick: an active one if there is any, else an inactive one. */
  function Candidates(s: Peers): seq<nat> {
    if s.active != [] then s.active else s.inactive
  }

  /**
   At the end of every timely run, active followed by inactive lists every index of
   the list given last once; so a pick is in range, there is a pick exactly when
   there is a peer, and it is any active one whenever some peer is active.
   */
  lemma RunPicksSafely(addresses: seq<string>, steps: seq<Step>)
    requires Runs(Initial(addresses), steps) && AllTimely(Initial(addresses), steps)
    ensures var s, peers := Final(Initial(addresses), steps), LastPeers(steps, addresses);
      && s.addresses == peers
      && Permutation(s.active + s.inactive, |peers|)
      && (forall i :: i in Candidates(s) ==> i < |peers|)
      && (Candidates(s) == [] <==> peers == [])
      && (forall i :: i in Candidates(s) <==> i in if s.active != [] then s.active else s.inactive)
  {
    InitialInv(addresses);
    RunAddresses(Initial(addresses), steps);
    RunKeepsInv(Initial(addresses), steps);
    CandidatesInRange(Final(Initial(addresses), steps));
  }

  lemma CandidatesInRange(s: Peers)
    requires Classified(s)
    ensures Permutation(s.active + s.inactive, |s.addresses|)
    ensures forall i :: i in Candidates(s) ==> i < |s.addresses|
    ensures Candidates(s) == [] <==> s.addresses == []
  {
    ClassifiedIsPermutation(s);
    PermutationMembers(s.active + s.inactive, |s.addresses|);
    forall i | i in Candidates(s) ensures i < |s.addresses| {
      assert i in s.active + s.inactive;
    }
  }

  // ---------- Where a classification comes from ----------

  /** A finished probe of the current peer at `i`, with this verdict. */
  ghost predicate ProbedAs(r: Refresh, i: nat, address: string, healthy: bool) {
    exists k :: 0 <= k < |r.targets| && k < |r.verdicts|
      && r.targets[k] == Target(i, address) && r.verdicts[k] == Some(healthy)
  }

  lemma {:induction false} VerdictOf(targets: seq<Target>, verdicts: seq<Option<bool>>, healthy: bool, i: nat)
    requires |targets| == |verdicts| && i in WithVerdict(targets, verdicts, healthy)
    ensures exists k :: 0 <= k < |targets| && targets[k].index == i && verdicts[k] == Some(healthy)
  {
    var n := |targets| - 1;
    if i in WithVerdict(targets[..n], verdicts[..n], healthy) {
      VerdictOf(targets[..n], verdicts[..n], healthy, i);
      var k :| 0 <= k < n && targets[..n][k].index == i && verdicts[..n][k] == Some(healthy);
      assert targets[k].index == i && verdicts[k] == Some(healthy);
    }
  }

  /** Every verdict of the refresh is the outcome of one of the probes of the run. */
  ghost predicate FromProbes(r: Refresh, id: nat, steps: seq<Step>) {
    forall k, healthy :: 0 <= k < |r.verdicts| && r.verdicts[k] == Some(healthy) ==> Probe(id, k, healthy) in steps
  }

  /** The verdicts in flight and those installed were given by probes of the run. */
  ghost predicate Witnessed(s: Peers, steps: seq<Step>) {
    && (forall id :: id in s.inFlight ==> FromProbes(s.inFlight[id], id, steps))
    && (s.installed.Some? ==> exists id :: FromProbes(s.installed.value, id, steps))
  }

  lemma WitnessedLonger(r: Refresh, id: nat, steps: seq<Step>, more: seq<Step>)
    requires FromProbes(r, id, steps) && steps <= more
    ensures FromProbes(r, id, more)
  {
  }

  lemma StepWitnessed(s: Peers, step: Step, steps: seq<Step>)
    requires Witnessed(s, steps) && Enabled(s, step)
    ensures Witnessed(Apply(s, step), steps + [step])
  {
    var s', more := Apply(s, step), steps + [step];
    forall id | id in s.inFlight ensures FromProbes(s.inFlight[id], id, more) {
      WitnessedLonger(s.inFlight[id], id, steps, more);
    }
    if s.installed.Some? {
      var id :| FromProbes(s.installed.value, id, steps);
      WitnessedLonger(s.installed.value, id, steps, more);
    }
    match step
    case Probe(id, k, healthy) =>
      assert more[|steps|] == step;
      assert FromProbes(s'.inFlight[id], id, more);
    case Commit(id) => assert FromProbes(s.inFlight[id], id, more);
    case _ =>
  }

  lemma {:induction false} RunWitnessed(addresses: seq<string>, steps: seq<Step>)
    requires Runs(Initial(addresses), steps)
    ensures Witnessed(Final(Initial(addresses), steps), steps)
    decreases |steps|
  {
    if steps == [] {
    } else {
      var init, last := steps[..|steps| - 1], steps[|steps| - 1];
      RunSnoc(Initial(addresses), steps);
      RunWitnessed(addresses, init);
      StepWitnessed(Final(Initial(addresses), init), last, init);
      assert init + [last] == steps;
    }
  }

  /** A probe of the run, of the current peer at `i`, ended with this verdict. */
  ghost predicate ProbeSaid(r: Refresh, id: nat, i: nat, address: string, healthy: bool, steps: seq<Step>) {
    exists k :: 0 <= k < |r.targets| && r.targets[k] == Target(i, address) && Probe(id, k, healthy) in steps
  }

  /**
   At the end of every timely run, each index of the list given last is active by
   default, with no refresh installed for that list, or classified by the outcome
   of a probe of the run, of the address now stored at that index, begun after the
   last replacement.
   */
  lemma RunClassifiesByCurrentPeers(addresses: seq<string>, steps: seq<Step>, i: nat)
    requires Runs(Initial(addresses), steps) && AllTimely(Initial(addresses), steps)
    requires i < |LastPeers(steps, addresses)|
    ensures var s, address := Final(Initial(addresses), steps), LastPeers(steps, addresses)[i];
      && (i in s.active <==> i !in s.inactive)
      && match s.installed
         case None => i in s.active
         case Some(r) =>
           && r.epoch == Replacements(steps)
           && (exists id ::
                 && (i in s.active ==> ProbeSaid(r, id, i, address, true, steps))
                 && (i in s.inactive ==> ProbeSaid(r, id, i, address, false, steps)))
  {
    InitialInv(addresses);
    RunAddresses(Initial(addresses), steps);
    RunWitnessed(addresses, steps);
    RunKeepsInv(Initial(addresses), steps);
    var s := Final(Initial(addresses), steps);
    ClassifiedIsPermutation(s);
    PermutationMembers(s.active + s.inactive, |s.addresses|);
    assert i in s.active + s.inactive;
    ClassifiedOnce(s, i);
    match s.installed
    case None => assert s.active[i] == i;
    case Some(r) =>
      var id :| FromProbes(r, id, steps);
      if i in s.active {
        ActiveMeansProbed(s, r, i, true);
        ProbedIsSaid(r, id, i, s.addresses[i], true, steps);
      }
      if i in s.inactive {
        ActiveMeansProbed(s, r, i, false);
        ProbedIsSaid(r, id, i, s.addresses[i], false, steps);
      }
  }

  lemma ProbedIsSaid(r: Refresh, id: nat, i: nat, address: string, healthy: bool, steps: seq<Step>)
    requires FromProbes(r, id, steps) && ProbedAs(r, i, address, healthy)
    ensures ProbeSaid(r, id, i, address, healthy, steps)
  {
    var k :| 0 <= k < |r.targets| && k < |r.verdicts|
      && r.targets[k] == Target(i, address) && r.verdicts[k] == Some(healthy);
    assert Probe(id, k, healthy) in steps;
  }

  lemma ActiveMeansProbed(s: Peers, r: Refresh, i: nat, healthy: bool)
    requires Classified(s) && s.installed == Some(r) && i < |s.addresses|
    requires i in if healthy then s.active else s.inactive
    ensures ProbedAs(r, i, s.addresses[i], healthy)
  {
    VerdictOf(r.targets, r.verdicts, healthy, i);
    var k :| 0 <= k < |r.targets| && r.targets[k].index == i && r.verdicts[k] == Some(healthy);
    assert r.targets[k] == Target(i, s.addresses[i]);
  }

  // ---------- The bound is needed ----------

  /**
   A commit installs its verdicts exactly when the number of replacements since its
   snapshot is a multiple of 2^64, and changes nothing otherwise. It keeps the
   classification exactly when it is timely, that is, when this multiple is zero.
   */
  lemma StaleVerdictsExactly(s: Peers, id: nat)
    requires Inv(s) && Enabled(s, Commit(id))
    ensures Classified(Apply(s, Commit(id))) <==> Timely(s, Commit(id))
    ensures var r, s' := s.inFlight[id], Apply(s, Commit(id));
      && s'.addresses == s.addresses && s'.generation == s.generation
      && (if (s.epoch - r.epoch) % 0x1_0000_0000_0000_0000 == 0
          then
            && s'.active == WithVerdict(r.targets, r.verdicts, true)
            && s'.inactive == WithVerdict(r.targets, r.verdicts, false)
          else s'.active == s.active && s'.inactive == s.inactive)
    ensures !Timely(s, Commit(id)) ==>
      var r, s' := s.inFlight[id], Apply(s, Commit(id));
      r.epoch < s'.epoch && s'.installed == Some(r)
  {
    assert RefreshInv(s, s.inFlight[id]);
    GenerationTells(s.epoch, s.inFlight[id].epoch);
    if Timely(s, Commit(id)) { StepKeepsInv(s, Commit(id)); }
  }

  /** The classification is about the current peers at the start and after every step. */
  ghost predicate AlwaysClassified(s: Peers, steps: seq<Step>)
    requires Runs(s, steps)
    decreases steps
  {
    Classified(s) && (steps == [] || AlwaysClassified(Apply(s, steps[0]), steps[1..]))
  }

  lemma {:induction false} ClassifiedIffTimely(s: Peers, steps: seq<Step>)
    requires Inv(s) && Runs(s, steps)
    ensures AlwaysClassified(s, steps) <==> AllTimely(s, steps)
    decreases steps
  {
    if steps == [] {
    } else {
      if Timely(s, steps[0]) {
        StepKeepsInv(s, steps[0]);
        ClassifiedIffTimely(Apply(s, steps[0]), steps[1..]);
      } else {
        StaleVerdictsExactly(s, steps[0].refresh);
      }
    }
  }

  /** Along every run the classification is about the current peers throughout exactly when every commit is timely. */
  lemma RunClassifiedExactly(addresses: seq<string>, steps: seq<Step>)
    requires Runs(Initial(addresses), steps)
    ensures AlwaysClassified(Initial(addresses), steps) <==> AllTimely(Initial(addresses), steps)
  {
    InitialInv(addresses);
    ClassifiedIffTimely(Initial(addresses), steps);
  }

  function Cleared(n: nat): seq<Step> {
    if n == 0 then [] else Cleared(n - 1) + [SetPeers([])]
  }

  lemma {:induction false} RunConcat(s: Peers, xs: seq<Step>, ys: seq<Step>)
    requires Runs(s, xs) && Runs(Final(s, xs), ys)
    ensures Runs(s, xs + ys) && Final(s, xs + ys) == Final(Final(s, xs), ys)
    decreases xs
  {
    if xs == [] {
      assert xs + ys == ys;
    } else {
      assert (xs + ys)[1..] == xs[1..] + ys;
      RunConcat(Apply(s, xs[0]), xs[1..], ys);
    }
  }

  lemma RunOne(s: Peers, step: Step)
    requires Enabled(s, step)
    ensures Runs(s, [step]) && Final(s, [step]) == Apply(s, step)
  {
    assert [step][1..] == [];
  }

  lemma NextGeneration(epoch: nat)
    ensures (epoch % 0x1_0000_0000_0000_0000 + 1) % 0x1_0000_0000_0000_0000 == (epoch + 1) % 0x1_0000_0000_0000_0000
  {
  }

  lemma {:induction false} ClearedRuns(s: Peers, n: nat)
    requires s.generation == s.epoch % 0x1_0000_0000_0000_0000
    ensures Runs(s, Cleared(n))
    ensures var f := Final(s, Cleared(n));
      && f.epoch == s.epoch + n && f.generation == f.epoch % 0x1_0000_0000_0000_0000
      && f.inFlight == s.inFlight && f.started == s.started
      && (n > 0 ==> f.addresses == [] && f.active == [] && f.inactive == [])
  {
    if n == 0 {
    } else {
      ClearedRuns(s, n - 1);
      var f := Final(s, Cleared(n - 1));
      NextGeneration(f.epoch);
      RunOne(f, SetPeers([]));
      RunConcat(s, Cleared(n - 1), [SetPeers([])]);
    }
  }

  /** After 2^64 replacements by the empty list a commit leaves an active index without an address. */
  lemma WrapAroundLeavesNoPeer(address: string)
    ensures var steps := [BeginRefresh, Probe(0, 0, true)] + Cleared(0x1_0000_0000_0000_0000) + [Commit(0)];
      && Runs(Initial([address]), steps)
      && Final(Initial([address]), steps).addresses == []
      && Candidates(Final(Initial([address]), steps)) == [0]
  {
    var s0, probed, m := Initial([address]), [BeginRefresh, Probe(0, 0, true)], 0x1_0000_0000_0000_0000;
    OneProbed(address);
    var s2 := Final(s0, probed);
    ClearedRuns(s2, m);
    RunConcat(s0, probed, Cleared(m));
    var s3 := Final(s2, Cleared(m));
    OneCommitted(s3, address);
    RunOne(s3, Commit(0));
    RunConcat(s0, probed + Cleared(m), [Commit(0)]);
  }

  /** A refresh of one peer whose probe has succeeded. */
  function Probed(address: string): Refresh {
    Refresh(0, 0, [Target(0, address)], [Some(true)])
  }

  lemma OneProbed(address: string)
    ensures var s0, steps := Initial([address]), [BeginRefresh, Probe(0, 0, true)];
      Runs(s0, steps) && Final(s0, steps) == s0.(inFlight := map[0 := Probed(address)], started := 1)
  {
    var s0 := Initial([address]);
    var s1 := Apply(s0, BeginRefresh);
    assert Snapshot(s0) == Refresh(0, 0, [Target(0, address)], [None]);
    RunOne(s0, BeginRefresh);
    RunOne(s1, Probe(0, 0, true));
    RunConcat(s0, [BeginRefresh], [Probe(0, 0, true)]);
    assert [BeginRefresh] + [Probe(0, 0, true)] == [BeginRefresh, Probe(0, 0, true)];
    assert s1.inFlight == map[0 := Refresh(0, 0, [Target(0, address)], [None])];
    assert s1.inFlight[0].verdicts[0 := Some(true)] == [Some(true)];
  }

  lemma OneCommitted(s: Peers, address: string)
    requires s.generation == 0 && s.inFlight == map[0 := Probed(address)]
    ensures Enabled(s, Commit(0))
    ensures Apply(s, Commit(0)).active == [0] && Apply(s, Commit(0)).addresses == s.addresses
  {
    var r := Probed(address);
    assert r.targets[..0] == [] && r.verdicts[..0] == [];
    assert WithVerdict(r.targets, r.verdicts, true) == [0];
  }

  // ---------- The peer list ----------

  /** `Inner`, reduced to its peers. Snapshots and verdicts live in the refreshes, not in the list. */
  class PeerList {
    var addresses: seq<string>
    var active: seq<nat>
    var inactive: seq<nat>
    var generation: U64
    ghost var epoch: nat
    ghost var inFlight: map<nat, Refresh>
    ghost var started: nat
    ghost var installed: Option<Refresh>

    ghost function State(): Peers
      reads this
    {
      Peers(addresses, active, inactive, generation, epoch, inFlight, started, installed)
    }

    constructor (addresses: seq<string>)
      ensures State() == Initial(addresses) && Inv(State())
    {
      this.addresses, active, inactive, generation := addresses, Range(|addresses|), [], 0;
      epoch, inFlight, started, installed := 0, map[], 0, None;
      new;
      InitialInv(addresses);
    }

    /** `set_peers`. */
    method SetPeers(addresses: seq<string>)
      modifies this
      ensures State() == Apply(old(State()), Step.SetPeers(addresses))
      ensures this.addresses == addresses && active == Range(|addresses|) && inactive == []
      ensures generation == (old(generation) + 1) % 0x1_0000_0000_0000_0000
      ensures old(Inv(State())) ==> Inv(State())
    {
      if Inv(State()) { StepKeepsInv(State(), Step.SetPeers(addresses)); }
      this.addresses := addresses;
      active, inactive := Range(|addresses|), [];
      generation := (generation + 1) % 0x1_0000_0000_0000_0000;
      epoch, installed := epoch + 1, None;
    }

    /** The first critical section of `refresh_peer_states`. */
    method TakeSnapshot() returns (seen: U64, targets: seq<Target>, ghost id: nat)
      requires InRange(State())
      modifies this
      ensures State() == Apply(old(State()), BeginRefresh)
      ensures old(Inv(State())) ==> Inv(State()) && Permutation(Indices(targets), |addresses|)
      ensures id == old(started) && inFlight[id].generation == seen && inFlight[id].targets == targets
      ensures forall k :: 0 <= k < |targets| ==>
        targets[k].index < |addresses| && targets[k].address == addresses[targets[k].index]
    {
      if Inv(State()) {
        SnapshotCovers(State());
        StepKeepsInv(State(), BeginRefresh);
      }
      seen := generation;
      var indices, known := active + inactive, addresses;
      targets := seq(|indices|, i requires 0 <= i < |indices| => Target(indices[i], known[indices[i]]));
      assert targets == Snapshot(State()).targets;
      id := started;
      inFlight, started := inFlight[id := Snapshot(State())], started + 1;
    }

    /** The end of one probe; the list itself does not change. */
    ghost method EndProbe(id: nat, k: nat, healthy: bool)
      requires Enabled(State(), Probe(id, k, healthy))
      modifies this`inFlight
      ensures State() == Apply(old(State()), Probe(id, k, healthy))
      ensures old(Inv(State())) ==> Inv(State())
    {
      if Inv(State()) { StepKeepsInv(State(), Probe(id, k, healthy)); }
      inFlight := inFlight[id := inFlight[id].(verdicts := inFlight[id].verdicts[k := Some(healthy)])];
    }

    /** The fold over the joined results and the second critical section of `refresh_peer_states`. */
    method CommitRefresh(seen: U64, targets: seq<Target>, verdicts: seq<bool>, ghost id: nat)
      requires Enabled(State(), Commit(id))
      requires seen == inFlight[id].generation && targets == inFlight[id].targets && |verdicts| == |targets|
      requires forall k :: 0 <= k < |verdicts| ==> inFlight[id].verdicts[k] == Some(verdicts[k])
      modifies this
      ensures State() == Apply(old(State()), Commit(id))
      ensures old(Inv(State()) && Timely(State(), Commit(id))) ==> Inv(State())
      ensures generation == old(generation) && addresses == old(addresses)
    {
      ghost var r := inFlight[id];
      if Inv(State()) && Timely(State(), Commit(id)) { StepKeepsInv(State(), Commit(id)); }
      var nowActive, nowInactive := Fold(targets, verdicts);
      assert r.verdicts == seq(|verdicts|, k requires 0 <= k < |verdicts| => Some(verdicts[k]));
      if generation == seen {
        active, inactive := nowActive, nowInactive;
        installed := Some(r);
      }
      inFlight := inFlight - {id};
    }

    static method Fold(targets: seq<Target>, verdicts: seq<bool>) returns (active: seq<nat>, inactive: seq<nat>)
      requires |targets| == |verdicts|
      ensures var vs := seq(|verdicts|, k requires 0 <= k < |verdicts| => Some(verdicts[k]));
        active == WithVerdict(targets, vs, true) && inactive == WithVerdict(targets, vs, false)
    {
      active, inactive := [], [];
      ghost var vs := seq(|verdicts|, k requires 0 <= k < |verdicts| => Some(verdicts[k]));
      for i := 0 to |targets|
        invariant active == WithVerdict(targets[..i], vs[..i], true)
        invariant inactive == WithVerdict(targets[..i], vs[..i], false)
      {
        assert targets[..i + 1][..i] == targets[..i] && vs[..i + 1][..i] == vs[..i];
        if verdicts[i] {
          active := active + [targets[i].index];
        } else {
          inactive := inactive + [targets[i].index];
        }
      }
      assert targets[..|targets|] == targets && vs[..|targets|] == vs;
    }

    /** `get_peer`, with the random choice of the load balancer left open. */
    method GetPeer() returns (r: Option<string>)
      requires InRange(State())
      ensures r.None? <==> Candidates(State()) == []
      ensures r.Some? ==> exists i :: i in Candidates(State()) && i < |addresses| && r.value == addresses[i]
      ensures Inv(State()) ==> (r.None? <==> addresses == [])
    {
      if Inv(State()) { CandidatesInRange(State()); }
      assert forall k :: 0 <= k < |active| ==> (active + inactive)[k] == active[k];
      assert forall k :: 0 <= k < |inactive| ==> (active + inactive)[|active| + k] == inactive[k];
      if |active| > 0 {
        var k :| 0 <= k < |active|;
        assert active[k] in Candidates(State());
        r := Some(addresses[active[k]]);
      } else if |inactive| > 0 {
        var k :| 0 <= k < |inactive|;
        assert inactive[k] in Candidates(State());
        r := Some(addresses[inactive[k]]);
      } else {
        r := None;
      }
    }
  }
}
