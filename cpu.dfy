/**
 * The CPU fair-share governor (cpu.py): group the sampled processes by the
 * users that have a home directory, renice them so that users with many
 * busy processes yield to users with few, and restore every niceness to 0
 * when the daemon stops.
 */
module Cpu {
  import opened Wrappers
  import opened Dicts
  import opened Utils
  import opened System
  import opened Commands

  /** The first result of `load_stats`: each user's processes, in sampling order. */
  type Groups = Dict<string, seq<ProcessState>>

  /** The second result of `load_stats`: how many processes each user has. */
  type Counts = Dict<string, int>

  // ---------------------------------------------------------------------
  // load_stats

  /** `processes` after the loop of `load_stats` has visited the first `n` of `states`. */
  function GroupedUpTo(states: seq<ProcessState>, homes: seq<string>, n: nat): (d: Groups)
    requires n <= |states|
    ensures d.Valid()
  {
    if n == 0 then Empty()
    else
      var d := GroupedUpTo(states, homes, n - 1);
      if states[n - 1].user in homes then Append(d, states[n - 1]) else d
  }

  /** `processes[p.user].append(p)` on the `defaultdict(list)`. */
  function Append(d: Groups, p: ProcessState): (r: Groups)
    requires d.Valid()
    ensures r.Valid()
  {
    d.Put(p.user, d.GetOr(p.user, []) + [p])
  }

  /** `user_processes_cnt` after the loop of `load_stats` has visited the first `n` of `states`. */
  function CountedUpTo(states: seq<ProcessState>, homes: seq<string>, n: nat): (d: Counts)
    requires n <= |states|
    ensures d.Valid()
  {
    if n == 0 then Empty()
    else
      var d := CountedUpTo(states, homes, n - 1);
      if states[n - 1].user in homes then Increment(d, states[n - 1].user) else d
  }

  /** `user_processes_cnt[user] += 1` on the `defaultdict(int)`. */
  function Increment(d: Counts, user: string): (r: Counts)
    requires d.Valid()
    ensures r.Valid()
  {
    d.Put(user, d.GetOr(user, 0) + 1)
  }

  /** The first result of `load_stats`. */
  function Grouped(states: seq<ProcessState>, homes: seq<string>): (d: Groups)
    ensures d.Valid()
  {
    GroupedUpTo(states, homes, |states|)
  }

  /** The second result of `load_stats`. */
  function Counted(states: seq<ProcessState>, homes: seq<string>): (d: Counts)
    ensures d.Valid()
  {
    CountedUpTo(states, homes, |states|)
  }

  /** The processes of `user` among the first `n` of `states`, in the order they were sampled. */
  function OwnedUpTo(states: seq<ProcessState>, user: string, n: nat): seq<ProcessState>
    requires n <= |states|
  {
    if n == 0 then []
    else
      var rest := OwnedUpTo(states, user, n - 1);
      if states[n - 1].user == user then rest + [states[n - 1]] else rest
  }

  /** The processes of `user`, in the order they were sampled. */
  function OwnedBy(states: seq<ProcessState>, user: string): seq<ProcessState> {
    OwnedUpTo(states, user, |states|)
  }

  /**
   * What `load_stats` guarantees its callers: both dictionaries list the
   * same users in the same order, and each user's count is the (positive)
   * length of its process list.
   */
  ghost predicate WellFormedStats(processes: Groups, counts: Counts) {
    && processes.Valid() && counts.Valid()
    && counts.order == processes.order
    && (forall u :: u in counts.entries ==>
          u in processes.entries && counts.entries[u] == |processes.entries[u]| > 0)
  }

  /** `PrioritiyScheduler.load_stats` on a process sample and the names under /home. */
  method LoadStats(states: seq<ProcessState>, homes: seq<string>) returns (processes: Groups, counts: Counts)
    ensures processes == Grouped(states, homes)
    ensures counts == Counted(states, homes)
  {
    processes, counts := Empty(), Empty();
    var i := 0;
    while i < |states|
      invariant 0 <= i <= |states|
      invariant processes == GroupedUpTo(states, homes, i)
      invariant counts == CountedUpTo(states, homes, i)
    {
      var p := states[i];
      if p.user in homes {
        processes := Append(processes, p);
        counts := Increment(counts, p.user);
      }
      i := i + 1;
    }
  }

  /**
   * `load_stats` keeps exactly the users that have a home directory and own
   * a sampled process; each keeps all its processes in sampling order, and
   * its count is the length of that list.
   */
  lemma LoadStatsSpec(states: seq<ProcessState>, homes: seq<string>)
    ensures WellFormedStats(Grouped(states, homes), Counted(states, homes))
    ensures forall u :: u in Grouped(states, homes).entries <==> u in homes && OwnedBy(states, u) != []
    ensures forall u :: u in Grouped(states, homes).entries ==> Grouped(states, homes).entries[u] == OwnedBy(states, u)
  {
    LoadStatsCounted(states, homes, |states|);
    LoadStatsGrouped(states, homes, |states|);
  }

  /** Both dictionaries list the same users, and each count is the length of the user's list. */
  lemma {:induction false} LoadStatsCounted(states: seq<ProcessState>, homes: seq<string>, n: nat)
    requires n <= |states|
    ensures WellFormedStats(GroupedUpTo(states, homes, n), CountedUpTo(states, homes, n))
  {
    if n > 0 {
      LoadStatsCounted(states, homes, n - 1);
      var g0, c0 := GroupedUpTo(states, homes, n - 1), CountedUpTo(states, homes, n - 1);
      assert states[n - 1].user in g0.entries <==> states[n - 1].user in c0.entries;
    }
  }

  /** The users kept are the home users owning a sampled process, each with all of them in order. */
  lemma {:induction false} LoadStatsGrouped(states: seq<ProcessState>, homes: seq<string>, n: nat)
    requires n <= |states|
    ensures forall u :: u in GroupedUpTo(states, homes, n).entries <==> u in homes && OwnedUpTo(states, u, n) != []
    ensures forall u :: u in GroupedUpTo(states, homes, n).entries ==> GroupedUpTo(states, homes, n).entries[u] == OwnedUpTo(states, u, n)
  {
    if n > 0 {
      LoadStatsGrouped(states, homes, n - 1);
    }
  }

  /** A process is listed under its own user, and every process of that user is listed. */
  lemma {:induction false} OwnedUpToSpec(states: seq<ProcessState>, user: string, n: nat)
    requires n <= |states|
    ensures forall p :: p in OwnedUpTo(states, user, n) <==> p in states[..n] && p.user == user
  {
    if n > 0 {
      OwnedUpToSpec(states, user, n - 1);
      assert states[..n] == states[..n - 1] + [states[n - 1]];
    }
  }

  lemma OwnedBySpec(states: seq<ProcessState>, user: string)
    ensures forall p :: p in OwnedBy(states, user) <==> p in states && p.user == user
  {
    OwnedUpToSpec(states, user, |states|);
    assert states[..|states|] == states;
  }

  /** Every sampled process of a user that has a home directory. */
  ghost predicate Listed(processes: Groups, p: ProcessState) {
    exists u :: u in processes.entries && p in processes.entries[u]
  }

  /** Sampled processes from `process_states` ran at 10% CPU or more, so every listed one used some CPU. */
  ghost predicate Positive(processes: Groups) {
    forall u, k :: u in processes.entries && 0 <= k < |processes.entries[u]| ==> processes.entries[u][k].cpu > 0.0
  }

  /** Grouping a sample of busy processes yields only busy processes. */
  lemma GroupedPositive(states: seq<ProcessState>, homes: seq<string>)
    requires forall p :: p in states ==> p.cpu >= 10.0
    ensures Positive(Grouped(states, homes))
  {
    LoadStatsSpec(states, homes);
    var g := Grouped(states, homes);
    forall u, k | u in g.entries && 0 <= k < |g.entries[u]| ensures g.entries[u][k].cpu > 0.0 {
      OwnedBySpec(states, u);
      assert g.entries[u][k] in OwnedBy(states, u);
    }
  }

  // ---------------------------------------------------------------------
  // user_fair_scheduler

  /** `sum(p.cpu for p in ps)`. */
  function TotalCpu(ps: seq<ProcessState>): real
    decreases |ps|
  {
    if ps == [] then 0.0 else TotalCpu(ps[..|ps| - 1]) + ps[|ps| - 1].cpu
  }

  /** `round_by(total / cpu, 100) or 1`: a falsy (zero) rounding is replaced by 1. */
  function ProcessWeight(total: real, cpu: real): real
    requires cpu != 0.0
  {
    var w := RoundBy(total / cpu, 100.0);
    if w == 0.0 then 1.0 else w
  }

  /** `process_ni * user_ni`: the raw priority of one process. */
  function RawPriority(total: real, cpu: real, userWeight: real): real
    requires cpu != 0.0
  {
    ProcessWeight(total, cpu) * userWeight
  }

  /** `user_processes / min_user_processes`, a true division. */
  function UserWeight(count: int, minCount: int): real
    requires minCount != 0
  {
    count as real / minCount as real
  }

  /** `min(cnts.values())` over the counts of `keys`. */
  function MinCount(counts: Counts, keys: seq<string>): (m: int)
    requires |keys| > 0 && forall i :: 0 <= i < |keys| ==> keys[i] in counts.entries
    ensures exists i :: 0 <= i < |keys| && counts.entries[keys[i]] == m
    ensures forall i :: 0 <= i < |keys| ==> m <= counts.entries[keys[i]]
    decreases |keys|
  {
    var v := counts.entries[keys[0]];
    if |keys| == 1 then v
    else
      var m := MinCount(counts, keys[1..]);
      assert forall i :: 1 <= i < |keys| ==> keys[i] == keys[1..][i - 1];
      if m < v then m else v
  }

  /** `max(priorities.values())` over the priorities of `keys`. */
  function MaxPriority(raw: Dict<int, real>, keys: seq<int>): (m: real)
    requires |keys| > 0 && forall i :: 0 <= i < |keys| ==> keys[i] in raw.entries
    ensures exists i :: 0 <= i < |keys| && raw.entries[keys[i]] == m
    ensures forall i :: 0 <= i < |keys| ==> raw.entries[keys[i]] <= m
    decreases |keys|
  {
    var v := raw.entries[keys[0]];
    if |keys| == 1 then v
    else
      var m := MaxPriority(raw, keys[1..]);
      assert forall i :: 1 <= i < |keys| ==> keys[i] == keys[1..][i - 1];
      if v < m then m else v
  }

  /**
   * The inner loop over one user's processes, from the `j`-th on:
   * `priorities[p.pid] = process_ni * user_ni`, or a ZeroDivisionError at
   * the first process with no CPU time.
   */
  function UserPass(acc: Dict<int, real>, ps: seq<ProcessState>, j: nat, total: real, userWeight: real): (r: Result<Dict<int, real>>)
    requires acc.Valid() && j <= |ps|
    ensures r.Ok? ==> r.value.Valid()
    decreases |ps| - j
  {
    if j == |ps| then Ok(acc)
    else if ps[j].cpu == 0.0 then Err(ZeroDivisionError)
    else UserPass(acc.Put(ps[j].pid, RawPriority(total, ps[j].cpu, userWeight)), ps, j + 1, total, userWeight)
  }

  /** The outer loop over the users of `cnts.items()`, from the `i`-th on. */
  function UsersPass(processes: Groups, counts: Counts, minCount: int, acc: Dict<int, real>, i: nat): (r: Result<Dict<int, real>>)
    requires WellFormedStats(processes, counts) && minCount != 0
    requires acc.Valid() && i <= |counts.order|
    ensures r.Ok? ==> r.value.Valid()
    decreases |counts.order| - i
  {
    if i == |counts.order| then Ok(acc)
    else
      var u := counts.order[i];
      var ps := processes.entries[u];
      var acc' :- UserPass(acc, ps, 0, TotalCpu(ps), UserWeight(counts.entries[u], minCount));
      UsersPass(processes, counts, minCount, acc', i + 1)
  }

  /**
   * The `priorities` dictionary before rescaling: a ValueError when no user
   * is left (`min` of nothing), else both loops from the start.
   */
  function RawPriorities(processes: Groups, counts: Counts): (r: Result<Dict<int, real>>)
    requires WellFormedStats(processes, counts)
    ensures r.Ok? ==> r.value.Valid()
  {
    if counts.order == [] then Err(ValueError)
    else
      var m := MinCount(counts, counts.order);
      UsersPass(processes, counts, m, Empty(), 0)
  }

  /** `round(rescaler(pri))` with `rescaler = build_rescaler(1, top, 0, 19)`. */
  function Nice(top: real, raw: real): int {
    RoundHalfEven(Rescale(1.0, top, 0.0, 19.0, raw))
  }

  /** One renice per key of the rescaled dictionary, in its order. */
  function Renices(raw: Dict<int, real>, keys: seq<int>, top: real): (cmds: seq<Command>)
    requires forall i :: 0 <= i < |keys| ==> keys[i] in raw.entries
    ensures |cmds| == |keys|
    decreases |keys|
  {
    if keys == [] then []
    else [Renice(keys[0], Nice(top, raw.entries[keys[0]]))] + Renices(raw, keys[1..], top)
  }

  /** The `i`-th renice is for the `i`-th key, at its rescaled priority. */
  lemma {:induction false} RenicesIndex(raw: Dict<int, real>, keys: seq<int>, top: real)
    requires forall i :: 0 <= i < |keys| ==> keys[i] in raw.entries
    ensures forall i :: 0 <= i < |keys| ==> Renices(raw, keys, top)[i] == Renice(keys[i], Nice(top, raw.entries[keys[i]]))
    decreases |keys|
  {
    if keys != [] {
      RenicesIndex(raw, keys[1..], top);
      var rest := Renices(raw, keys[1..], top);
      forall i | 1 <= i < |keys|
        ensures Renices(raw, keys, top)[i] == Renice(keys[i], Nice(top, raw.entries[keys[i]]))
      {
        assert Renices(raw, keys, top)[i] == rest[i - 1];
        assert keys[1..][i - 1] == keys[i];
      }
    }
  }

  /**
   * The commands `user_fair_scheduler` issues, or the exception it raises
   * before issuing any (the renice loop comes after both failure points).
   */
  function FairActions(processes: Groups, counts: Counts): Result<seq<Command>>
    requires WellFormedStats(processes, counts)
  {
    var raw :- RawPriorities(processes, counts);
    if raw.order == [] then Err(ValueError)
    else Ok(Renices(raw, raw.order, MaxPriority(raw, raw.order)))
  }

  /** The nested loops of `user_fair_scheduler` that fill `priorities`. */
  method FairPriorities(processes: Groups, counts: Counts) returns (r: Result<Dict<int, real>>)
    requires WellFormedStats(processes, counts)
    ensures r == RawPriorities(processes, counts)
  {
    if counts.order == [] {
      return Err(ValueError);
    }
    var minCount := MinCount(counts, counts.order);
    var priorities: Dict<int, real> := Empty();
    var i := 0;
    while i < |counts.order|
      invariant 0 <= i <= |counts.order| && priorities.Valid()
      invariant UsersPass(processes, counts, minCount, priorities, i) == RawPriorities(processes, counts)
    {
      var user := counts.order[i];
      var userProcesses := processes.entries[user];
      var next := PrioritizeUser(priorities, userProcesses, TotalCpu(userProcesses), UserWeight(counts.entries[user], minCount));
      if next.Err? {
        return Err(next.error);
      }
      priorities := next.value;
      i := i + 1;
    }
    r := Ok(priorities);
  }

  /** The inner loop of `user_fair_scheduler`, over one user's processes. */
  method PrioritizeUser(priorities: Dict<int, real>, ps: seq<ProcessState>, total: real, userWeight: real)
    returns (r: Result<Dict<int, real>>)
    requires priorities.Valid()
    ensures r == UserPass(priorities, ps, 0, total, userWeight)
  {
    var acc := priorities;
    var j := 0;
    while j < |ps|
      invariant 0 <= j <= |ps| && acc.Valid()
      invariant UserPass(acc, ps, j, total, userWeight) == UserPass(priorities, ps, 0, total, userWeight)
    {
      var p := ps[j];
      if p.cpu == 0.0 {
        return Err(ZeroDivisionError);
      }
      UserPassStep(acc, ps, j, total, userWeight);
      acc := acc.Put(p.pid, RawPriority(total, p.cpu, userWeight));
      j := j + 1;
    }
    r := Ok(acc);
  }

  lemma UserPassStep(acc: Dict<int, real>, ps: seq<ProcessState>, j: nat, total: real, userWeight: real)
    requires acc.Valid() && j < |ps| && ps[j].cpu != 0.0
    ensures UserPass(acc, ps, j, total, userWeight)
         == UserPass(acc.Put(ps[j].pid, RawPriority(total, ps[j].cpu, userWeight)), ps, j + 1, total, userWeight)
  {
  }

  // ---------------------------------------------------------------------
  // What the fair scheduler computes, stated without its loops

  /** Every process of `ps` had some CPU time, so dividing by it is safe. */
  predicate Busy(ps: seq<ProcessState>) {
    forall k :: 0 <= k < |ps| ==> ps[k].cpu != 0.0
  }

  /** The listed users in `keys` have only busy processes. */
  predicate AllBusy(processes: Groups, keys: seq<string>) {
    forall i :: 0 <= i < |keys| && keys[i] in processes.entries ==> Busy(processes.entries[keys[i]])
  }

  /** The (pid, raw priority) pairs of one user's processes, in order. */
  function UserPairs(ps: seq<ProcessState>, total: real, userWeight: real): (pairs: seq<(int, real)>)
    requires Busy(ps)
  {
    seq(|ps|, k requires 0 <= k < |ps| => (ps[k].pid, RawPriority(total, ps[k].cpu, userWeight)))
  }

  /** The pairs of every user in `keys`, user after user, each with its own total and weight. */
  function AllPairs(processes: Groups, counts: Counts, minCount: int, keys: seq<string>): seq<(int, real)>
    requires WellFormedStats(processes, counts) && minCount != 0
    requires forall i :: 0 <= i < |keys| ==> keys[i] in counts.entries
    requires AllBusy(processes, keys)
    decreases |keys|
  {
    if keys == [] then []
    else
      var ps := processes.entries[keys[0]];
      UserPairs(ps, TotalCpu(ps), UserWeight(counts.entries[keys[0]], minCount))
        + AllPairs(processes, counts, minCount, keys[1..])
  }

  lemma {:induction false} UserPassPairs(acc: Dict<int, real>, ps: seq<ProcessState>, j: nat, total: real, userWeight: real)
    requires acc.Valid() && j <= |ps|
    ensures Busy(ps[j..]) ==>
      UserPass(acc, ps, j, total, userWeight) == Ok(acc.PutAll(UserPairs(ps[j..], total, userWeight)))
    ensures !Busy(ps[j..]) ==> UserPass(acc, ps, j, total, userWeight) == Err(ZeroDivisionError)
    decreases |ps| - j
  {
    if j < |ps| {
      BusyCons(ps, j);
      if ps[j].cpu != 0.0 {
        var x := (ps[j].pid, RawPriority(total, ps[j].cpu, userWeight));
        UserPassStep(acc, ps, j, total, userWeight);
        UserPassPairs(acc.Put(x.0, x.1), ps, j + 1, total, userWeight);
        if Busy(ps[j..]) {
          UserPairsCons(ps, j, total, userWeight);
        }
      }
    }
  }

  lemma BusyCons(ps: seq<ProcessState>, j: nat)
    requires j < |ps|
    ensures Busy(ps[j..]) <==> ps[j].cpu != 0.0 && Busy(ps[j + 1..])
  {
    assert ps[j..][0] == ps[j];
    if ps[j].cpu != 0.0 && Busy(ps[j + 1..]) {
      forall k | 0 <= k < |ps[j..]| ensures ps[j..][k].cpu != 0.0 {
        if k > 0 { assert ps[j..][k] == ps[j + 1..][k - 1]; }
      }
    }
    if Busy(ps[j..]) {
      forall k | j + 1 <= k < |ps| ensures ps[k].cpu != 0.0 {
        assert ps[j..][k - j] == ps[k];
      }
    }
  }

  lemma UserPairsCons(ps: seq<ProcessState>, j: nat, total: real, userWeight: real)
    requires j < |ps| && Busy(ps[j..])
    ensures Busy(ps[j + 1..])
    ensures UserPairs(ps[j..], total, userWeight)
         == [(ps[j].pid, RawPriority(total, ps[j].cpu, userWeight))] + UserPairs(ps[j + 1..], total, userWeight)
  {
    BusyCons(ps, j);
    assert ps[j..][0] == ps[j] && ps[j..][1..] == ps[j + 1..];
  }

  lemma {:induction false} UsersPassPairs(processes: Groups, counts: Counts, minCount: int, acc: Dict<int, real>, i: nat)
    requires WellFormedStats(processes, counts) && minCount != 0
    requires acc.Valid() && i <= |counts.order|
    ensures AllBusy(processes, counts.order[i..]) ==>
      UsersPass(processes, counts, minCount, acc, i)
        == Ok(acc.PutAll(AllPairs(processes, counts, minCount, counts.order[i..])))
    ensures !AllBusy(processes, counts.order[i..]) ==>
      UsersPass(processes, counts, minCount, acc, i) == Err(ZeroDivisionError)
    decreases |counts.order| - i, 2
  {
    if i < |counts.order| {
      var u := counts.order[i];
      var ps := processes.entries[u];
      if AllBusy(processes, counts.order[i..]) {
        UsersPassAllBusy(processes, counts, minCount, acc, i);
      } else if Busy(ps) {
        UsersPassLaterIdle(processes, counts, minCount, acc, i);
      } else {
        UserPassPairs(acc, ps, 0, TotalCpu(ps), UserWeight(counts.entries[u], minCount));
        assert ps[0..] == ps;
        UsersPassStep(processes, counts, minCount, acc, i);
        AllBusyCons(processes, counts, i);
      }
    } else {
      assert counts.order[i..] == [];
    }
  }

  /** The step of `UsersPassPairs` when every process from the `i`-th user on used some CPU. */
  lemma {:induction false} UsersPassAllBusy(processes: Groups, counts: Counts, minCount: int, acc: Dict<int, real>, i: nat)
    requires WellFormedStats(processes, counts) && minCount != 0
    requires acc.Valid() && i < |counts.order| && AllBusy(processes, counts.order[i..])
    ensures UsersPass(processes, counts, minCount, acc, i)
      == Ok(acc.PutAll(AllPairs(processes, counts, minCount, counts.order[i..])))
    decreases |counts.order| - i, 1
  {
    AllBusyCons(processes, counts, i);
    UsersPassFirst(processes, counts, minCount, acc, i);
    UsersPassNext(processes, counts, minCount, acc, i);
  }

  /** After the `i`-th user's pairs, the other users' pairs complete the dictionary. */
  lemma {:induction false} UsersPassNext(processes: Groups, counts: Counts, minCount: int, acc: Dict<int, real>, i: nat)
    requires WellFormedStats(processes, counts) && minCount != 0
    requires acc.Valid() && i < |counts.order| && AllBusy(processes, counts.order[i..])
    requires Busy(processes.entries[counts.order[i]])
    ensures UsersPass(processes, counts, minCount, FirstUserAdded(processes, counts, minCount, acc, i), i + 1)
      == Ok(acc.PutAll(AllPairs(processes, counts, minCount, counts.order[i..])))
    decreases |counts.order| - i, 0
  {
    var u := counts.order[i];
    var ps := processes.entries[u];
    var pairs := UserPairs(ps, TotalCpu(ps), UserWeight(counts.entries[u], minCount));
    AllPairsCons(processes, counts, minCount, i);
    var rest := AllPairs(processes, counts, minCount, counts.order[i + 1..]);
    UsersPassPairs(processes, counts, minCount, acc.PutAll(pairs), i + 1);
    PutAllAppend(acc, pairs, rest);
  }

  /** The step of `UsersPassPairs` when the `i`-th user's processes all used some CPU but a later one's did not. */
  lemma {:induction false} UsersPassLaterIdle(processes: Groups, counts: Counts, minCount: int, acc: Dict<int, real>, i: nat)
    requires WellFormedStats(processes, counts) && minCount != 0
    requires acc.Valid() && i < |counts.order| && Busy(processes.entries[counts.order[i]])
    requires !AllBusy(processes, counts.order[i..])
    ensures UsersPass(processes, counts, minCount, acc, i) == Err(ZeroDivisionError)
    decreases |counts.order| - i, 1
  {
    var u := counts.order[i];
    var ps := processes.entries[u];
    AllBusyCons(processes, counts, i);
    var acc1 := acc.PutAll(UserPairs(ps, TotalCpu(ps), UserWeight(counts.entries[u], minCount)));
    UsersPassFirst(processes, counts, minCount, acc, i);
    UsersPassPairs(processes, counts, minCount, acc1, i + 1);
  }

  /** `acc` with the pairs of the `i`-th user added. */
  function FirstUserAdded(processes: Groups, counts: Counts, minCount: int, acc: Dict<int, real>, i: nat): Dict<int, real>
    requires WellFormedStats(processes, counts) && minCount != 0
    requires acc.Valid() && i < |counts.order| && Busy(processes.entries[counts.order[i]])
  {
    var u := counts.order[i];
    var ps := processes.entries[u];
    acc.PutAll(UserPairs(ps, TotalCpu(ps), UserWeight(counts.entries[u], minCount)))
  }

  /** A user whose processes all used some CPU adds its pairs, and the pass goes on to the next user. */
  lemma UsersPassFirst(processes: Groups, counts: Counts, minCount: int, acc: Dict<int, real>, i: nat)
    requires WellFormedStats(processes, counts) && minCount != 0
    requires acc.Valid() && i < |counts.order| && Busy(processes.entries[counts.order[i]])
    ensures UsersPass(processes, counts, minCount, acc, i)
      == UsersPass(processes, counts, minCount, FirstUserAdded(processes, counts, minCount, acc, i), i + 1)
  {
    var u := counts.order[i];
    var ps := processes.entries[u];
    var total, weight := TotalCpu(ps), UserWeight(counts.entries[u], minCount);
    UserPassPairs(acc, ps, 0, total, weight);
    assert ps[0..] == ps;
    UsersPassStep(processes, counts, minCount, acc, i);
  }

  lemma UsersPassStep(processes: Groups, counts: Counts, minCount: int, acc: Dict<int, real>, i: nat)
    requires WellFormedStats(processes, counts) && minCount != 0
    requires acc.Valid() && i < |counts.order|
    ensures var u := counts.order[i];
      var ps := processes.entries[u];
      UsersPass(processes, counts, minCount, acc, i)
        == match UserPass(acc, ps, 0, TotalCpu(ps), UserWeight(counts.entries[u], minCount))
           case Err(e) => Err(e)
           case Ok(next) => UsersPass(processes, counts, minCount, next, i + 1)
  {
  }

  lemma AllBusyCons(processes: Groups, counts: Counts, i: nat)
    requires WellFormedStats(processes, counts) && i < |counts.order|
    ensures AllBusy(processes, counts.order[i..]) <==>
      Busy(processes.entries[counts.order[i]]) && AllBusy(processes, counts.order[i + 1..])
  {
    var keys := counts.order[i..];
    assert keys[0] == counts.order[i] && keys[1..] == counts.order[i + 1..];
    assert keys[0] in processes.entries;
    if Busy(processes.entries[keys[0]]) && AllBusy(processes, keys[1..]) {
      forall k | 0 <= k < |keys| && keys[k] in processes.entries ensures Busy(processes.entries[keys[k]]) {
        if k > 0 { assert keys[k] == keys[1..][k - 1]; }
      }
    }
    if AllBusy(processes, keys) {
      forall k | 0 <= k < |keys[1..]| && keys[1..][k] in processes.entries ensures Busy(processes.entries[keys[1..][k]]) {
        assert keys[1..][k] == keys[k + 1];
      }
    }
  }

  lemma AllPairsCons(processes: Groups, counts: Counts, minCount: int, i: nat)
    requires WellFormedStats(processes, counts) && minCount != 0 && i < |counts.order|
    requires AllBusy(processes, counts.order[i..])
    ensures AllBusy(processes, counts.order[i + 1..])
    ensures var u := counts.order[i];
      var ps := processes.entries[u];
      AllPairs(processes, counts, minCount, counts.order[i..])
        == UserPairs(ps, TotalCpu(ps), UserWeight(counts.entries[u], minCount))
           + AllPairs(processes, counts, minCount, counts.order[i + 1..])
  {
    AllBusyCons(processes, counts, i);
    var keys := counts.order[i..];
    assert keys[0] == counts.order[i] && keys[1..] == counts.order[i + 1..];
  }

  /**
   * The `priorities` dictionary is `dict` of the (pid, raw priority) pairs
   * of all users in order, when every process used some CPU; otherwise the
   * scheduler raises a ZeroDivisionError.
   */
  lemma RawPrioritiesPairs(processes: Groups, counts: Counts)
    requires WellFormedStats(processes, counts) && counts.order != []
    ensures AllBusy(processes, counts.order) ==>
      RawPriorities(processes, counts)
        == Ok(FromPairs(AllPairs(processes, counts, MinCount(counts, counts.order), counts.order)))
    ensures !AllBusy(processes, counts.order) ==> RawPriorities(processes, counts) == Err(ZeroDivisionError)
  {
    var m := MinCount(counts, counts.order);
    assert counts.order[0..] == counts.order;
    UsersPassPairs(processes, counts, m, Empty(), 0);
    assert RawPriorities(processes, counts) == UsersPass(processes, counts, m, Empty(), 0);
    assert AllBusy(processes, counts.order[0..]) == AllBusy(processes, counts.order);
  }

  // ---------------------------------------------------------------------
  // Properties of the weights and of the rescaled niceness

  /** The total CPU of busy processes is not negative. */
  lemma {:induction false} TotalCpuNonNegative(ps: seq<ProcessState>)
    requires forall k :: 0 <= k < |ps| ==> ps[k].cpu > 0.0
    ensures TotalCpu(ps) >= 0.0
    decreases |ps|
  {
    if ps != [] {
      TotalCpuNonNegative(ps[..|ps| - 1]);
    }
  }

  /** A process weight is at least 1: a zero rounding is replaced by 1, any other rounding is a positive multiple of 100. */
  lemma ProcessWeightAtLeastOne(total: real, cpu: real)
    requires cpu > 0.0 && total >= 0.0
    ensures ProcessWeight(total, cpu) >= 1.0
  {
    var x := total / cpu;
    assert x >= 0.0;
    var n := RoundHalfEven(x / 100.0);
    assert n >= 0;
    if n > 0 {
      assert n as real * 100.0 >= 100.0;
    }
  }

  /** A process with at least a fiftieth of its user's CPU rounds to 0 hundreds, so its weight is 1. */
  lemma ProcessWeightOfLargeShare(total: real, cpu: real)
    requires cpu > 0.0 && 0.0 <= total <= 50.0 * cpu
    ensures ProcessWeight(total, cpu) == 1.0
  {
    var x := total / cpu;
    assert 0.0 <= x <= 50.0 by {
      assert x * cpu == total;
      if x > 50.0 {
        MulMonotone(cpu, 50.0, x);
      }
    }
    RoundHalfEvenUnique(x / 100.0, 0);
  }

  /**
   * Each user's weight is its count over the smallest count: at least 1,
   * and exactly 1 for the users with the fewest processes.
   */
  lemma UserWeightSpec(counts: Counts)
    requires counts.Valid() && counts.order != []
    requires forall u :: u in counts.entries ==> counts.entries[u] > 0
    ensures MinCount(counts, counts.order) > 0
    ensures forall u :: u in counts.entries ==> UserWeight(counts.entries[u], MinCount(counts, counts.order)) >= 1.0
    ensures forall u :: u in counts.entries ==>
      (UserWeight(counts.entries[u], MinCount(counts, counts.order)) == 1.0 <==> counts.entries[u] == MinCount(counts, counts.order))
  {
    var m := MinCount(counts, counts.order);
    forall u | u in counts.entries
      ensures UserWeight(counts.entries[u], m) >= 1.0
      ensures UserWeight(counts.entries[u], m) == 1.0 <==> counts.entries[u] == m
    {
      var i :| 0 <= i < |counts.order| && counts.order[i] == u;
      RatioAtLeastOne(counts.entries[u], m);
    }
  }

  lemma RatioAtLeastOne(c: int, m: int)
    requires 0 < m <= c
    ensures c as real / m as real >= 1.0
    ensures c as real / m as real == 1.0 <==> c == m
  {
    var q := c as real / m as real;
    assert q * m as real == c as real;
    if q < 1.0 {
      MulMonotone(m as real, q, 1.0);
    }
    if q == 1.0 {
      assert c as real == m as real;
    }
  }

  /** Raw priorities of busy processes are at least 1. */
  lemma RawPriorityAtLeastOne(total: real, cpu: real, userWeight: real)
    requires cpu > 0.0 && total >= 0.0 && userWeight >= 1.0
    ensures RawPriority(total, cpu, userWeight) >= 1.0
  {
    var w := ProcessWeight(total, cpu);
    ProcessWeightAtLeastOne(total, cpu);
    assert w * userWeight - userWeight == (w - 1.0) * userWeight;
    MulMonotone(userWeight, 0.0, w - 1.0);
  }

  /** Raw priorities in [1, top] get a niceness in [0, 19]. */
  lemma NiceBounds(top: real, raw: real)
    requires 1.0 <= raw <= top
    ensures 0 <= Nice(top, raw) <= 19
  {
    RoundHalfEvenUnique(0.0, 0);
    RoundHalfEvenUnique(19.0, 19);
    if top != 1.0 {
      var r := Rescale(1.0, top, 0.0, 19.0, raw);
      RescaleBounds(1.0, top, 0.0, 19.0, raw);
      RoundHalfEvenMonotone(0.0, r);
      RoundHalfEvenMonotone(r, 19.0);
    }
  }

  /** The largest raw priority gets niceness 19, unless every raw priority is 1. */
  lemma NiceOfTop(top: real)
    requires top > 1.0
    ensures Nice(top, top) == 19
  {
    RescaleEndpoints(1.0, top, 0.0, 19.0);
    RoundHalfEvenUnique(19.0, 19);
  }

  /** When the largest raw priority is 1 the source range is one point and every niceness is 0. */
  lemma NiceFlat(raw: real)
    ensures Nice(1.0, raw) == 0
  {
    RoundHalfEvenUnique(0.0, 0);
  }

  /** A larger raw priority never gets a smaller niceness. */
  lemma NiceMonotone(top: real, x: real, y: real)
    requires top >= 1.0 && x <= y
    ensures Nice(top, x) <= Nice(top, y)
  {
    if top != 1.0 {
      RescaleMonotone(1.0, top, 0.0, 19.0, x, y);
      RoundHalfEvenMonotone(Rescale(1.0, top, 0.0, 19.0, x), Rescale(1.0, top, 0.0, 19.0, y));
    } else {
      NiceFlat(x);
      NiceFlat(y);
    }
  }

  // ---------------------------------------------------------------------
  // What user_fair_scheduler issues

  /** `pid` belongs to a listed process of one of the users in `keys`. */
  ghost predicate PidIn(processes: Groups, keys: seq<string>, pid: int) {
    exists u, p :: u in keys && u in processes.entries && p in processes.entries[u] && p.pid == pid
  }

  /**
   * The pairs name exactly the pids of the users in `keys`, and with busy
   * processes and the smallest count as divisor every raw priority is at
   * least 1.
   */
  lemma AllPairsFacts(processes: Groups, counts: Counts, minCount: int, keys: seq<string>)
    requires WellFormedStats(processes, counts) && Positive(processes)
    requires 0 < minCount
    requires forall i :: 0 <= i < |keys| ==> keys[i] in counts.entries && minCount <= counts.entries[keys[i]]
    requires AllBusy(processes, keys)
    ensures var all := AllPairs(processes, counts, minCount, keys);
      && (forall i :: 0 <= i < |all| ==> PidIn(processes, keys, all[i].0) && all[i].1 >= 1.0)
      && (forall u, p :: u in keys && u in processes.entries && p in processes.entries[u] ==>
            exists i :: 0 <= i < |all| && all[i].0 == p.pid)
  {
    AllPairsBounded(processes, counts, minCount, keys);
    AllPairsCover(processes, counts, minCount, keys);
  }

  /** The tail of `keys` meets the requirements of `AllPairs` too, and the pairs of `keys` are the head user's followed by the tail's. */
  lemma AllPairsSplit(processes: Groups, counts: Counts, minCount: int, keys: seq<string>)
    requires WellFormedStats(processes, counts) && minCount != 0 && keys != []
    requires forall i :: 0 <= i < |keys| ==> keys[i] in counts.entries
    requires AllBusy(processes, keys)
    ensures forall i :: 0 <= i < |keys[1..]| ==> keys[1..][i] == keys[i + 1]
    ensures AllBusy(processes, keys[1..])
    ensures keys[0] in processes.entries
    ensures var ps := processes.entries[keys[0]];
      AllPairs(processes, counts, minCount, keys)
        == UserPairs(ps, TotalCpu(ps), UserWeight(counts.entries[keys[0]], minCount)) + AllPairs(processes, counts, minCount, keys[1..])
  {
    forall k | 0 <= k < |keys[1..]| && keys[1..][k] in processes.entries ensures Busy(processes.entries[keys[1..][k]]) {
      assert keys[1..][k] == keys[k + 1];
    }
  }

  /** Every pair names a pid of a user in `keys`, with a raw priority of at least 1. */
  lemma {:induction false} AllPairsBounded(processes: Groups, counts: Counts, minCount: int, keys: seq<string>)
    requires WellFormedStats(processes, counts) && Positive(processes)
    requires 0 < minCount
    requires forall i :: 0 <= i < |keys| ==> keys[i] in counts.entries && minCount <= counts.entries[keys[i]]
    requires AllBusy(processes, keys)
    ensures var all := AllPairs(processes, counts, minCount, keys);
      forall i :: 0 <= i < |all| ==> PidIn(processes, keys, all[i].0) && all[i].1 >= 1.0
    decreases |keys|
  {
    if keys != [] {
      AllPairsSplit(processes, counts, minCount, keys);
      var u0 := keys[0];
      var ps := processes.entries[u0];
      var total, weight := TotalCpu(ps), UserWeight(counts.entries[u0], minCount);
      var head := UserPairs(ps, total, weight);
      AllPairsBounded(processes, counts, minCount, keys[1..]);
      var rest := AllPairs(processes, counts, minCount, keys[1..]);
      var all := AllPairs(processes, counts, minCount, keys);
      TotalCpuNonNegative(ps);
      RatioAtLeastOne(counts.entries[u0], minCount);
      forall i | 0 <= i < |all|
        ensures PidIn(processes, keys, all[i].0) && all[i].1 >= 1.0
      {
        if i < |head| {
          assert all[i] == (ps[i].pid, RawPriority(total, ps[i].cpu, weight));
          assert ps[i] in ps;
          RawPriorityAtLeastOne(total, ps[i].cpu, weight);
        } else {
          assert all[i] == rest[i - |head|];
          var u, p :| u in keys[1..] && u in processes.entries && p in processes.entries[u] && p.pid == all[i].0;
          assert u in keys;
        }
      }
    }
  }

  /** Every pid of a user in `keys` has a pair. */
  lemma {:induction false} AllPairsCover(processes: Groups, counts: Counts, minCount: int, keys: seq<string>)
    requires WellFormedStats(processes, counts) && minCount != 0
    requires forall i :: 0 <= i < |keys| ==> keys[i] in counts.entries
    requires AllBusy(processes, keys)
    ensures var all := AllPairs(processes, counts, minCount, keys);
      forall u, p :: u in keys && u in processes.entries && p in processes.entries[u] ==>
        exists i :: 0 <= i < |all| && all[i].0 == p.pid
    decreases |keys|
  {
    if keys != [] {
      AllPairsSplit(processes, counts, minCount, keys);
      var u0 := keys[0];
      var ps := processes.entries[u0];
      var head := UserPairs(ps, TotalCpu(ps), UserWeight(counts.entries[u0], minCount));
      AllPairsCover(processes, counts, minCount, keys[1..]);
      var rest := AllPairs(processes, counts, minCount, keys[1..]);
      var all := AllPairs(processes, counts, minCount, keys);
      forall u, p | u in keys && u in processes.entries && p in processes.entries[u]
        ensures exists i :: 0 <= i < |all| && all[i].0 == p.pid
      {
        if u == u0 {
          var k :| 0 <= k < |ps| && ps[k] == p;
          assert all[k].0 == head[k].0 == p.pid;
        } else {
          assert u in keys[1..];
          var i :| 0 <= i < |rest| && rest[i].0 == p.pid;
          assert all[|head| + i].0 == rest[i].0;
        }
      }
    }
  }


  /** With at least one user and busy processes, the raw priorities are `dict` of all pairs. */
  lemma RawFromPairs(processes: Groups, counts: Counts)
    requires WellFormedStats(processes, counts) && Positive(processes) && counts.order != []
    ensures MinCount(counts, counts.order) > 0 && AllBusy(processes, counts.order)
    ensures forall i :: 0 <= i < |counts.order| ==>
      counts.order[i] in counts.entries && MinCount(counts, counts.order) <= counts.entries[counts.order[i]]
    ensures RawPriorities(processes, counts)
      == Ok(FromPairs(AllPairs(processes, counts, MinCount(counts, counts.order), counts.order)))
  {
    var m := MinCount(counts, counts.order);
    assert m > 0;
    assert AllBusy(processes, counts.order) by {
      forall k | 0 <= k < |counts.order| && counts.order[k] in processes.entries
        ensures Busy(processes.entries[counts.order[k]]) {
      }
    }
    RawPrioritiesPairs(processes, counts);
  }

  /**
   * With at least one user and busy processes, the raw priorities exist and
   * cover exactly the pids of the grouped processes.
   */
  lemma RawPrioritiesKeys(processes: Groups, counts: Counts)
    requires WellFormedStats(processes, counts) && Positive(processes) && counts.order != []
    ensures RawPriorities(processes, counts).Ok?
    ensures forall pid :: pid in RawPriorities(processes, counts).value.entries <==> PidIn(processes, counts.order, pid)
  {
    RawFromPairs(processes, counts);
    var m := MinCount(counts, counts.order);
    var all := AllPairs(processes, counts, m, counts.order);
    AllPairsFacts(processes, counts, m, counts.order);
    FromPairsLastWins(all);
    var raw := RawPriorities(processes, counts).value;
    forall pid
      ensures pid in raw.entries <==> PidIn(processes, counts.order, pid)
    {
      if PidIn(processes, counts.order, pid) {
        var u, p :| u in counts.order && u in processes.entries && p in processes.entries[u] && p.pid == pid;
        var i :| 0 <= i < |all| && all[i].0 == p.pid;
      }
    }
  }

  /** With busy processes every raw priority is at least 1. */
  lemma RawPrioritiesAtLeastOne(processes: Groups, counts: Counts)
    requires WellFormedStats(processes, counts) && Positive(processes) && counts.order != []
    ensures RawPriorities(processes, counts).Ok?
    ensures var raw := RawPriorities(processes, counts).value;
      forall pid :: pid in raw.entries ==> raw.entries[pid] >= 1.0
  {
    RawFromPairs(processes, counts);
    var m := MinCount(counts, counts.order);
    var all := AllPairs(processes, counts, m, counts.order);
    AllPairsAtLeastOne(processes, counts, m, counts.order);
    FromPairsAtLeastOne(all);
  }

  lemma AllPairsAtLeastOne(processes: Groups, counts: Counts, minCount: int, keys: seq<string>)
    requires WellFormedStats(processes, counts) && Positive(processes)
    requires 0 < minCount
    requires forall i :: 0 <= i < |keys| ==> keys[i] in counts.entries && minCount <= counts.entries[keys[i]]
    requires AllBusy(processes, keys)
    ensures var all := AllPairs(processes, counts, minCount, keys);
      forall i :: 0 <= i < |all| ==> all[i].1 >= 1.0
  {
    AllPairsFacts(processes, counts, minCount, keys);
  }

  /** A dictionary built from pairs whose values are all at least 1 holds only such values. */
  lemma FromPairsAtLeastOne(all: seq<(int, real)>)
    requires forall i :: 0 <= i < |all| ==> all[i].1 >= 1.0
    ensures forall pid :: pid in FromPairs(all).entries ==> FromPairs(all).entries[pid] >= 1.0
  {
    FromPairsValues(all);
    var raw := FromPairs(all);
    forall pid | pid in raw.entries
      ensures raw.entries[pid] >= 1.0
    {
      var i :| 0 <= i < |all| && all[i] == (pid, raw.entries[pid]);
    }
  }

  /**
   * With at least one user and busy processes, `user_fair_scheduler`
   * succeeds and issues one renice per raw priority, in dictionary order,
   * rescaled against the largest raw priority; every raw priority lies
   * between 1 and that largest one.
   */
  lemma FairActionsShape(processes: Groups, counts: Counts)
    requires WellFormedStats(processes, counts) && Positive(processes) && counts.order != []
    ensures RawPriorities(processes, counts).Ok?
    ensures var raw := RawPriorities(processes, counts).value;
      && raw.order != []
      && (forall i :: 0 <= i < |raw.order| ==> 1.0 <= raw.entries[raw.order[i]] <= MaxPriority(raw, raw.order))
      && FairActions(processes, counts) == Ok(Renices(raw, raw.order, MaxPriority(raw, raw.order)))
  {
    RawPrioritiesKeys(processes, counts);
    RawPrioritiesAtLeastOne(processes, counts);
    var raw := RawPriorities(processes, counts).value;
    var p0 := processes.entries[counts.order[0]][0];
    assert PidIn(processes, counts.order, p0.pid);
    assert p0.pid in raw.entries;
    var top := MaxPriority(raw, raw.order);
    forall i | 0 <= i < |raw.order|
      ensures 1.0 <= raw.entries[raw.order[i]] <= top
    {
      var pid := raw.order[i];
      assert pid in raw.entries;
      assert raw.entries[pid] >= 1.0;
      assert raw.entries[pid] <= top;
    }
  }

  /**
   * Every pid of the grouped processes is reniced exactly once by
   * `user_fair_scheduler`, and no other pid is.
   */
  lemma FairActionsOncePerPid(processes: Groups, counts: Counts)
    requires WellFormedStats(processes, counts) && Positive(processes) && counts.order != []
    ensures FairActions(processes, counts).Ok?
    ensures var acts := FairActions(processes, counts).value;
      && (forall i :: 0 <= i < |acts| ==> acts[i].Renice?)
      && (forall i, j :: 0 <= i < j < |acts| ==> acts[i].pid != acts[j].pid)
      && (forall pid :: PidIn(processes, counts.order, pid) <==> exists i :: 0 <= i < |acts| && acts[i].pid == pid)
  {
    RawPrioritiesKeys(processes, counts);
    FairActionsShape(processes, counts);
    var raw := RawPriorities(processes, counts).value;
    RenicesPids(raw, MaxPriority(raw, raw.order));
  }

  /** The renices of a dictionary name each of its keys once, and nothing else. */
  lemma RenicesPids(raw: Dict<int, real>, top: real)
    requires raw.Valid()
    ensures var acts := Renices(raw, raw.order, top);
      && (forall i :: 0 <= i < |acts| ==> acts[i].Renice?)
      && (forall i, j :: 0 <= i < j < |acts| ==> acts[i].pid != acts[j].pid)
      && (forall pid :: pid in raw.entries <==> exists i :: 0 <= i < |acts| && acts[i].pid == pid)
  {
    var acts := Renices(raw, raw.order, top);
    RenicesIndex(raw, raw.order, top);
    forall pid | pid in raw.entries
      ensures exists i :: 0 <= i < |acts| && acts[i].pid == pid
    {
      var i :| 0 <= i < |raw.order| && raw.order[i] == pid;
      assert acts[i].pid == pid;
    }
  }

  /** Raw priorities in [1, top] are reniced to values in [0, 19]. */
  lemma RenicesBounds(raw: Dict<int, real>, top: real)
    requires raw.Valid()
    requires forall i :: 0 <= i < |raw.order| ==> 1.0 <= raw.entries[raw.order[i]] <= top
    ensures forall i :: 0 <= i < |raw.order| ==> Renices(raw, raw.order, top)[i].Renice? && 0 <= Renices(raw, raw.order, top)[i].priority <= 19
  {
    var acts := Renices(raw, raw.order, top);
    RenicesIndex(raw, raw.order, top);
    forall i | 0 <= i < |acts|
      ensures acts[i].Renice? && 0 <= acts[i].priority <= 19
    {
      NiceBounds(top, raw.entries[raw.order[i]]);
    }
  }

  /** A larger raw priority never gets a smaller niceness. */
  lemma RenicesMonotone(raw: Dict<int, real>, top: real)
    requires raw.Valid() && top >= 1.0
    ensures var acts := Renices(raw, raw.order, top);
      forall i, j :: 0 <= i < |acts| && 0 <= j < |acts| && raw.entries[raw.order[i]] <= raw.entries[raw.order[j]] ==>
        acts[i].Renice? && acts[j].Renice? && acts[i].priority <= acts[j].priority
  {
    var acts := Renices(raw, raw.order, top);
    RenicesIndex(raw, raw.order, top);
    forall i, j | 0 <= i < |acts| && 0 <= j < |acts| && raw.entries[raw.order[i]] <= raw.entries[raw.order[j]]
      ensures acts[i].Renice? && acts[j].Renice? && acts[i].priority <= acts[j].priority
    {
      NiceMonotone(top, raw.entries[raw.order[i]], raw.entries[raw.order[j]]);
    }
  }

  /** The pids with the largest raw priority get niceness 19, when that priority exceeds 1. */
  lemma RenicesTop(raw: Dict<int, real>, top: real)
    requires raw.Valid() && top > 1.0
    ensures var acts := Renices(raw, raw.order, top);
      forall i :: 0 <= i < |acts| && raw.entries[raw.order[i]] == top ==> acts[i] == Renice(raw.order[i], 19)
  {
    NiceOfTop(top);
    RenicesIndex(raw, raw.order, top);
  }

  /** When the largest raw priority is 1, every pid gets niceness 0. */
  lemma RenicesFlat(raw: Dict<int, real>)
    requires raw.Valid()
    ensures var acts := Renices(raw, raw.order, 1.0);
      forall i :: 0 <= i < |acts| ==> acts[i] == Renice(raw.order[i], 0)
  {
    var acts := Renices(raw, raw.order, 1.0);
    RenicesIndex(raw, raw.order, 1.0);
    forall i | 0 <= i < |acts| ensures acts[i] == Renice(raw.order[i], 0) {
      NiceFlat(raw.entries[raw.order[i]]);
    }
  }

  /**
   * `user_fair_scheduler` fails exactly when no user is left to schedule,
   * and then with the ValueError of `min` over nothing.
   */
  lemma FairActionsFailure(processes: Groups, counts: Counts)
    requires WellFormedStats(processes, counts) && Positive(processes)
    ensures FairActions(processes, counts).Err? <==> counts.order == []
    ensures counts.order == [] ==> FairActions(processes, counts) == Err(ValueError)
  {
    if counts.order != [] {
      FairActionsShape(processes, counts);
    }
  }

  /** A process of the example below: pid, user, CPU%. */
  function ExampleProcess(pid: int, user: string, cpu: real): ProcessState {
    ProcessState(pid, user, "20", "0", "0", "0", "0", "R", cpu, 0.0, "job")
  }

  /** User A runs pids 1 and 2 at 10% each, user B runs pid 3 at 40%. */
  function ExampleGroups(): Groups {
    Dict(["A", "B"], map["A" := [ExampleProcess(1, "A", 10.0), ExampleProcess(2, "A", 10.0)],
                         "B" := [ExampleProcess(3, "B", 40.0)]])
  }

  function ExampleCounts(): Counts {
    Dict(["A", "B"], map["A" := 2, "B" := 1])
  }

  lemma ExampleStats()
    ensures WellFormedStats(ExampleGroups(), ExampleCounts())
    ensures MinCount(ExampleCounts(), ExampleCounts().order) == 1
  {
    var counts := ExampleCounts();
    assert MinCount(counts, counts.order) == 1;
  }

  lemma ExampleTotals()
    ensures TotalCpu(ExampleGroups().entries["A"]) == 20.0 && TotalCpu(ExampleGroups().entries["B"]) == 40.0
  {
    var pa, pb := ExampleGroups().entries["A"], ExampleGroups().entries["B"];
    assert TotalCpu(pa[..1]) == 10.0 by { assert pa[..1][..0] == []; }
    assert TotalCpu(pb) == 40.0 by { assert pb[..0] == []; }
  }

  /** A's two processes each weigh 1 and A's weight is 2. */
  lemma ExampleUserA()
    ensures UserPass(Empty(), ExampleGroups().entries["A"], 0, 20.0, 2.0) == Ok(Empty<int, real>().Put(1, 2.0).Put(2, 2.0))
  {
    var ps := ExampleGroups().entries["A"];
    ProcessWeightOfLargeShare(20.0, 10.0);
    assert RawPriority(20.0, 10.0, 2.0) == 2.0;
    var u1 := Empty<int, real>().Put(1, 2.0);
    var ua := u1.Put(2, 2.0);
    assert UserPass(ua, ps, 2, 20.0, 2.0) == Ok(ua);
    assert UserPass(u1, ps, 1, 20.0, 2.0) == Ok(ua);
  }

  /** B's process weighs 1 and B's weight is 1. */
  lemma ExampleUserB(acc: Dict<int, real>)
    requires acc.Valid()
    ensures UserPass(acc, ExampleGroups().entries["B"], 0, 40.0, 1.0) == Ok(acc.Put(3, 1.0))
  {
    var ps := ExampleGroups().entries["B"];
    ProcessWeightOfLargeShare(40.0, 40.0);
    assert RawPriority(40.0, 40.0, 1.0) == 1.0;
    assert UserPass(acc.Put(3, 1.0), ps, 1, 40.0, 1.0) == Ok(acc.Put(3, 1.0));
  }

  /** The raw priorities of the example: 2 for A's pids, 1 for B's. */
  lemma ExampleRaw()
    ensures WellFormedStats(ExampleGroups(), ExampleCounts())
    ensures RawPriorities(ExampleGroups(), ExampleCounts()) == Ok(Empty<int, real>().Put(1, 2.0).Put(2, 2.0).Put(3, 1.0))
  {
    var processes, counts := ExampleGroups(), ExampleCounts();
    ExampleStats();
    ExampleTotals();
    assert UserWeight(2, 1) == 2.0 && UserWeight(1, 1) == 1.0;
    ExampleUserA();
    var ua := Empty<int, real>().Put(1, 2.0).Put(2, 2.0);
    ExampleUserB(ua);
    var raw := ua.Put(3, 1.0);
    assert UsersPass(processes, counts, 1, raw, 2) == Ok(raw);
    assert UsersPass(processes, counts, 1, ua, 1) == Ok(raw);
  }

  /**
   * In the example A's weight is 2 and B's 1 while every process weighs 1,
   * so A's pids go to niceness 19 and B's stays at 0.
   */
  lemma FairExample()
    ensures WellFormedStats(ExampleGroups(), ExampleCounts())
    ensures FairActions(ExampleGroups(), ExampleCounts()) == Ok([Renice(1, 19), Renice(2, 19), Renice(3, 0)])
  {
    ExampleRaw();
    var raw := Empty<int, real>().Put(1, 2.0).Put(2, 2.0).Put(3, 1.0);
    ExampleRenices(raw);
  }

  /** The example's raw priorities reniced against their maximum. */
  lemma ExampleRenices(raw: Dict<int, real>)
    requires raw == Empty<int, real>().Put(1, 2.0).Put(2, 2.0).Put(3, 1.0)
    ensures raw.order == [1, 2, 3] && MaxPriority(raw, raw.order) == 2.0
    ensures Renices(raw, raw.order, 2.0) == [Renice(1, 19), Renice(2, 19), Renice(3, 0)]
  {
    ExampleMax(raw);
    ExampleNice();
    RenicesOfThree(raw, 1, 2, 3, 2.0);
  }

  lemma RenicesOfThree(raw: Dict<int, real>, k1: int, k2: int, k3: int, top: real)
    requires k1 in raw.entries && k2 in raw.entries && k3 in raw.entries
    ensures Renices(raw, [k1, k2, k3], top)
      == [Renice(k1, Nice(top, raw.entries[k1])), Renice(k2, Nice(top, raw.entries[k2])), Renice(k3, Nice(top, raw.entries[k3]))]
  {
    var acts := Renices(raw, [k1, k2, k3], top);
    RenicesIndex(raw, [k1, k2, k3], top);
    assert acts[0] == Renice(k1, Nice(top, raw.entries[k1]));
    assert acts[1] == Renice(k2, Nice(top, raw.entries[k2]));
    assert acts[2] == Renice(k3, Nice(top, raw.entries[k3]));
  }

  /** The example's raw priorities: pids 1 and 2 at 2, pid 3 at 1, in that order. */
  predicate ExampleShape(raw: Dict<int, real>) {
    && raw.order == [1, 2, 3]
    && 1 in raw.entries && 2 in raw.entries && 3 in raw.entries
    && raw.entries[1] == 2.0 && raw.entries[2] == 2.0 && raw.entries[3] == 1.0
  }

  lemma ExampleDict(raw: Dict<int, real>)
    requires raw == Empty<int, real>().Put(1, 2.0).Put(2, 2.0).Put(3, 1.0)
    ensures ExampleShape(raw)
  {
    PutThree(1, 2.0, 2, 2.0, 3, 1.0);
  }

  lemma ExampleMax(raw: Dict<int, real>)
    requires raw == Empty<int, real>().Put(1, 2.0).Put(2, 2.0).Put(3, 1.0)
    ensures raw.order == [1, 2, 3] && MaxPriority(raw, raw.order) == 2.0
  {
    ExampleDict(raw);
    MaxOfExample(raw);
  }

  lemma MaxOfExample(raw: Dict<int, real>)
    requires ExampleShape(raw)
    ensures MaxPriority(raw, raw.order) == 2.0
  {
    var m := MaxPriority(raw, raw.order);
    assert raw.entries[raw.order[0]] <= m;
  }

  lemma ExampleNice()
    ensures Nice(2.0, 2.0) == 19 && Nice(2.0, 1.0) == 0
  {
    NiceOfTop(2.0);
    RescaleEndpoints(1.0, 2.0, 0.0, 19.0);
    RoundHalfEvenUnique(0.0, 0);
  }

  // ---------------------------------------------------------------------
  // none_scheduler

  /** `renice -n 0` for each of one user's processes, in order. */
  function ResetUser(ps: seq<ProcessState>): (cmds: seq<Command>)
    ensures |cmds| == |ps|
  {
    seq(|ps|, k requires 0 <= k < |ps| => Renice(ps[k].pid, 0))
  }

  /** What `none_scheduler` issues for the users in `users`, in order. */
  function ResetOf(processes: Groups, users: seq<string>): seq<Command>
    decreases |users|
  {
    if users == [] then []
    else ResetUser(processes.GetOr(users[0], [])) + ResetOf(processes, users[1..])
  }

  lemma ResetOfStep(processes: Groups, users: seq<string>, i: nat)
    requires i < |users| && users[i] in processes.entries
    ensures ResetOf(processes, users[i..]) == ResetUser(processes.entries[users[i]]) + ResetOf(processes, users[i + 1..])
  {
    assert users[i..][1..] == users[i + 1..];
  }

  /** Everything `none_scheduler` issues for the grouped processes. */
  function ResetActions(processes: Groups): seq<Command> {
    ResetOf(processes, processes.order)
  }

  /** Every command is `renice -n 0`. */
  predicate AllResets(cmds: seq<Command>) {
    forall i :: 0 <= i < |cmds| ==> cmds[i] == Renice(cmds[i].pid, 0)
  }

  /** Some command names `pid`. */
  predicate Mentions(cmds: seq<Command>, pid: int) {
    exists i :: 0 <= i < |cmds| && cmds[i].pid == pid
  }

  /**
   * `none_scheduler` issues only `renice -n 0`, and it issues one for the
   * pid of every listed process of the given users and for no other pid.
   */
  lemma {:induction false} ResetOfSpec(processes: Groups, users: seq<string>)
    ensures AllResets(ResetOf(processes, users))
    ensures forall pid :: Mentions(ResetOf(processes, users), pid) <==> PidIn(processes, users, pid)
    decreases |users|
  {
    if users != [] {
      ResetOfSpec(processes, users[1..]);
      var ps := processes.GetOr(users[0], []);
      var head := ResetUser(ps);
      var rest := ResetOf(processes, users[1..]);
      var acts := ResetOf(processes, users);
      assert acts == head + rest;
      assert forall k :: 0 <= k < |head| ==> head[k] == Renice(ps[k].pid, 0);
      forall i | 0 <= i < |acts| ensures acts[i] == Renice(acts[i].pid, 0) {
        if i < |head| { assert acts[i] == head[i]; } else { assert acts[i] == rest[i - |head|]; }
      }
      forall pid
        ensures Mentions(acts, pid) <==> PidIn(processes, users, pid)
      {
        if Mentions(acts, pid) {
          var i :| 0 <= i < |acts| && acts[i].pid == pid;
          if i < |head| {
            assert acts[i] == head[i];
            assert ps[i] in ps;
            assert users[0] in processes.entries;
          } else {
            assert acts[i] == rest[i - |head|];
            assert Mentions(rest, pid);
            var u, p :| u in users[1..] && u in processes.entries && p in processes.entries[u] && p.pid == pid;
            assert u in users;
          }
        }
        if PidIn(processes, users, pid) {
          var u, p :| u in users && u in processes.entries && p in processes.entries[u] && p.pid == pid;
          if u == users[0] {
            var k :| 0 <= k < |ps| && ps[k] == p;
            assert acts[k] == head[k];
          } else {
            assert u in users[1..];
            assert PidIn(processes, users[1..], pid);
            var i :| 0 <= i < |rest| && rest[i].pid == pid;
            assert acts[|head| + i] == rest[i];
          }
        }
      }
    }
  }

  /** The commands issued by `none_scheduler` on the grouped processes. */
  lemma ResetActionsSpec(processes: Groups)
    ensures AllResets(ResetActions(processes))
    ensures forall pid :: Mentions(ResetActions(processes), pid) <==> PidIn(processes, processes.order, pid)
  {
    ResetOfSpec(processes, processes.order);
  }

  // ---------------------------------------------------------------------
  // The daemon loop

  /** The schedulers `run` finds with `getattr(self, scheduler, None)`. */
  datatype Scheduler = FairShare | ResetAll

  function SchedulerNamed(name: string): Option<Scheduler> {
    if name == "user_fair_scheduler" then Some(FairShare)
    else if name == "none_scheduler" then Some(ResetAll)
    else None
  }

  /** What a scheduler issues on the loaded stats, or the exception it raises. */
  function SchedulerActions(s: Scheduler, processes: Groups, counts: Counts): Result<seq<Command>>
    requires WellFormedStats(processes, counts)
  {
    match s
    case FairShare => FairActions(processes, counts)
    case ResetAll => Ok(ResetActions(processes))
  }

  /** The outputs of `top`, `ps` and `os.listdir('/home')` at one call of `load_stats`. */
  datatype StatsInput = StatsInput(top: string, ps: string, homes: seq<string>)

  /**
   * One pass of the `while True` body: the `uptime` output, the stats input
   * and, for the tick loop, the SIGTERMs delivered before each flag check
   * (`signals[k]` for the `k`-th check, the last one after the last check).
   */
  datatype Cycle = Cycle(uptime: string, stats: StatsInput, signals: seq<bool>)

  /** `load_stats()`: the sample parsed, then grouped and counted. */
  function LoadedStats(input: StatsInput): (r: Result<(Groups, Counts)>)
    ensures r.Ok? ==> WellFormedStats(r.value.0, r.value.1)
  {
    var states :- Snapshot(input.top, input.ps);
    LoadStatsSpec(states, input.homes);
    Ok((Grouped(states, input.homes), Counted(states, input.homes)))
  }

  /**
   * The stats `load_stats` returns hold only processes with positive CPU:
   * `process_states` keeps those at 10% or more, so the divisions of the
   * fair scheduler are safe.
   */
  lemma LoadedStatsPositive(input: StatsInput)
    ensures LoadedStats(input).Ok? ==> Positive(LoadedStats(input).value.0)
  {
    if LoadedStats(input).Ok? {
      var states := Snapshot(input.top, input.ps).value;
      SnapshotStates(input.top, input.ps);
      GroupedPositive(states, input.homes);
    }
  }

  /** On loaded stats, the fair scheduler fails exactly when no user is left, with `min`'s ValueError. */
  lemma LoadedFairFailure(input: StatsInput)
    requires LoadedStats(input).Ok?
    ensures var stats := LoadedStats(input).value;
      && (FairActions(stats.0, stats.1).Err? <==> stats.1.order == [])
      && (stats.1.order == [] ==> FairActions(stats.0, stats.1) == Err(ValueError))
  {
    LoadedStatsPositive(input);
    FairActionsFailure(LoadedStats(input).value.0, LoadedStats(input).value.1);
  }

  /**
   * What one pass of the loop body issues: nothing when the 1-minute load
   * is below `intervene`, else the scheduler's commands; any exception ends
   * the loop.
   */
  function CycleWork(s: Scheduler, intervene: real, c: Cycle): Result<seq<Command>> {
    var load :- SystemLoad(c.uptime);
    if load.0 < intervene then Ok([])
    else
      var stats :- LoadedStats(c.stats);
      SchedulerActions(s, stats.0, stats.1)
  }

  /** `range(int(self.interval))` has this many ticks. */
  function TickCount(interval: int): nat {
    if interval > 0 then interval else 0
  }

  /**
   * The tick loop from check `k` of `n` on: returns whether `run` returns,
   * and the exit flag afterwards.
   */
  function Ticks(exitNow: bool, signals: seq<bool>, k: nat, n: nat): (bool, bool)
    requires k <= n < |signals|
    decreases n - k
  {
    var flag := exitNow || signals[k];
    if k == n then (false, flag)
    else if flag then (true, flag)
    else Ticks(flag, signals, k + 1, n)
  }

  /**
   * The tick loop returns exactly when there is a check left and the flag
   * is, or gets, set before one of them; afterwards the flag is set exactly
   * when it was or a SIGTERM came.
   */
  lemma {:induction false} TicksSpec(exitNow: bool, signals: seq<bool>, k: nat, n: nat)
    requires k <= n < |signals|
    ensures Ticks(exitNow, signals, k, n).0 <==> k < n && (exitNow || exists j :: k <= j < n && signals[j])
    ensures Ticks(exitNow, signals, k, n).1 <==> exitNow || exists j :: k <= j <= n && signals[j]
    decreases n - k
  {
    if k < n && !(exitNow || signals[k]) {
      TicksSpec(false, signals, k + 1, n);
      forall j | k <= j <= n && signals[j] ensures k + 1 <= j {
      }
    }
  }

  predicate SignalsFit(cycles: seq<Cycle>, interval: int) {
    forall i :: 0 <= i < |cycles| ==> |cycles[i].signals| == TickCount(interval) + 1
  }

  /** How the `try` block ended. */
  datatype Stop = Returned | Caught(error: Error)

  /** The state of the loop: how it stopped (if it did), the flag and the commands issued. */
  datatype Progress = Progress(stop: Option<Stop>, exitNow: bool, actions: seq<Command>)

  /** `ws` lists what the body of each of the passes issues, or raises. */
  ghost predicate WorksOf(s: Scheduler, intervene: real, cycles: seq<Cycle>, ws: seq<Result<seq<Command>>>) {
    && |ws| == |cycles|
    && forall k {:trigger CycleWork(s, intervene, cycles[k])} :: 0 <= k < |cycles| ==> ws[k] == CycleWork(s, intervene, cycles[k])
  }

  lemma WorksExist(s: Scheduler, intervene: real, cycles: seq<Cycle>)
    ensures exists ws :: WorksOf(s, intervene, cycles, ws)
  {
    var ws := seq(|cycles|, k requires 0 <= k < |cycles| => CycleWork(s, intervene, cycles[k]));
    assert WorksOf(s, intervene, cycles, ws);
  }

  /**
   * What the body of each pass issues, or raises: `CycleWork` of each pass,
   * gathered under a name of its own so that reasoning about the loop does
   * not unfold a pass.
   */
  ghost function Works(s: Scheduler, intervene: real, cycles: seq<Cycle>): (ws: seq<Result<seq<Command>>>)
    ensures WorksOf(s, intervene, cycles, ws)
  {
    WorksExist(s, intervene, cycles);
    var ws :| WorksOf(s, intervene, cycles, ws);
    ws
  }

  /**
   * The `try` block of `run` from the `i`-th pass on, given what each
   * pass's body issues: each pass issues its commands and then ticks; an
   * exception ends the block.
   */
  function LoopFrom(ws: seq<Result<seq<Command>>>, cycles: seq<Cycle>, interval: int, i: nat, exitNow: bool): Progress
    requires |ws| == |cycles| && i <= |cycles| && SignalsFit(cycles, interval)
    decreases |cycles| - i
  {
    if i == |cycles| then Progress(None, exitNow, [])
    else
      match ws[i]
      case Err(e) => Progress(Some(Caught(e)), exitNow, [])
      case Ok(acts) =>
        var (returned, flag) := Ticks(exitNow, cycles[i].signals, 0, TickCount(interval));
        if returned then Progress(Some(Returned), flag, acts)
        else Prepend(acts, LoopFrom(ws, cycles, interval, i + 1, flag))
  }

  /** The `try` block of `run` over the given passes. */
  ghost function Loop(s: Scheduler, intervene: real, interval: int, cycles: seq<Cycle>, exitNow: bool): Progress
    requires SignalsFit(cycles, interval)
  {
    LoopFrom(Works(s, intervene, cycles), cycles, interval, 0, exitNow)
  }

  /** The `finally` block's commands: `none_scheduler` on freshly loaded stats. */
  function Restore(input: StatsInput): Result<seq<Command>> {
    var stats :- LoadedStats(input);
    Ok(ResetActions(stats.0))
  }

  /** `r` is what the restore pass on `input` issues, or raises. */
  ghost predicate RestoredAs(input: StatsInput, r: Result<seq<Command>>) {
    forall x {:trigger Restore(x)} :: x == input ==> r == Restore(x)
  }

  /**
   * What the restore pass on `input` issues, or raises; the same as
   * `Restore(input)`, named apart so that reasoning about `run` does not
   * unfold the restore pass.
   */
  ghost function Restored(input: StatsInput): (r: Result<seq<Command>>)
    ensures RestoredAs(input, r)
  {
    assert RestoredAs(input, Restore(input));
    var r :| RestoredAs(input, r);
    r
  }

  /**
   * How `run` ends: raising before the `try` for an unknown scheduler,
   * returning after the restore pass, raising from a failed restore pass,
   * or still running when the modelled passes are used up.
   */
  datatype Outcome = NoScheduler | Stopped(stop: Stop) | RestoreFailed(stop: Stop, error: Error) | Running

  /** The effect of `run`: its outcome, the commands issued, the flag, and whether `__exited` was set. */
  datatype Ending = Ending(outcome: Outcome, actions: seq<Command>, exitNow: bool, exited: bool)

  ghost function RunResult(name: string, intervene: real, interval: int, exitNow: bool, cycles: seq<Cycle>, restore: StatsInput): Ending
    requires SignalsFit(cycles, interval)
  {
    match SchedulerNamed(name)
    case None => Ending(NoScheduler, [], exitNow, false)
    case Some(s) =>
      var p := Loop(s, intervene, interval, cycles, exitNow);
      match p.stop
      case None => Ending(Running, p.actions, p.exitNow, false)
      case Some(stop) =>
        match Restored(restore)
        case Err(e) => Ending(RestoreFailed(stop, e), p.actions, p.exitNow, false)
        case Ok(reset) => Ending(Stopped(stop), p.actions + reset, p.exitNow, true)
  }

  class PriorityScheduler {
    const intervene: real
    const interval: int
    /** `__exit_now`, set by the SIGTERM handler. */
    var exitNow: bool
    /** `__exited`, set once the restore pass is done. */
    var exited: bool
    /** Every `renice` issued so far. */
    var log: seq<Command>

    constructor(interveneLoad: real, interval: int)
      ensures intervene == interveneLoad && this.interval == interval
      ensures !exitNow && !exited && log == []
    {
      intervene := interveneLoad;
      this.interval := interval;
      exitNow := false;
      exited := false;
      log := [];
    }

    /** `__exit`, the SIGTERM handler: sets the flag; a second SIGTERM changes nothing. */
    method Exit()
      modifies this
      ensures exitNow && log == old(log) && exited == old(exited)
      ensures old(exitNow) ==> unchanged(this)
    {
      if exitNow {
        return;
      }
      exitNow := true;
    }

    /** `__renice(pid, pri)`: one `renice -n pri -p pid`. */
    method Renice(pid: int, pri: int)
      modifies this
      ensures log == old(log) + [Commands.Renice(pid, pri)]
      ensures exitNow == old(exitNow) && exited == old(exited)
    {
      log := log + [Commands.Renice(pid, pri)];
    }

    /** `user_fair_scheduler`: the renices, or the exception raised before any of them. */
    method UserFairScheduler(processes: Groups, counts: Counts) returns (error: Option<Error>)
      requires WellFormedStats(processes, counts)
      modifies this
      ensures FairActions(processes, counts).Ok? ==> error == None && log == old(log) + FairActions(processes, counts).value
      ensures FairActions(processes, counts).Err? ==> error == Some(FairActions(processes, counts).error) && log == old(log)
      ensures exitNow == old(exitNow) && exited == old(exited)
    {
      var priorities := FairPriorities(processes, counts);
      if priorities.Err? {
        return Some(priorities.error);
      }
      var raw := priorities.value;
      if raw.order == [] {
        return Some(ValueError);
      }
      ReniceAll(raw, MaxPriority(raw, raw.order));
      return None;
    }

    /** The last loop of `user_fair_scheduler`: one renice per priority, in order. */
    method ReniceAll(raw: Dict<int, real>, top: real)
      requires raw.Valid()
      modifies this
      ensures log == old(log) + Renices(raw, raw.order, top)
      ensures exitNow == old(exitNow) && exited == old(exited)
    {
      var i := 0;
      while i < |raw.order|
        invariant 0 <= i <= |raw.order|
        invariant log + Renices(raw, raw.order[i..], top) == old(log) + Renices(raw, raw.order, top)
        invariant exitNow == old(exitNow) && exited == old(exited)
      {
        ReniceOne(raw, i, top);
        i := i + 1;
      }
    }

    /** One `renice` of the loop of `user_fair_scheduler`, for the `i`-th pid. */
    method ReniceOne(raw: Dict<int, real>, i: nat, top: real)
      requires raw.Valid() && i < |raw.order|
      modifies this
      ensures log + Renices(raw, raw.order[i + 1..], top) == old(log) + Renices(raw, raw.order[i..], top)
      ensures exitNow == old(exitNow) && exited == old(exited)
    {
      var pid := raw.order[i];
      var pri := Nice(top, raw.entries[pid]);
      RenicesStep(raw, raw.order, i, top);
      Renice(pid, pri);
    }

    /** The inner loop of `none_scheduler`, over one user's processes. */
    method ResetProcesses(ps: seq<ProcessState>)
      modifies this
      ensures log == old(log) + ResetUser(ps)
      ensures exitNow == old(exitNow) && exited == old(exited)
    {
      var j := 0;
      while j < |ps|
        invariant 0 <= j <= |ps|
        invariant log == old(log) + ResetUser(ps[..j])
        invariant exitNow == old(exitNow) && exited == old(exited)
      {
        assert ResetUser(ps[..j + 1]) == ResetUser(ps[..j]) + [Commands.Renice(ps[j].pid, 0)];
        Renice(ps[j].pid, 0);
        j := j + 1;
      }
      assert ps[..|ps|] == ps;
    }

    /** `none_scheduler`: `renice -n 0` for every listed process, user by user. */
    method NoneScheduler(processes: Groups)
      requires processes.Valid()
      modifies this
      ensures log == old(log) + ResetActions(processes)
      ensures exitNow == old(exitNow) && exited == old(exited)
    {
      var users := processes.order;
      var i := 0;
      while i < |users|
        invariant 0 <= i <= |users|
        invariant log + ResetOf(processes, users[i..]) == old(log) + ResetOf(processes, users)
        invariant exitNow == old(exitNow) && exited == old(exited)
      {
        ResetUserOf(processes, users, i);
        i := i + 1;
      }
    }

    /** The inner loop of `none_scheduler` for the `i`-th user. */
    method ResetUserOf(processes: Groups, users: seq<string>, i: nat)
      requires i < |users| && users[i] in processes.entries
      modifies this
      ensures log + ResetOf(processes, users[i + 1..]) == old(log) + ResetOf(processes, users[i..])
      ensures exitNow == old(exitNow) && exited == old(exited)
    {
      ResetOfStep(processes, users, i);
      ResetProcesses(processes.entries[users[i]]);
    }

    /** One pass of the `while True` body before the tick loop: what it issues, or raises. */
    method RunCycle(s: Scheduler, c: Cycle) returns (r: Result<seq<Command>>)
      modifies this
      ensures r == CycleWork(s, intervene, c)
      ensures log == old(log) + (if r.Ok? then r.value else [])
      ensures exitNow == old(exitNow) && exited == old(exited)
    {
      var load := SystemLoad(c.uptime);
      if load.Err? {
        return Err(load.error);
      }
      if load.value.0 < intervene {
        return Ok([]);
      }
      var states := ProcessStates(c.stats.top, c.stats.ps);
      if states.Err? {
        return Err(states.error);
      }
      var processes, counts := LoadStats(states.value, c.stats.homes);
      LoadStatsSpec(states.value, c.stats.homes);
      match s
      case FairShare =>
        var error := UserFairScheduler(processes, counts);
        r := FairActions(processes, counts);
      case ResetAll =>
        NoneScheduler(processes);
        r := Ok(ResetActions(processes));
    }

    /** The body of the `i`-th pass, which issues what `ws` says. */
    method Pass(s: Scheduler, cycles: seq<Cycle>, i: nat, ghost ws: seq<Result<seq<Command>>>) returns (r: Result<seq<Command>>)
      requires i < |cycles| && WorksOf(s, intervene, cycles, ws)
      modifies this
      ensures r == ws[i]
      ensures log == old(log) + (if r.Ok? then r.value else [])
      ensures exitNow == old(exitNow) && exited == old(exited)
    {
      r := RunCycle(s, cycles[i]);
    }

    /**
     * The tick loop: before each check the SIGTERMs of `signals` are
     * delivered; the last one comes after the last check.
     */
    method Sleep(signals: seq<bool>) returns (returned: bool)
      requires |signals| == TickCount(interval) + 1
      modifies this
      ensures (returned, exitNow) == Ticks(old(exitNow), signals, 0, TickCount(interval))
      ensures log == old(log) && exited == old(exited)
    {
      var n := TickCount(interval);
      var k := 0;
      while k < n
        invariant 0 <= k <= n
        invariant Ticks(exitNow, signals, k, n) == Ticks(old(exitNow), signals, 0, n)
        invariant log == old(log) && exited == old(exited)
      {
        if signals[k] {
          Exit();
        }
        if exitNow {
          return true;
        }
        k := k + 1;
      }
      if signals[n] {
        Exit();
      }
      return false;
    }

    /** The `try` block of `run`, given what the body of each pass issues. */
    method RunLoop(s: Scheduler, cycles: seq<Cycle>, ghost ws: seq<Result<seq<Command>>>) returns (stop: Option<Stop>)
      requires SignalsFit(cycles, interval) && WorksOf(s, intervene, cycles, ws)
      modifies this
      ensures var p := LoopFrom(ws, cycles, interval, 0, old(exitNow));
        stop == p.stop && exitNow == p.exitNow && log == old(log) + p.actions
      ensures exited == old(exited)
    {
      stop := None;
      ghost var emitted: seq<Command> := [];
      var i := 0;
      while i < |cycles| && stop == None
        invariant 0 <= i <= |cycles|
        invariant log == old(log) + emitted && exited == old(exited)
        invariant stop == None ==>
          LoopFrom(ws, cycles, interval, 0, old(exitNow)) == Prepend(emitted, LoopFrom(ws, cycles, interval, i, exitNow))
        invariant stop != None ==> LoopFrom(ws, cycles, interval, 0, old(exitNow)) == Progress(stop, exitNow, emitted)
      {
        ghost var before := emitted;
        ghost var acts;
        stop, acts := Step(s, cycles, i, ws);
        emitted := emitted + acts;
        if stop == None {
          PrependTwice(before, acts, LoopFrom(ws, cycles, interval, i + 1, exitNow));
        }
        i := i + 1;
      }
      if stop == None {
        assert emitted + [] == emitted;
      }
    }

    /** One pass: the body, then the tick loop unless the body raised. */
    method Step(s: Scheduler, cycles: seq<Cycle>, i: nat, ghost ws: seq<Result<seq<Command>>>)
      returns (stop: Option<Stop>, ghost acts: seq<Command>)
      requires i < |cycles| && SignalsFit(cycles, interval) && WorksOf(s, intervene, cycles, ws)
      modifies this
      ensures log == old(log) + acts && exited == old(exited)
      ensures stop == None ==>
        LoopFrom(ws, cycles, interval, i, old(exitNow)) == Prepend(acts, LoopFrom(ws, cycles, interval, i + 1, exitNow))
      ensures stop != None ==> LoopFrom(ws, cycles, interval, i, old(exitNow)) == Progress(stop, exitNow, acts)
    {
      LoopFromStep(ws, cycles, interval, i, exitNow);
      var r := Pass(s, cycles, i, ws);
      if r.Err? {
        acts := [];
        return Some(Caught(r.error)), acts;
      }
      acts := r.value;
      var returned := Sleep(cycles[i].signals);
      stop := if returned then Some(Returned) else None;
    }

    /** The `finally` block of `run`, up to setting `__exited`: what it issues, or raises. */
    method RestorePass(input: StatsInput) returns (r: Result<seq<Command>>)
      modifies this
      ensures r == Restore(input)
      ensures log == old(log) + (if r.Ok? then r.value else [])
      ensures exitNow == old(exitNow) && exited == old(exited)
    {
      var states := ProcessStates(input.top, input.ps);
      if states.Err? {
        return Err(states.error);
      }
      var processes, counts := LoadStats(states.value, input.homes);
      LoadStatsSpec(states.value, input.homes);
      NoneScheduler(processes);
      r := Ok(ResetActions(processes));
    }

    /** The restore pass, seen through `Restored`. */
    method Finally(input: StatsInput) returns (r: Result<seq<Command>>)
      modifies this
      ensures r == Restored(input)
      ensures log == old(log) + (if r.Ok? then r.value else [])
      ensures exitNow == old(exitNow) && exited == old(exited)
    {
      r := RestorePass(input);
      assert r == Restore(input);
    }

    /** `run(scheduler)` over the given passes of the loop. */
    method Run(name: string, cycles: seq<Cycle>, restore: StatsInput) returns (outcome: Outcome)
      requires SignalsFit(cycles, interval)
      modifies this
      ensures var e := RunResult(name, intervene, interval, old(exitNow), cycles, restore);
        && outcome == e.outcome && log == old(log) + e.actions && exitNow == e.exitNow
        && exited == (old(exited) || e.exited)
    {
      var s := SchedulerNamed(name);
      if s == None {
        return NoScheduler;
      }
      var stop := RunLoop(s.value, cycles, Works(s.value, intervene, cycles));
      if stop == None {
        return Running;
      }
      ghost var looped := log;
      var reset := Finally(restore);
      if reset.Err? {
        return RestoreFailed(stop.value, reset.error);
      }
      assert log == old(log) + (looped[|old(log)|..] + reset.value);
      exited := true;
      return Stopped(stop.value);
    }
  }

  lemma RenicesStep(raw: Dict<int, real>, keys: seq<int>, i: nat, top: real)
    requires i < |keys| && forall j :: 0 <= j < |keys| ==> keys[j] in raw.entries
    ensures Renices(raw, keys[i..], top) == [Renice(keys[i], Nice(top, raw.entries[keys[i]]))] + Renices(raw, keys[i + 1..], top)
  {
    assert keys[i..][1..] == keys[i + 1..];
  }

  /** The loop state with `acts` issued first. */
  function Prepend(acts: seq<Command>, p: Progress): Progress {
    Progress(p.stop, p.exitNow, acts + p.actions)
  }

  /** One pass of the loop: an exception stops it, else the ticks decide. */
  lemma LoopFromStep(ws: seq<Result<seq<Command>>>, cycles: seq<Cycle>, interval: int, i: nat, exitNow: bool)
    requires |ws| == |cycles| && i < |cycles| && SignalsFit(cycles, interval)
    ensures var t := Ticks(exitNow, cycles[i].signals, 0, TickCount(interval));
      && (ws[i].Err? ==> LoopFrom(ws, cycles, interval, i, exitNow) == Progress(Some(Caught(ws[i].error)), exitNow, []))
      && (ws[i].Ok? && t.0 ==> LoopFrom(ws, cycles, interval, i, exitNow) == Progress(Some(Returned), t.1, ws[i].value))
      && (ws[i].Ok? && !t.0 ==>
            LoopFrom(ws, cycles, interval, i, exitNow) == Prepend(ws[i].value, LoopFrom(ws, cycles, interval, i + 1, t.1)))
  {
  }

  lemma PrependTwice(xs: seq<Command>, ys: seq<Command>, p: Progress)
    ensures Prepend(xs, Prepend(ys, p)) == Prepend(xs + ys, p)
  {
    assert xs + (ys + p.actions) == (xs + ys) + p.actions;
  }

  // ---------------------------------------------------------------------
  // What `run` promises

  /** A pass whose 1-minute load is below `intervene` issues nothing. */
  predicate Idle(intervene: real, c: Cycle) {
    SystemLoad(c.uptime).Ok? && SystemLoad(c.uptime).value.0 < intervene
  }

  /** Passes whose bodies issue nothing leave the log alone and raise nothing. */
  lemma {:induction false} LoopFromIdle(ws: seq<Result<seq<Command>>>, cycles: seq<Cycle>, interval: int, i: nat, exitNow: bool)
    requires |ws| == |cycles| && i <= |cycles| && SignalsFit(cycles, interval)
    requires forall k :: i <= k < |ws| ==> ws[k] == Ok([])
    ensures LoopFrom(ws, cycles, interval, i, exitNow).actions == []
    ensures LoopFrom(ws, cycles, interval, i, exitNow).stop in {None, Some(Returned)}
    decreases |cycles| - i
  {
    if i < |cycles| {
      var t := Ticks(exitNow, cycles[i].signals, 0, TickCount(interval));
      LoopFromStep(ws, cycles, interval, i, exitNow);
      if !t.0 {
        LoopFromIdle(ws, cycles, interval, i + 1, t.1);
      }
    }
  }

  /**
   * When every pass finds the load below `intervene`, no scheduler runs:
   * the `try` block issues nothing and raises nothing.
   */
  lemma LoopIdle(s: Scheduler, intervene: real, interval: int, cycles: seq<Cycle>, exitNow: bool)
    requires SignalsFit(cycles, interval)
    requires forall k :: 0 <= k < |cycles| ==> Idle(intervene, cycles[k])
    ensures Loop(s, intervene, interval, cycles, exitNow).actions == []
    ensures Loop(s, intervene, interval, cycles, exitNow).stop in {None, Some(Returned)}
  {
    var ws := Works(s, intervene, cycles);
    forall k | 0 <= k < |ws| ensures ws[k] == Ok([]) {
      assert ws[k] == CycleWork(s, intervene, cycles[k]);
    }
    LoopFromIdle(ws, cycles, interval, 0, exitNow);
  }

  /**
   * With no ticks (`interval <= 0`) the flag is never checked, so the
   * `try` block never returns; it ends only by an exception.
   */
  lemma {:induction false} LoopFromNoTicks(ws: seq<Result<seq<Command>>>, cycles: seq<Cycle>, interval: int, i: nat, exitNow: bool)
    requires |ws| == |cycles| && i <= |cycles| && SignalsFit(cycles, interval) && interval <= 0
    ensures LoopFrom(ws, cycles, interval, i, exitNow).stop != Some(Returned)
    decreases |cycles| - i
  {
    if i < |cycles| {
      LoopFromStep(ws, cycles, interval, i, exitNow);
      var t := Ticks(exitNow, cycles[i].signals, 0, TickCount(interval));
      if ws[i].Ok? {
        LoopFromNoTicks(ws, cycles, interval, i + 1, t.1);
      }
    }
  }

  lemma LoopNoTicks(s: Scheduler, intervene: real, interval: int, cycles: seq<Cycle>, exitNow: bool)
    requires SignalsFit(cycles, interval) && interval <= 0
    ensures Loop(s, intervene, interval, cycles, exitNow).stop != Some(Returned)
  {
    LoopFromNoTicks(Works(s, intervene, cycles), cycles, interval, 0, exitNow);
  }

  /**
   * With the flag already set and at least one tick, the first pass that
   * does not raise is the last: `run` returns at its first check.
   */
  lemma LoopExitSet(s: Scheduler, intervene: real, interval: int, cycles: seq<Cycle>)
    requires SignalsFit(cycles, interval) && interval > 0 && |cycles| > 0
    requires CycleWork(s, intervene, cycles[0]).Ok?
    ensures Loop(s, intervene, interval, cycles, true) == Progress(Some(Returned), true, CycleWork(s, intervene, cycles[0]).value)
  {
    var ws := Works(s, intervene, cycles);
    assert ws[0] == CycleWork(s, intervene, cycles[0]);
    LoopFromStep(ws, cycles, interval, 0, true);
  }

  lemma RestoredIsRestore(input: StatsInput)
    ensures Restored(input) == Restore(input)
  {
    assert RestoredAs(input, Restored(input));
  }

  /**
   * An unknown scheduler name raises before the `try`: nothing is issued,
   * the flag is left alone and `__exited` stays unset.
   */
  lemma RunUnknownScheduler(name: string, intervene: real, interval: int, exitNow: bool, cycles: seq<Cycle>, restore: StatsInput)
    requires SignalsFit(cycles, interval)
    requires name != "user_fair_scheduler" && name != "none_scheduler"
    ensures RunResult(name, intervene, interval, exitNow, cycles, restore) == Ending(NoScheduler, [], exitNow, false)
  {
  }

  /**
   * Every way out of the `try` block, by return or by exception, runs the
   * restore pass: `run` ends `Stopped` or `RestoreFailed` exactly when the
   * block ended, and `__exited` is set exactly when the restore pass
   * completed.
   */
  lemma RunStops(name: string, intervene: real, interval: int, exitNow: bool, cycles: seq<Cycle>, restore: StatsInput)
    requires SignalsFit(cycles, interval) && SchedulerNamed(name).Some?
    ensures var e := RunResult(name, intervene, interval, exitNow, cycles, restore);
      var p := Loop(SchedulerNamed(name).value, intervene, interval, cycles, exitNow);
      && ((e.outcome.Stopped? || e.outcome.RestoreFailed?) <==> p.stop.Some?)
      && (e.exited <==> p.stop.Some? && Restore(restore).Ok?)
      && (e.outcome.RestoreFailed? ==> e.actions == p.actions && e.outcome.error == Restore(restore).error)
  {
    RestoredIsRestore(restore);
  }

  /**
   * When `run` returns, the commands issued end with the restore pass:
   * `renice -n 0` for every process of the freshly loaded stats and for
   * no other pid, after whatever the passes issued.
   */
  lemma RunEndsWithRestore(name: string, intervene: real, interval: int, exitNow: bool, cycles: seq<Cycle>, restore: StatsInput)
    requires SignalsFit(cycles, interval)
    ensures var e := RunResult(name, intervene, interval, exitNow, cycles, restore);
      e.outcome.Stopped? ==>
        && e.exited && LoadedStats(restore).Ok?
        && var stats := LoadedStats(restore).value.0;
        var reset := ResetActions(stats);
        && |reset| <= |e.actions| && e.actions[|e.actions| - |reset|..] == reset
        && AllResets(reset)
        && forall pid :: Mentions(reset, pid) <==> PidIn(stats, stats.order, pid)
  {
    RestoredIsRestore(restore);
    var e := RunResult(name, intervene, interval, exitNow, cycles, restore);
    if e.outcome.Stopped? {
      var stats := LoadedStats(restore).value.0;
      var reset := ResetActions(stats);
      var p := Loop(SchedulerNamed(name).value, intervene, interval, cycles, exitNow);
      assert e.actions == p.actions + reset;
      assert e.actions[|e.actions| - |reset|..] == reset;
      ResetActionsSpec(stats);
    }
  }
}
