/**
 * The disk-quota daemon (disk.py): parse the per-user quota, measure every
 * home directory with `du -s`, and `kill -9` the non-critical processes of
 * every user whose home exceeds the quota, once per pass of its loop.
 */
module Disk {
  import opened Wrappers
  import opened Dicts
  import opened Text
  import opened System
  import opened Commands
  import Cpu

  // ---------------------------------------------------------------------
  // The quota: `re.findall(r'(\d+)([kKmMgG]{1})', user_quota)[0]`

  /** The unit letters the pattern accepts after the digits. */
  predicate IsUnit(c: char) { c in "kKmMgG" }

  /** The end of the run of ASCII digits that starts at `i`. */
  function DigitsEnd(s: string, i: nat): (j: nat)
    requires i <= |s|
    ensures i <= j <= |s|
    ensures forall k :: i <= k < j ==> IsDigit(s[k])
    ensures j < |s| ==> !IsDigit(s[j])
    decreases |s| - i
  {
    if i < |s| && IsDigit(s[i]) then DigitsEnd(s, i + 1) else i
  }

  /** `(\d+)([kKmMgG]{1})` matches `s` at `p` with `k` digits. */
  ghost predicate PatternAt(s: string, p: nat, k: nat) {
    && 1 <= k && p + k < |s|
    && (forall i :: p <= i < p + k ==> IsDigit(s[i]))
    && IsUnit(s[p + k])
  }

  /**
   * The regular-expression search from position `i`: at each position the
   * greedy `\d+` takes the whole run of digits and backtracking cannot
   * help, since a shorter run is followed by a digit, not a unit letter.
   * The result is the start of the first match and its digit count.
   */
  function SearchFrom(s: string, i: nat): (r: Option<(nat, nat)>)
    requires i <= |s|
    ensures r.Some? ==> i <= r.value.0 && 1 <= r.value.1 && r.value.0 + r.value.1 < |s|
    decreases |s| - i
  {
    if i == |s| then None
    else
      var j := DigitsEnd(s, i);
      if i < j < |s| && IsUnit(s[j]) then Some((i, j - i)) else SearchFrom(s, i + 1)
  }

  /** The digits and the unit letter of the first match, or `None` when `findall` finds nothing. */
  function QuotaMatch(s: string): (r: Option<(string, char)>)
    ensures r.Some? ==> |r.value.0| >= 1 && AllDigits(r.value.0) && IsUnit(r.value.1)
  {
    match SearchFrom(s, 0)
    case None => None
    case Some((p, k)) =>
      SearchFromSpec(s, 0);
      Some((s[p..p + k], s[p + k]))
  }

  /** A run of digits followed by a unit letter ends where the run of digits ends. */
  lemma PatternEnd(s: string, p: nat, k: nat)
    requires PatternAt(s, p, k)
    ensures DigitsEnd(s, p) == p + k
  {
    var j := DigitsEnd(s, p);
  }

  /**
   * The search finds a match exactly when the pattern occurs at or after
   * `i`, and then the leftmost one, with the only digit count that matches
   * there.
   */
  lemma {:induction false} SearchFromSpec(s: string, i: nat)
    requires i <= |s|
    ensures SearchFrom(s, i).None? <==> forall p, k :: i <= p ==> !PatternAt(s, p, k)
    ensures SearchFrom(s, i).Some? ==>
      var (p, k) := SearchFrom(s, i).value;
      && PatternAt(s, p, k)
      && (forall k' :: PatternAt(s, p, k') ==> k' == k)
      && (forall q, k' :: i <= q < p ==> !PatternAt(s, q, k'))
    decreases |s| - i
  {
    if i == |s| {
      forall p, k | i <= p ensures !PatternAt(s, p, k) {
      }
    } else {
      var j := DigitsEnd(s, i);
      MatchAt(s, i);
      if i < j < |s| && IsUnit(s[j]) {
        assert SearchFrom(s, i) == Some((i, j - i));
        assert PatternAt(s, i, j - i);
      } else {
        assert SearchFrom(s, i) == SearchFrom(s, i + 1);
        SearchFromSpec(s, i + 1);
        assert forall k :: !PatternAt(s, i, k);
        forall p, k | i <= p && PatternAt(s, p, k) ensures i + 1 <= p {
        }
      }
    }
  }

  /** At `i` the pattern matches only with the whole run of digits, and only when a unit letter follows it. */
  lemma MatchAt(s: string, i: nat)
    requires i < |s|
    ensures var j := DigitsEnd(s, i);
      forall k :: PatternAt(s, i, k) <==> (i < j < |s| && IsUnit(s[j]) && k == j - i)
  {
    var j := DigitsEnd(s, i);
    forall k ensures PatternAt(s, i, k) <==> (i < j < |s| && IsUnit(s[j]) && k == j - i) {
      if PatternAt(s, i, k) {
        PatternEnd(s, i, k);
      }
    }
  }

  /** The factor the unit letter applies to the number: `k` keeps it, `m` is 1024 and `g` is 1024². */
  function UnitFactor(unit: char): nat {
    if unit in "mM" then 1024 else if unit in "gG" then 1024 * 1024 else 1
  }

  /**
   * `quota_bytes` as `__init__` computes it, or the IndexError of indexing
   * the empty list of matches.
   */
  function QuotaBytes(userQuota: string): Result<int> {
    match QuotaMatch(userQuota)
    case None => Err(IndexError)
    case Some((num, unit)) => Ok(DigitsValue(num) * UnitFactor(unit))
  }

  /** The quota computation of `__init__`, scaling step by step as the source does. */
  method ParseQuota(userQuota: string) returns (r: Result<int>)
    ensures r == QuotaBytes(userQuota)
  {
    var m := QuotaMatch(userQuota);
    if m.None? {
      return Err(IndexError);
    }
    var (num, unit) := m.value;
    var quotaBytes := DigitsValue(num);
    if unit in "mM" {
      quotaBytes := quotaBytes * 1024;
    } else if unit in "gG" {
      quotaBytes := quotaBytes * (1024 * 1024);
    }
    return Ok(quotaBytes);
  }

  /** The pattern occurs at `p` with `k` digits, and nowhere before `p`. */
  ghost predicate FirstPattern(s: string, p: nat, k: nat) {
    PatternAt(s, p, k) && forall q: nat, k': nat :: q < p ==> !PatternAt(s, q, k')
  }

  /**
   * A quota string parses exactly when the pattern occurs in it; the value
   * is then the number of its leftmost occurrence times the unit's factor,
   * never negative.
   */

  lemma QuotaBytesSpec(userQuota: string)
    ensures QuotaBytes(userQuota).Err? <==> forall p: nat, k: nat :: !PatternAt(userQuota, p, k)
    ensures QuotaBytes(userQuota).Err? ==> QuotaBytes(userQuota).error == IndexError
    ensures QuotaBytes(userQuota).Ok? ==>
      exists p: nat, k: nat ::
        && FirstPattern(userQuota, p, k)
        && QuotaBytes(userQuota).value == DigitsValue(userQuota[p..p + k]) * UnitFactor(userQuota[p + k])
        && QuotaBytes(userQuota).value >= 0
  {
    SearchFromSpec(userQuota, 0);
    if SearchFrom(userQuota, 0).Some? {
      var (p, k) := SearchFrom(userQuota, 0).value;
      assert FirstPattern(userQuota, p, k);
    }
  }

  /** A number written out and followed by a unit letter reads back as that number times the factor. */
  lemma QuotaRoundTrip(n: nat, unit: char)
    requires IsUnit(unit)
    ensures QuotaBytes(NatToString(n) + [unit]) == Ok(n * UnitFactor(unit))
  {
    var digits := NatToString(n);
    var s := digits + [unit];
    assert PatternAt(s, 0, |digits|);
    PatternEnd(s, 0, |digits|);
    assert s[0..|digits|] == digits;
    NatToStringDigits(n);
  }

  /** The default `'20G'` is 20971520 1-KiB blocks, as `du -s` counts them. */
  lemma QuotaDefault()
    ensures QuotaBytes("20G") == Ok(20971520)
  {
    assert NatToString(20) == "20";
    assert NatToString(20) + ['G'] == "20G";
    QuotaRoundTrip(20, 'G');
    assert UnitFactor('G') == 1048576;
  }

  lemma QuotaMebibytes()
    ensures QuotaBytes("500m") == Ok(512000)
  {
    assert NatToString(500) == "500";
    assert NatToString(500) + ['m'] == "500m";
    QuotaRoundTrip(500, 'm');
    assert UnitFactor('m') == 1024;
  }

  /** Only the first integer followed by a unit letter counts: `'1.5G'` is read as 5 GiB. */
  lemma QuotaFraction()
    ensures QuotaBytes("1.5G") == Ok(5242880)
  {
    var s := "1.5G";
    assert SearchFrom(s, 2) == Some((2, 1)) by {
      assert DigitsEnd(s, 2) == 3 by { PatternEnd(s, 2, 1); }
    }
    assert SearchFrom(s, 1) == SearchFrom(s, 2) by {
      assert DigitsEnd(s, 1) == 1 by { assert !IsDigit(s[1]); }
    }
    assert SearchFrom(s, 0) == SearchFrom(s, 1) by {
      assert DigitsEnd(s, 0) == 1 by { assert DigitsEnd(s, 1) == 1; }
    }
    assert s[2..3] == "5";
  }

  /** A number without a unit letter raises IndexError. */
  lemma QuotaWithoutUnit()
    ensures QuotaBytes("20") == Err(IndexError)
  {
    assert DigitsEnd("20", 0) == 2;
    assert DigitsEnd("20", 1) == 2;
  }

  // ---------------------------------------------------------------------
  // `is_critical_process` and `kill_quota_exceeded_processes`

  /** The commands whose processes are never killed: shells, editors, SSH, file tools. */
  const CriticalCommands: seq<string> := [
    "systemd", "(sd-pam)", "sshd", "sh", "zsh", "bash", "tmux", "vim", "nano",
    "ssh-agent", "ssh", "rm", "mv", "ls", "cd", "autossh"]

  /** `is_critical_process(p)`: the command equals one of the critical names exactly. */
  predicate IsCritical(p: ProcessState) {
    p.command in CriticalCommands
  }

  /** The critical names are matched whole and with case. */
  lemma CriticalExamples(p: ProcessState)
    ensures p.command == "bash" ==> IsCritical(p)
    ensures p.command == "autossh" ==> IsCritical(p)
    ensures p.command in {"python", "Bash", "bash ", "vi", "-bash"} ==> !IsCritical(p)
  {
    if p.command in {"python", "Bash", "bash ", "vi", "-bash"} {
      assert forall i :: 0 <= i < |CriticalCommands| ==> CriticalCommands[i] != p.command;
    }
  }

  /** `user` is measured and uses strictly more than the quota. */
  predicate OverQuota(usage: Dict<string, int>, quota: int, user: string) {
    user in usage.entries && usage.entries[user] > quota
  }

  /** The kills among the first `n` listed processes for one over-quota user. */
  function KillsUpTo(processes: seq<ProcessState>, user: string, n: nat): seq<Command>
    requires n <= |processes|
  {
    if n == 0 then []
    else
      var p := processes[n - 1];
      KillsUpTo(processes, user, n - 1) + (if p.user == user && !IsCritical(p) then [Kill(p.pid)] else [])
  }

  /** `kill -9` for every process of `user` whose command is not critical, in listing order. */
  function KillsOf(processes: seq<ProcessState>, user: string): seq<Command> {
    KillsUpTo(processes, user, |processes|)
  }

  /** The kills for the first `n` users of the usage dictionary, in its order. */
  function KillActionsUpTo(usage: Dict<string, int>, quota: int, processes: seq<ProcessState>, n: nat): seq<Command>
    requires usage.Valid() && n <= |usage.order|
  {
    if n == 0 then [] else KillActionsUpTo(usage, quota, processes, n - 1) + NextKills(usage, quota, processes, n - 1)
  }

  /** The kills for the `i`-th user of the usage dictionary: none unless it is over the quota. */
  function NextKills(usage: Dict<string, int>, quota: int, processes: seq<ProcessState>, i: nat): seq<Command>
    requires usage.Valid() && i < |usage.order|
  {
    var user := usage.order[i];
    if usage.entries[user] <= quota then [] else KillsOf(processes, user)
  }

  /**
   * `acts` is what the first `n` users of the usage dictionary yield; stated
   * so that the loop of `KillQuotaExceeded` does not unfold `KillActionsUpTo`.
   */
  ghost predicate KillsSoFar(usage: Dict<string, int>, quota: int, processes: seq<ProcessState>, n: nat, acts: seq<Command>) {
    forall m {:trigger KillActionsUpTo(usage, quota, processes, m)} ::
      m == n && usage.Valid() && m <= |usage.order| ==> acts == KillActionsUpTo(usage, quota, processes, m)
  }

  lemma KillsSoFarStep(usage: Dict<string, int>, quota: int, processes: seq<ProcessState>, i: nat, acts: seq<Command>)
    requires usage.Valid() && i < |usage.order| && KillsSoFar(usage, quota, processes, i, acts)
    ensures KillsSoFar(usage, quota, processes, i + 1, acts + NextKills(usage, quota, processes, i))
  {
    assert KillActionsUpTo(usage, quota, processes, i) == acts;
    assert KillActionsUpTo(usage, quota, processes, i + 1) == acts + NextKills(usage, quota, processes, i);
  }

  /** What `kill_quota_exceeded_processes(disk_usage)` issues. */
  function KillActions(usage: Dict<string, int>, quota: int, processes: seq<ProcessState>): seq<Command>
    requires usage.Valid()
  {
    KillActionsUpTo(usage, quota, processes, |usage.order|)
  }

  /** `acts` holds `kill -9 pid`. */
  predicate Kills(acts: seq<Command>, pid: int) {
    exists i :: 0 <= i < |acts| && acts[i] == Kill(pid)
  }

  predicate AllKills(acts: seq<Command>) {
    forall i :: 0 <= i < |acts| ==> acts[i].Kill?
  }

  /** Among the first `n` processes, `pid` belongs to a non-critical process of `user`. */
  predicate DoomedIn(processes: seq<ProcessState>, user: string, n: nat, pid: int)
    requires n <= |processes|
  {
    exists j :: 0 <= j < n && processes[j].pid == pid && processes[j].user == user && !IsCritical(processes[j])
  }

  lemma {:induction false} KillsUpToSpec(processes: seq<ProcessState>, user: string, n: nat)
    requires n <= |processes|
    ensures AllKills(KillsUpTo(processes, user, n))
    ensures forall pid :: Kills(KillsUpTo(processes, user, n), pid) <==> DoomedIn(processes, user, n, pid)
  {
    if n > 0 {
      KillsUpToSpec(processes, user, n - 1);
      var prev := KillsUpTo(processes, user, n - 1);
      var p := processes[n - 1];
      var last: seq<Command> := if p.user == user && !IsCritical(p) then [Kill(p.pid)] else [];
      assert KillsUpTo(processes, user, n) == prev + last;
      forall i | 0 <= i < |prev + last| ensures (prev + last)[i].Kill? {
        if i >= |prev| {
          assert (prev + last)[i] == last[i - |prev|];
        }
      }
      forall pid ensures Kills(prev + last, pid) <==> DoomedIn(processes, user, n, pid) {
        KillsAppend(prev, last, pid);
        DoomedInStep(processes, user, n, pid);
        if Kills(last, pid) {
          assert last[0] == Kill(pid);
        }
        if p.pid == pid && p.user == user && !IsCritical(p) {
          assert last[0] == Kill(pid);
        }
      }
    }
  }

  lemma DoomedInStep(processes: seq<ProcessState>, user: string, n: nat, pid: int)
    requires 0 < n <= |processes|
    ensures var p := processes[n - 1];
      DoomedIn(processes, user, n, pid) <==>
        DoomedIn(processes, user, n - 1, pid) || (p.pid == pid && p.user == user && !IsCritical(p))
  {
    if DoomedIn(processes, user, n, pid) {
      var j :| 0 <= j < n && processes[j].pid == pid && processes[j].user == user && !IsCritical(processes[j]);
      if j < n - 1 {
        assert DoomedIn(processes, user, n - 1, pid);
      }
    }
  }

  /** Among the first `n` users, `pid` belongs to a non-critical process of an over-quota one. */
  predicate DoomedAmong(usage: Dict<string, int>, quota: int, processes: seq<ProcessState>, n: nat, pid: int)
    requires usage.Valid() && n <= |usage.order|
  {
    exists j :: 0 <= j < |processes| && processes[j].pid == pid && !IsCritical(processes[j])
      && processes[j].user in usage.order[..n] && OverQuota(usage, quota, processes[j].user)
  }

  lemma {:induction false} KillActionsUpToSpec(usage: Dict<string, int>, quota: int, processes: seq<ProcessState>, n: nat)
    requires usage.Valid() && n <= |usage.order|
    ensures AllKills(KillActionsUpTo(usage, quota, processes, n))
    ensures forall pid :: Kills(KillActionsUpTo(usage, quota, processes, n), pid) <==> DoomedAmong(usage, quota, processes, n, pid)
  {
    if n > 0 {
      KillActionsUpToSpec(usage, quota, processes, n - 1);
      var prev := KillActionsUpTo(usage, quota, processes, n - 1);
      var last := NextKills(usage, quota, processes, n - 1);
      assert KillActionsUpTo(usage, quota, processes, n) == prev + last;
      KillsUpToSpec(processes, usage.order[n - 1], |processes|);
      forall pid ensures Kills(prev + last, pid) <==> DoomedAmong(usage, quota, processes, n, pid) {
        KillsAppend(prev, last, pid);
        DoomedAmongStep(usage, quota, processes, n, pid);
      }
      AllKillsAppend(prev, last);
    }
  }

  /** A pid is doomed among the first `n` users iff among the first `n - 1` or by the `n`-th one's kills. */
  lemma DoomedAmongStep(usage: Dict<string, int>, quota: int, processes: seq<ProcessState>, n: nat, pid: int)
    requires usage.Valid() && 0 < n <= |usage.order|
    requires Kills(KillsOf(processes, usage.order[n - 1]), pid) <==> DoomedIn(processes, usage.order[n - 1], |processes|, pid)
    ensures DoomedAmong(usage, quota, processes, n, pid) <==>
      DoomedAmong(usage, quota, processes, n - 1, pid) || Kills(NextKills(usage, quota, processes, n - 1), pid)
  {
    var user := usage.order[n - 1];
    var before, now := DoomedAmong(usage, quota, processes, n - 1, pid), DoomedAmong(usage, quota, processes, n, pid);
    var next := Kills(NextKills(usage, quota, processes, n - 1), pid);
    assert usage.order[..n] == usage.order[..n - 1] + [user];
    if now && !before {
      var j :| 0 <= j < |processes| && processes[j].pid == pid && !IsCritical(processes[j])
        && processes[j].user in usage.order[..n] && OverQuota(usage, quota, processes[j].user);
      assert processes[j].user == user;
      assert DoomedIn(processes, user, |processes|, pid);
      assert next;
    }
    if before {
      var j :| 0 <= j < |processes| && processes[j].pid == pid && !IsCritical(processes[j])
        && processes[j].user in usage.order[..n - 1] && OverQuota(usage, quota, processes[j].user);
      assert processes[j].user in usage.order[..n];
    }
    if next {
      assert usage.entries[user] > quota;
      assert DoomedIn(processes, user, |processes|, pid);
      var j :| 0 <= j < |processes| && processes[j].pid == pid && processes[j].user == user && !IsCritical(processes[j]);
      assert processes[j].user in usage.order[..n];
    }
  }

  lemma AllKillsAppend(xs: seq<Command>, ys: seq<Command>)
    requires AllKills(xs) && AllKills(ys)
    ensures AllKills(xs + ys)
  {
    forall i | 0 <= i < |xs + ys| ensures (xs + ys)[i].Kill? {
      if i >= |xs| {
        assert (xs + ys)[i] == ys[i - |xs|];
      }
    }
  }

  lemma KillsAppend(xs: seq<Command>, ys: seq<Command>, pid: int)
    ensures Kills(xs + ys, pid) <==> Kills(xs, pid) || Kills(ys, pid)
  {
    if Kills(xs + ys, pid) {
      var i :| 0 <= i < |xs + ys| && (xs + ys)[i] == Kill(pid);
      if i >= |xs| {
        assert ys[i - |xs|] == Kill(pid);
      }
    }
    if Kills(ys, pid) {
      var i :| 0 <= i < |ys| && ys[i] == Kill(pid);
      assert (xs + ys)[|xs| + i] == Kill(pid);
    }
    if Kills(xs, pid) {
      var i :| 0 <= i < |xs| && xs[i] == Kill(pid);
      assert (xs + ys)[i] == Kill(pid);
    }
  }

  /**
   * `kill_quota_exceeded_processes` issues only `kill -9`, and kills a pid
   * exactly when it belongs to a non-critical process of a user whose
   * usage is strictly above the quota.
   */
  lemma KillActionsSpec(usage: Dict<string, int>, quota: int, processes: seq<ProcessState>)
    requires usage.Valid()
    ensures AllKills(KillActions(usage, quota, processes))
    ensures forall pid :: Kills(KillActions(usage, quota, processes), pid) <==>
      exists j :: 0 <= j < |processes| && processes[j].pid == pid && !IsCritical(processes[j])
        && OverQuota(usage, quota, processes[j].user)
  {
    KillActionsUpToSpec(usage, quota, processes, |usage.order|);
    assert usage.order[..|usage.order|] == usage.order;
  }

  /** No pid appears twice in the listing. */
  predicate UniquePids(processes: seq<ProcessState>) {
    forall i, j :: 0 <= i < j < |processes| ==> processes[i].pid != processes[j].pid
  }

  /**
   * With distinct pids, a critical process and a process of a user within
   * the quota, or not measured at all, survive.
   */
  lemma KillSpares(usage: Dict<string, int>, quota: int, processes: seq<ProcessState>, j: nat)
    requires usage.Valid() && UniquePids(processes) && j < |processes|
    requires IsCritical(processes[j]) || !OverQuota(usage, quota, processes[j].user)
    ensures !Kills(KillActions(usage, quota, processes), processes[j].pid)
  {
    KillActionsSpec(usage, quota, processes);
  }

  /** No command is issued twice. */
  predicate NoRepeats(acts: seq<Command>) {
    forall i, j :: 0 <= i < j < |acts| ==> acts[i] != acts[j]
  }

  /**
   * With distinct pids, `kill_quota_exceeded_processes` kills each pid at
   * most once: a process is listed once, and it belongs to one user, who is
   * measured once.
   */
  lemma KillActionsNoRepeat(usage: Dict<string, int>, quota: int, processes: seq<ProcessState>)
    requires usage.Valid() && UniquePids(processes)
    ensures NoRepeats(KillActions(usage, quota, processes))
  {
    KillActionsUpToNoRepeat(usage, quota, processes, |usage.order|);
  }

  lemma {:induction false} KillActionsUpToNoRepeat(usage: Dict<string, int>, quota: int, processes: seq<ProcessState>, n: nat)
    requires usage.Valid() && UniquePids(processes) && n <= |usage.order|
    ensures NoRepeats(KillActionsUpTo(usage, quota, processes, n))
  {
    if n > 0 {
      KillActionsUpToNoRepeat(usage, quota, processes, n - 1);
      var prev := KillActionsUpTo(usage, quota, processes, n - 1);
      var last := NextKills(usage, quota, processes, n - 1);
      KillsUpToNoRepeat(processes, usage.order[n - 1], |processes|);
      forall a, b | 0 <= a < |prev| && 0 <= b < |last| ensures prev[a] != last[b] {
        KillActionsUpToSpec(usage, quota, processes, n - 1);
        KillsUpToSpec(processes, usage.order[n - 1], |processes|);
        assert prev[a] == Kill(prev[a].pid) && Kills(prev, prev[a].pid);
        assert last[b] == Kill(last[b].pid) && Kills(last, last[b].pid);
        KillsApart(usage, quota, processes, n, prev[a].pid, last[b].pid);
      }
      NoRepeatsAppend(prev, last);
    }
  }

  /** A pid killed for one of the first `n - 1` users is not killed again for the `n`-th. */
  lemma KillsApart(usage: Dict<string, int>, quota: int, processes: seq<ProcessState>, n: nat, earlier: int, later: int)
    requires usage.Valid() && UniquePids(processes) && 0 < n <= |usage.order|
    requires DoomedAmong(usage, quota, processes, n - 1, earlier)
    requires Kills(NextKills(usage, quota, processes, n - 1), later)
    ensures earlier != later
  {
    var user := usage.order[n - 1];
    KillsUpToSpec(processes, user, |processes|);
    var j :| 0 <= j < |processes| && processes[j].pid == earlier && !IsCritical(processes[j])
      && processes[j].user in usage.order[..n - 1] && OverQuota(usage, quota, processes[j].user);
    var k :| 0 <= k < |processes| && processes[k].pid == later && processes[k].user == user && !IsCritical(processes[k]);
    var t :| 0 <= t < n - 1 && usage.order[..n - 1][t] == processes[j].user;
    assert usage.order[t] != usage.order[n - 1];
    OwnersApart(processes, j, k);
  }

  lemma {:induction false} KillsUpToNoRepeat(processes: seq<ProcessState>, user: string, n: nat)
    requires UniquePids(processes) && n <= |processes|
    ensures NoRepeats(KillsUpTo(processes, user, n))
  {
    if n > 0 {
      KillsUpToNoRepeat(processes, user, n - 1);
      KillsUpToSpec(processes, user, n - 1);
      var prev := KillsUpTo(processes, user, n - 1);
      var p := processes[n - 1];
      var last: seq<Command> := if p.user == user && !IsCritical(p) then [Kill(p.pid)] else [];
      assert KillsUpTo(processes, user, n) == prev + last;
      forall a | 0 <= a < |prev| && last != [] ensures prev[a] != last[0] {
        assert prev[a] == Kill(prev[a].pid) && Kills(prev, prev[a].pid);
        var j :| 0 <= j < n - 1 && processes[j].pid == prev[a].pid && processes[j].user == user && !IsCritical(processes[j]);
        assert processes[j].pid != processes[n - 1].pid;
      }
      NoRepeatsAppend(prev, last);
    }
  }

  /** Under distinct pids, processes of two different users have different pids. */
  lemma OwnersApart(processes: seq<ProcessState>, j: nat, k: nat)
    requires UniquePids(processes) && j < |processes| && k < |processes|
    requires processes[j].user != processes[k].user
    ensures processes[j].pid != processes[k].pid
  {
    if j < k {
      assert processes[j].pid != processes[k].pid;
    } else {
      assert processes[k].pid != processes[j].pid;
    }
  }

  lemma NoRepeatsAppend(xs: seq<Command>, ys: seq<Command>)
    requires NoRepeats(xs) && NoRepeats(ys)
    requires forall a, b :: 0 <= a < |xs| && 0 <= b < |ys| ==> xs[a] != ys[b]
    ensures NoRepeats(xs + ys)
  {
    forall i, j | 0 <= i < j < |xs + ys| ensures (xs + ys)[i] != (xs + ys)[j] {
      if j < |xs| {
        assert (xs + ys)[i] == xs[i] && (xs + ys)[j] == xs[j];
      } else if i < |xs| {
        assert (xs + ys)[i] == xs[i] && (xs + ys)[j] == ys[j - |xs|];
      } else {
        assert (xs + ys)[i] == ys[i - |xs|] && (xs + ys)[j] == ys[j - |xs|];
      }
    }
  }

  /** When every measured user is within the quota, nothing is killed. */
  lemma KillNothingWithinQuota(usage: Dict<string, int>, quota: int, processes: seq<ProcessState>)
    requires usage.Valid()
    requires forall user :: user in usage.entries ==> usage.entries[user] <= quota
    ensures KillActions(usage, quota, processes) == []
  {
    KillActionsWithinQuota(usage, quota, processes, |usage.order|);
  }

  lemma {:induction false} KillActionsWithinQuota(usage: Dict<string, int>, quota: int, processes: seq<ProcessState>, n: nat)
    requires usage.Valid() && n <= |usage.order|
    requires forall user :: user in usage.entries ==> usage.entries[user] <= quota
    ensures KillActionsUpTo(usage, quota, processes, n) == []
  {
    if n > 0 {
      KillActionsWithinQuota(usage, quota, processes, n - 1);
    }
  }

  // ---------------------------------------------------------------------
  // `load_usage`

  /** An entry of `os.listdir('/home')` and what `du -s /home/<name>` prints for it. */
  datatype Home = Home(name: string, du: string)

  predicate Hidden(name: string) { StartsWith(name, ".") }

  /** `usage, _ = du_output.split(); int(usage)`: exactly two fields, the first an integer. */
  function DuBlocks(out: string): (r: Result<int>)
    ensures r.Err? ==> r.error == ValueError
  {
    var words := SplitWs(out, -1);
    if |words| != 2 then Err(ValueError)
    else
      match Int(words[0])
      case Some(n) => Ok(n)
      case None => Err(ValueError)
  }

  /** `r` is what the `du` line `out` yields. */
  ghost predicate CountedAs(out: string, r: Result<int>) {
    forall x {:trigger DuBlocks(x)} :: x == out ==> r == DuBlocks(x)
  }

  /**
   * What the `du` line `out` yields; the same as `DuBlocks(out)`, named
   * apart so that the folds below do not unfold the text functions.
   */
  ghost function Counted(out: string): (r: Result<int>)
    ensures CountedAs(out, r)
    ensures r.Err? ==> r.error == ValueError
  {
    assert CountedAs(out, DuBlocks(out));
    var r :| CountedAs(out, r);
    r
  }

  lemma CountedIs(out: string)
    ensures Counted(out) == DuBlocks(out)
  {
    assert CountedAs(out, Counted(out));
  }

  /** `disk_usage[user_name] = usage`. */
  function Record(d: Dict<string, int>, name: string, blocks: int): (r: Dict<string, int>)
    requires d.Valid()
    ensures r.Valid()
  {
    d.Put(name, blocks)
  }

  /** `load_usage` over the first `n` entries of the listing. */
  ghost function UsageUpTo(homes: seq<Home>, n: nat): (r: Result<Dict<string, int>>)
    requires n <= |homes|
    ensures r.Ok? ==> r.value.Valid()
  {
    if n == 0 then Ok(Empty())
    else
      match UsageUpTo(homes, n - 1)
      case Err(e) => Err(e)
      case Ok(d) =>
        var h := homes[n - 1];
        if Hidden(h.name) then Ok(d)
        else
          match Counted(h.du)
          case Err(e) => Err(e)
          case Ok(blocks) => Ok(Record(d, h.name, blocks))
  }

  /** `load_usage()` on the given listing of `/home`. */
  ghost function Usage(homes: seq<Home>): (r: Result<Dict<string, int>>)
    ensures r.Ok? ==> r.value.Valid()
  {
    UsageUpTo(homes, |homes|)
  }

  /**
   * `r` is what `load_usage` yields on the first `n` entries; stated so
   * that the loop below does not unfold `UsageUpTo`.
   */
  ghost predicate UsageIs(homes: seq<Home>, n: nat, r: Result<Dict<string, int>>) {
    forall m {:trigger UsageUpTo(homes, m)} :: m == n && m <= |homes| ==> r == UsageUpTo(homes, m)
  }

  /** Entry `i` is measured and no later entry of the first `n` has its name. */
  predicate LastMeasured(homes: seq<Home>, n: nat, i: nat)
    requires i < n <= |homes|
  {
    !Hidden(homes[i].name) && forall j :: i < j < n ==> homes[j].name != homes[i].name
  }

  /** Every entry among the first `n` that is not hidden has a readable `du` line. */
  ghost predicate Readable(homes: seq<Home>, n: nat)
    requires n <= |homes|
  {
    forall i :: 0 <= i < n && !Hidden(homes[i].name) ==> Counted(homes[i].du).Ok?
  }

  lemma {:induction false} UsageUpToOk(homes: seq<Home>, n: nat)
    requires n <= |homes|
    ensures UsageUpTo(homes, n).Ok? <==> Readable(homes, n)
    ensures UsageUpTo(homes, n).Err? ==> UsageUpTo(homes, n).error == ValueError
  {
    if n > 0 {
      UsageUpToOk(homes, n - 1);
      if !Readable(homes, n) && Readable(homes, n - 1) {
        assert !Hidden(homes[n - 1].name) && Counted(homes[n - 1].du).Err?;
      }
    }
  }

  lemma {:induction false} UsageUpToKeys(homes: seq<Home>, n: nat)
    requires n <= |homes| && UsageUpTo(homes, n).Ok?
    ensures forall name :: name in UsageUpTo(homes, n).value.entries <==>
      exists i :: 0 <= i < n && homes[i].name == name && !Hidden(name)
  {
    if n > 0 {
      UsageUpToKeys(homes, n - 1);
      var r := UsageUpTo(homes, n).value;
      forall name | exists i :: 0 <= i < n && homes[i].name == name && !Hidden(name)
        ensures name in r.entries
      {
        var i :| 0 <= i < n && homes[i].name == name && !Hidden(name);
        if i < n - 1 {
          assert exists i :: 0 <= i < n - 1 && homes[i].name == name && !Hidden(name);
        }
      }
    }
  }

  /** The `du` count of entry `i` is what the dictionary holds for its name. */
  ghost predicate HoldsCount(d: Dict<string, int>, h: Home) {
    Counted(h.du).Ok? && h.name in d.entries && d.entries[h.name] == Counted(h.du).value
  }

  lemma {:induction false} UsageUpToValues(homes: seq<Home>, n: nat)
    requires n <= |homes| && UsageUpTo(homes, n).Ok?
    ensures forall i :: 0 <= i < n && LastMeasured(homes, n, i) ==> HoldsCount(UsageUpTo(homes, n).value, homes[i])
  {
    if n > 0 {
      var h := homes[n - 1];
      assert UsageUpTo(homes, n - 1).Ok?;
      UsageUpToValues(homes, n - 1);
      var d := UsageUpTo(homes, n - 1).value;
      var r := UsageUpTo(homes, n).value;
      if Hidden(h.name) {
        assert r == d;
        HiddenStep(homes, n, d);
      } else {
        assert Counted(h.du).Ok? && r.entries == d.entries[h.name := Counted(h.du).value];
        MeasuredStep(homes, n, d, r);
      }
    }
  }

  /** The step of `UsageUpToValues` past a hidden entry. */
  lemma HiddenStep(homes: seq<Home>, n: nat, d: Dict<string, int>)
    requires 0 < n <= |homes| && Hidden(homes[n - 1].name)
    requires forall i :: 0 <= i < n - 1 && LastMeasured(homes, n - 1, i) ==> HoldsCount(d, homes[i])
    ensures forall i :: 0 <= i < n && LastMeasured(homes, n, i) ==> HoldsCount(d, homes[i])
  {
    forall i | 0 <= i < n && LastMeasured(homes, n, i)
      ensures HoldsCount(d, homes[i])
    {
      assert i < n - 1 && LastMeasured(homes, n - 1, i);
    }
  }

  /** The step of `UsageUpToValues` past a measured entry. */
  lemma MeasuredStep(homes: seq<Home>, n: nat, d: Dict<string, int>, r: Dict<string, int>)
    requires 0 < n <= |homes| && Counted(homes[n - 1].du).Ok?
    requires r.entries == d.entries[homes[n - 1].name := Counted(homes[n - 1].du).value]
    requires forall i :: 0 <= i < n - 1 && LastMeasured(homes, n - 1, i) ==> HoldsCount(d, homes[i])
    ensures forall i :: 0 <= i < n && LastMeasured(homes, n, i) ==> HoldsCount(r, homes[i])
  {
    forall i | 0 <= i < n && LastMeasured(homes, n, i)
      ensures HoldsCount(r, homes[i])
    {
      if i < n - 1 {
        assert LastMeasured(homes, n - 1, i);
        assert homes[i].name != homes[n - 1].name;
      }
    }
  }

  /**
   * `load_usage` succeeds exactly when every entry not starting with `.`
   * has a `du` line of two fields whose first is an integer, and raises
   * ValueError otherwise; it measures exactly those entries, each with
   * its `du` count.
   */
  lemma UsageSpec(homes: seq<Home>)
    ensures Usage(homes).Ok? <==> Readable(homes, |homes|)
    ensures Usage(homes).Err? ==> Usage(homes).error == ValueError
    ensures Usage(homes).Ok? ==>
      var d := Usage(homes).value;
      && (forall name :: name in d.entries <==> exists i :: 0 <= i < |homes| && homes[i].name == name && !Hidden(name))
      && (forall i :: 0 <= i < |homes| && LastMeasured(homes, |homes|, i) ==> HoldsCount(d, homes[i]))
  {
    UsageUpToOk(homes, |homes|);
    if Usage(homes).Ok? {
      UsageUpToKeys(homes, |homes|);
      UsageUpToValues(homes, |homes|);
    }
  }

  /** The `du -s` line of a measured home reads back as its block count. */
  lemma DuBlocksRoundTrip(n: int, path: string)
    requires |path| > 0 && NoSpace(path)
    ensures DuBlocks(IntToString(n) + "\t" + path + "\n") == Ok(n)
  {
    var count := IntToString(n);
    IntRoundTrip(n);
    SplitTwoWords(count, '\t', path, "\n");
  }

  // ---------------------------------------------------------------------
  // The daemon loop

  /**
   * One pass of the `while True` body: the listing of `/home` with each
   * entry's `du` line, the process listing, and the SIGTERMs delivered
   * around the checks of the tick loop (`signals[k]` before the `k`-th
   * check, the last one after the last check).
   */
  datatype Round = Round(homes: seq<Home>, processes: seq<ProcessState>, signals: seq<bool>)

  /** What one pass of the body issues, or the exception `load_usage` raises. */
  ghost function RoundKills(quota: int, c: Round): Result<seq<Command>> {
    match Usage(c.homes)
    case Err(e) => Err(e)
    case Ok(usage) => Ok(KillActions(usage, quota, c.processes))
  }

  /** `r` is what the pass `c` issues, or raises. */
  ghost predicate RoundAs(quota: int, c: Round, r: Result<seq<Command>>) {
    forall x {:trigger RoundKills(quota, x)} :: x == c ==> r == RoundKills(quota, x)
  }

  /**
   * What the pass `c` issues, or raises; the same as `RoundKills(quota, c)`,
   * named apart so that reasoning about the loop does not unfold a pass.
   */
  ghost function RoundResult(quota: int, c: Round): (r: Result<seq<Command>>)
    ensures RoundAs(quota, c, r)
  {
    assert RoundAs(quota, c, RoundKills(quota, c));
    var r :| RoundAs(quota, c, r);
    r
  }

  lemma RoundResultIs(quota: int, c: Round)
    ensures RoundResult(quota, c) == RoundKills(quota, c)
  {
    assert RoundAs(quota, c, RoundResult(quota, c));
  }

  predicate SignalsFit(rounds: seq<Round>, interval: int) {
    forall i :: 0 <= i < |rounds| ==> |rounds[i].signals| == Cpu.TickCount(interval) + 1
  }

  /**
   * The `try` block of `run` from the `i`-th pass on: each pass issues its
   * kills and then ticks; an exception ends the block.
   */
  ghost function LoopFrom(quota: int, interval: int, rounds: seq<Round>, i: nat, exitNow: bool): Cpu.Progress
    requires i <= |rounds| && SignalsFit(rounds, interval)
    decreases |rounds| - i
  {
    if i == |rounds| then Cpu.Progress(None, exitNow, [])
    else
      match RoundResult(quota, rounds[i])
      case Err(e) => Cpu.Progress(Some(Cpu.Caught(e)), exitNow, [])
      case Ok(acts) =>
        var (returned, flag) := Cpu.Ticks(exitNow, rounds[i].signals, 0, Cpu.TickCount(interval));
        if returned then Cpu.Progress(Some(Cpu.Returned), flag, acts)
        else Cpu.Prepend(acts, LoopFrom(quota, interval, rounds, i + 1, flag))
  }

  class DiskUsageMonitor {
    /** `_quota`, the quota as given. */
    const quota: string
    /** `quota_bytes`, in the 1-KiB blocks `du -s` reports. */
    const quotaBytes: int
    const interval: int
    /** `__exit_now`, set by the SIGTERM handler. */
    var exitNow: bool
    /** `__exited`, set by the `finally` block of `run`. */
    var exited: bool
    /** Every `kill -9` issued so far. */
    var log: seq<Command>

    constructor(userQuota: string, quotaBytes: int, interval: int)
      ensures quota == userQuota && this.quotaBytes == quotaBytes && this.interval == interval
      ensures !exitNow && !exited && log == []
    {
      quota := userQuota;
      this.quotaBytes := quotaBytes;
      this.interval := interval;
      exitNow := false;
      exited := false;
      log := [];
    }

    /** `__exit`, the SIGTERM handler: sets the flag; a second SIGTERM changes nothing. */
    method Exit()
      modifies this
      ensures exitNow && log == old(log) && exited == old(exited)
      ensures old(exitNow) ==> unchanged(this)
    {
      if exitNow {
        return;
      }
      exitNow := true;
    }

    /** `__kill_process(pid)`: one `kill -9 pid`. */
    method KillProcess(pid: int)
      modifies this
      ensures log == old(log) + [Kill(pid)]
      ensures exitNow == old(exitNow) && exited == old(exited)
    {
      log := log + [Kill(pid)];
    }

    /** The inner loop of `kill_quota_exceeded_processes`, for one over-quota user. */
    method KillUser(user: string, processes: seq<ProcessState>)
      modifies this
      ensures log == old(log) + KillsOf(processes, user)
      ensures exitNow == old(exitNow) && exited == old(exited)
    {
      var j := 0;
      while j < |processes|
        invariant 0 <= j <= |processes|
        invariant log == old(log) + KillsUpTo(processes, user, j)
        invariant exitNow == old(exitNow) && exited == old(exited)
      {
        var p := processes[j];
        if p.user == user && !IsCritical(p) {
          KillProcess(p.pid);
        }
        j := j + 1;
      }
    }

    /** `kill_quota_exceeded_processes(disk_usage)`, users in the dictionary's order. */
    method KillQuotaExceeded(diskUsage: Dict<string, int>, processes: seq<ProcessState>)
      requires diskUsage.Valid()
      modifies this
      ensures log == old(log) + KillActions(diskUsage, quotaBytes, processes)
      ensures exitNow == old(exitNow) && exited == old(exited)
    {
      var i := 0;
      ghost var acts: seq<Command> := [];
      assert KillActionsUpTo(diskUsage, quotaBytes, processes, 0) == acts;
      while i < |diskUsage.order|
        invariant 0 <= i <= |diskUsage.order|
        invariant log == old(log) + acts && KillsSoFar(diskUsage, quotaBytes, processes, i, acts)
        invariant exitNow == old(exitNow) && exited == old(exited)
      {
        KillIfOver(diskUsage, processes, i);
        KillsSoFarStep(diskUsage, quotaBytes, processes, i, acts);
        acts := acts + NextKills(diskUsage, quotaBytes, processes, i);
        i := i + 1;
      }
      assert acts == KillActionsUpTo(diskUsage, quotaBytes, processes, i);
    }

    /** One pass of the loop of `kill_quota_exceeded_processes`, for the `i`-th user. */
    method KillIfOver(diskUsage: Dict<string, int>, processes: seq<ProcessState>, i: nat)
      requires diskUsage.Valid() && i < |diskUsage.order|
      modifies this
      ensures log == old(log) + NextKills(diskUsage, quotaBytes, processes, i)
      ensures exitNow == old(exitNow) && exited == old(exited)
    {
      var user := diskUsage.order[i];
      var usage := diskUsage.entries[user];
      if usage > quotaBytes {
        KillUser(user, processes);
      } else {
        assert old(log) + [] == log;
      }
    }

    /** `load_usage()` on the given listing of `/home`. */
    method LoadUsage(homes: seq<Home>) returns (r: Result<Dict<string, int>>)
      ensures r == Usage(homes)
    {
      r := Ok(Empty());
      var i := 0;
      assert UsageUpTo(homes, 0) == r;
      while i < |homes| && r.Ok?
        invariant 0 <= i <= |homes|
        invariant UsageIs(homes, i, r)
      {
        r := LoadHome(homes, i, r.value);
        i := i + 1;
      }
      if r.Err? {
        assert r == UsageUpTo(homes, i);
        UsageUpToFails(homes, i, |homes|);
      }
    }

    /** The body of the loop of `load_usage`, for the `i`-th entry. */
    method LoadHome(homes: seq<Home>, i: nat, diskUsage: Dict<string, int>) returns (r: Result<Dict<string, int>>)
      requires i < |homes| && UsageIs(homes, i, Ok(diskUsage))
      ensures UsageIs(homes, i + 1, r)
    {
      assert UsageUpTo(homes, i) == Ok(diskUsage);
      var h := homes[i];
      if Hidden(h.name) {
        return Ok(diskUsage);
      }
      var blocks := DuBlocks(h.du);
      CountedIs(h.du);
      if blocks.Err? {
        return Err(blocks.error);
      }
      return Ok(Record(diskUsage, h.name, blocks.value));
    }

    /** One pass of the `while True` body before the tick loop: what it issues, or raises. */
    method Check(c: Round) returns (r: Result<seq<Command>>)
      modifies this
      ensures r == RoundKills(quotaBytes, c)
      ensures log == old(log) + (if r.Ok? then r.value else [])
      ensures exitNow == old(exitNow) && exited == old(exited)
    {
      var diskUsage := LoadUsage(c.homes);
      if diskUsage.Err? {
        return Err(diskUsage.error);
      }
      KillQuotaExceeded(diskUsage.value, c.processes);
      return Ok(KillActions(diskUsage.value, quotaBytes, c.processes));
    }

    /** The tick loop: before each check the SIGTERMs of `signals` are delivered. */
    method Sleep(signals: seq<bool>) returns (returned: bool)
      requires |signals| == Cpu.TickCount(interval) + 1
      modifies this
      ensures (returned, exitNow) == Cpu.Ticks(old(exitNow), signals, 0, Cpu.TickCount(interval))
      ensures log == old(log) && exited == old(exited)
    {
      var n := Cpu.TickCount(interval);
      var k := 0;
      while k < n
        invariant 0 <= k <= n
        invariant Cpu.Ticks(exitNow, signals, k, n) == Cpu.Ticks(old(exitNow), signals, 0, n)
        invariant log == old(log) && exited == old(exited)
      {
        if signals[k] {
          Exit();
        }
        if exitNow {
          return true;
        }
        k := k + 1;
      }
      if signals[n] {
        Exit();
      }
      return false;
    }

    /** One pass: the body, then the tick loop unless the body raised. */
    method Step(rounds: seq<Round>, i: nat) returns (stop: Option<Cpu.Stop>, ghost acts: seq<Command>)
      requires i < |rounds| && SignalsFit(rounds, interval)
      modifies this
      ensures log == old(log) + acts && exited == old(exited)
      ensures stop == None ==>
        LoopFrom(quotaBytes, interval, rounds, i, old(exitNow)) == Cpu.Prepend(acts, LoopFrom(quotaBytes, interval, rounds, i + 1, exitNow))
      ensures stop != None ==> LoopFrom(quotaBytes, interval, rounds, i, old(exitNow)) == Cpu.Progress(stop, exitNow, acts)
    {
      LoopFromStep(quotaBytes, interval, rounds, i, exitNow);
      RoundResultIs(quotaBytes, rounds[i]);
      var r := Check(rounds[i]);
      if r.Err? {
        acts := [];
        return Some(Cpu.Caught(r.error)), acts;
      }
      acts := r.value;
      var returned := Sleep(rounds[i].signals);
      stop := if returned then Some(Cpu.Returned) else None;
    }

    /** The `try` block of `run` over the given passes. */
    method RunLoop(rounds: seq<Round>) returns (stop: Option<Cpu.Stop>)
      requires SignalsFit(rounds, interval)
      modifies this
      ensures var p := LoopFrom(quotaBytes, interval, rounds, 0, old(exitNow));
        stop == p.stop && exitNow == p.exitNow && log == old(log) + p.actions
      ensures exited == old(exited)
    {
      stop := None;
      ghost var emitted: seq<Command> := [];
      var i := 0;
      while i < |rounds| && stop == None
        invariant 0 <= i <= |rounds|
        invariant log == old(log) + emitted && exited == old(exited)
        invariant stop == None ==>
          LoopFrom(quotaBytes, interval, rounds, 0, old(exitNow)) == Cpu.Prepend(emitted, LoopFrom(quotaBytes, interval, rounds, i, exitNow))
        invariant stop != None ==> LoopFrom(quotaBytes, interval, rounds, 0, old(exitNow)) == Cpu.Progress(stop, exitNow, emitted)
      {
        ghost var before := emitted;
        ghost var acts;
        stop, acts := Step(rounds, i);
        emitted := emitted + acts;
        if stop == None {
          Cpu.PrependTwice(before, acts, LoopFrom(quotaBytes, interval, rounds, i + 1, exitNow));
        }
        i := i + 1;
      }
      if stop == None {
        assert emitted + [] == emitted;
      }
    }

    /**
     * `run()` over the given passes: however the `try` block ends, by the
     * flag or by an exception, the `finally` block sets `__exited`; there
     * is no restore pass.
     */
    method Run(rounds: seq<Round>) returns (stop: Option<Cpu.Stop>)
      requires SignalsFit(rounds, interval)
      modifies this
      ensures var p := LoopFrom(quotaBytes, interval, rounds, 0, old(exitNow));
        stop == p.stop && exitNow == p.exitNow && log == old(log) + p.actions
      ensures exited == (old(exited) || stop.Some?)
    {
      stop := RunLoop(rounds);
      if stop.Some? {
        exited := true;
      }
    }
  }

  /** `DiskUsageMonitor(user_quota, interval)`: the quota must parse, else IndexError. */
  method NewMonitor(userQuota: string, interval: int) returns (r: Result<DiskUsageMonitor>)
    ensures QuotaBytes(userQuota).Err? ==> r == Err(QuotaBytes(userQuota).error)
    ensures QuotaBytes(userQuota).Ok? ==>
      && r.Ok? && fresh(r.value)
      && r.value.quotaBytes == QuotaBytes(userQuota).value && r.value.quota == userQuota && r.value.interval == interval
      && !r.value.exitNow && !r.value.exited && r.value.log == []
  {
    var quotaBytes := ParseQuota(userQuota);
    if quotaBytes.Err? {
      return Err(quotaBytes.error);
    }
    var monitor := new DiskUsageMonitor(userQuota, quotaBytes.value, interval);
    return Ok(monitor);
  }

  /** Once an entry fails, `load_usage` raises what that entry raised. */
  lemma {:induction false} UsageUpToFails(homes: seq<Home>, n: nat, m: nat)
    requires n <= m <= |homes| && UsageUpTo(homes, n).Err?
    ensures UsageUpTo(homes, m) == UsageUpTo(homes, n)
    decreases m
  {
    if n < m {
      UsageUpToFails(homes, n, m - 1);
    }
  }

  /** One pass of the loop: an exception stops it, else the ticks decide. */
  lemma LoopFromStep(quota: int, interval: int, rounds: seq<Round>, i: nat, exitNow: bool)
    requires i < |rounds| && SignalsFit(rounds, interval)
    ensures var w := RoundResult(quota, rounds[i]);
      var t := Cpu.Ticks(exitNow, rounds[i].signals, 0, Cpu.TickCount(interval));
      && (w.Err? ==> LoopFrom(quota, interval, rounds, i, exitNow) == Cpu.Progress(Some(Cpu.Caught(w.error)), exitNow, []))
      && (w.Ok? && t.0 ==> LoopFrom(quota, interval, rounds, i, exitNow) == Cpu.Progress(Some(Cpu.Returned), t.1, w.value))
      && (w.Ok? && !t.0 ==>
            LoopFrom(quota, interval, rounds, i, exitNow) == Cpu.Prepend(w.value, LoopFrom(quota, interval, rounds, i + 1, t.1)))
  {
  }

  // ---------------------------------------------------------------------
  // What `run` promises

  /** In pass `c`, `pid` belongs to a non-critical process of a user over the quota. */
  ghost predicate KilledIn(quota: int, c: Round, pid: int) {
    && Usage(c.homes).Ok?
    && exists j :: 0 <= j < |c.processes| && c.processes[j].pid == pid && !IsCritical(c.processes[j])
         && OverQuota(Usage(c.homes).value, quota, c.processes[j].user)
  }

  /**
   * A pass raises only the ValueError of an unreadable `du` line; else it
   * issues only kills, of exactly the pids of non-critical processes of
   * over-quota users.
   */
  lemma RoundKillsSpec(quota: int, c: Round)
    ensures RoundKills(quota, c).Err? ==> RoundKills(quota, c).error == ValueError
    ensures RoundKills(quota, c).Ok? ==>
      && AllKills(RoundKills(quota, c).value)
      && forall pid :: Kills(RoundKills(quota, c).value, pid) <==> KilledIn(quota, c, pid)
  {
    UsageUpToOk(c.homes, |c.homes|);
    if Usage(c.homes).Ok? {
      KillActionsSpec(Usage(c.homes).value, quota, c.processes);
    }
  }

  /** How a loop state ended, if it did, by an exception other than ValueError. */
  predicate CaughtOther(p: Cpu.Progress) {
    p.stop.Some? && p.stop.value.Caught? && p.stop.value.error != ValueError
  }

  /**
   * Every command the loop issues from pass `i` on is a kill of a pid that
   * some pass found on a non-critical process of an over-quota user, and
   * the only exception that ends the loop is a ValueError.
   */
  lemma {:induction false} LoopFromJustified(quota: int, interval: int, rounds: seq<Round>, i: nat, exitNow: bool)
    requires i <= |rounds| && SignalsFit(rounds, interval)
    ensures var p := LoopFrom(quota, interval, rounds, i, exitNow);
      && AllKills(p.actions)
      && !CaughtOther(p)
      && forall pid :: Kills(p.actions, pid) ==> exists k :: i <= k < |rounds| && KilledIn(quota, rounds[k], pid)
    decreases |rounds| - i
  {
    if i < |rounds| {
      LoopFromStep(quota, interval, rounds, i, exitNow);
      RoundResultIs(quota, rounds[i]);
      RoundKillsSpec(quota, rounds[i]);
      var w := RoundKills(quota, rounds[i]);
      var t := Cpu.Ticks(exitNow, rounds[i].signals, 0, Cpu.TickCount(interval));
      if w.Ok? && !t.0 {
        LoopFromJustified(quota, interval, rounds, i + 1, t.1);
        var rest := LoopFrom(quota, interval, rounds, i + 1, t.1);
        JustifiedPrepend(quota, rounds, i, w.value, rest.actions);
      }
    }
  }

  /** The step of `LoopFromJustified`: the kills of pass `i` before those of the later passes. */
  lemma JustifiedPrepend(quota: int, rounds: seq<Round>, i: nat, acts: seq<Command>, rest: seq<Command>)
    requires i < |rounds| && RoundKills(quota, rounds[i]) == Ok(acts)
    requires AllKills(acts) && forall pid :: Kills(acts, pid) <==> KilledIn(quota, rounds[i], pid)
    requires AllKills(rest) && forall pid :: Kills(rest, pid) ==> exists k :: i + 1 <= k < |rounds| && KilledIn(quota, rounds[k], pid)
    ensures AllKills(acts + rest)
    ensures forall pid :: Kills(acts + rest, pid) ==> exists k :: i <= k < |rounds| && KilledIn(quota, rounds[k], pid)
  {
    forall j | 0 <= j < |acts + rest| ensures (acts + rest)[j].Kill? {
      if j >= |acts| {
        assert (acts + rest)[j] == rest[j - |acts|];
      }
    }
    forall pid | Kills(acts + rest, pid) ensures exists k :: i <= k < |rounds| && KilledIn(quota, rounds[k], pid) {
      KillsAppend(acts, rest, pid);
      if Kills(acts, pid) {
        assert KilledIn(quota, rounds[i], pid);
      }
    }
  }

  /** `c`'s usage loads, and every measured user is within the quota. */
  ghost predicate WithinQuota(quota: int, c: Round) {
    Usage(c.homes).Ok? && forall user :: user in Usage(c.homes).value.entries ==> Usage(c.homes).value.entries[user] <= quota
  }

  /**
   * When every pass finds every user within the quota, nothing is killed
   * and nothing is raised.
   */
  lemma {:induction false} LoopFromWithinQuota(quota: int, interval: int, rounds: seq<Round>, i: nat, exitNow: bool)
    requires i <= |rounds| && SignalsFit(rounds, interval)
    requires forall k :: i <= k < |rounds| ==> WithinQuota(quota, rounds[k])
    ensures LoopFrom(quota, interval, rounds, i, exitNow).actions == []
    ensures LoopFrom(quota, interval, rounds, i, exitNow).stop in {None, Some(Cpu.Returned)}
    decreases |rounds| - i
  {
    if i < |rounds| {
      LoopFromStep(quota, interval, rounds, i, exitNow);
      RoundResultIs(quota, rounds[i]);
      assert WithinQuota(quota, rounds[i]);
      KillNothingWithinQuota(Usage(rounds[i].homes).value, quota, rounds[i].processes);
      var t := Cpu.Ticks(exitNow, rounds[i].signals, 0, Cpu.TickCount(interval));
      if !t.0 {
        LoopFromWithinQuota(quota, interval, rounds, i + 1, t.1);
      }
    }
  }

  /**
   * The `try` block returns, rather than raising or running on, only once
   * the flag is set; with no ticks (`interval <= 0`) it never returns.
   */
  lemma {:induction false} LoopFromReturns(quota: int, interval: int, rounds: seq<Round>, i: nat, exitNow: bool)
    requires i <= |rounds| && SignalsFit(rounds, interval)
    ensures var p := LoopFrom(quota, interval, rounds, i, exitNow);
      p.stop == Some(Cpu.Returned) ==> p.exitNow && interval > 0
    decreases |rounds| - i
  {
    if i < |rounds| {
      LoopFromStep(quota, interval, rounds, i, exitNow);
      var t := Cpu.Ticks(exitNow, rounds[i].signals, 0, Cpu.TickCount(interval));
      Cpu.TicksSpec(exitNow, rounds[i].signals, 0, Cpu.TickCount(interval));
      if RoundResult(quota, rounds[i]).Ok? && !t.0 {
        LoopFromReturns(quota, interval, rounds, i + 1, t.1);
      }
    }
  }

  /**
   * With the flag already set and at least one tick, the first pass that
   * does not raise is the last: `run` returns at its first check.
   */
  lemma LoopExitSet(quota: int, interval: int, rounds: seq<Round>)
    requires SignalsFit(rounds, interval) && interval > 0 && |rounds| > 0
    requires RoundKills(quota, rounds[0]).Ok?
    ensures LoopFrom(quota, interval, rounds, 0, true) == Cpu.Progress(Some(Cpu.Returned), true, RoundKills(quota, rounds[0]).value)
  {
    RoundResultIs(quota, rounds[0]);
    LoopFromStep(quota, interval, rounds, 0, true);
  }
}
