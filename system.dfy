/**
 * The snapshot collector (core/system.py): the process table read from
 * `top` and `ps`, and the load averages read from `uptime`. The command
 * outputs are inputs here; everything done to the text is modelled.
 */
module System {
  import opened Wrappers
  import opened Text
  import opened Dicts

  /**
   * One row of `top`. The fields the governor does not interpret are kept
   * as text; the TIME+ column is accepted by the constructor and dropped.
   */
  datatype ProcessState = ProcessState(
    pid: int, user: string, pr: string, ni: string, virt: string, res: string,
    shr: string, s: string, cpu: real, mem: real, command: string)

  /**
   * `ProcessState(*fields)`: exactly twelve fields, else a TypeError; the
   * pid must be an integer and CPU% and MEM% numbers, else a ValueError.
   */
  function MakeProcessState(fields: seq<string>): (r: Result<ProcessState>)
    ensures |fields| != 12 ==> r == Err(TypeError)
    ensures r.Ok? <==>
      |fields| == 12 && Int(fields[0]).Some? && Float(fields[8]).Some? && Float(fields[9]).Some?
    ensures r.Ok? ==>
      && r.value.pid == Int(fields[0]).value
      && r.value.cpu == Float(fields[8]).value
      && r.value.mem == Float(fields[9]).value
      && r.value.user == fields[1] && r.value.pr == fields[2] && r.value.ni == fields[3]
      && r.value.virt == fields[4] && r.value.res == fields[5] && r.value.shr == fields[6]
      && r.value.s == fields[7]
      && r.value.command == fields[11]
  {
    if |fields| != 12 then Err(TypeError)
    else
      match (Int(fields[0]), Float(fields[8]), Float(fields[9]))
      case (Some(pid), Some(cpu), Some(mem)) =>
        Ok(ProcessState(pid, fields[1], fields[2], fields[3], fields[4], fields[5], fields[6],
                        fields[7], cpu, mem, fields[11]))
      case _ => Err(ValueError)
  }

  // ---------------------------------------------------------------------
  // Terminal escape sequences: a CSI sequence (section 5.4 of ECMA-48),
  // or one of the literals ESC ( B and ESC >.

  const ESC: char := '\U{1B}'

  predicate IsParameterByte(c: char) { '0' <= c <= '?' }     // 0x30-0x3F
  predicate IsIntermediateByte(c: char) { ' ' <= c <= '/' }  // 0x20-0x2F
  predicate IsFinalByte(c: char) { '@' <= c <= '~' }         // 0x40-0x7E

  /** The end of the run of parameter bytes that starts at `i`. */
  function ParametersEnd(s: string, i: nat): (j: nat)
    requires i <= |s|
    ensures i <= j <= |s|
    ensures forall k :: i <= k < j ==> IsParameterByte(s[k])
    ensures j < |s| ==> !IsParameterByte(s[j])
    decreases |s| - i
  {
    if i == |s| || !IsParameterByte(s[i]) then i else ParametersEnd(s, i + 1)
  }

  /** The end of the run of intermediate bytes that starts at `i`. */
  function IntermediatesEnd(s: string, i: nat): (j: nat)
    requires i <= |s|
    ensures i <= j <= |s|
    ensures forall k :: i <= k < j ==> IsIntermediateByte(s[k])
    ensures j < |s| ==> !IsIntermediateByte(s[j])
    decreases |s| - i
  {
    if i == |s| || !IsIntermediateByte(s[i]) then i else IntermediatesEnd(s, i + 1)
  }

  /**
   * The length of the escape sequence the pattern matches at the start of
   * `s`, or 0. The three byte classes of a CSI sequence are disjoint, so the
   * greedy runs with backtracking match exactly when the maximal runs are
   * followed by a final byte.
   */
  function EscapeLength(s: string): (n: nat)
    ensures n <= |s|
    ensures n > 0 ==> n >= 2 && s[0] == ESC
  {
    if |s| >= 2 && s[0] == ESC && s[1] == '[' then
      var q := IntermediatesEnd(s, ParametersEnd(s, 2));
      if q < |s| && IsFinalByte(s[q]) then q + 1 else 0
    else if |s| >= 3 && s[0] == ESC && s[1] == '(' && s[2] == 'B' then 3
    else if |s| >= 2 && s[0] == ESC && s[1] == '>' then 2
    else 0
  }

  /** `re.sub(pattern, '', s)`: drop every match, scanning once from left to right. */
  function StripEscapes(s: string): (r: string)
    ensures |r| <= |s|
    decreases |s|
  {
    if s == [] then []
    else
      var n := EscapeLength(s);
      if n > 0 then StripEscapes(s[n..]) else [s[0]] + StripEscapes(s[1..])
  }

  /** `a` can be obtained from `b` by deleting characters. */
  ghost predicate IsSubsequence(a: string, b: string)
    decreases |b|
  {
    a == [] || (b != [] && ((a[0] == b[0] && IsSubsequence(a[1..], b[1..])) || IsSubsequence(a, b[1..])))
  }

  lemma {:induction false} SubsequenceOfSuffix(a: string, b: string, k: nat)
    requires k <= |b| && IsSubsequence(a, b[k..])
    ensures IsSubsequence(a, b)
    decreases k
  {
    if k > 0 {
      assert b[1..][k - 1..] == b[k..];
      SubsequenceOfSuffix(a, b[1..], k - 1);
    }
  }

  /** Stripping only deletes characters: the output is a subsequence of the input. */
  lemma {:induction false} StripEscapesSubsequence(s: string)
    ensures IsSubsequence(StripEscapes(s), s)
    decreases |s|
  {
    if s != [] {
      var n := EscapeLength(s);
      if n > 0 {
        StripEscapesSubsequence(s[n..]);
        SubsequenceOfSuffix(StripEscapes(s), s, n);
      } else {
        StripEscapesSubsequence(s[1..]);
        var r := StripEscapes(s);
        assert r[0] == s[0] && r[1..] == StripEscapes(s[1..]);
      }
    }
  }

  /** Text without an ESC in front of the rest passes through unchanged. */
  lemma {:induction false} StripEscapesPlainPrefix(u: string, v: string)
    requires ESC !in u
    ensures StripEscapes(u + v) == u + StripEscapes(v)
    decreases |u|
  {
    if u == [] {
      assert u + v == v;
    } else {
      var s := u + v;
      assert s[0] == u[0] != ESC;
      assert s[1..] == u[1..] + v;
      assert EscapeLength(s) == 0;
      assert StripEscapes(s) == [u[0]] + StripEscapes(u[1..] + v);
      StripEscapesPlainPrefix(u[1..], v);
      assert [u[0]] + (u[1..] + StripEscapes(v)) == u + StripEscapes(v);
    }
  }

  /** Input containing no ESC is returned unchanged. */
  lemma StripEscapesNoEscape(s: string)
    requires ESC !in s
    ensures StripEscapes(s) == s
  {
    StripEscapesPlainPrefix(s, []);
    assert s + [] == s;
  }

  /** A complete CSI sequence in front of the rest is removed. */
  lemma StripEscapesControlSequence(params: string, inters: string, final: char, v: string)
    requires forall i :: 0 <= i < |params| ==> IsParameterByte(params[i])
    requires forall i :: 0 <= i < |inters| ==> IsIntermediateByte(inters[i])
    requires IsFinalByte(final)
    ensures StripEscapes([ESC, '['] + params + inters + [final] + v) == StripEscapes(v)
  {
    var s := [ESC, '['] + params + inters + [final] + v;
    var p := 2 + |params|;
    var q := p + |inters|;
    assert forall k :: 2 <= k < p ==> s[k] == params[k - 2];
    assert forall k :: p <= k < q ==> s[k] == inters[k - p];
    assert s[q] == final;
    assert !IsParameterByte(s[p]) by {
      if p < q { assert IsIntermediateByte(s[p]); }
    }
    var p' := ParametersEnd(s, 2);
    assert p' == p;
    var q' := IntermediatesEnd(s, p);
    assert q' == q;
    assert EscapeLength(s) == q + 1;
    assert s[q + 1..] == v;
  }

  /** The two literal sequences ESC ( B and ESC > in front of the rest are removed. */
  lemma StripEscapesLiterals(v: string)
    ensures StripEscapes([ESC, '(', 'B'] + v) == StripEscapes(v)
    ensures StripEscapes([ESC, '>'] + v) == StripEscapes(v)
  {
    assert ([ESC, '(', 'B'] + v)[3..] == v;
    assert ([ESC, '>'] + v)[2..] == v;
  }

  // ---------------------------------------------------------------------
  // The last `top` frame and its process lines

  const FrameStart := "top - "

  /**
   * `s[s.rfind('top - '):]`: the text from the last frame header on. When
   * there is no header, rfind gives -1 and the slice is the last character.
   */
  function LastFrame(s: string): (r: string)
    ensures |r| <= |s| && r == s[|s| - |r|..]
    ensures RFind(s, FrameStart) >= 0 ==>
      StartsWith(r, FrameStart) && forall k :: 0 < k <= |r| ==> !OccursAt(r, FrameStart, k)
    ensures RFind(s, FrameStart) < 0 ==> |r| == if s == [] then 0 else 1
  {
    var i := RFind(s, FrameStart);
    if i >= 0 then
      var r := s[i..];
      assert forall k :: 0 < k <= |r| ==> !OccursAt(r, FrameStart, k) by {
        forall k | 0 < k <= |r| ensures !OccursAt(r, FrameStart, k) {
          if OccursAt(r, FrameStart, k) { assert OccursAt(s, FrameStart, i + k); }
        }
      }
      r
    else if s == [] then s
    else s[|s| - 1..]
  }

  /** `text.split('\n')[7:-1]`: drop the seven header lines and the segment after the last newline. */
  function FrameLines(text: string): seq<string> {
    var lines := SplitOn(text, '\n');
    if |lines| > 8 then lines[7..|lines| - 1] else []
  }

  /** A frame made of seven header lines, body lines and a last segment yields exactly the body lines. */
  lemma FrameLinesOfFrame(header: seq<string>, body: seq<string>, tail: string)
    requires |header| == 7 && |body| >= 1
    requires forall i :: 0 <= i < 7 ==> '\n' !in header[i]
    requires forall i :: 0 <= i < |body| ==> '\n' !in body[i]
    requires '\n' !in tail
    ensures FrameLines(Join(header + body + [tail], '\n')) == body
  {
    var parts := header + body + [tail];
    SplitOnJoin(parts, '\n');
    assert parts[7..|parts| - 1] == body;
  }

  /** `ProcessState(*line.split(maxsplit=11))`. */
  function LineState(line: string): Result<ProcessState> {
    MakeProcessState(SplitWs(line, 11))
  }

  /** The list comprehension building one ProcessState per line; the first bad line raises. */
  function MakeStates(lines: seq<string>): Result<seq<ProcessState>> {
    MapLines(lines, LineState)
  }

  /** `[make(line) for line in lines]` when `make` may raise: the first failure is the result. */
  function MapLines<T>(lines: seq<string>, make: string -> Result<T>): Result<seq<T>>
    decreases |lines|
  {
    if lines == [] then Ok([])
    else
      match make(lines[0])
      case Err(e) => Err(e)
      case Ok(p) =>
        match MapLines(lines[1..], make)
        case Err(e) => Err(e)
        case Ok(rest) => Ok([p] + rest)
  }

  /**
   * The states are built exactly when every line makes a state, and then
   * there is one state per line, in line order.
   */
  lemma MakeStatesSpec(lines: seq<string>)
    ensures MakeStates(lines).Ok? <==> forall i :: 0 <= i < |lines| ==> LineState(lines[i]).Ok?
    ensures MakeStates(lines).Ok? ==> |MakeStates(lines).value| == |lines|
    ensures MakeStates(lines).Ok? ==>
      forall i :: 0 <= i < |lines| ==> MakeStates(lines).value[i] == LineState(lines[i]).value
  {
    MapLinesSpec(lines, LineState);
  }

  /** The mapping succeeds exactly when every line does, with one result per line, in line order. */
  lemma {:induction false} MapLinesSpec<T>(lines: seq<string>, make: string -> Result<T>)
    ensures MapLines(lines, make).Ok? <==> forall i :: 0 <= i < |lines| ==> make(lines[i]).Ok?
    ensures MapLines(lines, make).Ok? ==> |MapLines(lines, make).value| == |lines|
    ensures MapLines(lines, make).Ok? ==>
      forall i :: 0 <= i < |lines| ==> MapLines(lines, make).value[i] == make(lines[i]).value
    decreases |lines|
  {
    if lines != [] {
      var tail := lines[1..];
      MapLinesSpec(tail, make);
      assert forall i :: 1 <= i < |lines| ==> tail[i - 1] == lines[i];
      if make(lines[0]).Ok? && MapLines(tail, make).Ok? {
        var r := MapLines(lines, make).value;
        assert r == [make(lines[0]).value] + MapLines(tail, make).value;
        forall i | 1 <= i < |lines| ensures r[i] == make(lines[i]).value {
          assert r[i] == MapLines(tail, make).value[i - 1];
        }
      }
    }
  }

  /** Escape stripping, frame slicing and field splitting of the `top` output. */
  function ParseTop(data: string): Result<seq<ProcessState>> {
    MakeStates(FrameLines(LastFrame(StripEscapes(data))))
  }

  /** Each `ps` line after `strip()` and `split(maxsplit=1)` must be a (pid, user) pair. */
  function MakePairs(lines: seq<string>): (r: Result<seq<(string, string)>>)
    ensures r.Ok? ==> |r.value| == |lines|
    ensures r.Ok? ==> forall i :: 0 <= i < |lines| ==>
      SplitWs(Strip(lines[i]), 1) == [r.value[i].0, r.value[i].1]
    decreases |lines|
  {
    if lines == [] then Ok([])
    else
      var t := SplitWs(Strip(lines[0]), 1);
      if |t| != 2 then Err(ValueError)
      else
        match MakePairs(lines[1..])
        case Err(e) => Err(e)
        case Ok(rest) =>
          var r := [(t[0], t[1])] + rest;
          assert forall i :: 0 <= i < |lines| ==> SplitWs(Strip(lines[i]), 1) == [r[i].0, r[i].1] by {
            forall i | 0 <= i < |lines| ensures SplitWs(Strip(lines[i]), 1) == [r[i].0, r[i].1] {
              if i > 0 {
                assert lines[i] == lines[1..][i - 1] && r[i] == rest[i - 1];
              }
            }
          }
          Ok(r)
  }

  /** The body lines of a listing: the header line and the segment after the last newline are dropped. */
  function ListingBody(data: string): seq<string> {
    var lines := SplitOn(data, '\n');
    if |lines| > 2 then lines[1..|lines| - 1] else []
  }

  /** `pid_to_user`: the `ps` listing as a dict from pid text to user name. */
  function ParsePs(data: string): Result<Dict<string, string>> {
    var pairs :- MakePairs(ListingBody(data));
    Ok(FromPairs(pairs))
  }

  /** A listing made of a header line, body lines and a last segment yields exactly the body lines. */
  lemma ListingBodyOf(header: string, body: seq<string>, tail: string)
    requires '\n' !in header && '\n' !in tail
    requires forall i :: 0 <= i < |body| ==> '\n' !in body[i]
    ensures ListingBody(Join([header] + body + [tail], '\n')) == body
  {
    var parts := [header] + body + [tail];
    forall i | 0 <= i < |parts| ensures '\n' !in parts[i] {
      if 0 < i < |parts| - 1 {
        assert parts[i] == body[i - 1];
      }
    }
    SplitOnJoin(parts, '\n');
    assert parts[1..|parts| - 1] == body;
  }

  /** A `ps` line that `strip().split(maxsplit=1)` cuts into exactly two fields. */
  predicate PairLine(line: string) {
    |SplitWs(Strip(line), 1)| == 2
  }

  /** The pairs are built exactly when every line is a pair line; otherwise `dict()` raises a ValueError. */
  lemma {:induction false} MakePairsOk(lines: seq<string>)
    ensures MakePairs(lines).Ok? <==> forall i :: 0 <= i < |lines| ==> PairLine(lines[i])
    ensures MakePairs(lines).Err? ==> MakePairs(lines).error == ValueError
    decreases |lines|
  {
    if lines != [] {
      MakePairsOk(lines[1..]);
      assert forall i :: 1 <= i < |lines| ==> lines[1..][i - 1] == lines[i];
    }
  }

  /**
   * `pid_to_user` is built exactly when every body line of the listing is a
   * (pid, user) pair; it maps exactly the listed pids, each to the user of
   * its LAST line, and otherwise `dict()` raises a ValueError.
   */
  lemma ParsePsSpec(data: string)
    ensures ParsePs(data).Ok? <==> forall i :: 0 <= i < |ListingBody(data)| ==> PairLine(ListingBody(data)[i])
    ensures ParsePs(data).Err? ==> ParsePs(data).error == ValueError
    ensures ParsePs(data).Ok? ==>
      var pairs := MakePairs(ListingBody(data)).value;
      var owners := ParsePs(data).value;
      && (forall pid :: pid in owners.entries <==> exists i :: 0 <= i < |pairs| && pairs[i].0 == pid)
      && (forall i :: 0 <= i < |pairs| && (forall j :: i < j < |pairs| ==> pairs[j].0 != pairs[i].0) ==>
            pairs[i].0 in owners.entries && owners.entries[pairs[i].0] == pairs[i].1)
  {
    var lines := ListingBody(data);
    MakePairsOk(lines);
    if MakePairs(lines).Ok? {
      var pairs := MakePairs(lines).value;
      assert ParsePs(data) == Ok(FromPairs(pairs));
      FromPairsLastWins(pairs);
    } else {
      assert ParsePs(data) == Err(ValueError);
    }
  }

  /** `valid_process_state`: the pid is listed by `ps` and the CPU share is at least 10%. */
  predicate IsValidState(owners: Dict<string, string>, p: ProcessState) {
    IntToString(p.pid) in owners.entries && p.cpu >= 10.0
  }

  /** The states that pass `valid_process_state`, in their original order. */
  function Selected(states: seq<ProcessState>, owners: Dict<string, string>): seq<ProcessState>
    decreases |states|
  {
    if states == [] then []
    else (if IsValidState(owners, states[0]) then [states[0]] else []) + Selected(states[1..], owners)
  }

  /** Exactly the valid states are kept, and they keep their relative order. */
  lemma {:induction false} SelectedSpec(states: seq<ProcessState>, owners: Dict<string, string>)
    ensures forall p :: p in Selected(states, owners) <==> p in states && IsValidState(owners, p)
    ensures IsSubsequenceOf(Selected(states, owners), states)
    ensures forall q :: multiset(Selected(states, owners))[q]
                     == if IsValidState(owners, q) then multiset(states)[q] else 0
    decreases |states|
  {
    if states != [] {
      SelectedSpec(states[1..], owners);
      var rest := Selected(states[1..], owners);
      if IsValidState(owners, states[0]) {
        assert Selected(states, owners) == [states[0]] + rest;
        assert ([states[0]] + rest)[1..] == rest;
      } else {
        assert Selected(states, owners) == rest;
      }
      assert states == [states[0]] + states[1..];
    }
    SelectedCount(states, owners);
  }

  /** Every kept state, by position, is valid. */
  lemma SelectedValid(states: seq<ProcessState>, owners: Dict<string, string>)
    ensures forall i :: 0 <= i < |Selected(states, owners)| ==> IsValidState(owners, Selected(states, owners)[i])
  {
    var kept := Selected(states, owners);
    SelectedSpec(states, owners);
    forall i | 0 <= i < |kept| ensures IsValidState(owners, kept[i]) {
      assert kept[i] in kept;
    }
  }

  /** Each valid state is kept as many times as it occurs; the others not at all. */
  lemma {:induction false} SelectedCount(states: seq<ProcessState>, owners: Dict<string, string>)
    ensures forall q :: multiset(Selected(states, owners))[q]
                     == if IsValidState(owners, q) then multiset(states)[q] else 0
    decreases |states|
  {
    if states != [] {
      SelectedCount(states[1..], owners);
      var rest := Selected(states[1..], owners);
      assert states == [states[0]] + states[1..];
      assert multiset(states) == multiset{states[0]} + multiset(states[1..]);
      if IsValidState(owners, states[0]) {
        assert Selected(states, owners) == [states[0]] + rest;
        assert multiset(Selected(states, owners)) == multiset{states[0]} + multiset(rest);
      } else {
        assert Selected(states, owners) == rest;
        forall q | IsValidState(owners, q)
          ensures multiset(Selected(states, owners))[q] == multiset(states)[q]
        {
          assert q != states[0];
        }
      }
    }
  }



  /** Order-preserving selection over process states (not only strings). */
  ghost predicate IsSubsequenceOf(a: seq<ProcessState>, b: seq<ProcessState>)
    decreases |b|
  {
    a == [] || (b != [] && ((a[0] == b[0] && IsSubsequenceOf(a[1..], b[1..])) || IsSubsequenceOf(a, b[1..])))
  }

  /** `state.user = pid_to_user[str(state.pid)]`. */
  function WithOwner(p: ProcessState, owners: Dict<string, string>): ProcessState
    requires IntToString(p.pid) in owners.entries
  {
    p.(user := owners.entries[IntToString(p.pid)])
  }

  /** Every selected state with its user replaced by the `ps` owner of its pid. */
  function WithOwners(states: seq<ProcessState>, owners: Dict<string, string>): (r: seq<ProcessState>)
    requires forall i :: 0 <= i < |states| ==> IntToString(states[i].pid) in owners.entries
    ensures |r| == |states|
  {
    seq(|states|, i requires 0 <= i < |states| => WithOwner(states[i], owners))
  }

  /** The valid states of a parsed listing, each with its user taken from `ps`. */
  function Kept(states: seq<ProcessState>, owners: Dict<string, string>): seq<ProcessState> {
    var kept := Selected(states, owners);
    SelectedValid(states, owners);
    WithOwners(kept, owners)
  }

  /** `SystemStatus.process_states` as a function of the two command outputs. */
  function Snapshot(topOutput: string, psOutput: string): Result<seq<ProcessState>> {
    match ParseTop(topOutput)
    case Err(e) => Err(e)
    case Ok(states) =>
      match ParsePs(psOutput)
      case Err(e) => Err(e)
      case Ok(owners) => Ok(Kept(states, owners))
  }

  /**
   * `SystemStatus.process_states`: parse both listings, keep the valid
   * states, then overwrite each kept state's (truncated) user name in place.
   */
  method ProcessStates(topOutput: string, psOutput: string) returns (r: Result<seq<ProcessState>>)
    ensures r == Snapshot(topOutput, psOutput)
  {
    var parsed := ParseTop(topOutput);
    if parsed.Err? {
      return Err(parsed.error);
    }
    var table := ParsePs(psOutput);
    if table.Err? {
      return Err(table.error);
    }
    var kept := KeepValid(parsed.value, table.value);
    r := Ok(kept);
  }

  /** The filter of `process_states` followed by the in-place user correction. */
  method KeepValid(states: seq<ProcessState>, owners: Dict<string, string>) returns (r: seq<ProcessState>)
    ensures r == Kept(states, owners)
  {
    var kept := Selected(states, owners);
    SelectedValid(states, owners);
    var a := new ProcessState[|kept|](i requires 0 <= i < |kept| => kept[i]);
    assert a[..] == kept;
    CorrectUsers(a, owners);
    r := a[..];
  }

  /** The loop `for state in states: state.user = pid_to_user[str(state.pid)]`, in place. */
  method CorrectUsers(a: array<ProcessState>, owners: Dict<string, string>)
    requires forall i :: 0 <= i < a.Length ==> IntToString(a[i].pid) in owners.entries
    modifies a
    ensures a[..] == WithOwners(old(a[..]), owners)
  {
    var i := 0;
    while i < a.Length
      invariant 0 <= i <= a.Length
      invariant forall k :: 0 <= k < i ==> a[k] == WithOwner(old(a[k]), owners)
      invariant forall k :: i <= k < a.Length ==> a[k] == old(a[k])
    {
      a[i] := WithOwner(a[i], owners);
      i := i + 1;
    }
  }

  /**
   * Every state of a snapshot ran at 10% CPU or more, its pid is listed by
   * `ps`, and its user is the one `ps` gives for that pid.
   */
  lemma SnapshotStates(topOutput: string, psOutput: string)
    requires Snapshot(topOutput, psOutput).Ok?
    ensures var owners := ParsePs(psOutput).value;
      forall p :: p in Snapshot(topOutput, psOutput).value ==>
        p.cpu >= 10.0 && IntToString(p.pid) in owners.entries && p.user == owners.entries[IntToString(p.pid)]
  {
    KeptStates(ParseTop(topOutput).value, ParsePs(psOutput).value);
  }

  lemma KeptStates(states: seq<ProcessState>, owners: Dict<string, string>)
    ensures forall p :: p in Kept(states, owners) ==>
      p.cpu >= 10.0 && IntToString(p.pid) in owners.entries && p.user == owners.entries[IntToString(p.pid)]
  {
    SelectedValid(states, owners);
    var kept := Selected(states, owners);
    var r := Kept(states, owners);
    forall p | p in r
      ensures p.cpu >= 10.0 && IntToString(p.pid) in owners.entries && p.user == owners.entries[IntToString(p.pid)]
    {
      var i :| 0 <= i < |r| && p == r[i];
      assert kept[i] in kept;
      assert p == WithOwner(kept[i], owners);
    }
  }

  // ---------------------------------------------------------------------
  // Load averages from `uptime`: the first match of
  // `load average: (.*?), (.*?), (.*?)$` (`.` stops at a newline, `$`
  // matches at the end or before a final newline).

  const LoadLabel := "load average: "

  /**
   * The three lazy groups matched right after the label, if the rest of the
   * text lets them match: the text up to the end (or to a final newline)
   * must hold no newline, and is cut at its first two ", " separators.
   */
  function LoadGroups(tail: string): Option<(string, string, string)> {
    CutGroups(DropFinalNewline(tail))
  }

  /** `$` may match before a final newline: the text the lazy groups can span. */
  function DropFinalNewline(tail: string): string {
    if |tail| > 0 && tail[|tail| - 1] == '\n' then tail[..|tail| - 1] else tail
  }

  /** The three groups of a line without newlines, cut at its first two ", " separators. */
  function CutGroups(t: string): Option<(string, string, string)> {
    if '\n' in t then None
    else
      var a := FindFrom(t, ", ", 0);
      if a < 0 then None
      else
        var rest := t[a + 2..];
        var b := FindFrom(rest, ", ", 0);
        if b < 0 then None
        else Some((t[..a], rest[..b], rest[b + 2..]))
  }

  /** The leftmost start position at or after `i` where the whole pattern matches. */
  function LoadSearch(data: string, i: nat): Option<(string, string, string)>
    requires i <= |data|
    decreases |data| - i
  {
    if OccursAt(data, LoadLabel, i) && LoadGroups(data[i + |LoadLabel|..]).Some? then
      LoadGroups(data[i + |LoadLabel|..])
    else if i == |data| then None
    else LoadSearch(data, i + 1)
  }

  /** `load_pat.findall(data)[0]`: the three fields, or an IndexError when nothing matches. */
  function LoadFields(data: string): Result<(string, string, string)> {
    match LoadSearch(data, 0)
    case None => Err(IndexError)
    case Some(g) => Ok(g)
  }

  /** `SystemStatus.system_load`: the three fields converted with `float`. */
  function SystemLoad(data: string): Result<(real, real, real)> {
    var g :- LoadFields(data);
    match (Float(g.0), Float(g.1), Float(g.2))
    case (Some(one), Some(five), Some(fifteen)) => Ok((one, five, fifteen))
    case _ => Err(ValueError)
  }

  lemma {:induction false} LoadSearchSkips(data: string, i: nat, j: nat)
    requires i <= j <= |data|
    requires forall k :: i <= k < j ==> !OccursAt(data, LoadLabel, k)
    ensures LoadSearch(data, i) == LoadSearch(data, j)
    decreases j - i
  {
    if i < j {
      LoadSearchSkips(data, i + 1, j);
    }
  }

  /** The end of an `uptime` line: `a, b, c` and a newline. */
  function LoadTail(a: string, b: string, c: string): string {
    a + ", " + b + ", " + c + "\n"
  }

  /** No match of the label starts before index `n`. */
  predicate LabelFreeBefore(data: string, n: nat) {
    forall k :: 0 <= k < n ==> !OccursAt(data, LoadLabel, k)
  }

  /**
   * On `uptime`-shaped text, `... load average: a, b, c` followed by a
   * newline, the three fields are a, b and c, when the label does not start
   * earlier and a and b hold no ", " separator.
   */
  lemma LoadFieldsOfUptime(prefix: string, a: string, b: string, c: string)
    requires LabelFreeBefore(prefix + LoadLabel + LoadTail(a, b, c), |prefix|)
    requires '\n' !in a + b + c
    requires forall k :: 0 <= k <= |a| ==> !OccursAt(a, ", ", k)
    requires forall k :: 0 <= k <= |b| ==> !OccursAt(b, ", ", k)
    ensures LoadFields(prefix + LoadLabel + LoadTail(a, b, c)) == Ok((a, b, c))
  {
    var tail := LoadTail(a, b, c);
    var data := prefix + LoadLabel + tail;
    var n := |prefix|;
    LoadSearchSkips(data, 0, n);
    assert data[n..n + |LoadLabel|] == LoadLabel;
    assert data[n + |LoadLabel|..] == tail;
    LoadGroupsOf(a, b, c);
  }

  lemma LoadGroupsOf(a: string, b: string, c: string)
    requires '\n' !in a + b + c
    requires forall k :: 0 <= k <= |a| ==> !OccursAt(a, ", ", k)
    requires forall k :: 0 <= k <= |b| ==> !OccursAt(b, ", ", k)
    ensures LoadGroups(LoadTail(a, b, c)) == Some((a, b, c))
  {
    var tail := LoadTail(a, b, c);
    var t := a + ", " + b + ", " + c;
    assert DropFinalNewline(tail) == t by {
      assert |tail| > 0 && tail[|tail| - 1] == '\n' && tail[..|tail| - 1] == t;
    }
    CutGroupsOf(a, b, c);
  }

  lemma CutGroupsOf(a: string, b: string, c: string)
    requires '\n' !in a + b + c
    requires forall k :: 0 <= k <= |a| ==> !OccursAt(a, ", ", k)
    requires forall k :: 0 <= k <= |b| ==> !OccursAt(b, ", ", k)
    ensures CutGroups(a + ", " + b + ", " + c) == Some((a, b, c))
  {
    JoinedNoNewline(a, b, c);
    CutTwice(a, b, c);
  }

  lemma JoinedNoNewline(a: string, b: string, c: string)
    requires '\n' !in a + b + c
    ensures '\n' !in a + ", " + b + ", " + c
  {
    var t := a + ", " + b + ", " + c;
    forall k | 0 <= k < |t| ensures t[k] != '\n' {
      if k < |a| { assert t[k] == (a + b + c)[k]; }
      else if |a| + 2 <= k < |a| + 2 + |b| { assert t[k] == (a + b + c)[k - 2]; }
      else if |a| + 4 + |b| <= k { assert t[k] == (a + b + c)[k - 4]; }
    }
  }

  /** Cutting `a, b, c` at its first two separators gives back a, b and c. */
  lemma CutTwice(a: string, b: string, c: string)
    requires forall k :: 0 <= k <= |a| ==> !OccursAt(a, ", ", k)
    requires forall k :: 0 <= k <= |b| ==> !OccursAt(b, ", ", k)
    ensures var t := a + ", " + b + ", " + c;
      && FindFrom(t, ", ", 0) == |a| && t[..|a|] == a
      && var rest := t[|a| + 2..];
      && FindFrom(rest, ", ", 0) == |b| && rest[..|b|] == b && rest[|b| + 2..] == c
  {
    var t := a + ", " + b + ", " + c;
    var rest := b + ", " + c;
    assert t == a + ", " + rest;
    FirstSeparator(a, rest);
    assert t[|a| + 2..] == rest;
    FirstSeparator(b, c);
    assert rest[|b| + 2..] == c;
    assert t[..|a|] == a && rest[..|b|] == b;
  }

  /** In `w + ", " + v`, the first separator is the one after `w` when `w` holds none. */
  lemma FirstSeparator(w: string, v: string)
    requires forall k :: 0 <= k <= |w| ==> !OccursAt(w, ", ", k)
    ensures FindFrom(w + ", " + v, ", ", 0) == |w|
  {
    var s := w + ", " + v;
    assert OccursAt(s, ", ", |w|) by { assert s[|w|..|w| + 2] == ", "; }
    forall k | 0 <= k < |w|
      ensures !OccursAt(s, ", ", k)
    {
      if k + 2 <= |w| {
        assert s[k..k + 2] == w[k..k + 2];
        assert !OccursAt(w, ", ", k);
        assert !OccursAt(s, ", ", k);
      } else {
        assert s[k + 1] == ',' by { assert s == (w + ", ") + v; }
        assert s[k..k + 2][1] != ", "[1];
        assert !OccursAt(s, ", ", k);
      }
    }
    var j := FindFrom(s, ", ", 0);
    assert j != -1 ==> j >= |w|;
  }

  /**
   * On `uptime`-shaped text whose three fields are decimal numbers,
   * `system_load` yields exactly those three numbers, in order.
   */
  lemma SystemLoadOfUptime(prefix: string, a: string, b: string, c: string, one: real, five: real, fifteen: real)
    requires LabelFreeBefore(prefix + LoadLabel + LoadTail(a, b, c), |prefix|)
    requires '\n' !in a + b + c
    requires forall k :: 0 <= k <= |a| ==> !OccursAt(a, ", ", k)
    requires forall k :: 0 <= k <= |b| ==> !OccursAt(b, ", ", k)
    requires Float(a) == Some(one) && Float(b) == Some(five) && Float(c) == Some(fifteen)
    ensures SystemLoad(prefix + LoadLabel + LoadTail(a, b, c)) == Ok((one, five, fifteen))
  {
    LoadFieldsOfUptime(prefix, a, b, c);
  }

  /** A field that is not a decimal number makes `system_load` fail with a ValueError. */
  lemma SystemLoadBadField(prefix: string, a: string, b: string, c: string)
    requires LabelFreeBefore(prefix + LoadLabel + LoadTail(a, b, c), |prefix|)
    requires '\n' !in a + b + c
    requires forall k :: 0 <= k <= |a| ==> !OccursAt(a, ", ", k)
    requires forall k :: 0 <= k <= |b| ==> !OccursAt(b, ", ", k)
    requires Float(a).None? || Float(b).None? || Float(c).None?
    ensures SystemLoad(prefix + LoadLabel + LoadTail(a, b, c)) == Err(ValueError)
  {
    LoadFieldsOfUptime(prefix, a, b, c);
  }

  /** Without the label anywhere in the text, `system_load` fails with an IndexError. */
  lemma LoadFieldsAbsent(data: string)
    requires forall k :: 0 <= k <= |data| ==> !OccursAt(data, LoadLabel, k)
    ensures LoadFields(data) == Err(IndexError)
    ensures SystemLoad(data) == Err(IndexError)
  {
    LoadSearchSkips(data, 0, |data|);
  }
}
