/**
 * Self-service account registration: the two whitespace-separated files the
 * registration service reads (invited students, already registered
 * students), the chain of checks a submitted form goes through, and the
 * account creation that follows when every check passes.
 */
module Users {
  import opened Wrappers
  import opened Dicts
  import opened Text

  // ---------------------------------------------------------------------
  // Reading the two files

  /** Length of the first line of a non-empty text, its '\n' included when it has one. */
  function LineLength(s: string): (n: nat)
    requires |s| > 0
    ensures 1 <= n <= |s|
    decreases |s|
  {
    if s[0] == '\n' || |s| == 1 then 1 else 1 + LineLength(s[1..])
  }

  /** `for l in f`: the lines of a file's text, each keeping its '\n' (only the last may lack one). */
  function Lines(s: string): (ls: seq<string>)
    decreases |s|
  {
    if s == [] then [] else
      var n := LineLength(s);
      [s[..n]] + Lines(s[n..])
  }

  /** `''.join(lines)`. */
  function Concat(ls: seq<string>): string {
    if ls == [] then [] else ls[0] + Concat(ls[1..])
  }

  /** A complete line: non-empty, ending in its only '\n'. */
  predicate IsLine(l: string) {
    |l| > 0 && l[|l| - 1] == '\n' && forall k :: 0 <= k < |l| - 1 ==> l[k] != '\n'
  }

  /** Text that is empty or ends with a line break, so that an append starts a new line. */
  predicate EndsLine(s: string) {
    s == [] || s[|s| - 1] == '\n'
  }

  /** The first line ends at the first '\n', or with the text. */
  lemma {:induction false} LineLengthSpec(s: string)
    requires |s| > 0
    ensures forall k :: 0 <= k < LineLength(s) - 1 ==> s[k] != '\n'
    ensures LineLength(s) < |s| ==> s[LineLength(s) - 1] == '\n'
    decreases |s|
  {
    if !(s[0] == '\n' || |s| == 1) {
      LineLengthSpec(s[1..]);
      forall k | 1 <= k < LineLength(s) - 1 ensures s[k] != '\n' {
        assert s[k] == s[1..][k - 1];
      }
    }
  }

  /** Conversely, a first stretch free of '\n' that ends in one, or with the text, is the first line. */
  lemma {:induction false} LineLengthIs(s: string, n: nat)
    requires 1 <= n <= |s|
    requires forall k :: 0 <= k < n - 1 ==> s[k] != '\n'
    requires n < |s| ==> s[n - 1] == '\n'
    ensures LineLength(s) == n
    decreases n
  {
    if n > 1 {
      assert s[0] != '\n';
      forall k | 0 <= k < n - 2 ensures s[1..][k] != '\n' {
        assert s[1..][k] == s[k + 1];
      }
      LineLengthIs(s[1..], n - 1);
    }
  }

  /**
   * `l.strip().split()`: the fields of a line when there are exactly two,
   * the only shape `dict()` accepts as an (id, value) item.
   */
  function PairOf(line: string): (r: Option<(string, string)>)
    ensures r.Some? <==> |SplitWs(Strip(line), -1)| == 2
  {
    var words := SplitWs(Strip(line), -1);
    if |words| == 2 then Some((words[0], words[1])) else None
  }

  /** The list comprehension over the lines: each parsed, or `None` when one is not a pair. */
  function ParseLines<T>(lines: seq<string>, parse: string -> Option<T>): (r: Option<seq<T>>)
    decreases |lines|
  {
    if lines == [] then Some([])
    else
      match parse(lines[0])
      case None => None
      case Some(p) =>
        match ParseLines(lines[1..], parse)
        case None => None
        case Some(ps) => Some([p] + ps)
  }

  /**
   * `read_users()` and `read_processed_users()`: a missing file (`None`) is
   * the empty dictionary, otherwise `dict([l.strip().split() for l in f])`,
   * which raises ValueError on the first line that is not a pair.
   */
  function ReadPairs(file: Option<string>): (r: Result<Dict<string, string>>)
    ensures r.Ok? ==> r.value.Valid()
    ensures r.Err? ==> r.error == ValueError
  {
    match file
    case None => Ok(Empty())
    case Some(text) =>
      match ParseLines(Lines(text), PairOf)
      case None => Err(ValueError)
      case Some(ps) => Ok(FromPairs(ps))
  }

  /** The line `write_processed` appends: `'%s %s' % (student_id, username) + '\n'`. */
  function RecordLine(studentId: string, username: string): string {
    studentId + " " + username + "\n"
  }

  /** Splitting a text into lines loses nothing: the lines put back together are the text. */
  lemma {:induction false} LinesConcat(s: string)
    ensures Concat(Lines(s)) == s
    decreases |s|
  {
    if s != [] {
      var n := LineLength(s);
      var rest := Lines(s[n..]);
      assert Lines(s) == [s[..n]] + rest;
      assert ([s[..n]] + rest)[1..] == rest;
      LinesConcat(s[n..]);
      assert s[..n] + s[n..] == s;
    }
  }

  /** Every line but the last is complete, and no line is empty. */
  lemma {:induction false} LinesShape(s: string)
    ensures forall i :: 0 <= i < |Lines(s)| ==> |Lines(s)[i]| > 0
    ensures forall i :: 0 <= i < |Lines(s)| - 1 ==> IsLine(Lines(s)[i])
    ensures EndsLine(s) && s != [] ==> IsLine(Lines(s)[|Lines(s)| - 1])
    decreases |s|
  {
    if s != [] {
      var n := LineLength(s);
      LineLengthSpec(s);
      LinesShape(s[n..]);
      assert Lines(s) == [s[..n]] + Lines(s[n..]);
      if n < |s| {
        assert s[n..][|s[n..]| - 1] == s[|s| - 1];
      }
    }
  }

  /** More text after a line break does not change where the first line ends. */
  lemma LineLengthAppend(c: string, l: string)
    requires |c| > 0 && EndsLine(c)
    ensures LineLength(c + l) == LineLength(c)
  {
    var n := LineLength(c);
    var s := c + l;
    LineLengthSpec(c);
    assert c[n - 1] == '\n';
    forall k | 0 <= k < n - 1 ensures s[k] != '\n' { assert s[k] == c[k]; }
    assert s[n - 1] == c[n - 1];
    LineLengthIs(s, n);
  }

  /** Appending a complete line to a text that ends a line adds exactly that line. */
  lemma {:induction false} LinesAppend(c: string, l: string)
    requires EndsLine(c) && IsLine(l)
    ensures Lines(c + l) == Lines(c) + [l]
    decreases |c|
  {
    if c == [] {
      assert c + l == l;
      LineLengthIs(l, |l|);
      assert l[..|l|] == l && l[|l|..] == [];
    } else {
      var n := LineLength(c);
      var s := c + l;
      LineLengthAppend(c, l);
      assert s[..n] == c[..n];
      assert s[n..] == c[n..] + l;
      assert EndsLine(c[n..]) by {
        if n < |c| { assert c[n..][|c[n..]| - 1] == c[|c| - 1]; }
      }
      LinesAppend(c[n..], l);
      assert Lines(s) == [c[..n]] + (Lines(c[n..]) + [l]);
    }
  }

  /** All lines parse or the whole parse fails; when it succeeds, the i-th item is the i-th line's. */
  lemma {:induction false} ParseLinesSpec<T>(lines: seq<string>, parse: string -> Option<T>)
    ensures ParseLines(lines, parse).Some? <==> forall i :: 0 <= i < |lines| ==> parse(lines[i]).Some?
    ensures ParseLines(lines, parse).Some? ==>
      && |ParseLines(lines, parse).value| == |lines|
      && forall i :: 0 <= i < |lines| ==> ParseLines(lines, parse).value[i] == parse(lines[i]).value
    decreases |lines|
  {
    if lines != [] {
      ParseLinesSpec(lines[1..], parse);
      assert forall i :: 1 <= i < |lines| ==> lines[1..][i - 1] == lines[i];
    }
  }

  /** Parsing one more line appends its item, or fails. */
  lemma {:induction false} ParseLinesAppend<T>(lines: seq<string>, l: string, parse: string -> Option<T>)
    requires ParseLines(lines, parse).Some? && parse(l).Some?
    ensures ParseLines(lines + [l], parse) == Some(ParseLines(lines, parse).value + [parse(l).value])
    decreases |lines|
  {
    if lines == [] {
      assert lines + [l] == [l];
      assert [l][1..] == [];
      assert ParseLines([l][1..], parse) == Some([]);
      assert [parse(l).value] + [] == [] + [parse(l).value];
    } else {
      var p := parse(lines[0]).value;
      var ps := ParseLines(lines[1..], parse).value;
      assert (lines + [l])[0] == lines[0];
      assert (lines + [l])[1..] == lines[1..] + [l];
      ParseLinesAppend(lines[1..], l, parse);
      assert [p] + (ps + [parse(l).value]) == ([p] + ps) + [parse(l).value];
    }
  }

  /** A non-empty string without white space: what a field of a pair line can be. */
  predicate Word(w: string) {
    |w| > 0 && NoSpace(w)
  }

  /** A pair read from a line consists of two words. */
  lemma PairOfWords(line: string)
    requires PairOf(line).Some?
    ensures Word(PairOf(line).value.0) && Word(PairOf(line).value.1)
  {
    SplitWsShape(Strip(line), -1);
  }

  /** Every line splits into exactly two fields. */
  predicate AllPairs(ls: seq<string>) {
    forall i :: 0 <= i < |ls| ==> PairOf(ls[i]).Some?
  }

  /** The (id, value) items of lines that are all pairs, in line order. */
  ghost function Items(ls: seq<string>): (ps: seq<(string, string)>)
    requires AllPairs(ls)
    ensures |ps| == |ls|
  {
    seq(|ls|, i requires 0 <= i < |ls| => PairOf(ls[i]).value)
  }

  /** A missing file reads as the empty dictionary. */
  lemma ReadPairsMissing()
    ensures ReadPairs(None) == Ok(Empty())
  {
  }

  /**
   * A present file reads exactly when every line is a pair, and then as the
   * dictionary built from the lines' items in order, so that its keys are
   * the first fields and a later duplicate id overwrites an earlier one
   * (`Dicts.FromPairsLastWins`).
   */
  lemma ReadPairsSpec(text: string)
    ensures ReadPairs(Some(text)).Ok? <==> AllPairs(Lines(text))
    ensures AllPairs(Lines(text)) ==> ReadPairs(Some(text)) == Ok(FromPairs(Items(Lines(text))))
  {
    var ls := Lines(text);
    ParseLinesSpec(ls, PairOf);
    if AllPairs(ls) {
      assert ParseLines(ls, PairOf).value == Items(ls);
    }
  }

  /** Every id and every value of a read dictionary is a word. */
  lemma ReadPairsWords(file: Option<string>)
    requires ReadPairs(file).Ok?
    ensures forall k :: k in ReadPairs(file).value.entries ==> Word(k) && Word(ReadPairs(file).value.entries[k])
  {
    if file.Some? {
      var ls := Lines(file.value);
      ReadPairsSpec(file.value);
      var ps := Items(ls);
      FromPairsValues(ps);
      forall i | 0 <= i < |ps| ensures Word(ps[i].0) && Word(ps[i].1) {
        PairOfWords(ls[i]);
      }
    }
  }

  /** `strip()` removes only the white space around a word-bounded text. */
  lemma StripAround(w: string, end: string)
    requires |w| > 0 && !IsSpace(w[0]) && !IsSpace(w[|w| - 1])
    requires forall k :: 0 <= k < |end| ==> IsSpace(end[k])
    ensures Strip(w + end) == w
  {
    var s := w + end;
    assert s[0] == w[0];
    assert s[0..] == s;
    var r := StripEnd(s);
    assert s[|w| - 1] == w[|w| - 1];
    assert forall k :: |w| <= k < |s| ==> s[k] == end[k - |w|];
    assert |r| == |w|;
    assert r == s[..|w|] == w;
  }

  /** The appended record line reads back as the (id, username) pair it was made from. */
  lemma RecordLineRoundTrip(studentId: string, username: string)
    requires Word(studentId) && Word(username)
    ensures PairOf(RecordLine(studentId, username)) == Some((studentId, username))
    ensures IsLine(RecordLine(studentId, username))
  {
    var body := studentId + [' '] + username;
    assert RecordLine(studentId, username) == body + "\n";
    assert body[0] == studentId[0] && body[|body| - 1] == username[|username| - 1];
    StripAround(body, "\n");
    SplitTwoWords(studentId, ' ', username, "");
    assert body + "" == body;
    var l := RecordLine(studentId, username);
    forall k | 0 <= k < |l| - 1 ensures l[k] != '\n' {
      assert IsSpace('\n');
      if k < |studentId| { assert l[k] == studentId[k]; }
      else if k > |studentId| { assert l[k] == username[k - |studentId| - 1]; }
    }
  }

  /** Appending a complete pair line to a text that ends a line sets that pair in what it reads as. */
  lemma ReadAppend(text: string, l: string, id: string, value: string)
    requires EndsLine(text) && IsLine(l) && PairOf(l) == Some((id, value))
    requires ReadPairs(Some(text)).Ok?
    ensures ReadPairs(Some(text + l)) == Ok(ReadPairs(Some(text)).value.Put(id, value))
  {
    var ls := Lines(text);
    LinesAppend(text, l);
    ParseLinesAppend(ls, l, PairOf);
    FromPairsSnoc(ParseLines(ls, PairOf).value, id, value);
  }

  /**
   * `write_processed` then `read_processed_users`: when the file is missing
   * or ends a line, appending a record line yields the old dictionary with
   * that id set to that username.
   */
  lemma ReadAfterRecord(file: Option<string>, studentId: string, username: string)
    requires Word(studentId) && Word(username)
    requires ReadPairs(file).Ok?
    requires file.Some? ==> EndsLine(file.value)
    ensures ReadPairs(Some(Appended(file, RecordLine(studentId, username)))) ==
      Ok(ReadPairs(file).value.Put(studentId, username))
  {
    var l := RecordLine(studentId, username);
    RecordLineRoundTrip(studentId, username);
    if file.None? {
      assert Lines([]) == [];
      assert ReadPairs(Some([])) == ReadPairs(file);
      ReadAppend([], l, studentId, username);
      assert [] + l == l;
    } else {
      ReadAppend(file.value, l, studentId, username);
    }
  }

  /** `open(path, 'a').write(line)`: a missing file is created with just that line. */
  function Appended(file: Option<string>, line: string): string {
    match file
    case None => line
    case Some(text) => text + line
  }

  // ---------------------------------------------------------------------
  // The username check

  predicate IsAsciiAlnum(c: char) {
    ('a' <= c <= 'z') || ('A' <= c <= 'Z') || ('0' <= c <= '9')
  }

  predicate AllAlnum(s: string) {
    forall i :: 0 <= i < |s| ==> IsAsciiAlnum(s[i])
  }

  /**
   * `re.sub(r'^[a-zA-Z0-9]+$', '', u)`: the pattern can only match at the
   * start; `$` matches at the very end or just before a final '\n', so a
   * letters-and-digits name followed by one line break leaves that '\n'.
   */
  function StripAlnum(u: string): string {
    if |u| > 0 && AllAlnum(u) then []
    else if |u| > 1 && u[|u| - 1] == '\n' && AllAlnum(u[..|u| - 1]) then "\n"
    else u
  }

  /** `^[a-zA-Z0-9]+$` matches `u[..i]`: a run of letters and digits, then the end or a final '\n'. */
  ghost predicate AnchoredMatch(u: string, i: nat) {
    0 < i <= |u| && AllAlnum(u[..i]) && (i == |u| || (i == |u| - 1 && u[i] == '\n'))
  }

  /** The substitution removes the one match when there is one, and changes nothing otherwise. */
  lemma StripAlnumSpec(u: string)
    ensures forall i: nat :: AnchoredMatch(u, i) ==> StripAlnum(u) == u[i..]
    ensures (forall i: nat :: !AnchoredMatch(u, i)) ==> StripAlnum(u) == u
  {
    assert u[..|u|] == u;
    if |u| > 0 && AllAlnum(u) {
      assert AnchoredMatch(u, |u|);
    } else if |u| > 1 && u[|u| - 1] == '\n' && AllAlnum(u[..|u| - 1]) {
      assert AnchoredMatch(u, |u| - 1);
      assert !IsAsciiAlnum(u[|u| - 1]);
    }
  }

  /** `not username or re.sub(...) != ''`, negated: the username is acceptable. */
  predicate LegalUsername(u: string) {
    u != [] && StripAlnum(u) == []
  }

  /** A username is acceptable exactly when it is non-empty ASCII letters and digits only. */
  lemma LegalUsernameSpec(u: string)
    ensures LegalUsername(u) <==> |u| > 0 && AllAlnum(u)
  {
    if |u| > 1 && u[|u| - 1] == '\n' && AllAlnum(u[..|u| - 1]) {
      assert !AllAlnum(u) by { assert !IsAsciiAlnum(u[|u| - 1]); }
    }
  }

  /** A name followed by a line break passes the pattern but not the check. */
  lemma TrailingNewlineRejected()
    ensures StripAlnum("abc\n") == "\n"
    ensures !LegalUsername("abc\n")
  {
    assert "abc\n"[..3] == "abc";
    assert !IsAsciiAlnum("abc\n"[3]);
  }

  // ---------------------------------------------------------------------
  // Registration

  /** The fields of the POSTed form. */
  datatype Form = Form(
    username: string,
    password: string,
    confirmPassword: string,
    studentId: string,
    studentName: string)

  /** `request.form['username'] or request.form['student_id']`. */
  function Username(f: Form): string {
    if f.username != [] then f.username else f.studentId
  }

  /** Why a registration is refused, in the order the checks run. */
  datatype Rejection =
    | IllegalUsername
    | PasswordMismatch
    | NotInvited
    | AlreadyRegistered
    | NameMismatch

  /** The message returned for each refusal. */
  function Message(r: Rejection): string {
    match r
    case IllegalUsername => "用户名包含非法字符!"
    case PasswordMismatch => "密码前后不一致!"
    case NotInvited => "学号不在受邀注册范围内!"
    case AlreadyRegistered => "学号已被注册!"
    case NameMismatch => "学号姓名不匹配!"
  }

  const Failed: string := "注册失败,请重试!(若重复出现，请联系系统管理员)"
  const Succeeded: string := "注册成功!"

  /** The `if`/`elif` chain: the first check that fails, or `None` when all pass. */
  function Validate(f: Form, users: Dict<string, string>, processed: Dict<string, string>): Option<Rejection> {
    var u := Username(f);
    if !LegalUsername(u) then Some(IllegalUsername)
    else if f.password != f.confirmPassword then Some(PasswordMismatch)
    else if f.studentId !in users.entries then Some(NotInvited)
    else if f.studentId in processed.entries then Some(AlreadyRegistered)
    else if f.studentName != users.entries[f.studentId] then Some(NameMismatch)
    else None
  }

  /** What the service does to the machine: the `useradd`, the `chpasswd`, the append. */
  datatype Effect =
    | UserAdd(username: string)
    | SetPassword(username: string, password: string)
    | Record(line: string)

  /** Whether each step succeeds: a `popen` that closes with `None`, an append that does not raise. */
  datatype Shell = Shell(useraddOk: bool, chpasswdOk: bool, appendOk: bool)

  datatype Reply = Reply(message: string, effects: seq<Effect>)

  /** The `try` block: each step runs only when the previous one succeeded. */
  function Create(username: string, password: string, studentId: string, sh: Shell): Reply {
    if !sh.useraddOk then Reply(Failed, [UserAdd(username)])
    else if !sh.chpasswdOk then Reply(Failed, [UserAdd(username), SetPassword(username, password)])
    else if !sh.appendOk then Reply(Failed, [UserAdd(username), SetPassword(username, password)])
    else Reply(Succeeded, [UserAdd(username), SetPassword(username, password), Record(RecordLine(studentId, username))])
  }

  /**
   * `register()`: read the registered ids, then the invited ones (either
   * read can raise), validate, and create the account when nothing failed.
   */
  function Register(f: Form, usersFile: Option<string>, processedFile: Option<string>, sh: Shell): Result<Reply> {
    match ReadPairs(processedFile)
    case Err(e) => Err(e)
    case Ok(processed) =>
      match ReadPairs(usersFile)
      case Err(e) => Err(e)
      case Ok(users) =>
        match Validate(f, users, processed)
        case Some(r) => Ok(Reply(Message(r), []))
        case None => Ok(Create(Username(f), f.password, f.studentId, sh))
  }

  /** The messages are pairwise different and none is empty, so a reply tells which case happened. */
  lemma MessagesDistinct()
    ensures forall r :: Message(r) != [] && Message(r) != Failed && Message(r) != Succeeded
    ensures forall r, s :: Message(r) == Message(s) ==> r == s
    ensures Failed != Succeeded
  {
    assert Failed[2] != Succeeded[2];
    forall r, s | r != s ensures Message(r) != Message(s) {
      assert Message(r)[2] != Message(s)[2];
    }
    forall r ensures Message(r) != Failed && Message(r) != Succeeded {
      assert Message(r)[2] != Failed[2] && Message(r)[2] != Succeeded[2];
    }
  }

  /**
   * Each refusal, characterised: a check's message is returned exactly when
   * every earlier check passed and that one failed; no refusal exactly when
   * all five pass.
   */
  lemma ValidateSpec(f: Form, users: Dict<string, string>, processed: Dict<string, string>)
    ensures Validate(f, users, processed) == Some(IllegalUsername) <==>
      !(|Username(f)| > 0 && AllAlnum(Username(f)))
    ensures Validate(f, users, processed) == Some(PasswordMismatch) <==>
      |Username(f)| > 0 && AllAlnum(Username(f)) && f.password != f.confirmPassword
    ensures Validate(f, users, processed) == Some(NotInvited) <==>
      |Username(f)| > 0 && AllAlnum(Username(f)) && f.password == f.confirmPassword &&
      f.studentId !in users.entries
    ensures Validate(f, users, processed) == Some(AlreadyRegistered) <==>
      |Username(f)| > 0 && AllAlnum(Username(f)) && f.password == f.confirmPassword &&
      f.studentId in users.entries && f.studentId in processed.entries
    ensures Validate(f, users, processed) == Some(NameMismatch) <==>
      |Username(f)| > 0 && AllAlnum(Username(f)) && f.password == f.confirmPassword &&
      f.studentId in users.entries && f.studentId !in processed.entries &&
      f.studentName != users.entries[f.studentId]
    ensures Validate(f, users, processed) == None <==>
      |Username(f)| > 0 && AllAlnum(Username(f)) && f.password == f.confirmPassword &&
      f.studentId in users.entries && f.studentId !in processed.entries &&
      f.studentName == users.entries[f.studentId]
  {
    LegalUsernameSpec(Username(f));
  }

  /** A refused registration replies with its message and touches nothing. */
  lemma RegisterRejects(f: Form, usersFile: Option<string>, processedFile: Option<string>, sh: Shell)
    requires ReadPairs(usersFile).Ok? && ReadPairs(processedFile).Ok?
    requires Validate(f, ReadPairs(usersFile).value, ReadPairs(processedFile).value).Some?
    ensures Register(f, usersFile, processedFile, sh) ==
      Ok(Reply(Message(Validate(f, ReadPairs(usersFile).value, ReadPairs(processedFile).value).value), []))
  {
  }

  /**
   * Success is reported exactly when both files read, every check passes,
   * and `useradd`, `chpasswd` and the append all succeed.
   */
  lemma RegisterSuccessIff(f: Form, usersFile: Option<string>, processedFile: Option<string>, sh: Shell)
    ensures (Register(f, usersFile, processedFile, sh).Ok? &&
             Register(f, usersFile, processedFile, sh).value.message == Succeeded) <==>
      && ReadPairs(usersFile).Ok? && ReadPairs(processedFile).Ok?
      && Validate(f, ReadPairs(usersFile).value, ReadPairs(processedFile).value).None?
      && sh.useraddOk && sh.chpasswdOk && sh.appendOk
  {
    MessagesDistinct();
  }

  /**
   * Whatever happens, the account created is the checked username (non-empty
   * letters and digits, so it cannot smuggle shell syntax into `useradd`),
   * its password is the confirmed one, and the recorded line pairs the
   * invited student id with that username.
   */
  lemma RegisterEffectsSafe(f: Form, usersFile: Option<string>, processedFile: Option<string>, sh: Shell)
    requires Register(f, usersFile, processedFile, sh).Ok?
    ensures forall e :: e in Register(f, usersFile, processedFile, sh).value.effects ==>
      && (e.UserAdd? ==> e.username == (if f.username == [] then f.studentId else f.username))
      && (e.UserAdd? ==> |e.username| > 0 && AllAlnum(e.username))
      && (e.SetPassword? ==> e.username == Username(f) && e.password == f.password == f.confirmPassword)
      && (e.Record? ==> e.line == RecordLine(f.studentId, Username(f)) && f.studentId in ReadPairs(usersFile).value.entries)
  {
    var users := ReadPairs(usersFile).value;
    var processed := ReadPairs(processedFile).value;
    if Validate(f, users, processed).None? {
      LegalUsernameSpec(Username(f));
    }
  }

  /**
   * Once every check passes, a failing `useradd`, `chpasswd` or append gets
   * the generic retry message and no line is recorded, so the student id
   * stays free for another attempt; `useradd` is always the first step.
   */
  lemma RegisterFailsGenerically(f: Form, usersFile: Option<string>, processedFile: Option<string>, sh: Shell)
    requires ReadPairs(usersFile).Ok? && ReadPairs(processedFile).Ok?
    requires Validate(f, ReadPairs(usersFile).value, ReadPairs(processedFile).value).None?
    ensures Register(f, usersFile, processedFile, sh).Ok?
    ensures var reply := Register(f, usersFile, processedFile, sh).value;
      && |reply.effects| > 0 && reply.effects[0] == UserAdd(Username(f))
      && (reply.message == Failed <==> !(sh.useraddOk && sh.chpasswdOk && sh.appendOk))
      && (reply.message == Failed ==> forall e :: e in reply.effects ==> !e.Record?)
  {
    MessagesDistinct();
  }

  /** A username of letters and digits is a word. */
  lemma AlnumWord(u: string)
    requires |u| > 0 && AllAlnum(u)
    ensures Word(u)
  {
    forall i | 0 <= i < |u| ensures !IsSpace(u[i]) {
      assert IsAsciiAlnum(u[i]);
    }
  }

  /** A form whose student id is already recorded is refused without effects, whatever else it carries. */
  lemma RefusedOnceRecorded(g: Form, usersFile: Option<string>, processedFile: Option<string>, sh: Shell)
    requires ReadPairs(usersFile).Ok? && ReadPairs(processedFile).Ok?
    requires g.studentId in ReadPairs(processedFile).value.entries
    ensures Register(g, usersFile, processedFile, sh).Ok?
    ensures Register(g, usersFile, processedFile, sh).value.message != Succeeded
    ensures Register(g, usersFile, processedFile, sh).value.effects == []
  {
    var r := Validate(g, ReadPairs(usersFile).value, ReadPairs(processedFile).value);
    assert r.Some?;
    assert Register(g, usersFile, processedFile, sh) == Ok(Reply(Message(r.value), []));
    MessagesDistinct();
  }

  /**
   * A student id registers at most once: after a successful registration
   * has appended its line (to a registered-ids file that was missing or
   * ended a line), any later form with the same student id is refused
   * without effects, whatever username, password or name it carries.
   */
  lemma RegisterOnce(f: Form, g: Form, usersFile: Option<string>, processedFile: Option<string>, sh: Shell, sh': Shell)
    requires processedFile.Some? ==> EndsLine(processedFile.value)
    requires Register(f, usersFile, processedFile, sh).Ok?
    requires Register(f, usersFile, processedFile, sh).value.message == Succeeded
    requires g.studentId == f.studentId
    ensures var after := Some(Appended(processedFile, RecordLine(f.studentId, Username(f))));
      && Register(g, usersFile, after, sh').Ok?
      && Register(g, usersFile, after, sh').value.message != Succeeded
      && Register(g, usersFile, after, sh').value.effects == []
  {
    MessagesDistinct();
    assert ReadPairs(usersFile).Ok? && ReadPairs(processedFile).Ok?;
    var users := ReadPairs(usersFile).value;
    assert Validate(f, users, ReadPairs(processedFile).value).None?;
    var u := Username(f);
    LegalUsernameSpec(u);
    AlnumWord(u);
    ReadPairsWords(usersFile);
    assert Word(f.studentId);
    ReadAfterRecord(processedFile, f.studentId, u);
    var after := Some(Appended(processedFile, RecordLine(f.studentId, u)));
    RefusedOnceRecorded(g, usersFile, after, sh');
  }

  /** The invited-students file of the examples below: one student, `s1`, named `Ann`. */
  lemma ExampleUsers()
    ensures ReadPairs(Some(RecordLine("s1", "Ann"))) == Ok(Empty().Put("s1", "Ann"))
  {
    assert Word("s1") && Word("Ann") by {
      assert !IsSpace('s') && !IsSpace('1') && !IsSpace('A') && !IsSpace('n');
    }
    ReadAfterRecord(None, "s1", "Ann");
  }

  /** `register()` once both files have been read into `users` and `processed`. */
  lemma RegisterRead(f: Form, usersFile: Option<string>, processedFile: Option<string>, sh: Shell,
                     users: Dict<string, string>, processed: Dict<string, string>)
    requires ReadPairs(usersFile) == Ok(users) && ReadPairs(processedFile) == Ok(processed)
    ensures Validate(f, users, processed).Some? ==>
      Register(f, usersFile, processedFile, sh) == Ok(Reply(Message(Validate(f, users, processed).value), []))
    ensures Validate(f, users, processed).None? ==>
      Register(f, usersFile, processedFile, sh) == Ok(Create(Username(f), f.password, f.studentId, sh))
  {
  }

  /** The checks on an example form with an empty username and student id `s1`. */
  lemma ExampleValidate(name: string)
    ensures Validate(Form("", "pw", "pw", "s1", name), Empty().Put("s1", "Ann"), Empty()) ==
      if name == "Ann" then None else Some(NameMismatch)
  {
    assert Username(Form("", "pw", "pw", "s1", name)) == "s1";
    assert LegalUsername("s1") by {
      LegalUsernameSpec("s1");
      assert IsAsciiAlnum('s') && IsAsciiAlnum('1');
    }
  }

  /** An invited student who leaves the username empty gets an account named after the student id. */
  lemma RegisterExample()
    ensures Register(Form("", "pw", "pw", "s1", "Ann"), Some(RecordLine("s1", "Ann")), None, Shell(true, true, true)) ==
      Ok(Reply(Succeeded, [UserAdd("s1"), SetPassword("s1", "pw"), Record(RecordLine("s1", "s1"))]))
  {
    ExampleUsers();
    ExampleValidate("Ann");
    RegisterRead(Form("", "pw", "pw", "s1", "Ann"), Some(RecordLine("s1", "Ann")), None, Shell(true, true, true),
                 Empty().Put("s1", "Ann"), Empty());
  }

  /** The same student giving another name is refused. */
  lemma RegisterNameExample()
    ensures Register(Form("", "pw", "pw", "s1", "Bob"), Some(RecordLine("s1", "Ann")), None, Shell(true, true, true)) ==
      Ok(Reply(Message(NameMismatch), []))
  {
    ExampleUsers();
    ExampleValidate("Bob");
    assert "Bob" != "Ann" by { assert "Bob"[0] != "Ann"[0]; }
    RegisterRead(Form("", "pw", "pw", "s1", "Bob"), Some(RecordLine("s1", "Ann")), None, Shell(true, true, true),
                 Empty().Put("s1", "Ann"), Empty());
  }
}
