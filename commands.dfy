/**
 * The shell commands the two daemons issue through `os.popen`. The model
 * records them in an action log instead of running them.
 */
module Commands {
  import opened Wrappers
  import opened Text

  datatype Command =
    | Renice(pid: int, priority: int)  // `renice -n <priority> -p <pid>`
    | Kill(pid: int)                   // `kill -9 <pid>`

  /** The command line handed to the shell, built with `%d` for each number. */
  function Render(c: Command): string {
    match c
    case Renice(pid, priority) => "renice -n " + IntToString(priority) + " -p " + IntToString(pid)
    case Kill(pid) => "kill -9 " + IntToString(pid)
  }

  /** Reads a command line of either shape back into a command. */
  function ReadCommand(line: string): Option<Command> {
    var words := SplitOn(line, ' ');
    if |words| == 5 && words[0] == "renice" && words[1] == "-n" && words[3] == "-p" then
      match (ParseInt(words[2]), ParseInt(words[4]))
      case (Some(priority), Some(pid)) => Some(Renice(pid, priority))
      case _ => None
    else if |words| == 3 && words[0] == "kill" && words[1] == "-9" then
      match ParseInt(words[2])
      case Some(pid) => Some(Kill(pid))
      case None => None
    else None
  }

  /** The command line names exactly the command's numbers: distinct commands give distinct lines. */
  lemma RenderRoundTrip(c: Command)
    ensures ReadCommand(Render(c)) == Some(c)
  {
    match c
    case Renice(pid, priority) => ReniceRoundTrip(pid, priority);
    case Kill(pid) => KillRoundTrip(pid);
  }

  lemma ReniceRoundTrip(pid: int, priority: int)
    ensures ReadCommand(Render(Renice(pid, priority))) == Some(Renice(pid, priority))
  {
    var a, b := IntToString(priority), IntToString(pid);
    IntRoundTrip(priority);
    IntRoundTrip(pid);
    ReniceLine(a, b);
    var words := SplitOn(Render(Renice(pid, priority)), ' ');
    assert words == ["renice", "-n", a, "-p", b];
    assert |words| == 5 && words[0] == "renice" && words[1] == "-n" && words[3] == "-p";
    assert ParseInt(words[2]) == Some(priority) && ParseInt(words[4]) == Some(pid);
  }

  lemma KillRoundTrip(pid: int)
    ensures ReadCommand(Render(Kill(pid))) == Some(Kill(pid))
  {
    var a := IntToString(pid);
    IntRoundTrip(pid);
    KillLine(a);
  }

  /** A `renice` line splits on blanks into its five words. */
  lemma ReniceLine(a: string, b: string)
    requires NoSpace(a) && NoSpace(b)
    ensures SplitOn("renice -n " + a + " -p " + b, ' ') == ["renice", "-n", a, "-p", b]
  {
    assert ' ' !in a && ' ' !in b by {
      assert IsSpace(' ');
    }
    ReniceWords(a, b);
    SplitOnJoin(["renice", "-n", a, "-p", b], ' ');
  }

  /** A `kill` line splits on blanks into its three words. */
  lemma KillLine(a: string)
    requires NoSpace(a)
    ensures SplitOn("kill -9 " + a, ' ') == ["kill", "-9", a]
  {
    assert ' ' !in a by {
      assert IsSpace(' ');
    }
    KillWords(a);
    SplitOnJoin(["kill", "-9", a], ' ');
  }

  lemma ReniceWords(a: string, b: string)
    ensures Join(["renice", "-n", a, "-p", b], ' ') == "renice -n " + a + " -p " + b
  {
    var words := ["renice", "-n", a, "-p", b];
    assert words[1..][1..][1..][1..] == [b];
    assert Join(words[1..][1..][1..], ' ') == "-p" + [' '] + b;
    assert Join(words[1..][1..], ' ') == a + [' '] + ("-p" + [' '] + b);
    assert Join(words[1..], ' ') == "-n" + [' '] + (a + [' '] + ("-p" + [' '] + b));
  }

  lemma KillWords(a: string)
    ensures Join(["kill", "-9", a], ' ') == "kill -9 " + a
  {
    var words := ["kill", "-9", a];
    assert words[1..][1..] == [a];
    assert Join(words[1..], ' ') == "-9" + [' '] + a;
  }
}
