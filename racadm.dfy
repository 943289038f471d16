/**
 * The parts of the `racadm` calls that do not depend on the process itself: the
 * argument vector of `run_racadm_command`, the report file name and the job-queue
 * test of `collect_tsr_log`.
 */
module Racadm {
  import opened Wrappers
  import opened Text
  import opened Net

  const RacadmProgram := "racadm"

  /** A process to start: the program and its arguments. */
  datatype Command = Command(program: string, args: seq<string>)

  /** The target, user, password and sub-command a racadm argument vector carries, if it has the `-r -u -p` prefix. */
  function ConnectionOf(argv: seq<string>): Option<(string, string, string, seq<string>)>
  {
    if |argv| >= 6 && argv[0] == "-r" && argv[2] == "-u" && argv[4] == "-p" then
      Some((argv[1], argv[3], argv[5], argv[6..]))
    else
      None
  }

  /**
   * The `Command` builder of `run_racadm_command`: `racadm -r <ip> -u <user> -p <pass>`
   * followed by the sub-command's arguments, one `arg` at a time.
   */
  method BuildRacadmCommand(ip: string, user: string, pass: string, args: seq<string>) returns (cmd: Command)
    ensures cmd.program == RacadmProgram
    ensures |cmd.args| == 6 + |args| && cmd.args[6..] == args
    ensures ConnectionOf(cmd.args) == Some((ip, user, pass, args))
  {
    cmd := Command(RacadmProgram, []);
    cmd := cmd.(args := cmd.args + ["-r"]);
    cmd := cmd.(args := cmd.args + [ip]);
    cmd := cmd.(args := cmd.args + ["-u"]);
    cmd := cmd.(args := cmd.args + [user]);
    cmd := cmd.(args := cmd.args + ["-p"]);
    cmd := cmd.(args := cmd.args + [pass]);
    cmd := cmd.(args := cmd.args + args);
  }

  /**
   * The report file name: "TSR_", the target address with every '.' turned into '-',
   * '_', the local timestamp (formatted `%Y%m%d_%H%M%S`) and ".zip".
   */
  function TsrFilename(ip: string, timestamp: string): (name: string)
    ensures |name| == |ip| + |timestamp| + 9
    ensures name[..4] == "TSR_" && name[|name| - 4..] == ".zip"
    ensures forall i :: 0 <= i < |ip| ==> name[4 + i] == if ip[i] == '.' then '-' else ip[i]
    ensures name[4 + |ip|] == '_' && name[5 + |ip|..|name| - 4] == timestamp
  {
    "TSR_" + Replace(ip, '.', "-") + "_" + timestamp + ".zip"
  }

  /** Decimal digits contain no '.', so `Replace` leaves them alone. */
  lemma DecimalHasNoDot(n: nat)
    ensures Replace(Decimal(n), '.', "-") == Decimal(n)
  {
    var d := Decimal(n);
    assert forall i :: 0 <= i < |d| ==> IsDigit(d[i]);
  }

  /** Replacing '.' by '-' in two texts joined by '.' joins their replacements by '-'. */
  lemma ReplaceJoinedByDot(x: string, y: string)
    ensures Replace(x + "." + y, '.', "-") == Replace(x, '.', "-") + "-" + Replace(y, '.', "-")
  {
    assert Replace(".", '.', "-") == "-";
    ReplaceAppend(x + ".", y, '.', "-");
    ReplaceAppend(x, ".", '.', "-");
  }

  /** The four decimal octets of an address joined by '-', as in 192-168-1-200. */
  function DashedIpv4(ip: Ipv4): string
  {
    Decimal(ip.a) + "-" + Decimal(ip.b) + "-" + Decimal(ip.c) + "-" + Decimal(ip.d)
  }

  /** Replacing the dots of an address's dotted-decimal text gives its dashed form. */
  lemma DashedIpv4Text(ip: Ipv4)
    ensures Replace(Ipv4Text(ip), '.', "-") == DashedIpv4(ip)
  {
    var a, b, c, d := Decimal(ip.a), Decimal(ip.b), Decimal(ip.c), Decimal(ip.d);
    DecimalHasNoDot(ip.a);
    DecimalHasNoDot(ip.b);
    DecimalHasNoDot(ip.c);
    DecimalHasNoDot(ip.d);
    ReplaceJoinedByDot(a, b);
    ReplaceJoinedByDot(a + "." + b, c);
    ReplaceJoinedByDot(a + "." + b + "." + c, d);
  }

  /** For an IPv4 target the name spells the four octets joined by '-', as in TSR_192-168-1-200_<timestamp>.zip. */
  lemma TsrFilenameOfIpv4(ip: Ipv4, timestamp: string)
    ensures TsrFilename(Ipv4Text(ip), timestamp) == "TSR_" + DashedIpv4(ip) + "_" + timestamp + ".zip"
  {
    DashedIpv4Text(ip);
  }

  const JobName := "SupportAssist Collection"

  /** What one look at `racadm jobqueue view` output decides. */
  datatype PollDecision = JobCompleted | QueueEmpty | KeepPolling

  /**
   * The job-queue test: the job is done when the output names the SupportAssist
   * job and says "Completed"; the queue counts as empty when it names neither that
   * job nor any job id ("JID_"); otherwise polling goes on.
   */
  function JobQueueDecision(stdout: string): (d: PollDecision)
    ensures d == JobCompleted <==> Contains(stdout, JobName) && Contains(stdout, "Completed")
    ensures d == QueueEmpty <==> !Contains(stdout, JobName) && !Contains(stdout, "JID_")
    ensures d == KeepPolling <==> (Contains(stdout, JobName) && !Contains(stdout, "Completed"))
                                  || (!Contains(stdout, JobName) && Contains(stdout, "JID_"))
  {
    if Contains(stdout, JobName) && Contains(stdout, "Completed") then JobCompleted
    else if !Contains(stdout, JobName) && !Contains(stdout, "JID_") then QueueEmpty
    else KeepPolling
  }

  /**
   * The test reads the whole queue listing: any output that names the SupportAssist
   * job and, anywhere after it, says "Completed" ends the wait, even when "Completed"
   * belongs to another job and the SupportAssist job is still running.
   */
  lemma CompletedAnywhereEndsWait(before: string, between: string, after: string)
    ensures JobQueueDecision(before + JobName + between + "Completed" + after) == JobCompleted
  {
    var out := before + JobName + between + "Completed" + after;
    assert OccursAt(out, JobName, |before|) by {
      assert out[|before|..|before| + |JobName|] == JobName;
    }
    var k := |before| + |JobName| + |between|;
    assert OccursAt(out, "Completed", k) by {
      assert out[k..k + |"Completed"|] == "Completed";
    }
  }

  /** A query result that ends the polling: racadm could not be run (`None`), or its output settles the job. */
  predicate StopsPolling(output: Option<string>)
  {
    output.None? || JobQueueDecision(output.value) != KeepPolling
  }

  /**
   * The polling loop of `collect_tsr_log` over the successive query results: returns
   * the index of the query that ends it, or `None` when every given query says to go on.
   */
  method PollJobQueue(outputs: seq<Option<string>>) returns (stoppedAt: Option<nat>)
    ensures stoppedAt.Some? ==> stoppedAt.value < |outputs| && StopsPolling(outputs[stoppedAt.value])
    ensures stoppedAt.Some? ==> forall j :: 0 <= j < stoppedAt.value ==> !StopsPolling(outputs[j])
    ensures stoppedAt.None? ==> forall j :: 0 <= j < |outputs| ==> !StopsPolling(outputs[j])
  {
    var i := 0;
    while i < |outputs|
      invariant 0 <= i <= |outputs|
      invariant forall j :: 0 <= j < i ==> !StopsPolling(outputs[j])
    {
      match outputs[i] {
        case None =>
          return Some(i);
        case Some(stdout) =>
          var decision := JobQueueDecision(stdout);
          if decision == JobCompleted || decision == QueueEmpty {
            return Some(i);
          }
      }
      i := i + 1;
    }
    return None;
  }
}
