/** iSCSI portals and targets: discovery, device paths, login, logout and the
    readiness poll. The iscsiadm command, os.Lstat and the context are not run:
    what they report is an input (an AdmOutcome, a trace of Rounds). */
module Iscsi {
  import opened GoStrings
  import opened Outcomes
  import FilePath
  import HostPort
  import Scanner

  /** The port NewPortal uses when none is given. */
  const DefaultPort := "3260"
  /** The LUN ready waits for. */
  const DefaultLun := 0
  /** The directory the kernel initiator names its block devices in. */
  const DeviceDir := "/dev/disk/by-path"
  /** iscsiadm's words for a login to a session that already exists. */
  const AlreadyPresent := "already present"
  /** iscsiadm's words for a logout with no session to end. */
  const NoMatchingSessions := "No matching sessions found"

  /** An iSCSI portal; `address` is "host:port" as net.JoinHostPort builds it. */
  datatype Portal = Portal(address: string)

  /** A target reachable through a portal. */
  datatype Target = Target(iqn: string, portal: Portal)

  /** What one iscsiadm run reported: its combined output, or its output and
      the reason it failed. */
  datatype AdmOutcome = Ran(output: string) | Failed(output: string, cause: string)
  {
    /** The error adm returns: errors.Wrapf(err, "%s", out). */
    function Error(): Error
      requires Failed?
    {
      Exec(output, cause)
    }

    /** That error's text, output first. */
    function Message(): string
      requires Failed?
    {
      output + ": " + cause
    }
  }

  /** One round of the readiness poll: whether the context was done when the
      round began, and the device nodes that existed when it looked. */
  datatype Round = Round(cancelled: bool, devices: set<string>)

  /** What the host reports during one login: the iscsiadm outcome, then the
      rounds of the readiness poll that follows it. */
  datatype Host = Host(adm: AdmOutcome, rounds: seq<Round>)

  // ---------------------------------------------------------------- portals

  /** NewPortal: the address of `ip` and `port`, or of the default port when
      `port` is empty. */
  function NewPortal(ip: string, port: string): (p: Portal)
    ensures ':' !in ip ==> p.address == ip + ":" + (if port == "" then DefaultPort else port)
    ensures ':' !in port && HostPort.Unbracketed(ip) && HostPort.Unbracketed(port) ==>
      HostPort.SplitHostPort(p.address) == HostPort.Some((ip, if port == "" then DefaultPort else port))
  {
    var port' := if port == "" then DefaultPort else port;
    assert ':' !in port && HostPort.Unbracketed(ip) && HostPort.Unbracketed(port) ==>
      HostPort.SplitHostPort(HostPort.JoinHostPort(ip, port')) == HostPort.Some((ip, port')) by {
      if ':' !in port && HostPort.Unbracketed(ip) && HostPort.Unbracketed(port) {
        assert ':' !in port' && HostPort.Unbracketed(port');
        HostPort.HostPortRoundTrip(ip, port');
      }
    }
    Portal(HostPort.JoinHostPort(ip, port'))
  }

  // ----------------------------------------------------------- device paths

  /** The part of a device name that does not depend on the LUN. */
  function DevicePrefix(t: Target): string
  {
    "ip-" + t.portal.address + "-iscsi-" + t.iqn + "-lun-"
  }

  /** Target.path: the device node the initiator creates for `lun`. */
  function Path(t: Target, lun: int): (r: string)
    ensures '/' !in t.portal.address && '/' !in t.iqn ==>
      r == DeviceDir + "/ip-" + t.portal.address + "-iscsi-" + t.iqn + "-lun-" + Decimal(lun)
  {
    assert '/' !in t.portal.address && '/' !in t.iqn ==>
      FilePath.Join(DeviceDir, DevicePrefix(t) + Decimal(lun))
      == DeviceDir + "/ip-" + t.portal.address + "-iscsi-" + t.iqn + "-lun-" + Decimal(lun) by {
      if '/' !in t.portal.address && '/' !in t.iqn {
        PathFormat(t, lun);
      }
    }
    FilePath.Join(DeviceDir, DevicePrefix(t) + Decimal(lun))
  }

  lemma PathFormat(t: Target, lun: int)
    requires '/' !in t.portal.address && '/' !in t.iqn
    ensures FilePath.Join(DeviceDir, DevicePrefix(t) + Decimal(lun))
         == DeviceDir + "/ip-" + t.portal.address + "-iscsi-" + t.iqn + "-lun-" + Decimal(lun)
  {
    var name := DevicePrefix(t) + Decimal(lun);
    PlainDeviceName(t, lun);
    FilePath.JoinPlainName(name);
    Regroup(DeviceDir, t.portal.address, t.iqn, Decimal(lun));
  }

  /** Moving the separator of a device path into its first literal. */
  lemma Regroup(dir: string, a: string, q: string, d: string)
    ensures dir + "/" + ("ip-" + a + "-iscsi-" + q + "-lun-" + d)
         == dir + "/ip-" + a + "-iscsi-" + q + "-lun-" + d
  {
    assert "/" + "ip-" == "/ip-";
  }

  lemma PlainDeviceName(t: Target, lun: int)
    requires '/' !in t.portal.address && '/' !in t.iqn
    ensures '/' !in DevicePrefix(t) + Decimal(lun)
    ensures FilePath.IsName(DevicePrefix(t) + Decimal(lun))
  {
    DecimalShape(lun);
    var name := DevicePrefix(t) + Decimal(lun);
    assert name[0] == 'i';
    assert |name| > 2;
  }

  /** The last element of a device path is the LUN-independent tail of the
      prefix followed by the LUN in decimal, however the IQN is shaped. */
  lemma PathLastElement(t: Target, lun: int)
    ensures FilePath.Last(FilePath.Split(Path(t, lun)))
         == FilePath.Last(FilePath.Split(DevicePrefix(t))) + Decimal(lun)
  {
    var name := DevicePrefix(t) + Decimal(lun);
    DecimalShape(lun);
    FilePath.SplitAppendName(DevicePrefix(t), Decimal(lun));
    var last := FilePath.Last(FilePath.Split(name));
    assert last[|last| - 1] == Decimal(lun)[|Decimal(lun)| - 1];
    assert FilePath.IsName(last);
    FilePath.JoinKeepsLastName(DeviceDir, name);
  }

  /** Distinct LUNs of a target have distinct device paths, and equal LUNs
      the same one. */
  lemma PathInjective(t: Target, a: int, b: int)
    ensures Path(t, a) == Path(t, b) <==> a == b
  {
    if Path(t, a) == Path(t, b) {
      PathLastElement(t, a);
      PathLastElement(t, b);
      var head := FilePath.Last(FilePath.Split(DevicePrefix(t)));
      assert head + Decimal(a) == head + Decimal(b);
      assert Decimal(a) == (head + Decimal(a))[|head|..];
      assert Decimal(b) == (head + Decimal(b))[|head|..];
      DecimalInjective(a, b);
    }
  }

  // -------------------------------------------------------------- discovery

  /** strings.SplitN(line, " ", 2)[1]: the text after the first space, later
      spaces included. */
  function AfterFirstSpace(line: string): string
    requires ' ' in line
  {
    line[IndexOf(line, ' ') + 1..]
  }

  lemma AfterFirstSpaceOf(info: string, iqn: string)
    requires ' ' !in info
    ensures ' ' in info + " " + iqn
    ensures AfterFirstSpace(info + " " + iqn) == iqn
  {
    var line := info + " " + iqn;
    assert line[|info|] == ' ';
    assert forall j :: 0 <= j < |info| ==> line[j] == info[j];
    assert IndexOf(line, ' ') == |info|;
    assert line[|info| + 1..] == iqn;
  }

  /** The lines the discovery loop does not skip. */
  function NonBlank(lines: seq<string>): (r: seq<string>)
    ensures forall k :: 0 <= k < |r| ==> r[k] != ""
  {
    if |lines| == 0 then []
    else if lines[0] == "" then NonBlank(lines[1..])
    else [lines[0]] + NonBlank(lines[1..])
  }

  /** Line `k` is the first line that is neither blank nor holds a space. */
  ghost predicate FirstMalformed(lines: seq<string>, k: int)
  {
    && 0 <= k < |lines|
    && lines[k] != "" && ' ' !in lines[k]
    && forall j :: 0 <= j < k ==> lines[j] == "" || ' ' in lines[j]
  }

  /** The loop of parseTargets over scanned lines. */
  function ParseLines(p: Portal, lines: seq<string>): (r: Outcome<seq<Target>>)
    ensures !r.Blocked?
    ensures r.Ok? <==> Spaced(lines)
    ensures r.Err? ==> exists k :: FirstMalformed(lines, k) && r.error == IndexOutOfRange(lines[k])
    ensures r.Ok? ==> Parsed(p, NonBlank(lines), r.value)
    decreases |lines|
  {
    if |lines| == 0 then Ok([])
    else
      var line := lines[0];
      var rest := ParseLines(p, lines[1..]);
      assert forall k :: 0 <= k < |lines[1..]| ==> lines[1..][k] == lines[k + 1];
      if line == "" then
        assert NonBlank(lines) == NonBlank(lines[1..]);
        assert rest.Err? ==> exists k :: FirstMalformed(lines, k) && rest.error == IndexOutOfRange(lines[k]) by {
          if rest.Err? {
            MalformedShift(lines, rest.error);
          }
        }
        rest
      else if ' ' !in line then
        assert FirstMalformed(lines, 0);
        Err(IndexOutOfRange(line))
      else
        match rest
        case Ok(ts) =>
          assert NonBlank(lines) == [line] + NonBlank(lines[1..]);
          ParsedCons(p, line, NonBlank(lines[1..]), ts);
          Ok([Target(AfterFirstSpace(line), p)] + ts)
        case Err(e) =>
          assert exists k :: FirstMalformed(lines, k) && e == IndexOutOfRange(lines[k]) by {
            MalformedShift(lines, e);
          }
          Err(e)
  }

  /** `ts` holds the targets the lines `nb` name, one each, in order. */
  predicate Parsed(p: Portal, nb: seq<string>, ts: seq<Target>)
  {
    && |ts| == |nb|
    && forall i :: 0 <= i < |ts| ==> ' ' in nb[i] && ts[i] == Target(AfterFirstSpace(nb[i]), p)
  }

  lemma ParsedCons(p: Portal, line: string, nb: seq<string>, ts: seq<Target>)
    requires ' ' in line && Parsed(p, nb, ts)
    ensures Parsed(p, [line] + nb, [Target(AfterFirstSpace(line), p)] + ts)
  {
    var nb', ts' := [line] + nb, [Target(AfterFirstSpace(line), p)] + ts;
    assert forall i :: 1 <= i < |ts'| ==> ts'[i] == ts[i - 1] && nb'[i] == nb[i - 1];
  }

  /** A well-formed or blank first line moves the first malformed line one on. */
  lemma MalformedShift(lines: seq<string>, e: Error)
    requires |lines| > 0 && (lines[0] == "" || ' ' in lines[0])
    requires exists k :: FirstMalformed(lines[1..], k) && e == IndexOutOfRange(lines[1..][k])
    ensures exists k :: FirstMalformed(lines, k) && e == IndexOutOfRange(lines[k])
  {
    var k :| FirstMalformed(lines[1..], k) && e == IndexOutOfRange(lines[1..][k]);
    assert lines[1..][k] == lines[k + 1];
    assert forall j :: 0 < j <= k ==> lines[j] == lines[1..][j - 1];
    assert FirstMalformed(lines, k + 1);
  }

  /** Every non-blank line holds a space, so parseTargets can split it. */
  predicate Spaced(lines: seq<string>)
  {
    forall k :: 0 <= k < |lines| && lines[k] != "" ==> ' ' in lines[k]
  }

  /** parseTargets: one target per non-blank line of the discovery output. */
  function ParseTargets(p: Portal, data: string): (r: Outcome<seq<Target>>)
    ensures !r.Blocked?
    ensures r.Ok? <==> Spaced(Scanner.Lines(data))
    ensures r.Ok? ==> Parsed(p, NonBlank(Scanner.Lines(data)), r.value)
    ensures r.Err? ==> (exists k :: FirstMalformed(Scanner.Lines(data), k)
                                 && r.error == IndexOutOfRange(Scanner.Lines(data)[k]))
  {
    ParseLines(p, Scanner.Lines(data))
  }

  /** Portal.Targets: runs discovery and parses its output. */
  function Targets(p: Portal, adm: AdmOutcome): (r: Outcome<seq<Target>>)
    ensures !r.Blocked?
    ensures adm.Failed? ==> r == Err(Wrapped("discover targets", adm.Error()))
    ensures r.Ok? ==> adm.Ran? && forall i :: 0 <= i < |r.value| ==> r.value[i].portal == p
    ensures adm.Ran? ==> (r.Ok? <==> Spaced(Scanner.Lines(adm.output)))
    ensures adm.Ran? && r.Ok? ==> Parsed(p, NonBlank(Scanner.Lines(adm.output)), r.value)
    ensures adm.Ran? && r.Err? ==> (exists k :: FirstMalformed(Scanner.Lines(adm.output), k)
                                             && r.error == IndexOutOfRange(Scanner.Lines(adm.output)[k]))
  {
    match adm
    case Failed(_, _) => Err(Wrapped("discover targets", adm.Error()))
    case Ran(out) => ParseTargets(p, out)
  }

  /** One line of sendtargets output: portal information, a space, the IQN. */
  datatype Record = Record(info: string, iqn: string)

  predicate WellFormedRecord(r: Record)
  {
    ' ' !in r.info && '\n' !in r.info && Scanner.PlainLine(r.iqn)
  }

  function RecordLines(records: seq<Record>): (r: seq<string>)
    ensures |r| == |records|
  {
    if |records| == 0 then []
    else [records[0].info + " " + records[0].iqn] + RecordLines(records[1..])
  }

  /** Discovery output written from records, each line ended by `eol`
      ("\n" or "\r\n"). */
  function RenderDiscovery(records: seq<Record>, eol: string): string
  {
    Scanner.Terminated(RecordLines(records), eol)
  }

  /** The targets a list of records names, in order, on portal `p`. */
  function RecordTargets(p: Portal, records: seq<Record>): (ts: seq<Target>)
    ensures |ts| == |records|
    ensures forall i :: 0 <= i < |records| ==> ts[i] == Target(records[i].iqn, p)
  {
    if |records| == 0 then []
    else [Target(records[0].iqn, p)] + RecordTargets(p, records[1..])
  }

  lemma {:induction false} ParseRecordLines(p: Portal, records: seq<Record>)
    requires forall k :: 0 <= k < |records| ==> WellFormedRecord(records[k])
    ensures ParseLines(p, RecordLines(records)) == Ok(RecordTargets(p, records))
    decreases |records|
  {
    if |records| > 0 {
      var r := records[0];
      var line := r.info + " " + r.iqn;
      var rest := RecordLines(records[1..]);
      ParseRecordLines(p, records[1..]);
      AfterFirstSpaceOf(r.info, r.iqn);
      assert line[|r.info|] == ' ';
      ParseLinesCons(p, line, rest);
    }
  }

  /** A line holding a space, in front of lines that parse, adds its target
      in front of theirs. */
  lemma ParseLinesCons(p: Portal, line: string, rest: seq<string>)
    requires ' ' in line && ParseLines(p, rest).Ok?
    ensures ParseLines(p, [line] + rest) == Ok([Target(AfterFirstSpace(line), p)] + ParseLines(p, rest).value)
  {
    var lines := [line] + rest;
    assert lines[0] == line && lines[1..] == rest;
  }

  lemma RecordLinePlain(r: Record)
    requires WellFormedRecord(r)
    ensures Scanner.PlainLine(r.info + " " + r.iqn)
    ensures ' ' in r.info + " " + r.iqn
  {
    var line := r.info + " " + r.iqn;
    assert line[|r.info|] == ' ';
    assert '\n' !in line by {
      assert forall j :: 0 <= j < |line| ==> line[j] in r.info || line[j] == ' ' || line[j] in r.iqn;
    }
    if |r.iqn| > 0 {
      assert line[|line| - 1] == r.iqn[|r.iqn| - 1];
    }
  }

  lemma RecordLinesPlain(records: seq<Record>)
    requires forall k :: 0 <= k < |records| ==> WellFormedRecord(records[k])
    ensures forall k :: 0 <= k < |RecordLines(records)| ==> Scanner.PlainLine(RecordLines(records)[k])
  {
    forall k | 0 <= k < |RecordLines(records)|
      ensures Scanner.PlainLine(RecordLines(records)[k])
    {
      RecordLineAt(records, k);
      RecordLinePlain(records[k]);
    }
  }

  lemma {:induction false} RecordLineAt(records: seq<Record>, k: int)
    requires 0 <= k < |records|
    ensures RecordLines(records)[k] == records[k].info + " " + records[k].iqn
    decreases k
  {
    if k > 0 {
      RecordLineAt(records[1..], k - 1);
    }
  }

  /** Parsing what a portal reports gives back its targets, in order, all
      bound to the portal that was asked. */
  lemma DiscoveryRoundTrip(p: Portal, records: seq<Record>, eol: string)
    requires forall k :: 0 <= k < |records| ==> WellFormedRecord(records[k])
    requires eol == "\n" || eol == "\r\n"
    ensures ParseTargets(p, RenderDiscovery(records, eol)) == Ok(RecordTargets(p, records))
  {
    var lines := RecordLines(records);
    RecordLinesPlain(records);
    Scanner.ScanTerminated(lines, eol, "");
    assert RenderDiscovery(records, eol) + "" == RenderDiscovery(records, eol);
    assert lines + [] == lines;
    ParseRecordLines(p, records);
  }

  // ---------------------------------------------------------- target lookup

  /** The index of the first target named `iqn`, or |ts| when there is none. */
  function FirstNamed(ts: seq<Target>, iqn: string): (i: nat)
    ensures i <= |ts|
    ensures i < |ts| ==> ts[i].iqn == iqn
    ensures forall j :: 0 <= j < i ==> ts[j].iqn != iqn
  {
    if |ts| == 0 then 0
    else if ts[0].iqn == iqn then 0
    else 1 + FirstNamed(ts[1..], iqn)
  }

  /** Portal.Target: discovers the portal's targets and picks the first one
      named `iqn`. */
  function FindTarget(p: Portal, adm: AdmOutcome, iqn: string): (r: Outcome<Target>)
    ensures !r.Blocked?
    ensures Targets(p, adm).Err? ==> r == Err(Targets(p, adm).error)
    ensures Targets(p, adm).Ok? ==>
      var ts := Targets(p, adm).value;
      && (r.Ok? <==> exists i :: 0 <= i < |ts| && ts[i].iqn == iqn)
      && (r.Ok? ==> exists i :: 0 <= i < |ts| && ts[i] == r.value
                                && forall j :: 0 <= j < i ==> ts[j].iqn != iqn)
      && (r.Err? ==> r.error == NotExist(iqn))
    ensures r.Ok? ==> r.value == Target(iqn, p)
  {
    match Targets(p, adm)
    case Err(e) => Err(e)
    case Ok(ts) =>
      var i := FirstNamed(ts, iqn);
      if i < |ts| then Ok(ts[i]) else Err(NotExist(iqn))
  }

  // ---------------------------------------------------------- readiness poll

  /** A round that saw neither the cancellation nor the device node. */
  ghost predicate Idle(r: Round, path: string)
  {
    !r.cancelled && path !in r.devices
  }

  ghost predicate IdleBefore(rounds: seq<Round>, path: string, i: int)
  {
    i <= |rounds| && forall j :: 0 <= j < i ==> Idle(rounds[j], path)
  }

  /** Round i is the first to find the device node, and the context was not
      done in any round up to it. */
  ghost predicate FindsDevice(rounds: seq<Round>, path: string, i: int)
  {
    0 <= i < |rounds| && IdleBefore(rounds, path, i)
    && !rounds[i].cancelled && path in rounds[i].devices
  }

  /** Round i is the first whose context is done, before any round found the node. */
  ghost predicate SeesCancel(rounds: seq<Round>, path: string, i: int)
  {
    0 <= i < |rounds| && IdleBefore(rounds, path, i) && rounds[i].cancelled
  }

  lemma IdleShift(rounds: seq<Round>, path: string)
    requires |rounds| > 0 && Idle(rounds[0], path)
    ensures forall i :: FindsDevice(rounds[1..], path, i) <==> FindsDevice(rounds, path, i + 1)
    ensures forall i :: SeesCancel(rounds[1..], path, i) <==> SeesCancel(rounds, path, i + 1)
    ensures IdleBefore(rounds[1..], path, |rounds| - 1) <==> IdleBefore(rounds, path, |rounds|)
  {
    forall i ensures IdleBefore(rounds[1..], path, i) <==> IdleBefore(rounds, path, i + 1)
    {
      if IdleBefore(rounds[1..], path, i) {
        forall j | 0 <= j < i + 1
          ensures Idle(rounds[j], path)
        {
          if j > 0 {
            assert rounds[j] == rounds[1..][j - 1];
          }
        }
      }
      if IdleBefore(rounds, path, i + 1) {
        forall j | 0 <= j < i
          ensures Idle(rounds[1..][j], path)
        {
          assert rounds[1..][j] == rounds[j + 1];
        }
      }
    }
  }

  /** Once the first round is not idle, no longer stretch of rounds is. */
  lemma NotIdleAfterFirst(rounds: seq<Round>, path: string)
    requires |rounds| > 0 && !Idle(rounds[0], path)
    ensures forall i :: 0 < i ==> !IdleBefore(rounds, path, i)
  {
  }

  /** Target.ready: polls for the device node of LUN 0 -- whatever LUN the
      caller will mount -- until it exists or the context is done, checking
      the context first in every round. */
  function Ready(t: Target, rounds: seq<Round>): (r: Outcome<()>)
    ensures r.Ok? <==> exists i :: FindsDevice(rounds, Path(t, DefaultLun), i)
    ensures r.Err? <==> exists i :: SeesCancel(rounds, Path(t, DefaultLun), i)
    ensures r.Err? ==> r.error == ContextDone
    ensures r.Blocked? <==> IdleBefore(rounds, Path(t, DefaultLun), |rounds|)
    decreases |rounds|
  {
    var path := Path(t, DefaultLun);
    if |rounds| == 0 then
      Blocked
    else if rounds[0].cancelled then
      assert SeesCancel(rounds, path, 0);
      assert !IdleBefore(rounds, path, |rounds|);
      assert forall i :: !FindsDevice(rounds, path, i) by {
        NotIdleAfterFirst(rounds, path);
      }
      Err(ContextDone)
    else if path in rounds[0].devices then
      assert FindsDevice(rounds, path, 0);
      assert !IdleBefore(rounds, path, |rounds|);
      assert forall i :: !SeesCancel(rounds, path, i) by {
        NotIdleAfterFirst(rounds, path);
      }
      Ok(())
    else
      var r := Ready(t, rounds[1..]);
      IdleShift(rounds, path);
      assert !FindsDevice(rounds, path, 0) && !SeesCancel(rounds, path, 0);
      assert (exists i :: FindsDevice(rounds, path, i)) ==> exists i :: FindsDevice(rounds[1..], path, i) by {
        if exists i :: FindsDevice(rounds, path, i) {
          var i :| FindsDevice(rounds, path, i);
          assert FindsDevice(rounds[1..], path, i - 1);
        }
      }
      assert (exists i :: SeesCancel(rounds, path, i)) ==> exists i :: SeesCancel(rounds[1..], path, i) by {
        if exists i :: SeesCancel(rounds, path, i) {
          var i :| SeesCancel(rounds, path, i);
          assert SeesCancel(rounds[1..], path, i - 1);
        }
      }
      r
  }

  // ------------------------------------------------------- login and logout

  /** isPresentErr: iscsiadm says the session already exists. */
  predicate IsPresentErr(adm: AdmOutcome): (b: bool)
    requires adm.Failed?
    ensures b <==> exists i :: OccursAt(adm.output + ": " + adm.cause, AlreadyPresent, i)
    ensures Contains(adm.output, AlreadyPresent) || Contains(adm.cause, AlreadyPresent) ==> b
  {
    MessageSearch(adm.output, adm.cause, AlreadyPresent);
    Contains(adm.Message(), AlreadyPresent)
  }

  /** isNotSessionErr: iscsiadm says there was no session to end. */
  predicate IsNotSessionErr(adm: AdmOutcome): (b: bool)
    requires adm.Failed?
    ensures b <==> exists i :: OccursAt(adm.output + ": " + adm.cause, NoMatchingSessions, i)
    ensures Contains(adm.output, NoMatchingSessions) || Contains(adm.cause, NoMatchingSessions) ==> b
  {
    MessageSearch(adm.output, adm.cause, NoMatchingSessions);
    Contains(adm.Message(), NoMatchingSessions)
  }

  /** The error text iscsiadm's failures are searched in holds a phrase when
      either the command's output or the failure's cause holds it. */
  lemma MessageSearch(output: string, cause: string, phrase: string)
    ensures Contains(output, phrase) ==> Contains(output + ": " + cause, phrase)
    ensures Contains(cause, phrase) ==> Contains(output + ": " + cause, phrase)
  {
    var m := output + ": " + cause;
    if Contains(output, phrase) {
      var i :| OccursAt(output, phrase, i);
      assert m[i..i + |phrase|] == output[i..i + |phrase|];
      assert OccursAt(m, phrase, i);
    }
    if Contains(cause, phrase) {
      var i :| OccursAt(cause, phrase, i);
      var off := |output| + 2;
      assert m[off + i..off + i + |phrase|] == cause[i..i + |phrase|];
      assert OccursAt(m, phrase, off + i);
    }
  }

  /** Target.Login: a session that already exists counts as success at once,
      without waiting for the device; any other failure is an error wrapped
      with "login"; a fresh session is followed by the readiness poll. */
  function Login(t: Target, host: Host): (r: Outcome<()>)
    ensures r.Ok? <==>
      || (host.adm.Failed? && IsPresentErr(host.adm))
      || (host.adm.Ran? && exists i :: FindsDevice(host.rounds, Path(t, DefaultLun), i))
    ensures r.Err? <==>
      || (host.adm.Failed? && !IsPresentErr(host.adm))
      || (host.adm.Ran? && exists i :: SeesCancel(host.rounds, Path(t, DefaultLun), i))
    ensures r.Err? && host.adm.Failed? ==> r.error == Wrapped("login", host.adm.Error())
    ensures r.Err? && host.adm.Ran? ==> r.error == ContextDone
    ensures r.Blocked? ==> host.adm.Ran?
  {
    match host.adm
    case Failed(_, _) =>
      if IsPresentErr(host.adm) then Ok(()) else Err(Wrapped("login", host.adm.Error()))
    case Ran(_) => Ready(t, host.rounds)
  }

  /** Target.Logout: a missing session counts as success; any other failure
      is an error wrapped with "logout". The target only shapes iscsiadm's
      arguments, so the outcome alone decides. */
  function Logout(adm: AdmOutcome): (r: Outcome<()>)
    ensures !r.Blocked?
    ensures r.Ok? <==> adm.Ran? || IsNotSessionErr(adm)
    ensures r.Err? ==> r.error == Wrapped("logout", adm.Error())
  {
    match adm
    case Ran(_) => Ok(())
    case Failed(_, _) =>
      if IsNotSessionErr(adm) then Ok(()) else Err(Wrapped("logout", adm.Error()))
  }

  /** Login does not wait for the device when iscsiadm reports the session as
      already present: the answer is success whatever the poll would see. */
  lemma LoginAlreadyPresent(t: Target, output: string, cause: string, rounds: seq<Round>)
    requires Contains(output, AlreadyPresent)
    ensures Login(t, Host(Failed(output, cause), rounds)) == Ok(())
  {
    ContainsExtend(output, ": " + cause, AlreadyPresent);
    assert output + (": " + cause) == Failed(output, cause).Message();
  }

  /** Logging out of a target with no session is not an error. */
  lemma LogoutWithoutSession(output: string, cause: string)
    requires Contains(output, NoMatchingSessions)
    ensures Logout(Failed(output, cause)) == Ok(())
  {
    ContainsExtend(output, ": " + cause, NoMatchingSessions);
    assert output + (": " + cause) == Failed(output, cause).Message();
  }

  /** The poll looks only at the context and at LUN 0's device node: two
      traces that agree on those give the same answer. */
  lemma {:induction false} ReadySeesOnlyLunZero(t: Target, a: seq<Round>, b: seq<Round>)
    requires |a| == |b|
    requires forall i :: 0 <= i < |a| ==>
      a[i].cancelled == b[i].cancelled
      && (Path(t, DefaultLun) in a[i].devices <==> Path(t, DefaultLun) in b[i].devices)
    ensures Ready(t, a) == Ready(t, b)
    decreases |a|
  {
    if |a| > 0 {
      ReadySeesOnlyLunZero(t, a[1..], b[1..]);
    }
  }

  /** A device node for any other LUN never ends the poll: with only LUN
      `lun`'s node present and no cancellation, ready is still waiting. */
  lemma ReadyIgnoresOtherLuns(t: Target, lun: int, rounds: seq<Round>)
    requires lun != DefaultLun
    requires forall i :: 0 <= i < |rounds| ==> rounds[i] == Round(false, {Path(t, lun)})
    ensures Ready(t, rounds) == Blocked
  {
    PathInjective(t, lun, DefaultLun);
    assert IdleBefore(rounds, Path(t, DefaultLun), |rounds|);
  }

  /** A cancellation before the device node ever appears is reported as the
      context's error: the poll neither hangs nor claims success. */
  lemma ReadyCancelledFirst(t: Target, rounds: seq<Round>, k: int)
    requires 0 <= k < |rounds| && rounds[k].cancelled
    requires forall j :: 0 <= j < k ==> Path(t, DefaultLun) !in rounds[j].devices
    ensures Ready(t, rounds) == Err(ContextDone)
  {
    var path := Path(t, DefaultLun);
    var c := FirstCancel(rounds, k);
    assert SeesCancel(rounds, path, c);
  }

  /** The first cancelled round at or before `k`. */
  function FirstCancel(rounds: seq<Round>, k: int): (c: int)
    requires 0 <= k < |rounds| && rounds[k].cancelled
    ensures 0 <= c <= k && rounds[c].cancelled
    ensures forall j :: 0 <= j < c ==> !rounds[j].cancelled
  {
    if rounds[0].cancelled then 0
    else 1 + FirstCancel(rounds[1..], k - 1)
  }

  /** Three scanned lines, the middle one blank. */
  lemma ParseAroundBlank(p: Portal, l1: string, l3: string)
    requires l1 != "" && ' ' in l1 && l3 != ""
    ensures ' ' in l3 ==>
      ParseLines(p, [l1, "", l3]) == Ok([Target(AfterFirstSpace(l1), p), Target(AfterFirstSpace(l3), p)])
    ensures ' ' !in l3 ==> ParseLines(p, [l1, "", l3]) == Err(IndexOutOfRange(l3))
  {
    var lines := [l1, "", l3];
    assert lines[1..] == ["", l3] && lines[1..][1..] == [l3] && [l3][1..] == [];
    assert ParseLines(p, []) == Ok([]);
    if ' ' in l3 {
      var t1, t3 := Target(AfterFirstSpace(l1), p), Target(AfterFirstSpace(l3), p);
      assert ParseLines(p, [l3]) == Ok([t3] + []);
      assert [t3] + [] == [t3];
      assert [t1] + [t3] == [t1, t3];
      assert ParseLines(p, ["", l3]) == ParseLines(p, [l3]);
      assert ParseLines(p, lines[1..]) == Ok([Target(AfterFirstSpace(l3), p)]);
      assert lines[0] == l1 && l1 != "" && ' ' in l1;
      assert ParseLines(p, lines) == Ok([Target(AfterFirstSpace(l1), p)] + [Target(AfterFirstSpace(l3), p)]);
    } else {
      assert ParseLines(p, [l3]) == Err(IndexOutOfRange(l3));
      assert ParseLines(p, ["", l3]) == ParseLines(p, [l3]);
    }
  }

  /** Discovery output with a blank line between two entries (say
      "10.0.10.10:3260,1 iqn.2019.com.example:redis", a blank line, and
      "10.0.10.10:3260,1 iqn.2019.com.example:backup"): both targets come
      back, in order, bound to the portal. */
  lemma DiscoveryWithBlankLine(p: Portal, info: string, iqn1: string, iqn2: string)
    requires WellFormedRecord(Record(info, iqn1)) && WellFormedRecord(Record(info, iqn2))
    ensures ParseTargets(p, info + " " + iqn1 + "\n\n" + info + " " + iqn2)
         == Ok([Target(iqn1, p), Target(iqn2, p)])
  {
    var l1 := info + " " + iqn1;
    var l3 := info + " " + iqn2;
    RecordLinePlain(Record(info, iqn1));
    RecordLinePlain(Record(info, iqn2));
    ExampleLines(l1, l3);
    AfterFirstSpaceOf(info, iqn1);
    AfterFirstSpaceOf(info, iqn2);
    ParseAroundBlank(p, l1, l3);
    TwoEntriesText(info, iqn1, iqn2);
  }

  lemma TwoEntriesText(info: string, iqn1: string, iqn2: string)
    ensures info + " " + iqn1 + "\n\n" + info + " " + iqn2
         == (info + " " + iqn1) + "\n\n" + (info + " " + iqn2)
  {
  }

  /** A discovery line holding only an IQN (say "iqn.2019.com.example:backup"
      after a blank line) has no `parts[1]`: the loop stops there with the
      index-out-of-range panic. */
  lemma DiscoveryBareIqnLine(p: Portal, info: string, iqn1: string, bare: string)
    requires WellFormedRecord(Record(info, iqn1))
    requires bare != "" && ' ' !in bare && Scanner.PlainLine(bare)
    ensures ParseTargets(p, info + " " + iqn1 + "\n\n" + bare) == Err(IndexOutOfRange(bare))
  {
    var l1 := info + " " + iqn1;
    RecordLinePlain(Record(info, iqn1));
    ExampleLines(l1, bare);
    ParseAroundBlank(p, l1, bare);
  }

  lemma ExampleLines(l1: string, l3: string)
    requires Scanner.PlainLine(l1) && Scanner.PlainLine(l3) && l3 != ""
    ensures Scanner.Lines(l1 + "\n\n" + l3) == [l1, "", l3]
  {
    ExampleText(l1, l3);
    BlankThenLast(l3);
    LineBeforeRest(l1, "\n" + l3, ["", l3]);
  }

  /** A plain line, a line feed, and text that scans as `tail`. */
  lemma LineBeforeRest(line: string, rest: string, tail: seq<string>)
    requires Scanner.PlainLine(line) && Scanner.Lines(rest) == tail
    ensures Scanner.Lines(line + "\n" + rest) == [line] + tail
  {
    Scanner.ScanFirstLine(line, "\n", rest);
  }

  lemma BlankThenLast(l3: string)
    requires Scanner.PlainLine(l3) && l3 != ""
    ensures Scanner.Lines("\n" + l3) == ["", l3]
  {
    Scanner.ScanFirstLine("", "\n", l3);
    assert "" + "\n" + l3 == "\n" + l3;
    Scanner.ScanLastLine(l3);
  }

  lemma ExampleText(l1: string, l3: string)
    ensures l1 + "\n\n" + l3 == l1 + "\n" + ("\n" + l3)
    ensures "" + "\n" + l3 == "\n" + l3
  {
  }
}
