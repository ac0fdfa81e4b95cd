/**
 * The HymoFS kernel-channel client: the protocol-version handshake read from
 * the control file, the one-line commands written to it, and the projection
 * of a module directory into injection rules (and its removal).
 *
 * The control file is an input (ControlFile); each command written to it is
 * appended to the list of lines a call returns, and an oracle `accept` says
 * whether the k-th write of a call succeeds. The walked directory is a list
 * of walk items.
 */
module HymoFs {
  import opened Wrappers
  import opened Text
  import opened Paths
  import opened Decimal

  /** The protocol version this client speaks: the compatibility contract with the kernel. */
  const ExpectedProtocolVersion: int := 3

  const ProtocolPrefix: string := "HymoFS Protocol: "

  datatype HymoFsStatus = Available | NotPresent | KernelTooOld | ModuleTooOld

  /** The control file `/proc/hymo_ctl` as a reader finds it: missing, or present with contents that may fail to read. */
  datatype ControlFile = Missing | Present(contents: Option<string>)

  // ---------------------------------------------------------------------
  // Version handshake

  /** Index of the first newline, or the length when there is none. */
  function LineEnd(s: string): (i: nat)
    ensures i <= |s|
    ensures forall j :: 0 <= j < i ==> s[j] != '\n'
    ensures i < |s| ==> s[i] == '\n'
  {
    if s == [] || s[0] == '\n' then 0 else 1 + LineEnd(s[1..])
  }

  /**
   * `content.lines().next()`: nothing for empty text; otherwise the text up to
   * the first newline, without a carriage return that directly precedes that
   * newline.
   */
  function FirstLine(content: string): (line: Option<string>)
    ensures line.None? <==> content == []
    ensures line.Some? ==> line.value <= content && '\n' !in line.value
  {
    if content == [] then None
    else
      var i := LineEnd(content);
      if 0 < i < |content| && content[i - 1] == '\r' then Some(content[..i - 1]) else Some(content[..i])
  }

  /**
   * The first line ends at the first break, `\n` or `\r\n`, whatever
   * follows; a carriage return before a bare `\n` would be dropped with it.
   */
  lemma FirstLineOfBreak(line: string, rest: string, lineBreak: string)
    requires '\n' !in line
    requires lineBreak == "\n" || lineBreak == "\r\n"
    requires lineBreak == "\n" ==> line == [] || line[|line| - 1] != '\r'
    ensures FirstLine(line + lineBreak + rest) == Some(line)
  {
    var s := line + lineBreak + rest;
    if lineBreak == "\n" {
      assert s[|line|] == '\n';
      assert LineEnd(s) == |line|;
      assert s[..|line|] == line;
    } else {
      assert s[|line|] == '\r' && s[|line| + 1] == '\n';
      assert LineEnd(s) == |line| + 1;
      assert s[..|line|] == line;
    }
  }

  /** Text without a newline is its own first line, a trailing carriage return included. */
  lemma FirstLineNoBreak(line: string)
    requires line != [] && '\n' !in line
    ensures FirstLine(line) == Some(line)
  {
    assert LineEnd(line) == |line|;
    assert line[..|line|] == line;
  }

  /** `get_protocol_version`: the integer after the banner prefix on the first line. */
  function ProtocolVersion(contents: Option<string>): (v: Option<int>)
    ensures v.Some? ==> I32Min <= v.value <= I32Max
    ensures contents.None? || contents == Some([]) ==> v.None?
    ensures v.Some? ==> exists t :: FirstLine(contents.value) == Some(ProtocolPrefix + t) && ParseI32(t) == v
    ensures forall t :: contents.Some? && FirstLine(contents.value) == Some(ProtocolPrefix + t) ==> v == ParseI32(t)
  {
    match contents
    case None => None
    case Some(text) =>
      match FirstLine(text)
      case None => None
      case Some(line) =>
        if ProtocolPrefix <= line then
          var t := line[|ProtocolPrefix|..];
          assert line == ProtocolPrefix + t;
          assert forall u :: line == ProtocolPrefix + u ==> u == t by {
            forall u | line == ProtocolPrefix + u
              ensures u == t
            {
              assert u == line[|ProtocolPrefix|..];
            }
          }
          ParseI32(t)
        else None
  }

  /** `check_status`. */
  function CheckStatus(ctl: ControlFile): (s: HymoFsStatus)
    ensures s == NotPresent <==> ctl.Missing? || ProtocolVersion(ctl.contents).None?
    ensures s == Available <==> ctl.Present? && ProtocolVersion(ctl.contents) == Some(ExpectedProtocolVersion)
    ensures s == KernelTooOld <==>
      ctl.Present? && ProtocolVersion(ctl.contents).Some? && ProtocolVersion(ctl.contents).value < ExpectedProtocolVersion
    ensures s == ModuleTooOld <==>
      ctl.Present? && ProtocolVersion(ctl.contents).Some? && ProtocolVersion(ctl.contents).value > ExpectedProtocolVersion
  {
    if ctl.Missing? then NotPresent
    else
      match ProtocolVersion(ctl.contents)
      case None => NotPresent
      case Some(version) =>
        if version != ExpectedProtocolVersion then
          if version < ExpectedProtocolVersion then KernelTooOld else ModuleTooOld
        else Available
  }

  /** `is_available`. */
  function IsAvailable(ctl: ControlFile): (b: bool)
    ensures b <==> ctl.Present? && ProtocolVersion(ctl.contents) == Some(ExpectedProtocolVersion)
  {
    CheckStatus(ctl) == Available
  }

  /** The banner a kernel speaking protocol `v` writes as its first line. */
  function Banner(v: int): string {
    ProtocolPrefix + IntToDecimal(v)
  }

  /**
   * Handshake against the kernel's banner: whatever follows the first line,
   * the status is decided by comparing the announced version with the
   * expected one, and only an exact match is Available.
   */
  lemma {:induction false} BannerStatus(v: int, lineBreak: string, rest: string)
    requires I32Min <= v <= I32Max
    requires lineBreak == "\n" || lineBreak == "\r\n"
    ensures CheckStatus(Present(Some(Banner(v)))) == StatusFor(v)
    ensures CheckStatus(Present(Some(Banner(v) + lineBreak + rest))) == StatusFor(v)
  {
    var b := Banner(v);
    var digits := IntToDecimal(v);
    assert b == ProtocolPrefix + digits;
    assert forall i :: 0 <= i < |digits| ==> digits[i] == '-' || IsDigit(digits[i]);
    assert '\n' !in b;
    assert b[|b| - 1] == digits[|digits| - 1];
    FirstLineOfBreak(b, rest, lineBreak);
    FirstLineNoBreak(b);
    ParseI32RoundTrip(v);
    ParsedBannerStatus(b, digits, v);
    ParsedBannerStatus(b + lineBreak + rest, digits, v);
  }

  function StatusFor(v: int): HymoFsStatus {
    if v == ExpectedProtocolVersion then Available
    else if v < ExpectedProtocolVersion then KernelTooOld
    else ModuleTooOld
  }

  /** A first line that does not start with the exact prefix is no banner at all. */
  lemma NoPrefixNotPresent(line: string, lineBreak: string, rest: string)
    requires '\n' !in line
    requires lineBreak == "\n" || lineBreak == "\r\n"
    requires lineBreak == "\n" ==> line == [] || line[|line| - 1] != '\r'
    requires !(ProtocolPrefix <= line)
    ensures CheckStatus(Present(Some(line + lineBreak + rest))) == NotPresent
    ensures CheckStatus(Present(Some(line))) == NotPresent
  {
    FirstLineOfBreak(line, rest, lineBreak);
    if line != [] {
      FirstLineNoBreak(line);
    }
  }

  /**
   * A banner whose remainder is no 32-bit integer (trailing text, a blank,
   * an overflowing value, nothing at all) is treated as no banner.
   */
  lemma UnparsableBannerNotPresent(contents: string, t: string)
    requires FirstLine(contents) == Some(ProtocolPrefix + t)
    requires ParseI32(t).None?
    ensures CheckStatus(Present(Some(contents))) == NotPresent
  {
    assert (ProtocolPrefix + t)[|ProtocolPrefix|..] == t;
  }

  /**
   * Any banner whose remainder parses, in whatever spelling (`+4`, `007`,
   * `-03`), gets the status the comparison of the parsed value with the
   * expected version prescribes.
   */
  lemma ParsedBannerStatus(contents: string, t: string, v: int)
    requires FirstLine(contents) == Some(ProtocolPrefix + t)
    requires ParseI32(t) == Some(v)
    ensures CheckStatus(Present(Some(contents))) == StatusFor(v)
  {
    assert (ProtocolPrefix + t)[|ProtocolPrefix|..] == t;
  }

  /** A control file that cannot be read, or reads as empty, is treated as absent. */
  lemma UnreadableNotPresent()
    ensures CheckStatus(Present(None)) == NotPresent
    ensures CheckStatus(Present(Some([]))) == NotPresent
    ensures CheckStatus(Missing) == NotPresent
  {
  }

  /** A banner announcing a version beyond 32 bits is refused, not wrapped around to 3. */
  lemma OverflowBannerNotPresent()
    ensures CheckStatus(Present(Some(ProtocolPrefix + "4294967299"))) == NotPresent
  {
    var t := "4294967299";
    assert ParseI32(t) == None by {
      TenDigits(t);
    }
    FirstLineNoBreak(ProtocolPrefix + t);
    UnparsableBannerNotPresent(ProtocolPrefix + t, t);
  }

  /** Trailing text after the version makes the banner unreadable. */
  lemma TrailingTextNotPresent()
    ensures CheckStatus(Present(Some(ProtocolPrefix + "3x\n"))) == NotPresent
  {
    var line := ProtocolPrefix + "3x";
    assert !AllDigits("3x") by { assert !IsDigit("3x"[1]); }
    FirstLineOfBreak(line, "", "\n");
    assert ProtocolPrefix + "3x\n" == line + "\n" + "";
    UnparsableBannerNotPresent(ProtocolPrefix + "3x\n", "3x");
  }

  /** A version written with a plus sign is still the expected one. */
  lemma SignedBannerAvailable()
    ensures CheckStatus(Present(Some(ProtocolPrefix + "+3\r\n"))) == Available
  {
    var line := ProtocolPrefix + "+3";
    assert DigitsValue("3") == 3;
    FirstLineOfBreak(line, "", "\r\n");
    assert ProtocolPrefix + "+3\r\n" == line + "\r\n" + "";
    assert line[|ProtocolPrefix|..] == "+3";
  }

  // ---------------------------------------------------------------------
  // Commands

  /** The rules the kernel understands, as it reads them back from a command line. */
  datatype Command =
    | ClearCmd
    | AddCmd(target: Path, source: Path, fileType: nat)
    | DeleteCmd(target: Path)
    | HideCmd(target: Path)
    | InjectCmd(dir: Path)

  type U32 = x: int | 0 <= x < 0x1_0000_0000

  /** A path the line protocol carries unambiguously: well formed, no blank or newline in a component. */
  predicate Sendable(p: Path) {
    WellFormed(p) && forall i :: 0 <= i < |p| ==> ' ' !in p[i] && '\n' !in p[i]
  }

  /** How the kernel side reads a command line: words separated by single blanks. */
  function ParseLine(line: string): Option<Command>
  {
    var words := Split(line, ' ');
    if words == ["clear"] then Some(ClearCmd)
    else if |words| == 4 && words[0] == "add" then
      match (ParseDisplay(words[1]), ParseDisplay(words[2]), ParseNat(words[3]))
      case (Some(target), Some(source), Some(t)) => Some(AddCmd(target, source, t))
      case _ => None
    else if |words| == 2 then
      match ParseDisplay(words[1])
      case None => None
      case Some(p) =>
        if words[0] == "delete" then Some(DeleteCmd(p))
        else if words[0] == "hide" then Some(HideCmd(p))
        else if words[0] == "inject" then Some(InjectCmd(p))
        else None
    else None
  }

  /** `clear`. */
  function Clear(): string {
    "clear"
  }

  /** `add_rule`: the type tag defaults to 0. */
  function AddRule(target: Path, source: Path, fileType: Option<U32>): string {
    "add " + Display(target) + " " + Display(source) + " " + NatToDecimal(fileType.GetOr(0))
  }

  /** `delete_rule`. */
  function DeleteRule(target: Path): string {
    "delete " + Display(target)
  }

  /** `hide_path`. */
  function HidePath(target: Path): string {
    "hide " + Display(target)
  }

  /** `inject_dir`. */
  function InjectDir(dir: Path): string {
    "inject " + Display(dir)
  }

  lemma DisplayIsWord(p: Path)
    requires Sendable(p)
    ensures ParseDisplay(Display(p)) == Some(p)
    ensures ' ' !in Display(p) && '\n' !in Display(p)
  {
    DisplayRoundTrip(p);
    DisplayAvoids(p, ' ');
    DisplayAvoids(p, '\n');
  }

  lemma ClearDecodes()
    ensures ParseLine(Clear()) == Some(ClearCmd)
    ensures '\n' !in Clear()
  {
    SplitWithoutSep("clear", ' ');
  }

  /** `add_rule` sends one line that the kernel reads as exactly the rule asked for, tag 0 by default. */
  lemma AddRuleDecodes(target: Path, source: Path, fileType: Option<U32>)
    requires Sendable(target) && Sendable(source)
    ensures ParseLine(AddRule(target, source, fileType)) == Some(AddCmd(target, source, fileType.GetOr(0)))
    ensures '\n' !in AddRule(target, source, fileType)
  {
    var t, s, n := Display(target), Display(source), NatToDecimal(fileType.GetOr(0));
    DisplayIsWord(target);
    DisplayIsWord(source);
    NatRoundTrip(fileType.GetOr(0));
    assert forall i :: 0 <= i < |n| ==> IsDigit(n[i]);
    var words := ["add", t, s, n];
    AddLineWords(t, s, n);
    SplitJoinWith(words, ' ');
    ParseAddWords(AddRule(target, source, fileType), target, source, fileType.GetOr(0));
  }

  lemma AddLineWords(t: string, s: string, n: string)
    ensures "add " + t + " " + s + " " + n == JoinWith(["add", t, s, n], ' ')
  {
    var words := ["add", t, s, n];
    assert words[1..] == [t, s, n] && [t, s, n][1..] == [s, n] && [s, n][1..] == [n];
    calc {
      JoinWith(words, ' ');
      "add" + [' '] + JoinWith([t, s, n], ' ');
      "add" + [' '] + (t + [' '] + JoinWith([s, n], ' '));
      "add" + [' '] + (t + [' '] + (s + [' '] + JoinWith([n], ' ')));
      "add" + [' '] + (t + [' '] + (s + [' '] + n));
      "add " + t + " " + s + " " + n;
    }
  }

  lemma ParseAddWords(line: string, target: Path, source: Path, t: nat)
    requires Split(line, ' ') == ["add", Display(target), Display(source), NatToDecimal(t)]
    requires ParseDisplay(Display(target)) == Some(target) && ParseDisplay(Display(source)) == Some(source)
    requires ParseNat(NatToDecimal(t)) == Some(t)
    ensures ParseLine(line) == Some(AddCmd(target, source, t))
  {
  }

  lemma PathCommandDecodes(verb: string, p: Path)
    requires verb == "delete" || verb == "hide" || verb == "inject"
    requires Sendable(p)
    ensures ParseLine(verb + " " + Display(p)) ==
      Some(if verb == "delete" then DeleteCmd(p) else if verb == "hide" then HideCmd(p) else InjectCmd(p))
    ensures '\n' !in verb + " " + Display(p)
  {
    DisplayIsWord(p);
    var words := [verb, Display(p)];
    assert verb + " " + Display(p) == JoinWith(words, ' ');
    SplitJoinWith(words, ' ');
  }

  /** `delete_rule` sends one line the kernel reads as the removal of the rule for that target. */
  lemma DeleteRuleDecodes(p: Path)
    requires Sendable(p)
    ensures ParseLine(DeleteRule(p)) == Some(DeleteCmd(p)) && '\n' !in DeleteRule(p)
  {
    PathCommandDecodes("delete", p);
    assert DeleteRule(p) == "delete" + " " + Display(p);
  }

  /** `hide_path` sends one line the kernel reads as hiding that target. */
  lemma HidePathDecodes(p: Path)
    requires Sendable(p)
    ensures ParseLine(HidePath(p)) == Some(HideCmd(p)) && '\n' !in HidePath(p)
  {
    PathCommandDecodes("hide", p);
    assert HidePath(p) == "hide" + " " + Display(p);
  }

  /** `inject_dir` sends one line the kernel reads as an injection boundary at that directory. */
  lemma InjectDirDecodes(p: Path)
    requires Sendable(p)
    ensures ParseLine(InjectDir(p)) == Some(InjectCmd(p)) && '\n' !in InjectDir(p)
  {
    PathCommandDecodes("inject", p);
    assert InjectDir(p) == "inject" + " " + Display(p);
  }

  // ---------------------------------------------------------------------
  // Projection of a module directory

  /** Entry types as the walk reports them; a character device carries its device number, absent when reading it failed. */
  datatype EntryKind = File | Symlink | CharDevice(rdev: Option<nat>) | Directory | OtherKind

  /** One item of the recursive walk below the module directory: an entry, or an error the walk reports. */
  datatype WalkItem = Entry(path: Path, kind: EntryKind) | WalkError

  /** The module directory: absent, something other than a directory, or a directory and its walk. */
  datatype ModuleDir = Absent | NotADirectory | Tree(walk: seq<WalkItem>)

  /** Why handling a walk item failed: the walk itself, stripping the module prefix, or reading the metadata. */
  datatype Fault = WalkFailed | StripPrefixFailed | MetadataFailed

  datatype Error = SendFailed | Failed(fault: Fault)

  datatype Outcome = Ok | Err(error: Error)

  /** What a call returned and which lines it managed to write, in order. */
  datatype Report = Report(outcome: Outcome, sent: seq<string>)

  /** What handling one walk item amounts to: write one line, write nothing, or stop with an error. */
  datatype Step = Emit(line: string) | Skip | Abort(fault: Fault)

  /** The lines the steps ask to write before the first step that stops. */
  function Planned(steps: seq<Step>): seq<string>
  {
    if steps == [] then []
    else match steps[0]
      case Emit(line) => [line] + Planned(steps[1..])
      case Skip => Planned(steps[1..])
      case Abort(_) => []
  }

  predicate AbortFree(steps: seq<Step>) {
    forall i :: 0 <= i < |steps| ==> !steps[i].Abort?
  }

  function Extend(prefix: seq<string>, r: Report): Report {
    Report(r.outcome, prefix + r.sent)
  }

  /**
   * Carrying out the steps in order, the k-th write of the call going through
   * exactly when `accept(k)`: the first failed write or failing step ends the
   * call with an error.
   */
  function Run(steps: seq<Step>, accept: nat -> bool, k: nat): Report
  {
    if steps == [] then Report(Ok, [])
    else match steps[0]
      case Skip => Run(steps[1..], accept, k)
      case Abort(f) => Report(Err(Failed(f)), [])
      case Emit(line) =>
        if accept(k) then Extend([line], Run(steps[1..], accept, k + 1))
        else Report(Err(SendFailed), [])
  }

  /**
   * Lines go out in the planned order and none is skipped: what was sent is a
   * prefix of the plan, every write that went out was accepted, and a failed
   * write is the last one attempted.
   */
  lemma {:induction false} RunSendsPlannedPrefix(steps: seq<Step>, accept: nat -> bool, k: nat)
    ensures Run(steps, accept, k).sent <= Planned(steps)
    ensures forall j :: k <= j < k + |Run(steps, accept, k).sent| ==> accept(j)
    ensures Run(steps, accept, k).outcome == Err(SendFailed) ==>
      var n := |Run(steps, accept, k).sent|; n < |Planned(steps)| && !accept(k + n)
  {
    if steps != [] {
      RunSendsPlannedPrefix(steps[1..], accept, if steps[0].Emit? then k + 1 else k);
    }
  }

  /**
   * A run succeeds exactly when no step fails and every planned write is
   * accepted, and then it sent the whole plan; a step that fails stops the
   * run after everything planned before it was sent.
   */
  lemma {:induction false} RunOutcome(steps: seq<Step>, accept: nat -> bool, k: nat)
    ensures Run(steps, accept, k).outcome.Ok? <==>
      AbortFree(steps) && forall j :: k <= j < k + |Planned(steps)| ==> accept(j)
    ensures Run(steps, accept, k).outcome.Ok? ==> Run(steps, accept, k).sent == Planned(steps)
    ensures Run(steps, accept, k).outcome.Err? && Run(steps, accept, k).outcome.error.Failed? ==>
      Run(steps, accept, k).sent == Planned(steps) &&
      exists i :: 0 <= i < |steps| && steps[i] == Abort(Run(steps, accept, k).outcome.error.fault)
  {
    if steps != [] {
      var rest := steps[1..];
      RunOutcome(rest, accept, if steps[0].Emit? then k + 1 else k);
      assert forall i :: 0 <= i < |rest| ==> rest[i] == steps[i + 1];
      if steps[0].Emit? && !accept(k) {
        assert !(forall j :: k <= j < k + |Planned(steps)| ==> accept(j));
      }
    }
  }

  /** Run from position i, one step at a time: a skipped item leaves the report to the rest. */
  lemma RunSkip(steps: seq<Step>, i: nat, accept: nat -> bool, k: nat)
    requires i < |steps| && steps[i] == Skip
    ensures Run(steps[i..], accept, k) == Run(steps[i + 1..], accept, k)
  {
    assert steps[i..][0] == steps[i];
    assert steps[i..][1..] == steps[i + 1..];
  }

  /** A failing step ends the run with its fault and sends nothing more. */
  lemma RunAbort(steps: seq<Step>, i: nat, accept: nat -> bool, k: nat)
    requires i < |steps| && steps[i].Abort?
    ensures Run(steps[i..], accept, k) == Report(Err(Failed(steps[i].fault)), [])
  {
    assert steps[i..][0] == steps[i];
  }

  /** A write that goes through is followed by the rest of the run, one write later. */
  lemma RunEmit(steps: seq<Step>, i: nat, accept: nat -> bool, sent: seq<string>)
    requires i < |steps| && steps[i].Emit? && accept(|sent|)
    ensures Extend(sent, Run(steps[i..], accept, |sent|)) ==
      Extend(sent + [steps[i].line], Run(steps[i + 1..], accept, |sent| + 1))
  {
    assert steps[i..][0] == steps[i];
    assert steps[i..][1..] == steps[i + 1..];
    var rest := Run(steps[i + 1..], accept, |sent| + 1);
    assert sent + ([steps[i].line] + rest.sent) == (sent + [steps[i].line]) + rest.sent;
  }

  /** A write that is refused ends the run with a send failure. */
  lemma RunReject(steps: seq<Step>, i: nat, accept: nat -> bool, k: nat)
    requires i < |steps| && steps[i].Emit? && !accept(k)
    ensures Run(steps[i..], accept, k) == Report(Err(SendFailed), [])
  {
    assert steps[i..][0] == steps[i];
  }

  /** How `inject_directory` handles one walk item. */
  function InjectStep(targetBase: Path, moduleDir: Path, item: WalkItem): Step
  {
    match item
    case WalkError => Abort(WalkFailed)
    case Entry(path, kind) =>
      match StripPrefix(path, moduleDir)
      case None => Abort(StripPrefixFailed)
      case Some(rel) =>
        var target := Join(targetBase, rel);
        match kind
        case File => Emit(AddRule(target, path, Some(8)))
        case Symlink => Emit(AddRule(target, path, Some(10)))
        case CharDevice(None) => Abort(MetadataFailed)
        case CharDevice(Some(rdev)) => if rdev == 0 then Emit(HidePath(target)) else Skip
        case Directory => Emit(InjectDir(target))
        case OtherKind => Skip
  }

  /** How `delete_directory_rules` handles one walk item. */
  function DeleteStep(targetBase: Path, moduleDir: Path, item: WalkItem): Step
  {
    match item
    case WalkError => Abort(WalkFailed)
    case Entry(path, _) =>
      match StripPrefix(path, moduleDir)
      case None => Abort(StripPrefixFailed)
      case Some(rel) => Emit(DeleteRule(Join(targetBase, rel)))
  }

  function InjectSteps(targetBase: Path, moduleDir: Path, walk: seq<WalkItem>): (steps: seq<Step>)
    ensures |steps| == |walk|
    ensures forall i :: 0 <= i < |walk| ==> steps[i] == InjectStep(targetBase, moduleDir, walk[i])
  {
    seq(|walk|, i requires 0 <= i < |walk| => InjectStep(targetBase, moduleDir, walk[i]))
  }

  function DeleteSteps(targetBase: Path, moduleDir: Path, walk: seq<WalkItem>): (steps: seq<Step>)
    ensures |steps| == |walk|
    ensures forall i :: 0 <= i < |walk| ==> steps[i] == DeleteStep(targetBase, moduleDir, walk[i])
  {
    seq(|walk|, i requires 0 <= i < |walk| => DeleteStep(targetBase, moduleDir, walk[i]))
  }

  /** What `inject_directory` does: nothing for a missing module directory, else mark the base, then one step per walk item. */
  function InjectReport(targetBase: Path, moduleDir: Path, dir: ModuleDir, accept: nat -> bool): Report
  {
    match dir
    case Tree(walk) => Run([Emit(InjectDir(targetBase))] + InjectSteps(targetBase, moduleDir, walk), accept, 0)
    case _ => Report(Ok, [])
  }

  /** What `delete_directory_rules` does: nothing for a missing module directory, else one step per walk item. */
  function DeleteReport(targetBase: Path, moduleDir: Path, dir: ModuleDir, accept: nat -> bool): Report
  {
    match dir
    case Tree(walk) => Run(DeleteSteps(targetBase, moduleDir, walk), accept, 0)
    case _ => Report(Ok, [])
  }

  /** `send_cmd`: one write to the control file, which succeeds when the oracle accepts this call's next write. */
  method SendCmd(line: string, accept: nat -> bool, sent: seq<string>) returns (ok: bool, sent': seq<string>)
    ensures ok == accept(|sent|)
    ensures sent' == if ok then sent + [line] else sent
  {
    ok := accept(|sent|);
    sent' := if ok then sent + [line] else sent;
  }

  /** `inject_directory`. */
  method InjectDirectory(targetBase: Path, moduleDir: Path, dir: ModuleDir, accept: nat -> bool)
    returns (outcome: Outcome, sent: seq<string>)
    ensures Report(outcome, sent) == InjectReport(targetBase, moduleDir, dir, accept)
    ensures !dir.Tree? ==> outcome == Ok && sent == []
    ensures dir.Tree? && !accept(0) ==> outcome == Err(SendFailed) && sent == []
    ensures dir.Tree? && accept(0) ==> |sent| >= 1 && sent[0] == InjectDir(targetBase)
  {
    sent := [];
    if !dir.Tree? {
      return Ok, sent;
    }
    var ok;
    ok, sent := SendCmd(InjectDir(targetBase), accept, sent);
    if !ok {
      return Err(SendFailed), sent;
    }
    var walk := dir.walk;
    ghost var steps := InjectSteps(targetBase, moduleDir, walk);
    ghost var whole := InjectReport(targetBase, moduleDir, dir, accept);
    assert ([Emit(InjectDir(targetBase))] + steps)[1..] == steps;
    assert steps[0..] == steps;
    assert whole == Extend(sent, Run(steps[0..], accept, |sent|));
    for i := 0 to |walk|
      invariant |sent| >= 1 && sent[0] == InjectDir(targetBase)
      invariant whole == Extend(sent, Run(steps[i..], accept, |sent|))
    {
      // The type dispatch of one entry: file, symlink, whiteout, directory, or nothing.
      var step := InjectStep(targetBase, moduleDir, walk[i]);
      match step {
        case Abort(fault) =>
          RunAbort(steps, i, accept, |sent|);
          return Err(Failed(fault)), sent;
        case Skip =>
          RunSkip(steps, i, accept, |sent|);
        case Emit(line) =>
          if !accept(|sent|) {
            RunReject(steps, i, accept, |sent|);
          } else {
            RunEmit(steps, i, accept, sent);
          }
          ok, sent := SendCmd(line, accept, sent);
          if !ok {
            return Err(SendFailed), sent;
          }
      }
    }
    outcome := Ok;
  }

  /** `delete_directory_rules`. */
  method DeleteDirectoryRules(targetBase: Path, moduleDir: Path, dir: ModuleDir, accept: nat -> bool)
    returns (outcome: Outcome, sent: seq<string>)
    ensures Report(outcome, sent) == DeleteReport(targetBase, moduleDir, dir, accept)
    ensures !dir.Tree? ==> outcome == Ok && sent == []
  {
    sent := [];
    if !dir.Tree? {
      return Ok, sent;
    }
    var walk := dir.walk;
    ghost var steps := DeleteSteps(targetBase, moduleDir, walk);
    ghost var whole := DeleteReport(targetBase, moduleDir, dir, accept);
    assert steps[0..] == steps;
    assert whole == Run(steps, accept, 0) == Extend(sent, Run(steps[0..], accept, 0));
    for i := 0 to |walk|
      invariant whole == Extend(sent, Run(steps[i..], accept, |sent|))
    {
      var item := walk[i];
      if item.WalkError? {
        RunAbort(steps, i, accept, |sent|);
        return Err(Failed(WalkFailed)), sent;
      }
      var rel := StripPrefix(item.path, moduleDir);
      if rel.None? {
        RunAbort(steps, i, accept, |sent|);
        return Err(Failed(StripPrefixFailed)), sent;
      }
      var line := DeleteRule(Join(targetBase, rel.value));
      assert steps[i] == Emit(line);
      if !accept(|sent|) {
        RunReject(steps, i, accept, |sent|);
      } else {
        RunEmit(steps, i, accept, sent);
      }
      var ok;
      ok, sent := SendCmd(line, accept, sent);
      if !ok {
        return Err(SendFailed), sent;
      }
    }
    outcome := Ok;
  }

  // ---------------------------------------------------------------------
  // What the projections send

  /**
   * A walk as the walker delivers it when nothing goes wrong: only entries,
   * each strictly below the module directory (the root itself is not
   * visited), no path twice, and every device number readable.
   */
  predicate CleanWalk(moduleDir: Path, walk: seq<WalkItem>) {
    && (forall i :: 0 <= i < |walk| ==>
          walk[i].Entry? && moduleDir < walk[i].path && (walk[i].kind.CharDevice? ==> walk[i].kind.rdev.Some?))
    && (forall i, j :: 0 <= i < j < |walk| && walk[i].Entry? && walk[j].Entry? ==> walk[i].path != walk[j].path)
  }

  /** The entry's path relative to the module directory, re-rooted under the target base. */
  function TargetOf(targetBase: Path, moduleDir: Path, item: WalkItem): Path
    requires item.Entry? && moduleDir <= item.path
  {
    Join(targetBase, item.path[|moduleDir|..])
  }

  /** The entry kinds `inject_directory` writes a rule for: files, symlinks, whiteouts and directories. */
  predicate Emits(kind: EntryKind) {
    kind.File? || kind.Symlink? || kind == CharDevice(Some(0)) || kind.Directory?
  }

  function EmittingCount(walk: seq<WalkItem>): nat {
    if walk == [] then 0
    else (if walk[0].Entry? && Emits(walk[0].kind) then 1 else 0) + EmittingCount(walk[1..])
  }

  lemma {:induction false} PlannedMembers(steps: seq<Step>, i: nat)
    requires AbortFree(steps)
    requires i < |steps| && steps[i].Emit?
    ensures steps[i].line in Planned(steps)
  {
    if i > 0 {
      assert steps[1..][i - 1] == steps[i];
      PlannedMembers(steps[1..], i - 1);
    }
  }

  lemma {:induction false} CleanInjectPlan(targetBase: Path, moduleDir: Path, walk: seq<WalkItem>)
    requires CleanWalk(moduleDir, walk)
    ensures AbortFree(InjectSteps(targetBase, moduleDir, walk))
    ensures |Planned(InjectSteps(targetBase, moduleDir, walk))| == EmittingCount(walk)
  {
    var steps := InjectSteps(targetBase, moduleDir, walk);
    if walk != [] {
      assert steps[1..] == InjectSteps(targetBase, moduleDir, walk[1..]);
      CleanInjectPlan(targetBase, moduleDir, walk[1..]);
      assert StripPrefix(walk[0].path, moduleDir) == Some(walk[0].path[|moduleDir|..]);
    }
  }

  lemma {:induction false} CleanDeletePlan(targetBase: Path, moduleDir: Path, walk: seq<WalkItem>)
    requires CleanWalk(moduleDir, walk)
    ensures AbortFree(DeleteSteps(targetBase, moduleDir, walk))
    ensures Planned(DeleteSteps(targetBase, moduleDir, walk)) ==
      seq(|walk|, i requires 0 <= i < |walk| => DeleteRule(TargetOf(targetBase, moduleDir, walk[i])))
  {
    var steps := DeleteSteps(targetBase, moduleDir, walk);
    if walk != [] {
      assert steps[1..] == DeleteSteps(targetBase, moduleDir, walk[1..]);
      CleanDeletePlan(targetBase, moduleDir, walk[1..]);
      assert StripPrefix(walk[0].path, moduleDir) == Some(walk[0].path[|moduleDir|..]);
    }
  }

  /**
   * Projecting a cleanly walked module directory with every write going
   * through: the target base is marked first, each file, symlink, whiteout
   * and directory gets its rule for the entry's re-rooted target, and
   * nothing else is written (one line per such entry, none for real device
   * nodes or other entry types).
   */
  lemma ProjectionRules(targetBase: Path, moduleDir: Path, walk: seq<WalkItem>, accept: nat -> bool)
    requires CleanWalk(moduleDir, walk)
    requires forall j :: accept(j)
    ensures var r := InjectReport(targetBase, moduleDir, Tree(walk), accept);
      && r.outcome == Ok
      && |r.sent| == 1 + EmittingCount(walk)
      && r.sent[0] == InjectDir(targetBase)
      && (forall i :: 0 <= i < |walk| && walk[i].kind == File ==>
            AddRule(TargetOf(targetBase, moduleDir, walk[i]), walk[i].path, Some(8)) in r.sent)
      && (forall i :: 0 <= i < |walk| && walk[i].kind == Symlink ==>
            AddRule(TargetOf(targetBase, moduleDir, walk[i]), walk[i].path, Some(10)) in r.sent)
      && (forall i :: 0 <= i < |walk| && walk[i].kind == CharDevice(Some(0)) ==>
            HidePath(TargetOf(targetBase, moduleDir, walk[i])) in r.sent)
      && (forall i :: 0 <= i < |walk| && walk[i].kind == Directory ==>
            InjectDir(TargetOf(targetBase, moduleDir, walk[i])) in r.sent)
  {
    var steps := InjectSteps(targetBase, moduleDir, walk);
    var all := [Emit(InjectDir(targetBase))] + steps;
    CleanInjectPlan(targetBase, moduleDir, walk);
    assert all[1..] == steps;
    assert AbortFree(all);
    RunSendsPlannedPrefix(all, accept, 0);
    RunOutcome(all, accept, 0);
    var r := Run(all, accept, 0);
    assert r.outcome == Ok && r.sent == Planned(all);
    forall i | 0 <= i < |walk| && Emits(walk[i].kind)
      ensures InjectStep(targetBase, moduleDir, walk[i]).Emit?
      ensures InjectStep(targetBase, moduleDir, walk[i]).line in r.sent
    {
      assert StripPrefix(walk[i].path, moduleDir) == Some(walk[i].path[|moduleDir|..]);
      assert all[i + 1] == InjectStep(targetBase, moduleDir, walk[i]);
      PlannedMembers(all, i + 1);
    }
  }

  /**
   * Unprojecting a cleanly walked module directory with every write going
   * through sends exactly one delete per entry, whatever its type, for the
   * entry's re-rooted target, which always lies strictly below the target
   * base (the base itself is never deleted).
   */
  lemma UnprojectionRules(targetBase: Path, moduleDir: Path, walk: seq<WalkItem>, accept: nat -> bool)
    requires CleanWalk(moduleDir, walk)
    requires forall j :: accept(j)
    ensures var r := DeleteReport(targetBase, moduleDir, Tree(walk), accept);
      && r.outcome == Ok
      && |r.sent| == |walk|
      && (forall i :: 0 <= i < |walk| ==> r.sent[i] == DeleteRule(TargetOf(targetBase, moduleDir, walk[i])))
      && (forall i :: 0 <= i < |walk| ==> targetBase < TargetOf(targetBase, moduleDir, walk[i]))
  {
    var steps := DeleteSteps(targetBase, moduleDir, walk);
    CleanDeletePlan(targetBase, moduleDir, walk);
    RunSendsPlannedPrefix(steps, accept, 0);
    RunOutcome(steps, accept, 0);
  }

  /** The path a rule is about; `clear` is about none. */
  function RuleTarget(c: Command): Option<Path> {
    match c
    case ClearCmd => None
    case AddCmd(target, _, _) => Some(target)
    case DeleteCmd(target) => Some(target)
    case HideCmd(target) => Some(target)
    case InjectCmd(dir) => Some(dir)
  }

  lemma {:induction false} PlannedFrom(steps: seq<Step>, line: string)
    requires line in Planned(steps)
    ensures exists i :: 0 <= i < |steps| && steps[i] == Emit(line)
  {
    if steps[0] != Emit(line) {
      PlannedFrom(steps[1..], line);
      var i :| 0 <= i < |steps[1..]| && steps[1..][i] == Emit(line);
      assert steps[i + 1] == Emit(line);
    }
  }

  lemma SendableBelow(targetBase: Path, moduleDir: Path, path: Path)
    requires Sendable(targetBase) && Sendable(path) && moduleDir <= path
    ensures Sendable(Join(targetBase, path[|moduleDir|..]))
  {
    var t := Join(targetBase, path[|moduleDir|..]);
    forall i | 0 <= i < |t| ensures IsComponent(t[i]) && ' ' !in t[i] && '\n' !in t[i] {
      if i >= |targetBase| {
        assert t[i] == path[i - |targetBase| + |moduleDir|];
      }
    }
  }

  /** The line projection writes for an entry is read back by the kernel as a rule about the entry's target. */
  lemma EntryRuleTarget(targetBase: Path, moduleDir: Path, item: WalkItem)
    requires item.Entry? && moduleDir <= item.path
    requires Sendable(targetBase) && Sendable(item.path)
    requires InjectStep(targetBase, moduleDir, item).Emit?
    ensures var line := InjectStep(targetBase, moduleDir, item).line;
      ParseLine(line).Some? && RuleTarget(ParseLine(line).value) == Some(TargetOf(targetBase, moduleDir, item))
  {
    var target := TargetOf(targetBase, moduleDir, item);
    assert StripPrefix(item.path, moduleDir) == Some(item.path[|moduleDir|..]);
    SendableBelow(targetBase, moduleDir, item.path);
    match item.kind {
      case File => AddRuleDecodes(target, item.path, Some(8));
      case Symlink => AddRuleDecodes(target, item.path, Some(10));
      case CharDevice(_) => HidePathDecodes(target);
      case Directory => InjectDirDecodes(target);
      case OtherKind =>
    }
  }

  /**
   * Unprojection removes what projection set up: for a cleanly walked
   * module directory whose paths the line protocol carries, every rule that
   * projection writes after the boundary at the target base is one the
   * kernel reads back, and unprojection writes a delete for its target.
   */
  lemma UnprojectionCoversProjection(targetBase: Path, moduleDir: Path, walk: seq<WalkItem>, accept: nat -> bool)
    requires CleanWalk(moduleDir, walk)
    requires forall j :: accept(j)
    requires Sendable(targetBase)
    requires forall i :: 0 <= i < |walk| ==> Sendable(walk[i].path)
    ensures var injected := InjectReport(targetBase, moduleDir, Tree(walk), accept).sent;
      var deleted := DeleteReport(targetBase, moduleDir, Tree(walk), accept).sent;
      forall line :: line in injected[1..] ==>
        ParseLine(line).Some? && RuleTarget(ParseLine(line).value).Some? &&
        DeleteRule(RuleTarget(ParseLine(line).value).value) in deleted
  {
    var steps := InjectSteps(targetBase, moduleDir, walk);
    var all := [Emit(InjectDir(targetBase))] + steps;
    CleanInjectPlan(targetBase, moduleDir, walk);
    assert all[1..] == steps;
    assert AbortFree(all);
    RunSendsPlannedPrefix(all, accept, 0);
    RunOutcome(all, accept, 0);
    var injected := Run(all, accept, 0).sent;
    assert injected == Planned(all) == [InjectDir(targetBase)] + Planned(steps);
    var deleted := DeleteReport(targetBase, moduleDir, Tree(walk), accept).sent;
    UnprojectionRules(targetBase, moduleDir, walk, accept);
    forall line | line in injected[1..]
      ensures ParseLine(line).Some? && RuleTarget(ParseLine(line).value).Some?
      ensures DeleteRule(RuleTarget(ParseLine(line).value).value) in deleted
    {
      assert line in Planned(steps);
      PlannedFrom(steps, line);
      var i :| 0 <= i < |steps| && steps[i] == Emit(line);
      var target := TargetOf(targetBase, moduleDir, walk[i]);
      EntryRuleTarget(targetBase, moduleDir, walk[i]);
      assert deleted[i] == DeleteRule(target);
    }
  }

  /** What the kernel reads from each line, in order. */
  function Decoded(lines: seq<string>): (cs: seq<Option<Command>>)
    ensures |cs| == |lines|
  {
    seq(|lines|, i requires 0 <= i < |lines| => ParseLine(lines[i]))
  }

  /**
   * A module directory holding one file, one symlink and one whiteout:
   * projection marks the base and writes a tag-8 redirect, a tag-10 redirect
   * and a hide, and no redirect for the whiteout.
   */
  lemma ProjectionExample(targetBase: Path, moduleDir: Path, file: Path, link: Path, whiteout: Path, accept: nat -> bool)
    requires moduleDir < file && moduleDir < link && moduleDir < whiteout
    requires Sendable(targetBase) && Sendable(file) && Sendable(link) && Sendable(whiteout)
    requires forall j :: accept(j)
    ensures var walk := [Entry(file, File), Entry(link, Symlink), Entry(whiteout, CharDevice(Some(0)))];
      var injected := InjectReport(targetBase, moduleDir, Tree(walk), accept);
      && injected.outcome == Ok
      && Decoded(injected.sent) == [
           Some(InjectCmd(targetBase)),
           Some(AddCmd(Join(targetBase, file[|moduleDir|..]), file, 8)),
           Some(AddCmd(Join(targetBase, link[|moduleDir|..]), link, 10)),
           Some(HideCmd(Join(targetBase, whiteout[|moduleDir|..])))]
  {
    var walk := [Entry(file, File), Entry(link, Symlink), Entry(whiteout, CharDevice(Some(0)))];
    var tf, tl, tw := Join(targetBase, file[|moduleDir|..]), Join(targetBase, link[|moduleDir|..]),
      Join(targetBase, whiteout[|moduleDir|..]);
    var lines := [InjectDir(targetBase), AddRule(tf, file, Some(8)), AddRule(tl, link, Some(10)), HidePath(tw)];
    ExampleLines(targetBase, moduleDir, file, link, whiteout, accept);
    var injected := InjectReport(targetBase, moduleDir, Tree(walk), accept);
    assert injected.sent == lines;
    SendableBelow(targetBase, moduleDir, file);
    SendableBelow(targetBase, moduleDir, link);
    SendableBelow(targetBase, moduleDir, whiteout);
    ExampleDecodes(targetBase, tf, file, tl, link, tw);
  }

  lemma ExampleDecodes(targetBase: Path, tf: Path, file: Path, tl: Path, link: Path, tw: Path)
    requires Sendable(targetBase) && Sendable(tf) && Sendable(file) && Sendable(tl) && Sendable(link) && Sendable(tw)
    ensures Decoded([InjectDir(targetBase), AddRule(tf, file, Some(8)), AddRule(tl, link, Some(10)), HidePath(tw)]) ==
      [Some(InjectCmd(targetBase)), Some(AddCmd(tf, file, 8)), Some(AddCmd(tl, link, 10)), Some(HideCmd(tw))]
  {
    InjectDirDecodes(targetBase);
    AddRuleDecodes(tf, file, Some(8));
    AddRuleDecodes(tl, link, Some(10));
    HidePathDecodes(tw);
    DecodedFour(InjectDir(targetBase), AddRule(tf, file, Some(8)), AddRule(tl, link, Some(10)), HidePath(tw));
  }

  lemma DecodedFour(a: string, b: string, c: string, d: string)
    ensures Decoded([a, b, c, d]) == [ParseLine(a), ParseLine(b), ParseLine(c), ParseLine(d)]
  {
  }

  lemma ExampleLines(targetBase: Path, moduleDir: Path, file: Path, link: Path, whiteout: Path, accept: nat -> bool)
    requires moduleDir < file && moduleDir < link && moduleDir < whiteout
    requires forall j :: accept(j)
    ensures var walk := [Entry(file, File), Entry(link, Symlink), Entry(whiteout, CharDevice(Some(0)))];
      var injected := InjectReport(targetBase, moduleDir, Tree(walk), accept);
      && injected.outcome == Ok
      && injected.sent == [InjectDir(targetBase),
                           AddRule(Join(targetBase, file[|moduleDir|..]), file, Some(8)),
                           AddRule(Join(targetBase, link[|moduleDir|..]), link, Some(10)),
                           HidePath(Join(targetBase, whiteout[|moduleDir|..]))]
  {
    var walk := [Entry(file, File), Entry(link, Symlink), Entry(whiteout, CharDevice(Some(0)))];
    var tf, tl, tw := Join(targetBase, file[|moduleDir|..]), Join(targetBase, link[|moduleDir|..]),
      Join(targetBase, whiteout[|moduleDir|..]);
    var lines := [InjectDir(targetBase), AddRule(tf, file, Some(8)), AddRule(tl, link, Some(10)), HidePath(tw)];
    assert StripPrefix(file, moduleDir) == Some(file[|moduleDir|..]);
    assert StripPrefix(link, moduleDir) == Some(link[|moduleDir|..]);
    assert StripPrefix(whiteout, moduleDir) == Some(whiteout[|moduleDir|..]);
    var all := [Emit(InjectDir(targetBase))] + InjectSteps(targetBase, moduleDir, walk);
    assert all == [Emit(lines[0]), Emit(lines[1]), Emit(lines[2]), Emit(lines[3])];
    assert AbortFree(all);
    RunSendsPlannedPrefix(all, accept, 0);
    RunOutcome(all, accept, 0);
    PlannedOfEmits(all);
  }

  /** Unprojecting the same directory deletes the three targets, one line each. */
  lemma UnprojectionExample(targetBase: Path, moduleDir: Path, file: Path, link: Path, whiteout: Path, accept: nat -> bool)
    requires moduleDir < file && moduleDir < link && moduleDir < whiteout
    requires file != link && link != whiteout && file != whiteout
    requires Sendable(targetBase) && Sendable(file) && Sendable(link) && Sendable(whiteout)
    requires forall j :: accept(j)
    ensures var walk := [Entry(file, File), Entry(link, Symlink), Entry(whiteout, CharDevice(Some(0)))];
      var deleted := DeleteReport(targetBase, moduleDir, Tree(walk), accept);
      && deleted.outcome == Ok
      && Decoded(deleted.sent) == [
           Some(DeleteCmd(Join(targetBase, file[|moduleDir|..]))),
           Some(DeleteCmd(Join(targetBase, link[|moduleDir|..]))),
           Some(DeleteCmd(Join(targetBase, whiteout[|moduleDir|..])))]
  {
    var walk := [Entry(file, File), Entry(link, Symlink), Entry(whiteout, CharDevice(Some(0)))];
    assert CleanWalk(moduleDir, walk);
    UnprojectionRules(targetBase, moduleDir, walk, accept);
    SendableBelow(targetBase, moduleDir, file);
    SendableBelow(targetBase, moduleDir, link);
    SendableBelow(targetBase, moduleDir, whiteout);
    DeleteRuleDecodes(Join(targetBase, file[|moduleDir|..]));
    DeleteRuleDecodes(Join(targetBase, link[|moduleDir|..]));
    DeleteRuleDecodes(Join(targetBase, whiteout[|moduleDir|..]));
  }

  lemma {:induction false} PlannedOfEmits(steps: seq<Step>)
    requires forall i :: 0 <= i < |steps| ==> steps[i].Emit?
    ensures Planned(steps) == seq(|steps|, i requires 0 <= i < |steps| => steps[i].line)
  {
    if steps != [] {
      PlannedOfEmits(steps[1..]);
    }
  }
}
