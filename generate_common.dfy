/** The shared helpers of podman's systemd unit generator
    (pkg/systemd/generate/common.go): restart-policy validation, the
    unit-file header template, and the rewriting of the captured
    `podman run`/`create` command line into one fit for a unit's ExecStart. */
module Generate {

  import opened Wrappers
  import opened Text
  import opened Subsequence
  import Strconv

  /** Set in every generated unit to the unit's own (unique) name. */
  const EnvVariable := "PODMAN_SYSTEMD_UNIT"

  /** Smallest stop timeout, in seconds, a generated unit is given. */
  const MinTimeoutStopSec := 60

  // ---------------------------------------------------------------------
  // Restart policies

  /** The restart policies a unit file may use, in the source's order. */
  const RestartPolicies: seq<string> :=
    ["no", "on-success", "on-failure", "on-abnormal", "on-watchdog", "on-abort", "always"]

  /** The values systemd's Restart= accepts, spelled out one by one. */
  predicate IsRestartPolicy(p: string) {
    p == "no" || p == "on-success" || p == "on-failure" || p == "on-abnormal" ||
    p == "on-watchdog" || p == "on-abort" || p == "always"
  }

  /** The list holds exactly the accepted values. */
  lemma RestartPoliciesListed()
    ensures forall p :: p in RestartPolicies <==> IsRestartPolicy(p)
  {
  }

  /** An error value carrying its message. */
  datatype Error = Error(message: string)

  /** Checks the user-provided restart policy: no error exactly for the seven
      accepted values (compared case-sensitively), otherwise an error whose
      message names the rejected value. */
  method ValidateRestartPolicy(restart: string) returns (err: Option<Error>)
    ensures err.None? <==> IsRestartPolicy(restart)
    ensures err.Some? ==> err.value.message == restart + " is not a valid restart policy"
    ensures err.Some? ==> Contains(err.value.message, restart)
  {
    RestartPoliciesListed();
    for i := 0 to |RestartPolicies|
      invariant forall j :: 0 <= j < i ==> RestartPolicies[j] != restart
    {
      if RestartPolicies[i] == restart {
        return None;
      }
    }
    var message := restart + " is not a valid restart policy";
    PrefixContained(message, restart);
    return Some(Error(message));
  }

  // ---------------------------------------------------------------------
  // Header template

  /** The generation options this file reads. */
  datatype GenerateSystemdOptions = GenerateSystemdOptions(noHeader: bool)

  /** The three text blocks of the header, line by line. The `{{{{...}}}}`
      placeholders are kept as literal text; they are filled in later. */
  const Autogenerated := "autogenerated"

  const ServiceHeader := "# {{{{.ServiceName}}}}.service\n"

  const InfoVersionLine := "# " + Autogenerated + " by Podman {{{{.PodmanVersion}}}}\n"
  const InfoHeader := InfoVersionLine
    + "{{{{- if .TimeStamp}}}}\n"
    + "# {{{{.TimeStamp}}}}\n"
    + "{{{{- end}}}}\n"

  const UnitSectionLine := "[Unit]\n"
  const UnitDescriptionLine := "Description=Podman {{{{.ServiceName}}}}.service\n"
  const UnitDocumentationLine := "Documentation=man:podman-generate-systemd(1)\n"
  const UnitWantsLine := "Wants=network.target\n"
  const UnitAfterLine := "After=network-online.target\n"
  const UnitHeader := UnitSectionLine + UnitDescriptionLine + UnitDocumentationLine
    + UnitWantsLine + UnitAfterLine

  /** The header template of a unit file: the service-name line, the
      version/timestamp block unless `noHeader` is set, a blank line and
      the [Unit] section. */
  function GenerateHeaderTemplate(options: GenerateSystemdOptions): (template: string)
    ensures HasPrefix(template, ServiceHeader)
    ensures HasSuffix(template, "\n" + UnitHeader)
  {
    var template := if options.noHeader then ServiceHeader else ServiceHeader + InfoHeader;
    assert HasPrefix(template, ServiceHeader) by {
      assert ServiceHeader[..|ServiceHeader|] == ServiceHeader;
      if !options.noHeader {
        PrefixExtended(ServiceHeader, ServiceHeader, InfoHeader);
      }
    }
    PrefixExtended(template, ServiceHeader, "\n" + UnitHeader);
    SuffixAppended(template, "\n" + UnitHeader);
    assert template + "\n" + UnitHeader == template + ("\n" + UnitHeader);
    template + "\n" + UnitHeader
  }

  /** Setting `noHeader` removes exactly the info block: the template without
      it is the template with it, minus InfoHeader after the first line. */
  lemma HeaderTemplateDropsInfoBlock()
    ensures var full := GenerateHeaderTemplate(GenerateSystemdOptions(false));
            var bare := GenerateHeaderTemplate(GenerateSystemdOptions(true));
            full == ServiceHeader + InfoHeader + bare[|ServiceHeader|..]
  {
    var bare := GenerateHeaderTemplate(GenerateSystemdOptions(true));
    assert bare[|ServiceHeader|..] == "\n" + UnitHeader;
  }

  // Each line of the header without the info block lacks the word. The cut
  // points split a line into pieces of at most 13 characters, each ending
  // with a character that does not occur in "autogenerated".

  lemma ServiceHeaderLacksAutogenerated()
    ensures !Contains(ServiceHeader, Autogenerated)
  {
    NotContainsByCuts(ServiceHeader, Autogenerated, [0, 13, 24, 31]);
  }

  lemma UnitSectionLineLacksAutogenerated()
    ensures !Contains(UnitSectionLine, Autogenerated)
  {
    NotContainsByCuts(UnitSectionLine, Autogenerated, [0, 7]);
  }

  lemma UnitDescriptionLineLacksAutogenerated()
    ensures !Contains(UnitDescriptionLine, Autogenerated)
  {
    NotContainsByCuts(UnitDescriptionLine, Autogenerated, [0, 13, 25, 38, 48]);
  }

  lemma UnitDocumentationLineLacksAutogenerated()
    ensures !Contains(UnitDocumentationLine, Autogenerated)
  {
    NotContainsByCuts(UnitDocumentationLine, Autogenerated, [0, 11, 22, 35, 45]);
  }

  lemma UnitWantsLineLacksAutogenerated()
    ensures !Contains(UnitWantsLine, Autogenerated)
  {
    NotContainsByCuts(UnitWantsLine, Autogenerated, [0, 13, 21]);
  }

  lemma UnitAfterLineLacksAutogenerated()
    ensures !Contains(UnitAfterLine, Autogenerated)
  {
    NotContainsByCuts(UnitAfterLine, Autogenerated, [0, 13, 21, 28]);
  }

  lemma UnitHeaderLacksAutogenerated()
    ensures !Contains(UnitHeader, Autogenerated)
  {
    assert '\n' !in Autogenerated;
    UnitSectionLineLacksAutogenerated();
    UnitDescriptionLineLacksAutogenerated();
    UnitDocumentationLineLacksAutogenerated();
    UnitWantsLineLacksAutogenerated();
    UnitAfterLineLacksAutogenerated();
    NotContainsJoin(UnitSectionLine, UnitDescriptionLine, Autogenerated);
    NotContainsJoin(UnitSectionLine + UnitDescriptionLine, UnitDocumentationLine, Autogenerated);
    NotContainsJoin(UnitSectionLine + UnitDescriptionLine + UnitDocumentationLine, UnitWantsLine, Autogenerated);
    NotContainsJoin(UnitSectionLine + UnitDescriptionLine + UnitDocumentationLine + UnitWantsLine,
                    UnitAfterLine, Autogenerated);
  }

  lemma InfoVersionLineMentionsAutogenerated()
    ensures Contains(InfoVersionLine, Autogenerated)
  {
    ContainsMiddle("# ", Autogenerated, " by Podman {{{{.PodmanVersion}}}}\n");
  }

  lemma BareHeaderLacksAutogenerated()
    ensures !Contains(ServiceHeader + "\n" + UnitHeader, Autogenerated)
  {
    assert '\n' !in Autogenerated;
    ServiceHeaderLacksAutogenerated();
    NotContainsByCuts("\n", Autogenerated, [0, 1]);
    UnitHeaderLacksAutogenerated();
    NotContainsJoin(ServiceHeader, "\n", Autogenerated);
    NotContainsJoin(ServiceHeader + "\n", UnitHeader, Autogenerated);
  }

  /** The template mentions "autogenerated" exactly when the info block is
      kept, i.e. exactly when `noHeader` is not set. */
  lemma HeaderTemplateMentionsAutogenerated(options: GenerateSystemdOptions)
    ensures Contains(GenerateHeaderTemplate(options), Autogenerated) <==> !options.noHeader
  {
    if options.noHeader {
      BareHeaderLacksAutogenerated();
    } else {
      InfoVersionLineMentionsAutogenerated();
      ContainsAppended(InfoVersionLine, "{{{{- if .TimeStamp}}}}\n", Autogenerated);
      ContainsAppended(InfoVersionLine + "{{{{- if .TimeStamp}}}}\n", "# {{{{.TimeStamp}}}}\n", Autogenerated);
      ContainsAppended(InfoVersionLine + "{{{{- if .TimeStamp}}}}\n" + "# {{{{.TimeStamp}}}}\n",
                       "{{{{- end}}}}\n", Autogenerated);
      ContainsPrepended(ServiceHeader, InfoHeader, Autogenerated);
      ContainsAppended(ServiceHeader + InfoHeader, "\n", Autogenerated);
      ContainsAppended(ServiceHeader + InfoHeader + "\n", UnitHeader, Autogenerated);
    }
  }

  // ---------------------------------------------------------------------
  // Pod flags

  /** The two-token form: the flag, then its value as the next element. */
  predicate IsPodFlag(s: string) {
    s == "--pod" || s == "--pod-id-file"
  }

  /** The one-token form `--pod=<value>` / `--pod-id-file=<value>`. */
  predicate IsPodAssignment(s: string) {
    HasPrefix(s, "--pod=") || HasPrefix(s, "--pod-id-file=")
  }

  predicate IsPodArgument(s: string) {
    IsPodFlag(s) || IsPodAssignment(s)
  }

  /** The command with every pod flag removed: a bare flag takes the next
      element with it, whatever that element is; a flag in last position
      takes nothing more. */
  function PodFlagsFiltered(command: seq<string>): (filtered: seq<string>)
    decreases |command|
  {
    if command == [] then []
    else if IsPodFlag(command[0]) then
      (if |command| == 1 then [] else PodFlagsFiltered(command[2..]))
    else if IsPodAssignment(command[0]) then PodFlagsFiltered(command[1..])
    else [command[0]] + PodFlagsFiltered(command[1..])
  }

  /** The elements from position i on; none once i has run past the end. */
  function From(command: seq<string>, i: nat): (rest: seq<string>) {
    if i <= |command| then command[i..] else []
  }

  /** Removes --pod and --pod-id-file, with their values, from the command. */
  method FilterPodFlags(command: seq<string>) returns (processed: seq<string>)
    ensures processed == PodFlagsFiltered(command)
  {
    processed := [];
    var i := 0;
    while i < |command|
      invariant 0 <= i <= |command| + 1
      invariant processed + PodFlagsFiltered(From(command, i)) == PodFlagsFiltered(command)
    {
      var s := command[i];
      ghost var rest := command[i..];
      assert rest[0] == s && rest[1..] == From(command, i + 1);
      if IsPodFlag(s) {
        assert |rest| > 1 ==> rest[2..] == From(command, i + 2);
        i := i + 1;
      } else if !IsPodAssignment(s) {
        processed := processed + [s];
      }
      i := i + 1;
    }
  }

  /** The filtered command keeps the order of the elements it keeps, is never
      longer, and holds no pod flag in either form. */
  lemma {:induction false} PodFlagsFilteredShape(command: seq<string>)
    ensures IsSubsequence(PodFlagsFiltered(command), command)
    ensures |PodFlagsFiltered(command)| <= |command|
    ensures forall s :: s in PodFlagsFiltered(command) ==> !IsPodArgument(s)
    decreases |command|
  {
    var r := PodFlagsFiltered(command);
    if command != [] {
      if IsPodFlag(command[0]) {
        if |command| > 1 {
          PodFlagsFilteredShape(command[2..]);
          SubsequenceReflexive(command[2..]);
          assert command[1..][1..] == command[2..];
          assert IsSubsequence(command[2..], command[1..]);
          SubsequenceTransitive(r, command[2..], command[1..]);
        }
      } else {
        PodFlagsFilteredShape(command[1..]);
      }
    }
    SubsequenceBounds(r, command);
  }

  /** A prefix without pod flags passes through unchanged. */
  lemma {:induction false} PodFlagsFilteredAfterClean(prefix: seq<string>, rest: seq<string>)
    requires forall s :: s in prefix ==> !IsPodArgument(s)
    ensures PodFlagsFiltered(prefix + rest) == prefix + PodFlagsFiltered(rest)
    decreases |prefix|
  {
    if prefix == [] {
      assert prefix + rest == rest;
    } else {
      assert (prefix + rest)[0] == prefix[0] && prefix[0] in prefix;
      assert !IsPodArgument(prefix[0]);
      assert PodFlagsFiltered(prefix + rest) == [prefix[0]] + PodFlagsFiltered((prefix + rest)[1..]);
      assert (prefix + rest)[1..] == prefix[1..] + rest;
      PodFlagsFilteredAfterClean(prefix[1..], rest);
      assert prefix == [prefix[0]] + prefix[1..];
      assert [prefix[0]] + (prefix[1..] + PodFlagsFiltered(rest)) == prefix + PodFlagsFiltered(rest);
    }
  }

  /** A bare pod flag drops the element after it whatever that element is
      (even another flag), and a bare flag at the very end drops only itself. */
  lemma PodFlagDropsValue(prefix: seq<string>, flag: string, value: string, rest: seq<string>)
    requires forall s :: s in prefix ==> !IsPodArgument(s)
    requires IsPodFlag(flag)
    ensures PodFlagsFiltered(prefix + [flag, value] + rest) == prefix + PodFlagsFiltered(rest)
    ensures PodFlagsFiltered(prefix + [flag]) == prefix
  {
    PodFlagsFilteredAfterClean(prefix, [flag, value] + rest);
    assert prefix + [flag, value] + rest == prefix + ([flag, value] + rest);
    assert ([flag, value] + rest)[2..] == rest;
    PodFlagsFilteredAfterClean(prefix, [flag]);
  }

  /** Filtering a command without pod flags changes nothing, and filtering
      twice is the same as filtering once. */
  lemma PodFlagsFilteredIdempotent(command: seq<string>)
    ensures (forall s :: s in command ==> !IsPodArgument(s)) ==> PodFlagsFiltered(command) == command
    ensures PodFlagsFiltered(PodFlagsFiltered(command)) == PodFlagsFiltered(command)
  {
    if forall s :: s in command ==> !IsPodArgument(s) {
      PodFlagsFilteredAfterClean(command, []);
      assert command + [] == command;
    }
    PodFlagsFilteredShape(command);
    PodFlagsFilteredAfterClean(PodFlagsFiltered(command), []);
    assert PodFlagsFiltered(command) + [] == PodFlagsFiltered(command);
  }

  /** Both forms on one command line. */
  lemma PodFlagsFilteredExample()
    ensures PodFlagsFiltered(["run", "--pod", "p1", "--pod-id-file=/tmp/x", "nginx"]) == ["run", "nginx"]
  {
    var c := ["run", "--pod", "p1", "--pod-id-file=/tmp/x", "nginx"];
    assert !IsPodArgument("run") && IsPodFlag("--pod");
    assert IsPodAssignment("--pod-id-file=/tmp/x") by {
      assert "--pod-id-file=/tmp/x"[..14] == "--pod-id-file=";
    }
    assert !IsPodArgument("nginx");
    assert c[1..] == ["--pod", "p1", "--pod-id-file=/tmp/x", "nginx"];
    assert c[1..][2..] == ["--pod-id-file=/tmp/x", "nginx"];
    assert c[1..][2..][1..] == ["nginx"];
  }

  // ---------------------------------------------------------------------
  // Quoting

  /** An argument holding a space or a tab would be split by systemd. */
  predicate NeedsQuoting(arg: string) {
    ContainsAny(arg, " \t")
  }

  function QuoteArgument(arg: string): (quoted: string) {
    if NeedsQuoting(arg) then Strconv.Quote(arg) else arg
  }

  /** The command with every argument that holds whitespace quoted. */
  function QuotedArguments(command: seq<string>): (quoted: seq<string>) {
    if command == [] then [] else [QuoteArgument(command[0])] + QuotedArguments(command[1..])
  }

  /** Quoting keeps the length and touches each argument on its own. */
  lemma {:induction false} QuotedArgumentsAt(command: seq<string>)
    ensures |QuotedArguments(command)| == |command|
    ensures forall k :: 0 <= k < |command| ==> QuotedArguments(command)[k] == QuoteArgument(command[k])
  {
    if command != [] {
      QuotedArgumentsAt(command[1..]);
    }
  }

  /** Quotes, in the caller's array, every argument holding a space or a tab,
      and returns that same array. */
  method QuoteArguments(command: array<string>) returns (quoted: array<string>)
    modifies command
    ensures quoted == command
    ensures command[..] == QuotedArguments(old(command[..]))
  {
    for i := 0 to command.Length
      invariant forall k :: 0 <= k < i ==> command[k] == QuoteArgument(old(command[k]))
      invariant forall k :: i <= k < command.Length ==> command[k] == old(command[k])
    {
      if NeedsQuoting(command[i]) {
        command[i] := Strconv.Quote(command[i]);
      }
    }
    QuotedArgumentsAt(old(command[..]));
    assert forall k :: 0 <= k < command.Length ==> command[..][k] == QuotedArguments(old(command[..]))[k];
    return command;
  }

  /** After quoting, no argument holds a tab; every argument that held a
      space or a tab is now a quoted literal that decodes to the original
      argument; arguments without whitespace are left as they were. */
  lemma QuotedArgumentsReadBack(command: seq<string>)
    ensures var quoted := QuotedArguments(command);
      |quoted| == |command| &&
      forall k :: 0 <= k < |command| ==>
        '\t' !in quoted[k] &&
        (NeedsQuoting(command[k]) ==> Strconv.Unquote(quoted[k]) == Some(command[k])) &&
        (!NeedsQuoting(command[k]) ==> quoted[k] == command[k])
  {
    QuotedArgumentsAt(command);
    forall k | 0 <= k < |command|
      ensures '\t' !in QuoteArgument(command[k])
      ensures NeedsQuoting(command[k]) ==> Strconv.Unquote(QuoteArgument(command[k])) == Some(command[k])
    {
      if NeedsQuoting(command[k]) {
        Strconv.QuoteRoundTrip(command[k]);
        Strconv.QuotePrintable(command[k]);
      }
    }
  }

  // ---------------------------------------------------------------------
  // Removing arguments

  /** `args` without the elements equal to `arg`, in their order. */
  function Without(arg: string, args: seq<string>): (kept: seq<string>) {
    if args == [] then []
    else (if args[0] == arg then [] else [args[0]]) + Without(arg, args[1..])
  }

  /** Removal works element by element, so it distributes over joining. */
  lemma {:induction false} WithoutConcat(arg: string, a: seq<string>, b: seq<string>)
    ensures Without(arg, a + b) == Without(arg, a) + Without(arg, b)
    decreases |a|
  {
    if a == [] {
      assert a + b == b;
    } else {
      assert (a + b)[0] == a[0];
      assert (a + b)[1..] == a[1..] + b;
      WithoutConcat(arg, a[1..], b);
    }
  }

  /** Removal keeps the order of what it keeps. */
  lemma {:induction false} WithoutSubsequence(arg: string, args: seq<string>)
    ensures IsSubsequence(Without(arg, args), args)
  {
    if args != [] {
      WithoutSubsequence(arg, args[1..]);
      if args[0] != arg {
        assert ([args[0]] + Without(arg, args[1..]))[1..] == Without(arg, args[1..]);
      } else {
        assert [] + Without(arg, args[1..]) == Without(arg, args[1..]);
      }
    }
  }

  /** Removal deletes every occurrence of `arg` and nothing else: each other
      value keeps its multiplicity. */
  lemma {:induction false} WithoutCounts(arg: string, args: seq<string>)
    ensures multiset(Without(arg, args)) == multiset(args)[arg := 0]
    ensures |Without(arg, args)| == |args| - multiset(args)[arg]
  {
    if args != [] {
      WithoutCounts(arg, args[1..]);
      assert args == [args[0]] + args[1..];
      assert multiset(args) == multiset{args[0]} + multiset(args[1..]);
    }
  }

  /** Removal deletes exactly the occurrences of `arg`: the rest keeps its
      order and multiplicity, and elements that merely contain `arg` as a
      substring are kept. */
  lemma WithoutRemovesExactly(arg: string, args: seq<string>)
    ensures IsSubsequence(Without(arg, args), args)
    ensures multiset(Without(arg, args)) == multiset(args)[arg := 0]
    ensures |Without(arg, args)| == |args| - multiset(args)[arg]
    ensures forall x :: x in Without(arg, args) <==> x in args && x != arg
  {
    WithoutSubsequence(arg, args);
    WithoutCounts(arg, args);
    forall x ensures x in Without(arg, args) <==> x in args && x != arg {
      assert x in Without(arg, args) <==> x in multiset(Without(arg, args));
      assert x in args <==> x in multiset(args);
    }
  }

  /** Removing a value that does not occur changes nothing. */
  lemma {:induction false} WithoutAbsent(arg: string, args: seq<string>)
    requires arg !in args
    ensures Without(arg, args) == args
  {
    if args != [] {
      WithoutAbsent(arg, args[1..]);
      assert args == [args[0]] + args[1..];
    }
  }

  /** Removing twice is removing once. */
  lemma {:induction false} WithoutIdempotent(arg: string, args: seq<string>)
    ensures Without(arg, Without(arg, args)) == Without(arg, args)
  {
    if args != [] {
      WithoutIdempotent(arg, args[1..]);
      var rest := Without(arg, args[1..]);
      if args[0] != arg {
        assert ([args[0]] + rest)[0] == args[0];
        assert ([args[0]] + rest)[1..] == rest;
      } else {
        assert [] + rest == rest;
      }
    }
  }

  /** Returns `args` without the elements equal to `arg`. */
  method RemoveArg(arg: string, args: seq<string>) returns (newArgs: seq<string>)
    ensures newArgs == Without(arg, args)
  {
    newArgs := [];
    for i := 0 to |args|
      invariant newArgs == Without(arg, args[..i])
    {
      WithoutConcat(arg, args[..i], [args[i]]);
      assert args[..i + 1] == args[..i] + [args[i]];
      if args[i] != arg {
        newArgs := newArgs + [args[i]];
      }
    }
    assert args[..|args|] == args;
  }

  /** What the flag part becomes when removing two values from it. */
  lemma WithoutTwo(a: string, b: string, flags: seq<string>)
    requires a != b
    ensures var kept := Without(b, Without(a, flags));
      IsSubsequence(kept, flags) &&
      |kept| == |flags| - multiset(flags)[a] - multiset(flags)[b] &&
      forall x :: x in kept <==> x in flags && x != a && x != b
  {
    WithoutRemovesExactly(a, flags);
    WithoutRemovesExactly(b, Without(a, flags));
    SubsequenceTransitive(Without(b, Without(a, flags)), Without(a, flags), flags);
  }

  /** Strips "-d=false" and "--detach=false" from the flag part of `args`:
      the last `argCount` elements belong to the container's own command and
      are kept as they are. */
  function RemoveDetachArg(args: seq<string>, argCount: int): (r: seq<string>)
    requires 0 <= argCount <= |args|
    ensures argCount <= |r|
    ensures r[|r| - argCount..] == args[|args| - argCount..]
    ensures var flags, kept := args[..|args| - argCount], r[..|r| - argCount];
      IsSubsequence(kept, flags) &&
      |kept| == |flags| - multiset(flags)["-d=false"] - multiset(flags)["--detach=false"] &&
      forall x :: x in kept <==> x in flags && x != "-d=false" && x != "--detach=false"
  {
    var realArgs := args[|args| - argCount..];
    var flagArgs := Without("--detach=false", Without("-d=false", args[..|args| - argCount]));
    WithoutTwo("-d=false", "--detach=false", args[..|args| - argCount]);
    assert (flagArgs + realArgs)[..|flagArgs|] == flagArgs;
    flagArgs + realArgs
  }

  /** Strips "--replace=false" from the flag part of `args`, keeping the last
      `argCount` elements as they are. */
  function RemoveReplaceArg(args: seq<string>, argCount: int): (r: seq<string>)
    requires 0 <= argCount <= |args|
    ensures argCount <= |r|
    ensures r[|r| - argCount..] == args[|args| - argCount..]
    ensures var flags, kept := args[..|args| - argCount], r[..|r| - argCount];
      IsSubsequence(kept, flags) &&
      |kept| == |flags| - multiset(flags)["--replace=false"] &&
      forall x :: x in kept <==> x in flags && x != "--replace=false"
  {
    var realArgs := args[|args| - argCount..];
    var flagArgs := Without("--replace=false", args[..|args| - argCount]);
    WithoutRemovesExactly("--replace=false", args[..|args| - argCount]);
    assert (flagArgs + realArgs)[..|flagArgs|] == flagArgs;
    flagArgs + realArgs
  }

  /** Stripping the detach flags a second time, with the same boundary,
      changes nothing. */
  lemma RemoveDetachArgIdempotent(args: seq<string>, argCount: int)
    requires 0 <= argCount <= |args|
    ensures RemoveDetachArg(RemoveDetachArg(args, argCount), argCount) == RemoveDetachArg(args, argCount)
  {
    var r := RemoveDetachArg(args, argCount);
    var kept := r[..|r| - argCount];
    WithoutAbsent("-d=false", kept);
    WithoutAbsent("--detach=false", kept);
    assert kept + r[|r| - argCount..] == r;
  }

  /** Stripping "--replace=false" a second time, with the same boundary,
      changes nothing. */
  lemma RemoveReplaceArgIdempotent(args: seq<string>, argCount: int)
    requires 0 <= argCount <= |args|
    ensures RemoveReplaceArg(RemoveReplaceArg(args, argCount), argCount) == RemoveReplaceArg(args, argCount)
  {
    var r := RemoveReplaceArg(args, argCount);
    var kept := r[..|r| - argCount];
    WithoutAbsent("--replace=false", kept);
    assert kept + r[|r| - argCount..] == r;
  }
}
