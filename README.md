# Podman systemd unit generation: shared helpers

This project models the helpers that `podman generate systemd` shares between
its container and pod unit generators (`pkg/systemd/generate/common.go`):

- validation of the `--restart-policy` value against systemd's seven restart
  policies;
- assembly of the header of the unit-file template, with or without the
  "autogenerated by Podman" block (`--no-header`);
- filtering of `--pod` / `--pod-id-file` out of a container's create command;
- quoting, with Go's `strconv.Quote`, of every argument that holds a space or
  a tab, in place;
- removal of `-d=false`, `--detach=false` and `--replace=false` from the flag
  part of a command, leaving the container's own trailing arguments alone.

Files:

- `wrappers.dfy`: the `Option` datatype.
- `text.dfy`: `HasPrefix`, `HasSuffix`, `Contains`, `ContainsAny`. It also
  holds the lemmas that show a fixed word does or does not occur in a text
  built from pieces.
- `subsequence.dfy`: order-preserving deletion and its basic laws.
- `strconv.dfy`: Go's `strconv.Quote`, and a decoder for the literals it
  writes, which serves as its partner.
- `generate_common.dfy`: the helpers themselves (module `Generate`).

Go's `[]string` slices are Dafny sequences. The loop that `quoteArguments`
runs over its slice, in place, is a method over an `array<string>`. The
loops of `filterPodFlags` and `removeArg` are methods proved against
recursive specification functions; the loop of `validateRestartPolicy` is a
method proved against the predicate `IsRestartPolicy`, which lists the seven
policies.

## Model

| member | source | states |
|---|---|---|
| Generate.RestartPoliciesListed | pkg/systemd/generate/common.go:22 | the policy list holds exactly the seven systemd restart policies |
| Generate.ValidateRestartPolicy | pkg/systemd/generate/common.go:25-32 | no error exactly when the value is one of the listed policies; otherwise the error message is the value followed by " is not a valid restart policy", and the message mentions the value |
| Generate.GenerateHeaderTemplate | pkg/systemd/generate/common.go:34-55 | the template always starts with the service-name line and always ends with a blank line followed by the [Unit] section |
| Generate.HeaderTemplateDropsInfoBlock | pkg/systemd/generate/common.go:48-52 | the full template is the no-header template with the info block inserted right after the service-name line |
| Generate.HeaderTemplateMentionsAutogenerated | pkg/systemd/generate/common.go:37-51 | the template contains "autogenerated" if and only if the header was not suppressed |
| Generate.InfoVersionLineMentionsAutogenerated | pkg/systemd/generate/common.go:37 | the info block's first line says "autogenerated" |
| Generate.BareHeaderLacksAutogenerated | pkg/systemd/generate/common.go:35-47 | the service-name line, a blank line and the [Unit] section never say "autogenerated" |
| Generate.UnitHeaderLacksAutogenerated | pkg/systemd/generate/common.go:42-47 | the [Unit] section never says "autogenerated" |
| Generate.ServiceHeaderLacksAutogenerated | pkg/systemd/generate/common.go:35-36 | the service-name line never says "autogenerated" |
| Generate.UnitSectionLineLacksAutogenerated | pkg/systemd/generate/common.go:42 | the "[Unit]" line never says "autogenerated" |
| Generate.UnitDescriptionLineLacksAutogenerated | pkg/systemd/generate/common.go:43 | the Description line never says "autogenerated" |
| Generate.UnitDocumentationLineLacksAutogenerated | pkg/systemd/generate/common.go:44 | the Documentation line never says "autogenerated" |
| Generate.UnitWantsLineLacksAutogenerated | pkg/systemd/generate/common.go:45 | the Wants line never says "autogenerated" |
| Generate.UnitAfterLineLacksAutogenerated | pkg/systemd/generate/common.go:46 | the After line never says "autogenerated" |
| Generate.FilterPodFlags | pkg/systemd/generate/common.go:58-72 | the loop, with its skip-the-value step after a bare flag, computes the specification function of pod-flag filtering |
| Generate.PodFlagsFilteredShape | pkg/systemd/generate/common.go:58-72 | the output is an order-preserving selection of the input, is no longer than the input, and holds no --pod, --pod-id-file, --pod=… or --pod-id-file=… element |
| Generate.PodFlagsFilteredAfterClean | pkg/systemd/generate/common.go:60-69 | elements before the first pod argument are all kept, in order |
| Generate.PodFlagDropsValue | pkg/systemd/generate/common.go:62-65 | a bare --pod or --pod-id-file is dropped together with the element after it, whatever that element is; a trailing bare flag is just dropped |
| Generate.PodFlagsFilteredIdempotent | pkg/systemd/generate/common.go:58-72 | a command with no pod arguments is left unchanged, so filtering twice is filtering once |
| Generate.PodFlagsFilteredExample | pkg/systemd/generate/common.go:58-72 | ["run","--pod","p1","--pod-id-file=/tmp/x","nginx"] becomes ["run","nginx"] |
| Generate.QuotedArgumentsAt | pkg/systemd/generate/common.go:78-82 | quoting keeps the length and treats every position on its own |
| Generate.QuoteArguments | pkg/systemd/generate/common.go:77-84 | the same array is returned, and each element is replaced by its Go quoting exactly when it holds a space or a tab |
| Generate.QuotedArgumentsReadBack | pkg/systemd/generate/common.go:78-83 | afterwards no argument holds a tab; every argument that held a space or a tab decodes back to the original; arguments without whitespace are unchanged |
| Strconv.Quote | pkg/systemd/generate/common.go:80 | the result starts and ends with a double quote, with the escaped text between them (simplifications: see the two "Strconv.Quote:" lines under "## Left out") |
| Strconv.QuoteRoundTrip | pkg/systemd/generate/common.go:80 | decoding the quoted literal gives back the original argument |
| Strconv.QuotePrintable | pkg/systemd/generate/common.go:80 | a quoted argument holds no control character, so no tab or newline |
| Generate.RemoveArg | pkg/systemd/generate/common.go:103-111 | the loop computes the specification function of removal |
| Generate.WithoutRemovesExactly | pkg/systemd/generate/common.go:103-111 | removal keeps the order of the rest, removes every copy of the value and only those (as a multiset), and leaves every other value present |
| Generate.WithoutConcat | pkg/systemd/generate/common.go:105-109 | removal works element by element, so it distributes over concatenation |
| Generate.WithoutSubsequence | pkg/systemd/generate/common.go:105-109 | the result is an order-preserving selection of the input |
| Generate.WithoutCounts | pkg/systemd/generate/common.go:105-109 | the result's multiset is the input's with the value's count set to zero, and its length drops by that count |
| Generate.WithoutAbsent | pkg/systemd/generate/common.go:103-111 | removing a value that does not occur changes nothing |
| Generate.WithoutIdempotent | pkg/systemd/generate/common.go:103-111 | removing twice is removing once |
| Generate.WithoutTwo | pkg/systemd/generate/common.go:90-91 | removing two distinct values in turn removes exactly their occurrences, keeping the order of the rest |
| Generate.RemoveDetachArg | pkg/systemd/generate/common.go:86-93 | the last argCount elements are kept verbatim; the part before them loses exactly its -d=false and --detach=false elements, in order, and nothing else |
| Generate.RemoveReplaceArg | pkg/systemd/generate/common.go:95-101 | the last argCount elements are kept verbatim; the part before them loses exactly its --replace=false elements, in order, and nothing else |
| Generate.RemoveDetachArgIdempotent | pkg/systemd/generate/common.go:86-93 | applying it twice with the same argCount is applying it once |
| Generate.RemoveReplaceArgIdempotent | pkg/systemd/generate/common.go:95-101 | applying it twice with the same argCount is applying it once |

## Left out

- `EnvVariable` and `MinTimeoutStopSec` are declared with their values only. The code that uses them (the container and pod unit templates) is not part of this model.
- The template text is kept as Go template source. Rendering the `{{{{...}}}}` placeholders is done by the callers, which are not part of this model.
- `GenerateSystemdOptions` holds only `noHeader`. No other option is read by these helpers.
- The error value from `github.com/pkg/errors` is modelled as an `Error` datatype that holds only the message. It has no stack trace.
- Strconv.Quote: every non-ASCII character is treated as printable. Go escapes non-printable non-ASCII characters as `\u`/`\U` and invalid UTF-8 as `\x`. Dafny strings hold characters, not bytes, so invalid UTF-8 cannot occur.
- Strconv.Quote: DEL (0x7f) is written as `\x7f`. Some Go releases write `\u007f` instead.
- Strconv.Unquote: decodes only the escapes that Quote writes. Go's octal, `\u`, `\U` and single-quote escapes are not decoded. It serves only as the partner of Quote.
- RemoveDetachArg, RemoveReplaceArg: these require `0 <= argCount <= |args|`. For any other argCount, Go's slice expression panics, and the model does not represent that panic.
- How systemd later splits the `ExecStart=` line into words is not modelled. QuotedArgumentsReadBack states what the quoting guarantees at the string level.
- Go slices can alias, but `filterPodFlags` and `removeArg` build fresh slices from an empty `[]string{}`. `removeDetachArg` and `removeReplaceArg` append to such a result, so their results never share storage with `args`. Modelling them with values therefore loses nothing.
