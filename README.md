# tukx: a Dafny model of the script generator's string rules

`tukx gen` turns a command typed into an editor into a shell script that
writes a systemd unit file through a here-document and optionally enables
and starts the unit. This project models the rules in `src/tukx/main.py`
that decide what text ends up in that script, and proves what they promise:

- **Environment assignments** (`fix_envlist`): each `NAME=VALUE` entry is split
  at its first `=`, the name must use only `[A-Za-z0-9_]`, the value must be
  printable, and every accepted entry is yielded back unchanged, in order.
- **Command normalisation** (`parse_command_input`): blank lines are dropped,
  several lines need shell mode, each line's first word is rewritten to
  `$(which <word>)` at its first literal occurrence, and shell mode wraps the
  lines in `$(which sh) -c '<lines>'` through `shlex.join` and a placeholder
  rewrite. The caller then turns every newline into backslash-newline.
- **Shell quoting** (`shlex.quote` / `shlex.join`, written out from the Python
  standard library's documented behaviour): proved to round-trip through a
  reference reader of POSIX shell words.
- **Here-document sentinel** (`inline_file`): `EOF`, widened once to
  `EOF-<uuid>`, and an error if that still occurs in the unit file.
- **Options of `tukx gen`**: the four conflict checks, run before the defaults
  for user, group, working directory and unit name; the target path by scope;
  and the whole pipeline in the order the source raises its errors.

Modules: `Wrappers` (Option, Result), `PyStr` (the Python `str` operations
used: `isspace`, `strip`, `splitlines`, `find`/`in`, `replace`, `join`),
`ShellQuote`, `EnvList`, `CommandInput`, `InlineFile`, `Gen`.
`fix_envlist` and the option block of `tukx_gen` are imperative methods
(a loop building the output; locals rebound by a chain of `if`s); the rest
are functions with lemmas.

Some behaviours of the code are easy to misread, and the model keeps them as
written. Shell-mode lines are joined with a newline. There is no PATH lookup,
remote mode or absolute-path check: `$(which …)` is only emitted as text. An
empty command is not an error, because `parse_command_input` returns `""` and
never `None`, so the `command is None` check at `src/tukx/main.py:138` never
fires (`CommandInput.ParseOutcomes`, `Gen.Generate`). Shell mode rewrites
every `/REPLACE/ME` in the quoted command, including one the user typed
(`CommandInput.ShellModeShape`). A unit name that starts with `/` replaces
the systemd folder in the target path, because `os.path.join` discards the
folder (`Gen.TargetPathByScope`).

## Model

| member | source | states |
|---|---|---|
| `EnvList.CheckEntry` | src/tukx/main.py:61-69 | an accepted entry is yielded back equal to the input: splitting at the first `=` and formatting `name=value` again loses nothing |
| `EnvList.FixEnvList` | src/tukx/main.py:59-69 | the loop's output is a prefix of the input in input order, every output entry passed the per-entry check and equals its input; no error exactly when the whole list passed; otherwise the error is that of the entry right after the prefix |
| `EnvList.NoEqualsIsInvalidFormat` | src/tukx/main.py:62-63 | an entry is rejected as malformed if and only if it contains no `=` |
| `EnvList.SplitAtFirstEquals` | src/tukx/main.py:64-68 | for a name without `=`, `name=value` is split at that first `=`: rejected for a bad name, else for a non-printable value (which may itself contain `=`), else accepted |
| `EnvList.EmptyNameAccepted` | src/tukx/main.py:65-66 | an empty name passes the name check (`all` over nothing), so `=value` with a printable value is accepted |
| `CommandInput.KeepNonBlank` | src/tukx/main.py:43 | the kept lines are exactly the input lines that are not all whitespace; no lines give none, and one line is kept alone unless it is blank |
| `CommandInput.KeepNonBlankAppend` | src/tukx/main.py:43 | the filter works line by line and keeps the order: filtering two blocks of lines one after the other is filtering them together |
| `CommandInput.ParseCommandInput` | src/tukx/main.py:42-57 | all-blank input gives `""`; shell mode never fails; a failure means more than one non-blank line |
| `CommandInput.RewriteExec` | src/tukx/main.py:49-50 | a line grows by exactly the length of `$(which )` when its first word occurs in it as written, and is otherwise unchanged in length |
| `CommandInput.ContinueLines` | src/tukx/main.py:137 | the caller's rewrite gives empty text only for an empty command and leaves a command without newlines unchanged |
| `CommandInput.NonBlankLinesShape` | src/tukx/main.py:43 | every kept line is non-empty, not blank and holds no line break |
| `CommandInput.ParseOutcomes` | src/tukx/main.py:43-53 | the result is `""` if and only if every line is blank; the too-many-lines error if and only if shell mode is off and more than one line is left; in direct mode the single line with its first word rewritten |
| `CommandInput.RewriteFirstOccurrence` | src/tukx/main.py:49-50 | only the first literal occurrence of the line's first word is replaced by `$(which <word>)`; text before and after it is kept |
| `CommandInput.RewriteAbsentToken` | src/tukx/main.py:50 | a line in which the first word does not occur as written is left unchanged |
| `CommandInput.RewriteShape` | src/tukx/main.py:50 | a rewritten line is never empty, and gains no character absent from the line, its first word and `$(which )` |
| `CommandInput.ShellModeShape` | src/tukx/main.py:55-57 | shell mode yields `$(which sh) -c ` followed by the quoted newline-joined lines in which every `/REPLACE/ME`, the user's included, is rewritten to `$(which sh)` |
| `CommandInput.ShellCommandShape` | src/tukx/main.py:56-57 | after the placeholder rewrite, `shlex.join([placeholder, "-c", text])` is `$(which sh) -c ` plus the rewritten quoted text |
| `CommandInput.ShellModeSingleArgument` | src/tukx/main.py:55-57 | when the joined lines hold no `/REPLACE/ME`, the text after `$(which sh) -c ` is read by the shell as exactly one word: the joined lines |
| `CommandInput.ShellModeKeepsLines` | src/tukx/main.py:50-55 | the `-c` text splits back into exactly the rewritten lines, in input order, when no first word holds a line break |
| `CommandInput.RewriteKeepsNoBreak` | src/tukx/main.py:50 | rewriting a non-empty line without line breaks, with a first word without line breaks, keeps it non-empty and free of line breaks |
| `CommandInput.NewlinesContinued` | src/tukx/main.py:137 | after the caller's rewrite every newline of the command is preceded by a backslash |
| `CommandInput.ContinueLinesHead` | src/tukx/main.py:137 | the rewritten command never starts with a newline |
| `CommandInput.ContinueLinesRoundTrip` | src/tukx/main.py:137 | the caller's rewrite is lossless: turning each backslash-newline back into a newline restores the command |
| `CommandInput.DirectModeUnaffected` | src/tukx/main.py:137 | in direct mode the caller's rewrite changes nothing when the first word holds no newline |
| `ShellQuote.Quote` | src/tukx/main.py:56 | a quoted word is never empty and never starts with a space; a non-empty string of safe characters is its own quoted form |
| `ShellQuote.ShlexJoin` | src/tukx/main.py:56 | the joined command is empty exactly when the list of words is |
| `ShellQuote.QuoteKeepsOut` | src/tukx/main.py:56-57 | quoting creates no new occurrence of a non-empty string without quotes, so the placeholder rewrite after `shlex.join` only meets placeholders that were in the input |
| `ShellQuote.QuoteAll` | src/tukx/main.py:56 | quotes each word of the list separately, in order |
| `ShellQuote.ReadQuoted` | src/tukx/main.py:56 | a quoted word followed by a space or by nothing is read back by the shell as the original string |
| `ShellQuote.JoinRoundTrip` | src/tukx/main.py:56 | splitting `shlex.join(ts)` into shell words gives back exactly `ts`, for every list of strings |
| `ShellQuote.QuoteIsOneWord` | src/tukx/main.py:56 | the quoted form of any string is read as exactly one word equal to it |
| `ShellQuote.QuoteAddsOnlyQuotes` | src/tukx/main.py:56 | quoting introduces no character other than `'` and `"` |
| `InlineFile.ChooseSentinel` | src/tukx/main.py:72-77 | on success the sentinel does not occur in the content, and it is `EOF` exactly when the content does not contain `EOF` |
| `InlineFile.SentinelOutcome` | src/tukx/main.py:73-77 | the choice fails exactly when the content contains `EOF-<uuid>`; otherwise the sentinel is `EOF-<uuid>` if the content contains `EOF`, else `EOF` |
| `InlineFile.SentinelNeverALine` | src/tukx/main.py:74-77 | on success the sentinel is none of the content's lines, so the here-document cannot end early |
| `Gen.FirstConflict` | src/tukx/main.py:113-120 | no conflict exactly when the scope is system-wide or neither user nor group is given, and `--enable` comes with `--install` and an explicit unit |
| `Gen.Resolve` | src/tukx/main.py:113-133 | fails with the first conflict, judged on the options as given; otherwise a system-wide unit gets the login as user and the user as group, a user-wide one keeps both as given, the working directory is `%h` by default, the current directory with `~` rewritten for a value that strips to `.`, any other value with `~` rewritten (unchanged when it has none), and never contains `~`; the unit name is the given one or `tukx-temp-<uuid>`, never empty |
| `Gen.ResolveOptions` | src/tukx/main.py:113-133 | the chain of checks and rebindings computes exactly `Gen.Resolve`: the same first conflict, user, group, working directory and unit name |
| `Gen.HomeRewrite` | src/tukx/main.py:130 | replacing `~` by `%h` leaves no `~`, and changes nothing when there was none |
| `Gen.PathJoin` | src/tukx/main.py:154 | `os.path.join(a, b)`: an absolute `b` is the whole result; otherwise the result starts with `a`, ends with `b`, with a `/` between them when `a` is non-empty, and adds at most one character |
| `Gen.TargetPath` | src/tukx/main.py:153-154 | the target path ends with `<unit>.service` |
| `Gen.TargetPathByScope` | src/tukx/main.py:153-154 | the unit file goes to `/etc/systemd/system/<unit>.service` or `/etc/systemd/user/<unit>.service` by scope, unless the unit name starts with `/`, which then is the whole path |
| `Gen.ReadCommand` | src/tukx/main.py:137 | reading the command fails exactly when parsing fails, and then only for several non-blank lines without shell mode; otherwise the command is the parsed one with every newline continued |
| `Gen.Assemble` | src/tukx/main.py:135-155 | an environment error names the first bad entry, all entries before it being valid; a sentinel error comes only when every entry is valid and is the error of choosing a sentinel for the rendered unit file; on success every entry is valid and the unit file gets the options, the resolved user, group, directory and unit name, the entries unchanged and the command; the unit file is the rendered fields, its path is the one for the scope, and its sentinel is the one chosen for it |
| `Gen.Generate` | src/tukx/main.py:113-164 | errors in the source's order: a conflict if and only if `Gen.FirstConflict` finds one, then the command (if and only if parsing fails, only ever too many lines, never an empty command), then the first bad environment entry, then the sentinel error of the rendered unit file; on success the unit-file fields are exactly those built from `Gen.Resolve`, the options and the continued command, every entry is valid and passed unchanged, the command is the parsed one with newlines continued, the unit name is the given or generated one, the working directory holds no `~`, and the sentinel does not occur in the rendered unit file |
| `PyStr.Find` | src/tukx/main.py:74 | `find` / `in`: the result is an occurrence with none before it, or -1 when there is none |
| `PyStr.SplitLines` | src/tukx/main.py:43 | `splitlines` yields lines with no line-break character, and at least one line for non-empty text |
| `PyStr.SplitLinesJoin` | src/tukx/main.py:43 | for text whose only line breaks are newlines and that does not end in one, joining the lines of `splitlines` with newlines gives the text back, empty lines included |
| `PyStr.SplitLinesTrailingNewline` | src/tukx/main.py:43 | a final newline after text that ends in no line break adds no empty line |
| `PyStr.SplitJoinedLines` | src/tukx/main.py:55 | joining non-empty, break-free lines with newlines and splitting again gives the same lines |
| `PyStr.LineOccurs` | src/tukx/main.py:43 | every line of `splitlines` occurs in the text, at the index returned |
| `PyStr.Strip` | src/tukx/main.py:128 | `strip()` is empty exactly for blank text, and otherwise neither starts nor ends with whitespace |
| `PyStr.TrimStart` | src/tukx/main.py:128 | the left half of `strip()` drops only leading whitespace and keeps a suffix |
| `PyStr.TrimEnd` | src/tukx/main.py:128 | the right half of `strip()` drops only trailing whitespace and keeps a prefix |
| `PyStr.ReplaceAllAbsent` | src/tukx/main.py:130 | `replace` changes nothing when the pattern does not occur |
| `PyStr.ReplaceAllRemovesChar` | src/tukx/main.py:130 | replacing every occurrence of a character by text without it leaves none of that character |
| `PyStr.ReplaceAllKeepsOut` | src/tukx/main.py:57 | `replace` adds no character that is in neither the input nor the replacement |
| `PyStr.ReplaceFirst` | src/tukx/main.py:50 | `replace(p, q, 1)` changes nothing when `p` does not occur; otherwise the length changes by the length of `q` minus that of `p`, and `q` stands where `p` first occurred |

## Left out

- Rendering of the Jinja2 templates `permanent.service.j2`, `inline-file.sh.j2`, `result.sh.j2` and `delete.sh.j2`: the templates are not part of this model. The unit-file renderer is the parameter `renderService`, and `Gen.Script` holds what the other two templates receive. The enable/start/status lines are composed inside `result.sh.j2`, so they are not modelled.
- `tukx_del`: it only renders `delete.sh.j2`.
- Click's option parsing, `click.edit()` (the editor's text is a parameter; its `None` on an unsaved edit is not modelled), `print`, the clipboard copy and logging setup (`--verbose`).
- `os.getlogin()`, `os.getcwd()` and `uuid.uuid4()`: parameters. An `OSError` from `os.getlogin()` is not modelled.
- `shlex.split(line)[0]`: the parameter `firstToken`. Its `ValueError` on an unbalanced quote is not modelled. The `IndexError` on an empty token list cannot happen, since a kept line holds a character that is not shell whitespace.
- `str.isprintable`: the per-character parameter `printable`.
- `$(which …)`: the code only emits this text; what the shell finds on PATH is not modelled.
- EnvList.FixEnvList: the lazy generator is modelled as the valid prefix plus the first error, computed eagerly.
- Gen.Generate: checks the environment entries after the command, as the source does when the unit-file template consumes the generator. It assumes the template reads the whole list. A template that skipped the list would raise no environment error.
- ShellQuote.ReadWord: the reference reader covers only the quoting that quoted output uses: safe characters outside quotes, single quotes, and double quotes without `$`, backquote or backslash. It refuses every other input rather than interpreting it.
- Characters are Unicode scalar values. `isspace` and `splitlines` use Python's whitespace and line-break sets, written out character by character.
