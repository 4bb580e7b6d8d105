# plinux: a verified model of the command and response layer

plinux is a Python client that runs shell commands on a Linux host over SSH
(through paramiko) and hands back a `ResponseParser`, a view over the tuple
(exit status, stdout, stderr, executed command). Almost every client method
passes a formatted command line to `run_cmd`. This project models the pure
logic around that call and proves properties of it:

- `Response`: the `ResponseParser` record and its accessors.
- `Remote`: the non-I/O half of `run_cmd`. That is the sudo rewrite
  `sudo -S -p '' -- sh -c '<cmd>'`, the password written to the channel's
  stdin, and stream normalisation (strip, then empty gives `None`). It also
  holds the deprecated `send_cmd`: its command line and its sudo-prompt
  removal.
- `Commands`: the client methods that branch on their arguments when they
  build a command line (`list_active_services`, `get_netstat_info`,
  `list_dir`, `extract_files`, `get_last_file`, `grep_line_in_file`). It also
  holds the path classification of `check_exists`.
- `PyStr`: the Python `str` operations the client uses, modelled exactly.
  These are `w in s` (modelled through a first-occurrence search, `Find`),
  `split` with a separator (with `join` as its inverse) and `strip()` with
  no argument. The whitespace set is the exact
  set of characters for which `str.isspace()` holds.
- `Wrappers`: `Option` (Python's `None`), `Result`, and the exceptions the
  modelled code raises (`IndexError`, `SyntaxError`).

The SSH channel is a parameter, `Host = (string, Option<string>) -> Channel`.
It maps the executed command line and the text written to stdin to an exit
status and the decoded stdout and stderr. `check_exists`'s local
`os.path.exists` is a parameter `string -> bool`. The client's `password`
and `username` are explicit parameters.

Each `Commands` builder returns the string that its client method passes to
`run_cmd` with `sudo=False`. So the method's response is
`RunCmd(host, password, <builder>, false).response`, and its recorded
command is the builder's string unchanged (see `Remote.Elevate`).

Points where the code and its own documentation disagree (the model follows
the code):
- `get_last_file` says the directory defaults to the user's home. The code
  applies that default only when `name` is given. Without a name, an empty
  directory yields `ls  -Art | tail -n 1`, which lists the shell's working
  directory (`Commands.LastFileNoNameIgnoresUser`).
- `extract_files` documents `src` as the full archive path with its
  extension. The tar branch still appends `.tar.gz` to `src`.

Notes on the code:
- `run_cmd` turns both streams into `None` when they strip to nothing.
- `run_cmd` feeds the password to sudo on stdin, and keeps it off the
  command line in this sense: the command line is a function of `cmd` and
  `sudo` alone. A password absent
  from `cmd` can still occur in the wrapped line by straddling the fixed
  text around `cmd`: with `cmd = "ls"`, the password `ls'` occurs in
  `...sh -c 'ls'` (`Remote.PasswordCanStraddleQuote`). For a password
  without a single quote this cannot happen: it occurs in the wrapped line
  exactly when it occurs in `cmd` or in the fixed prefix
  (`Remote.PasswordOffCommandLine`). The deprecated `send_cmd`, by contrast,
  puts the password itself on its command line in a here-string
  (`Remote.SendCmdExposesPassword`).

The client methods' default arguments are the Dafny members' default
parameters: `sudo=False` for `run_cmd` and `send_cmd`, `no_legend=True` and `all_services=False` for
`list_active_services`, `params=''` for `get_netstat_info`, `params=None`
for `list_dir`, `mode='tar'` and `quite=True` for `extract_files`,
`directory=''` and `name=''` for `get_last_file`, and `directory=False` for
`grep_line_in_file`.

## Model

| member | source | states |
|---|---|---|
| `Response.ViewIsLossless` | plinux/plinux.py:44-68 | `exited`, `stdout`, `stderr` and `command` return tuple elements 0, 1, 2 and 3 untouched; together they recover the tuple |
| `Response.OkIffExitZero` | plinux/plinux.py:62-64 | `ok` holds exactly when the exit status is 0 |
| `Remote.Elevate` | plinux/plinux.py:165 | without sudo the command is `cmd` itself; with sudo, `Unelevate` recovers `cmd` from it, and it is longer by exactly the fixed prefix and closing quote |
| `Remote.StdinPayload` | plinux/plinux.py:170-172 | stdin is written exactly when sudo is set, and then it is the password followed by one newline |
| `Remote.Normalize` | plinux/plinux.py:177-184 | a stream becomes `None` exactly when it is all whitespace; otherwise it is its stripped text, non-empty, with no whitespace at either end |
| `Remote.NormalizeIdempotent` | plinux/plinux.py:178-184 | normalising a normalised value changes nothing |
| `Remote.NormalizeIgnoresPadding` | plinux/plinux.py:178-184 | whitespace around a trimmed, non-empty text is dropped and the text is kept as it is |
| `Remote.RunCmd` | plinux/plinux.py:153-189 | the executed and recorded command is the sudo rewrite of `cmd`; stdin gets the password payload only with sudo; the response's exit status is the channel's; `ok` holds exactly when it is 0; stdout and stderr are the normalised streams |
| `Remote.CommandIndependentOfPassword` | plinux/plinux.py:165-168 | the executed command line is the same whatever the password |
| `Remote.PasswordOffCommandLine` | plinux/plinux.py:165-172 | a password with no single quote occurs in the elevated command line exactly when it occurs in the sudo prefix or in `cmd` |
| `Remote.PartOccursInElevated` | plinux/plinux.py:165 | an occurrence in the sudo prefix or in `cmd` is an occurrence in the elevated line |
| `Remote.ElevatedOccurrenceInPart` | plinux/plinux.py:165 | an occurrence of a quote-free password in the elevated line lies inside the prefix or inside `cmd`, since both quotes around `cmd` block any straddling occurrence |
| `Remote.PasswordCanStraddleQuote` | plinux/plinux.py:165 | counterexample: the password `ls'` is absent from `ls` but present in the elevated line for `ls` |
| `Remote.WhoamiFixture` | tests/test_response.py:5-32 | the fixture streams of a good `whoami` (exit 0, `mypc\bobby` plus CRLF, empty stderr), fed through `run_cmd`, give ok, exit 0, stdout `mypc\bobby` and no stderr; the tests' truthiness assertions on `ok`, `exited`, `stdout` and `stderr` follow from these values |
| `Remote.WhoamiErrorFixture` | tests/test_response.py:9-36 | the fixture streams of a failing `whoami1` (exit 1, empty stdout, the error text plus CRLF), fed through `run_cmd`, give not ok, exit 1, no stdout and the error text without its final CRLF; the tests' truthiness assertions follow from these values |
| `Remote.SendCmdCommand` | plinux/plinux.py:214 | without sudo the line is `cmd`; with sudo it is `sudo -S <<< "`, the password, `" ` and then `cmd` |
| `Remote.SendCmdExposesPassword` | plinux/plinux.py:214 | send_cmd's sudo command line always contains the password |
| `Remote.StripPromptAsWritten` | plinux/plinux.py:223-230 | data without the prompt comes back unchanged; data equal to the prompt gives `None`; IndexError is raised exactly when the prompt occurs, the data is not just the prompt, and the prompt followed by a space does not occur |
| `Remote.StripPromptTakesSecondPiece` | plinux/plinux.py:228 | when the space-suffixed prompt occurs, the result is the text after its first occurrence, up to its next occurrence or the end, and it holds no occurrence of it |
| `Remote.SendCmdData` | plinux/plinux.py:219 | the data send_cmd inspects has no whitespace at its ends, is empty exactly when stdout followed by stderr is all whitespace, and stdout followed by stderr is some whitespace, then the data, then some whitespace (so the data occurs in it) |
| `Remote.StripPromptCrashes` | plinux/plinux.py:219-228 | for any stdout that is non-empty, does not start with whitespace and holds no `[`, with stderr `[sudo] password for user: `, the stripped data is stdout followed by the bare prompt, and the as-written removal raises IndexError |
| `Remote.StripPromptCrashesOnHello` | plinux/plinux.py:219-228 | the instance: stdout `hello` plus newline makes the as-written removal raise IndexError |
| `Remote.StripPromptDropsOutput` | plinux/plinux.py:219-228 | on the inputs of `Remote.StripPromptCrashes` (output followed by the prompt alone on stderr), the corrected removal returns the empty text, so the output ahead of the prompt is still lost |
| `Remote.StripPrompt` | plinux/plinux.py:223-230 | the corrected removal returns what the as-written code returns wherever that returns; it returns some text whenever the prompt occurs in data that is not just the prompt; that text holds no space-suffixed prompt |
| `Remote.StripPromptFallback` | plinux/plinux.py:228 | where the as-written code raises, the corrected removal returns the text after the first bare prompt, up to the next one or the end, free of the prompt |
| `Remote.SendCmd` | plinux/plinux.py:201-232 | send_cmd with the corrected prompt removal: the combined, stripped output (stdout first) comes back unchanged when it has no prompt, `None` when it is only the prompt, and otherwise some text without the space-suffixed prompt; wherever send_cmd as written returns, the result is the same; where it raises IndexError, the result is the text after the first bare prompt, up to the next one |
| `Remote.SendCmdAsWritten` | plinux/plinux.py:201-232 | send_cmd as written raises IndexError exactly when the stripped output holds the bare prompt, is not just the prompt and lacks the space-suffixed prompt; wherever it returns, it returns what `Remote.SendCmd` returns |
| `PyStr.ContainsIffOccurs` | plinux/plinux.py:225 | `w in s` holds exactly when some index of `s` starts an occurrence of `w` |
| `PyStr.FindFrom` | plinux/plinux.py:225 | the search from an index returns the first occurrence at or after it, or `None` when there is none |
| `PyStr.Find` | plinux/plinux.py:225 | the search behind `in` returns an index where the text occurs with no earlier occurrence, or `None` when it occurs nowhere |
| `PyStr.Split` | plinux/plinux.py:228 | a split has at least one piece, and at least two exactly when the separator occurs |
| `PyStr.SplitJoin` | plinux/plinux.py:228 | joining the pieces of a split with the separator gives back the string |
| `PyStr.SplitPieceFree` | plinux/plinux.py:228 | no piece of a split contains the separator |
| `PyStr.SplitSecond` | plinux/plinux.py:228 | piece 1 starts right after the first occurrence and ends at the next occurrence or at the end of the string |
| `PyStr.Strip` | plinux/plinux.py:178 | `strip` leaves no whitespace at either end, and gives the empty string exactly when the input is all whitespace |
| `PyStr.Lead` | plinux/plinux.py:178 | the left scan of `strip` passes only whitespace and stops at the first non-whitespace character or the end |
| `PyStr.Trail` | plinux/plinux.py:178 | the right scan of `strip` passes only whitespace and stops after the last non-whitespace character or at the start |
| `PyStr.StripDecomposes` | plinux/plinux.py:178 | the input is the leading whitespace, then the stripped text, then the trailing whitespace |
| `PyStr.StripFramed` | plinux/plinux.py:178 | some whitespace, then the stripped text, then some whitespace make up the input; so the stripped text occurs in the input |
| `PyStr.StripUnique` | plinux/plinux.py:178 | any text with no whitespace at its ends, padded by whitespace on both sides, strips back to itself |
| `PyStr.StripIdempotent` | plinux/plinux.py:178 | stripping twice is stripping once |
| `Commands.ListActiveServices` | plinux/plinux.py:286-300 | the line is the base `systemctl list-units -t service`, then ` --no-legend` if asked, then ` --all` if asked, in that order; the flag decoder reads back exactly the two flags |
| `Commands.ServicesFlagsExact` | plinux/plinux.py:295-299 | the decoder accepts only the four lines the method can build |
| `Commands.NetstatCommand` | plinux/plinux.py:320 | empty params give bare `netstat` and nothing else does; the params are read back from the line |
| `Commands.ListDirCommand` | plinux/plinux.py:476 | for the given path, the line carries the option group exactly when params is truthy, and it is params itself |
| `Commands.ListDirFalsyParams` | plinux/plinux.py:468-476 | the default params, no params and empty params all give `ls <path>` |
| `Commands.ExtractCommand` | plinux/plinux.py:437-440 | in tar mode the line is `tar -xzvf <src>.tar.gz -C ` followed by dst and nothing else; otherwise it is `unzip -q ` (quiet) or `unzip ` followed by `<src> -d ` and then dst and nothing else; it starts with `tar ` exactly in tar mode and with `unzip ` exactly otherwise, and contains both src and dst |
| `Commands.ExtractQuietMatters` | plinux/plinux.py:437 | outside tar mode the quiet flag always changes the line |
| `Commands.ExtractTarIgnoresQuiet` | plinux/plinux.py:427-440 | in tar mode, the default, the quiet flag changes nothing |
| `Commands.LastFileCommand` | plinux/plinux.py:410-411 | with a name the line is `ls `, then the given directory or `/home/<username>` when it is empty, then ` -Art\| grep <name>`, then ` \| tail -n 1` and nothing else; without a name it lists the raw directory, newest entry last, with no grep |
| `Commands.LastFileNoNameIgnoresUser` | plinux/plinux.py:402-411 | without a name the username plays no part in the line; with the default arguments the line is `ls  -Art \| tail -n 1` |
| `Commands.GrepCommand` | plinux/plinux.py:384-386 | the line starts `grep -rn ` exactly when directory is set and `grep -n ` exactly when not; right after that flag come the quoted pattern and the path, and nothing else |
| `Commands.DefaultLines` | plinux/plinux.py:311-386 | with default arguments get_netstat_info runs bare `netstat` and grep_line_in_file runs the non-recursive `grep -n ` |
| `Commands.Classify` | plinux/plinux.py:339-346 | a path with `/` is Linux even with a backslash in it; otherwise a backslash makes it Windows; with neither it is unrecognised |
| `Commands.CheckExists` | plinux/plinux.py:324-346 | for a Linux path the result is whether `test -e <path>` exits with 0 on the host; for a Windows path it is the local existence test; otherwise SyntaxError with the source's message |

## Left out

- SSH transport and the connection lifecycle (`_client`, connect, `exec_command`, `recv_exit_status`, `close` in `finally`, re-raised paramiko exceptions). These are paramiko calls. The channel is the `Host` parameter, so the close-exactly-once guarantee is not modelled.
- `run_cmd`'s ordering: stdin is written and flushed before the exit status is read. The model records what is written, not when. The timeout is not modelled either.
- `run_cmd_local`, `is_host_available`, `upload`, `download`, `get_json`: subprocess, socket, SFTP and `json` I/O.
- `Logger` and every logging call, the `DeprecationWarning` that `send_cmd` emits through `warnings.warn`, `__str__`, `debug_info`, `get_current_os_name`, `list_all_methods`: logging, presentation, platform queries and reflection.
- The one-line wrappers that pass a fixed f-string to `run_cmd` without branching (the service, power, file, disk and directory methods, `change_password`). Each is `RunCmd` of a fixed string, like the builders above.
- `change_hostname`: it runs two sudo commands in turn through `run_cmd` and returns only the second response; the first response is discarded. Each call is `RunCmd` of a fixed string.
- `is_credentials_valid`: it runs `whoami` and maps paramiko's `AuthenticationException` to `False`. Authentication is part of the SSH transport, which is not modelled.
- The alias table at the end of the class: the aliases are other names for the same methods.
- UTF-8 decoding of the streams: the `Channel` streams are already-decoded strings.
- `Remote.StdinPayload`: shows what `run_cmd` writes to stdin. That this stdin actually reaches sudo is a property of the channel, and is not modelled.
- `Commands.ExtractCommand`: the quiet flag is not stated as readable from the line alone, because a `src` that starts with `-q ` makes both forms start with `unzip -q `. The flag's effect is stated by `Commands.ExtractQuietMatters` instead.
- `Commands.LastFileCommand`: whether the line carries a `grep` is not stated as an if-and-only-if, because a directory name may itself contain `| grep `.

## Findings

| source | as written | input that shows it | evidently intended | confidence | as-written member | corrected member |
|---|---|---|---|---|---|---|
| plinux/plinux.py:224-228 | the test is for the prompt ending in `:`, then the code takes `split('[sudo] password for user: ')[1]`, whose separator also needs the space after the colon | stdout `hello\n` and stderr `[sudo] password for user: `: `strip` removes the final space, so the data ends in the bare prompt and the index `[1]` raises IndexError. sudo's default prompt names the account, so this input arises only when the remote account is named `user`; for any other account the prompt test fails and the prompt stays in the returned text | remove the prompt without raising; when the space-suffixed prompt is missing, take the text after the bare prompt | not executed; the input follows from the code as written | `Remote.StripPromptAsWritten` (shown by `Remote.StripPromptCrashes` and `Remote.StripPromptCrashesOnHello`; end to end `Remote.SendCmdAsWritten`) | `Remote.StripPrompt` (with `Remote.StripPromptFallback`; used by `Remote.SendCmd`). It no longer raises, but on this input it returns the empty text after the prompt (`Remote.StripPromptDropsOutput`): like the as-written code in every case, it keeps only what follows the prompt |
