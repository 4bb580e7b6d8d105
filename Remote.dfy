/** The non-I/O half of running a command on the remote host: the sudo
    rewrite of run_cmd, what it writes to the channel's standard input, the
    normalisation of the streams, and the sudo-prompt handling of the
    deprecated send_cmd. The SSH channel itself is a parameter. */
module Remote {
  import opened Wrappers
  import opened PyStr
  import opened Response

  /** What the SSH channel reports for one executed command: its exit status
      and the decoded contents of its two output streams. */
  datatype Channel = Channel(exitStatus: int, stdout: string, stderr: string)

  /** The remote host as run_cmd sees it: the executed command line and the
      text written to its standard input (None when nothing is written)
      determine what comes back. */
  type Host = (string, Option<string>) -> Channel

  // ---------- run_cmd ----------

  const SudoPrefix: string := "sudo -S -p '' -- sh -c '"
  const SudoSuffix: string := "'"

  /** The command run_cmd executes and records: the raw command, or with sudo
      the raw command inside `sh -c '...'` under a silent, stdin-fed sudo. */
  function Elevate(cmd: string, sudo: bool): (command: string)
    ensures !sudo ==> command == cmd
    ensures sudo ==> Unelevate(command) == Some(cmd)
    ensures sudo ==> |command| == |SudoPrefix| + |cmd| + |SudoSuffix|
  {
    if sudo then SudoPrefix + cmd + SudoSuffix else cmd
  }

  /** The inner command of an elevated command line, None when the line does
      not have the elevated form. */
  function Unelevate(command: string): Option<string> {
    if |command| >= |SudoPrefix| + |SudoSuffix|
       && command[..|SudoPrefix|] == SudoPrefix
       && command[|command| - |SudoSuffix|..] == SudoSuffix
    then Some(command[|SudoPrefix|..|command| - |SudoSuffix|])
    else None
  }

  /** What run_cmd writes to the channel's standard input. */
  function StdinPayload(password: string, sudo: bool): (payload: Option<string>)
    ensures payload.Some? <==> sudo
    ensures payload.Some? ==> |payload.value| == |password| + 1
    ensures payload.Some? ==> payload.value[..|password|] == password && payload.value[|password|] == '\n'
  {
    if sudo then Some(password + "\n") else None
  }

  /** A decoded stream as run_cmd keeps it: stripped, and None when nothing is
      left. */
  function Normalize(raw: string): (out: Option<string>)
    ensures out.None? <==> AllSpace(raw)
    ensures out.Some? ==> out.value != [] && Trimmed(out.value)
    ensures out.Some? ==> out.value == Strip(raw)
  {
    var s := Strip(raw);
    if s == [] then None else Some(s)
  }

  /** A normalised value is left unchanged by normalising it again. */
  lemma NormalizeIdempotent(raw: string)
    requires Normalize(raw).Some?
    ensures Normalize(Normalize(raw).value) == Normalize(raw)
  {
    StripIdempotent(raw);
  }

  /** Normalisation discards exactly the surrounding whitespace: whitespace
      around a trimmed text does not change what is kept. */
  lemma NormalizeIgnoresPadding(a: string, m: string, b: string)
    requires AllSpace(a) && AllSpace(b) && m != [] && Trimmed(m)
    ensures Normalize(a + m + b) == Some(m)
  {
    StripUnique(a, m, b);
  }

  /** One run_cmd call: the executed command line, what was written to its
      standard input, and the response handed back. */
  datatype Run = Run(command: string, stdin: Option<string>, response: ResponseParser)

  /** run_cmd with the channel replaced by `host`. */
  function RunCmd(host: Host, password: string, cmd: string, sudo: bool := false): (run: Run)
    ensures run.command == Elevate(cmd, sudo)
    ensures run.response.Command() == run.command
    ensures run.stdin == StdinPayload(password, sudo)
    ensures var ch := host(run.command, run.stdin);
            run.response.Exited() == ch.exitStatus
            && (run.response.Ok() <==> ch.exitStatus == 0)
            && run.response.Stdout() == Normalize(ch.stdout)
            && run.response.Stderr() == Normalize(ch.stderr)
  {
    var command := Elevate(cmd, sudo);
    var stdin := StdinPayload(password, sudo);
    var ch := host(command, stdin);
    Run(command, stdin, ResponseParser((ch.exitStatus, Normalize(ch.stdout), Normalize(ch.stderr), command)))
  }

  /** The executed command line never depends on the password: two clients
      that differ only in their password send the same text. */
  lemma CommandIndependentOfPassword(host: Host, p1: string, p2: string, cmd: string, sudo: bool)
    ensures RunCmd(host, p1, cmd, sudo).command == RunCmd(host, p2, cmd, sudo).command
  {
  }

  /** A password that holds no single quote occurs in the elevated command
      line exactly when it occurs in the fixed prefix or in the raw command:
      such a password cannot straddle the quotes around the raw command. */
  lemma PasswordOffCommandLine(cmd: string, password: string)
    requires '\'' !in password
    ensures !Contains(Elevate(cmd, true), password)
            <==> !Contains(SudoPrefix, password) && !Contains(cmd, password)
  {
    if Contains(SudoPrefix, password) || Contains(cmd, password) {
      PartOccursInElevated(cmd, password);
    }
    if Contains(Elevate(cmd, true), password) {
      ElevatedOccurrenceInPart(cmd, password);
    }
  }

  /** An occurrence in the prefix or in the raw command is one in the
      elevated line. */
  lemma PartOccursInElevated(cmd: string, password: string)
    requires Contains(SudoPrefix, password) || Contains(cmd, password)
    ensures Contains(Elevate(cmd, true), password)
  {
    assert Elevate(cmd, true) == SudoPrefix + cmd + SudoSuffix;
    if Contains(SudoPrefix, password) {
      var j := Find(SudoPrefix, password).value;
      OccursBefore(SudoPrefix, cmd, password, j);
      OccursBefore(SudoPrefix + cmd, SudoSuffix, password, j);
      ContainsAt(SudoPrefix + cmd + SudoSuffix, password, j);
    } else {
      var k := Find(cmd, password).value;
      OccursAfter(SudoPrefix, cmd, password, k);
      OccursBefore(SudoPrefix + cmd, SudoSuffix, password, |SudoPrefix| + k);
      ContainsAt(SudoPrefix + cmd + SudoSuffix, password, |SudoPrefix| + k);
    }
  }

  /** An occurrence of a quote-free password in the elevated line lies in the
      prefix or in the raw command: the prefix ends with a quote and the line
      ends with one. */
  lemma ElevatedOccurrenceInPart(cmd: string, password: string)
    requires '\'' !in password && Contains(Elevate(cmd, true), password)
    ensures Contains(SudoPrefix, password) || Contains(cmd, password)
  {
    var u := SudoPrefix + cmd;
    var t := u + SudoSuffix;
    assert Elevate(cmd, true) == t;
    var n := |password|;
    var j := Find(t, password).value;
    assert u[|SudoPrefix| - 1] == '\'' && t[|t| - 1] == '\'';
    if n == 0 {
      ContainsAt(SudoPrefix, password, 0);
    } else if j + n <= |u| {
      OccursInFront(u, SudoSuffix, password, j);
      if j + n <= |SudoPrefix| {
        OccursInFront(SudoPrefix, cmd, password, j);
        ContainsAt(SudoPrefix, password, j);
      } else if |SudoPrefix| <= j {
        OccursInBack(SudoPrefix, cmd, password, j);
        ContainsAt(cmd, password, j - |SudoPrefix|);
      } else {
        OccursCovers(u, password, j, |SudoPrefix| - 1);
        assert false;
      }
    } else {
      assert false;
    }
  }

  /** Keeping the password out of the raw command alone is not enough: with
      the raw command `ls` the password `ls'` appears in the elevated line. */
  lemma PasswordCanStraddleQuote()
    ensures !Contains("ls", "ls'")
    ensures Contains(Elevate("ls", true), "ls'")
  {
    var t := Elevate("ls", true);
    assert OccursAt(t, "ls'", |t| - 3);
  }

  /** The outcome the response tests assert for the fixture streams of a
      good `whoami`, run through run_cmd's normalisation. */
  lemma WhoamiFixture()
    ensures var r := RunCmd((c: string, i: Option<string>) => Channel(0, "mypc\\bobby\r\n", ""), "", "whoami", false).response;
            r.Ok() && r.Exited() == 0 && r.Stdout() == Some("mypc\\bobby") && r.Stderr() == None
  {
    NormalizeIgnoresPadding("", "mypc\\bobby", "\r\n");
    assert "" + "mypc\\bobby" + "\r\n" == "mypc\\bobby\r\n";
  }

  /** The outcome the response tests assert for the fixture streams of a
      failing `whoami1`. */
  lemma WhoamiErrorFixture()
    ensures var r := RunCmd((c: string, i: Option<string>) => Channel(1, "", WhoamiError + "\r\n"), "", "whoami1", false).response;
            !r.Ok() && r.Exited() == 1 && r.Stdout() == None && r.Stderr() == Some(WhoamiError)
  {
    assert WhoamiError[0] == '\'' && WhoamiError[|WhoamiError| - 1] == '.';
    NormalizeIgnoresPadding("", WhoamiError, "\r\n");
    assert "" + WhoamiError + "\r\n" == WhoamiError + "\r\n";
  }

  const WhoamiError: string :=
    "'whoami1' is not recognized" + " as an internal or external command,\r\n"
    + "operable program or batch file."

  // ---------- send_cmd (deprecated) ----------

  /** The command line send_cmd executes; with sudo the password travels on
      the command line, in a here-string. */
  function SendCmdCommand(cmd: string, sudo: bool, password: string): (line: string)
    ensures !sudo ==> line == cmd
    ensures sudo ==> var head := "sudo -S <<< \"";
            |line| == |head| + |password| + 2 + |cmd|
            && line[..|head|] == head && line[|head|..|head| + |password|] == password
            && line[|head| + |password|..|head| + |password| + 2] == "\" "
            && line[|line| - |cmd|..] == cmd
  {
    if sudo then
      var line := "sudo -S <<< \"" + password + "\" " + cmd;
      assert line[13..] == password + "\" " + cmd;
      line
    else cmd
  }

  /** Unlike run_cmd's, send_cmd's sudo line always carries the password. */
  lemma SendCmdExposesPassword(cmd: string, password: string)
    ensures Contains(SendCmdCommand(cmd, true, password), password)
  {
    var t := SendCmdCommand(cmd, true, password);
    assert t[13..][..|password|] == password;
    ContainsAt(t, password, 13);
  }

  const SudoPrompt: string := "[sudo] password for user:"
  const PromptSeparator: string := "[sudo] password for user: "

  /** send_cmd's prompt removal as written: data without the prompt is
      returned, data that is only the prompt gives None, and otherwise the
      second piece of a split on the prompt followed by a space, which raises
      IndexError when that longer separator does not occur. */
  function StripPromptAsWritten(data: string): (r: Result<Option<string>, Exception>)
    ensures !Contains(data, SudoPrompt) ==> r == Ok(Some(data))
    ensures data == SudoPrompt ==> r == Ok(None)
    ensures r.Err? <==> Contains(data, SudoPrompt) && data != SudoPrompt && !Contains(data, PromptSeparator)
    ensures r.Err? ==> r.error == IndexError
  {
    if Contains(data, SudoPrompt) then
      if data == SudoPrompt then Ok(None)
      else
        var parts := Split(data, PromptSeparator);
        if |parts| < 2 then Err(IndexError) else Ok(Some(parts[1]))
    else Ok(Some(data))
  }

  /** When the separator occurs, the result is the text after its first
      occurrence, up to its second occurrence or the end. */
  lemma StripPromptTakesSecondPiece(data: string)
    requires data != SudoPrompt && Contains(data, PromptSeparator)
    ensures var i := Find(data, PromptSeparator).value;
            var rest := data[i + |PromptSeparator|..];
            var r := StripPromptAsWritten(data);
            r.Ok? && r.value.Some? && r.value.value <= rest
            && !Contains(r.value.value, PromptSeparator)
            && (r.value.value == rest || Find(rest, PromptSeparator) == Some(|r.value.value|))
  {
    assert PromptSeparator == SudoPrompt + " ";
    ContainsPrefixOf(data, SudoPrompt, " ");
    SplitSecond(data, PromptSeparator);
  }

  /** The stripped text send_cmd inspects: both streams, stdout first. */
  function SendCmdData(rawOut: string, rawErr: string): (data: string)
    ensures Trimmed(data) && (data == [] <==> AllSpace(rawOut + rawErr))
    ensures Contains(rawOut + rawErr, data)
    ensures exists a, b :: AllSpace(a) && AllSpace(b) && rawOut + rawErr == a + data + b
  {
    StripFramed(rawOut + rawErr);
    Strip(rawOut + rawErr)
  }

  /** Output followed by the prompt alone on stderr: strip removes the space
      after the colon, and the as-written code raises IndexError whenever the
      output has no `[` and does not start with whitespace. */
  lemma StripPromptCrashes(out: string)
    requires out != [] && !IsSpace(out[0]) && '[' !in out
    ensures SendCmdData(out, PromptSeparator) == out + SudoPrompt
    ensures StripPromptAsWritten(SendCmdData(out, PromptSeparator)) == Err(IndexError)
  {
    var data := out + SudoPrompt;
    assert SendCmdData(out, PromptSeparator) == data by {
      assert data[0] == out[0] && data[|data| - 1] == ':';
      assert out + PromptSeparator == [] + data + " ";
      StripUnique([], data, " ");
    }
    assert Contains(data, SudoPrompt) by {
      assert data[|out|..] == SudoPrompt;
      assert OccursAt(data, SudoPrompt, |out|);
    }
    AbsentByHead(out, SudoPrompt, PromptSeparator);
  }

  /** On the same input the corrected removal does not raise, but it returns
      the empty text after the prompt: the output ahead of the prompt is
      still dropped. */
  lemma StripPromptDropsOutput(out: string)
    requires out != [] && !IsSpace(out[0]) && '[' !in out
    ensures StripPrompt(SendCmdData(out, PromptSeparator)) == Some("")
  {
    var data := out + SudoPrompt;
    StripPromptCrashes(out);
    FindAfterHeadFree(out, SudoPrompt, []);
    assert data + [] == data;
    StripPromptFallback(data);
    assert data[|out| + |SudoPrompt|..] == [];
  }

  /** The instance with stdout `hello` and a newline. */
  lemma StripPromptCrashesOnHello()
    ensures StripPromptAsWritten(SendCmdData("hello\n", PromptSeparator)) == Err(IndexError)
  {
    StripPromptCrashes("hello\n");
  }

  /** send_cmd's prompt removal as intended: the same results, except that
      when the prompt occurs without a following space the text after the
      bare prompt is returned instead of raising. */
  function StripPrompt(data: string): (r: Option<string>)
    ensures StripPromptAsWritten(data).Ok? ==> r == StripPromptAsWritten(data).value
    ensures Contains(data, SudoPrompt) && data != SudoPrompt ==> r.Some?
    ensures Contains(data, SudoPrompt) && r.Some? ==> !Contains(r.value, PromptSeparator)
  {
    if Contains(data, SudoPrompt) then
      if data == SudoPrompt then None
      else if Contains(data, PromptSeparator) then
        SplitPieceFree(data, PromptSeparator, 1);
        Some(Split(data, PromptSeparator)[1])
      else
        var piece := Split(data, SudoPrompt)[1];
        SplitPieceFree(data, SudoPrompt, 1);
        assert PromptSeparator == SudoPrompt + " ";
        assert !Contains(piece, PromptSeparator) by {
          if Contains(piece, PromptSeparator) {
            ContainsPrefixOf(piece, SudoPrompt, " ");
          }
        }
        Some(piece)
    else Some(data)
  }

  /** Where the as-written code raises, the corrected removal returns the
      text after the first bare prompt, up to the next one or the end. */
  lemma StripPromptFallback(data: string)
    requires StripPromptAsWritten(data).Err?
    ensures var i := Find(data, SudoPrompt).value;
            var rest := data[i + |SudoPrompt|..];
            var r := StripPrompt(data);
            r.Some? && r.value <= rest && !Contains(r.value, SudoPrompt)
            && (r.value == rest || Find(rest, SudoPrompt) == Some(|r.value|))
  {
    SplitSecond(data, SudoPrompt);
  }

  /** send_cmd with the channel replaced by `host`, using the corrected
      prompt removal: the combined, stripped output with the sudo prompt
      removed. Nothing is written to stdin. Where send_cmd returns, this is
      what it returns; where send_cmd raises IndexError, this returns the
      text after the bare prompt. */
  function SendCmd(host: Host, password: string, cmd: string, sudo: bool := false): (r: Option<string>)
    ensures var ch := host(SendCmdCommand(cmd, sudo, password), None);
            var data := SendCmdData(ch.stdout, ch.stderr);
            (!Contains(data, SudoPrompt) ==> r == Some(data))
            && (data == SudoPrompt ==> r == None)
            && (Contains(data, SudoPrompt) && data != SudoPrompt ==> r.Some? && !Contains(r.value, PromptSeparator))
            && (StripPromptAsWritten(data).Ok? ==> r == StripPromptAsWritten(data).value)
            && (StripPromptAsWritten(data).Err? ==> r == Some(Split(data, SudoPrompt)[1]))
  {
    var ch := host(SendCmdCommand(cmd, sudo, password), None);
    StripPrompt(SendCmdData(ch.stdout, ch.stderr))
  }

  /** send_cmd as written: IndexError exactly when the stripped output holds
      the bare prompt, is not just the prompt, and lacks the space-suffixed
      prompt; wherever it returns, it returns what `SendCmd` does. */
  function SendCmdAsWritten(host: Host, password: string, cmd: string, sudo: bool := false): (r: Result<Option<string>, Exception>)
    ensures var ch := host(SendCmdCommand(cmd, sudo, password), None);
            var data := SendCmdData(ch.stdout, ch.stderr);
            r.Err? <==> Contains(data, SudoPrompt) && data != SudoPrompt && !Contains(data, PromptSeparator)
    ensures r.Err? ==> r.error == IndexError
    ensures r.Ok? ==> r.value == SendCmd(host, password, cmd, sudo)
  {
    var ch := host(SendCmdCommand(cmd, sudo, password), None);
    StripPromptAsWritten(SendCmdData(ch.stdout, ch.stderr))
  }
}
