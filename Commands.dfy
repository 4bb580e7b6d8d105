/** The client methods that choose their command line by branching on their
    arguments, and the path classification of check_exists. Each builder's
    string is what the method passes to run_cmd, without sudo. */
module Commands {
  import opened Wrappers
  import opened PyStr
  import opened Remote

  // ---------- list_active_services ----------

  const ServicesBase: string := "systemctl list-units -t service"
  const NoLegendFlag: string := " --no-legend"
  const AllFlag: string := " --all"

  /** The flags a list_active_services command line was built with, None for
      a line it cannot produce. */
  function ServicesFlags(cmd: string): Option<(bool, bool)> {
    if |cmd| < |ServicesBase| || cmd[..|ServicesBase|] != ServicesBase then None
    else
      var tail := cmd[|ServicesBase|..];
      if tail == "" then Some((false, false))
      else if tail == NoLegendFlag then Some((true, false))
      else if tail == AllFlag then Some((false, true))
      else if tail == NoLegendFlag + AllFlag then Some((true, true))
      else None
  }

  /** list_active_services builds its line by appending to the base command:
      `--no-legend` first, then `--all`, each only when asked for. */
  method ListActiveServices(noLegend: bool := true, allServices: bool := false) returns (cmd: string)
    ensures cmd == ServicesBase + (if noLegend then NoLegendFlag else "") + (if allServices then AllFlag else "")
    ensures ServicesFlags(cmd) == Some((noLegend, allServices))
  {
    cmd := ServicesBase;
    if noLegend {
      cmd := cmd + NoLegendFlag;
    }
    if allServices {
      cmd := cmd + AllFlag;
    }
    assert cmd[..|ServicesBase|] == ServicesBase;
    assert cmd[|ServicesBase|..] == (if noLegend then NoLegendFlag else "") + (if allServices then AllFlag else "");
  }

  /** The flag decoder accepts exactly the four lines the method builds. */
  lemma ServicesFlagsExact(cmd: string, noLegend: bool, allServices: bool)
    requires ServicesFlags(cmd) == Some((noLegend, allServices))
    ensures cmd == ServicesBase + (if noLegend then NoLegendFlag else "") + (if allServices then AllFlag else "")
  {
    assert cmd == cmd[..|ServicesBase|] + cmd[|ServicesBase|..];
  }

  // ---------- get_netstat_info ----------

  /** get_netstat_info: bare `netstat` for empty params, else the params as
      one dash-prefixed option group. */
  function NetstatCommand(params: string := ""): (cmd: string)
    ensures NetstatParams(cmd) == Some(params)
    ensures params == "" <==> cmd == "netstat"
  {
    if params == "" then "netstat"
    else
      var cmd := "netstat -" + params;
      assert cmd[..9] == "netstat -" && cmd[9..] == params;
      cmd
  }

  /** The params a netstat command line carries, None for any other line. */
  function NetstatParams(cmd: string): Option<string> {
    if cmd == "netstat" then Some("")
    else if |cmd| >= 9 && cmd[..9] == "netstat -" then Some(cmd[9..])
    else None
  }

  // ---------- list_dir ----------

  /** Python truthiness of an optional string: present and non-empty. */
  predicate Truthy(params: Option<string>) {
    params.Some? && params.value != ""
  }

  /** list_dir: `ls <path>`, with ` -<params>` appended when params is truthy. */
  function ListDirCommand(path: string, params: Option<string> := None): (cmd: string)
    ensures ListDirParams(path, cmd) == (if Truthy(params) then params else None)
  {
    var base := "ls " + path;
    if Truthy(params) then
      var cmd := base + " -" + params.value;
      assert cmd[..|base|] == base && cmd[|base|..] == " -" + params.value;
      assert cmd[|base| + 2..] == params.value;
      cmd
    else base
  }

  /** For a known path, the option group a list_dir line carries: None for the
      plain `ls <path>` and for lines of any other shape. */
  function ListDirParams(path: string, cmd: string): Option<string> {
    var base := "ls " + path;
    if |cmd| > |base| + 2 && cmd[..|base|] == base && cmd[|base|..|base| + 2] == " -"
    then Some(cmd[|base| + 2..])
    else None
  }

  /** Omitting params and passing an empty string build the same line. */
  lemma ListDirFalsyParams(path: string)
    ensures ListDirCommand(path) == ListDirCommand(path, None) == ListDirCommand(path, Some("")) == "ls " + path
  {
  }

  // ---------- extract_files ----------

  /** extract_files: tar for mode "tar" exactly (appending `.tar.gz` to src),
      unzip for any other mode, quiet exactly when `quite`. */
  function ExtractCommand(src: string, dst: string, mode: string := "tar", quite: bool := true): (cmd: string)
    ensures "tar " <= cmd <==> mode == "tar"
    ensures "unzip " <= cmd <==> mode != "tar"
    ensures mode != "tar" && quite ==> "unzip -q " <= cmd
    ensures Contains(cmd, src) && Contains(cmd, dst)
    ensures mode == "tar" ==> var front := "tar -xzvf " + src + ".tar.gz -C ";
            front <= cmd && |cmd| == |front| + |dst| && cmd[|front|..] == dst
    ensures mode != "tar" ==> var front := (if quite then "unzip -q " else "unzip ") + src + " -d ";
            front <= cmd && |cmd| == |front| + |dst| && cmd[|front|..] == dst
  {
    if mode == "tar" then
      Operands("tar ", "tar -xzvf ", src, ".tar.gz -C ", dst);
      "tar -xzvf " + src + ".tar.gz -C " + dst
    else
      var head := if quite then "unzip -q " else "unzip ";
      Operands("unzip ", head, src, " -d ", dst);
      head + src + " -d " + dst
  }

  /** Where the fixed words and the two operands sit in an extract line that
      starts with `word`. */
  lemma Operands(word: string, head: string, src: string, mid: string, dst: string)
    requires word != [] && word <= head
    ensures var front := head + src + mid;
            var cmd := front + dst;
            word <= cmd && cmd[0] == word[0] && front <= cmd && cmd[|front|..] == dst
            && Contains(cmd, src) && Contains(cmd, dst)
  {
    var front := head + src + mid;
    var cmd := front + dst;
    assert cmd[..|head|] == head && cmd[|front|..] == dst;
    assert cmd[..|word|] == head[..|word|];
    assert cmd == head + src + (mid + dst);
    ContainsInfix(head, src, mid + dst);
    assert cmd == front + dst + "";
    ContainsInfix(front, dst, "");
  }

  /** Outside tar mode the `quite` flag always changes the line. */
  lemma ExtractQuietMatters(src: string, dst: string, mode: string)
    requires mode != "tar"
    ensures ExtractCommand(src, dst, mode, true) != ExtractCommand(src, dst, mode, false)
  {
    assert |ExtractCommand(src, dst, mode, true)| == |ExtractCommand(src, dst, mode, false)| + 3;
  }

  /** In tar mode, the default, the `quite` flag has no effect. */
  lemma ExtractTarIgnoresQuiet(src: string, dst: string)
    ensures ExtractCommand(src, dst) == ExtractCommand(src, dst, "tar", true) == ExtractCommand(src, dst, "tar", false)
  {
  }

  // ---------- get_last_file ----------

  /** get_last_file: with a name, the newest entry of `directory` (the
      user's home when directory is empty) matching it; without a name, the
      newest entry of `directory` as given. */
  function LastFileCommand(username: string, directory: string := "", name: string := ""): (cmd: string)
    ensures name != "" && directory == "" ==> Contains(cmd, "/home/" + username)
    ensures name != "" ==> Contains(cmd, "| grep " + name)
    ensures name != "" ==> var listed := if directory != "" then directory else "/home/" + username;
            var front := "ls " + listed + " -Art| grep " + name;
            var back := " | tail -n 1";
            front <= cmd && |cmd| == |front| + |back| && cmd[|front|..] == back
    ensures name == "" ==> cmd == "ls " + directory + " -Art | tail -n 1"
  {
    var dir := if directory != "" then directory else "/home/" + username;
    if name != "" then
      NamedListing(dir, name);
      "ls " + dir + " -Art| grep " + name + " | tail -n 1"
    else "ls " + directory + " -Art | tail -n 1"
  }

  /** The shape of get_last_file's line when a name is given. */
  lemma NamedListing(dir: string, name: string)
    ensures var front := "ls " + dir + " -Art| grep " + name;
            var cmd := front + " | tail -n 1";
            front <= cmd && cmd[|front|..] == " | tail -n 1"
            && Contains(cmd, dir) && Contains(cmd, "| grep " + name)
  {
    var front := "ls " + dir + " -Art| grep " + name;
    var cmd := front + " | tail -n 1";
    assert cmd[|front|..] == " | tail -n 1";
    assert cmd == "ls " + dir + (" -Art| grep " + name + " | tail -n 1");
    ContainsInfix("ls ", dir, " -Art| grep " + name + " | tail -n 1");
    assert cmd == "ls " + dir + " -Art" + ("| grep " + name) + " | tail -n 1";
    ContainsInfix("ls " + dir + " -Art", "| grep " + name, " | tail -n 1");
  }

  /** Without a name the username plays no part: the home default is not
      applied, so an empty directory lists the shell's working directory. */
  lemma LastFileNoNameIgnoresUser(u1: string, u2: string, directory: string)
    ensures LastFileCommand(u1, directory, "") == LastFileCommand(u2, directory, "")
    ensures LastFileCommand(u1) == "ls  -Art | tail -n 1"
  {
  }

  // ---------- grep_line_in_file ----------

  /** grep_line_in_file: recursive (`-rn`) exactly when `directory`, and in
      both forms the quoted pattern followed by the path. */
  function GrepCommand(path: string, pattern: string, directory: bool := false): (cmd: string)
    ensures "grep -rn " <= cmd <==> directory
    ensures "grep -n " <= cmd <==> !directory
    ensures var tail := "\"" + pattern + "\" " + path;
            |cmd| == (if directory then 9 else 8) + |tail| && cmd[|cmd| - |tail|..] == tail
  {
    var head := if directory then "grep -rn " else "grep -n ";
    var tail := "\"" + pattern + "\" " + path;
    assert (head + tail)[|head|..] == tail;
    assert (head + tail)[..|head|] == head && (head + tail)[6] == head[6];
    head + tail
  }

  /** The lines get_netstat_info and grep_line_in_file build with their
      default arguments: bare netstat and a non-recursive grep. */
  lemma DefaultLines(path: string, pattern: string)
    ensures NetstatCommand() == "netstat"
    ensures "grep -n " <= GrepCommand(path, pattern)
  {
  }

  // ---------- check_exists ----------

  /** How check_exists reads a path. */
  datatype PathKind = LinuxPath | WindowsPath | Unrecognised

  /** A path with a slash is a Linux path, even when it also holds a
      backslash; otherwise a backslash makes it a local Windows path. */
  function Classify(path: string): (k: PathKind)
    ensures k == LinuxPath <==> '/' in path
    ensures k == WindowsPath <==> '/' !in path && '\\' in path
    ensures k == Unrecognised <==> '/' !in path && '\\' !in path
  {
    if '/' in path then LinuxPath
    else if '\\' in path then WindowsPath
    else Unrecognised
  }

  /** The remote test check_exists runs for a Linux path. */
  function ExistsCommand(path: string): string {
    "test -e " + path
  }

  const BadPathMessage: string := "Incorrect method usage. Check specified path."

  /** check_exists with the remote host and the local file system as
      parameters: a Linux path is tested remotely by `test -e` and the answer
      is the response's ok; a Windows path is looked up locally; any other
      path raises SyntaxError. */
  function CheckExists(host: Host, password: string, path: string, localExists: string -> bool): (r: Result<bool, Exception>)
    ensures '/' in path ==> r == Ok(host("test -e " + path, None).exitStatus == 0)
    ensures '/' !in path && '\\' in path ==> r == Ok(localExists(path))
    ensures '/' !in path && '\\' !in path ==> r == Err(SyntaxError(BadPathMessage))
  {
    match Classify(path)
    case LinuxPath => Ok(RunCmd(host, password, ExistsCommand(path), false).response.Ok())
    case WindowsPath => Ok(localExists(path))
    case Unrecognised => Err(SyntaxError(BadPathMessage))
  }
}
