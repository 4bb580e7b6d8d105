/** The response view returned by every remote command: a passive record over
    the tuple (exit status, stdout, stderr, executed command). */
module Response {
  import opened Wrappers

  /** The tuple run_cmd builds: exit status, normalised stdout and stderr
      (None when empty), and the command line actually executed. */
  type Raw = (int, Option<string>, Option<string>, string)

  datatype ResponseParser = ResponseParser(response: Raw) {

    function Stdout(): Option<string> {
      response.1
    }

    function Stderr(): Option<string> {
      response.2
    }

    function Exited(): int {
      response.0
    }

    /** The only failure signal: a non-zero exit status. */
    predicate Ok() {
      response.0 == 0
    }

    function Command(): string {
      response.3
    }
  }

  /** The accessors hand back the tuple's elements untouched: reading all four
      recovers the tuple. */
  lemma ViewIsLossless(raw: Raw)
    ensures var p := ResponseParser(raw);
            (p.Exited(), p.Stdout(), p.Stderr(), p.Command()) == raw
  {
  }

  /** `ok` holds exactly when the exit status is 0, whatever the streams say. */
  lemma OkIffExitZero(p: ResponseParser)
    ensures p.Ok() <==> p.Exited() == 0
  {
  }
}
