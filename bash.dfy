/**
 * `bash`: the text the tool makes of a finished command. Running the
 * command is not modelled; what `subprocess.run` reports about it is the
 * input. A zero exit status gives the standard output without surrounding
 * whitespace; any other status (negative for a command killed by a
 * signal) raises `CalledProcessError`, which becomes a message naming the
 * status and carrying the standard error unchanged.
 */
module BashTool {
  import opened PyStr

  /** What `subprocess.run(..., capture_output=True, text=True)` reports. */
  datatype Completed = Completed(returncode: int, stdout: string, stderr: string)

  const FailurePrefix := "Command failed with exit code "

  /**
   * The tool's text: on success no longer than the standard output and
   * with no whitespace at either end; on failure the fixed prefix first
   * and the standard error, unchanged, last.
   */
  function BashOutput(c: Completed): (r: string)
    ensures c.returncode == 0 ==> |r| <= |c.stdout| && (r != [] ==> !IsSpace(r[0]) && !IsSpace(r[|r| - 1]))
    ensures c.returncode != 0 ==>
              && |r| >= |FailurePrefix| + |c.stderr|
              && r[..|FailurePrefix|] == FailurePrefix
              && r[|r| - |c.stderr|..] == c.stderr
  {
    if c.returncode == 0 then Strip(c.stdout)
    else
      var status := IntToDecimal(c.returncode) + ":\n";
      assert FailurePrefix + status + c.stderr == FailurePrefix + (status + c.stderr);
      FailurePrefix + status + c.stderr
  }

  /**
   * On success the tool returns a contiguous slice of the standard output
   * with only whitespace cut away on either side, so stripping it again
   * would change nothing.
   */
  lemma SuccessIsStrippedOutput(c: Completed)
    requires c.returncode == 0
    ensures var out := BashOutput(c);
      && (exists i, j :: TrimmedAt(c.stdout, out, i, j))
      && Strip(out) == out
  {
    StripIsTrimmedSlice(c.stdout);
    StripIdempotent(c.stdout);
  }

  /**
   * On failure the message is the prefix, the status in decimal (it reads
   * back as the status, with a minus sign when negative), a colon, a line
   * break, and then the standard error exactly as captured.
   */
  lemma FailureNamesStatus(c: Completed)
    requires c.returncode != 0
    ensures var out := BashOutput(c);
      var d := IntToDecimal(c.returncode);
      && out == FailurePrefix + d + ":\n" + c.stderr
      && (c.returncode > 0 ==> IsDigits(d) && DecimalValue(d) == c.returncode && d[0] != '0')
      && (c.returncode < 0 ==> d[0] == '-' && d[1] != '0' && IsDigits(d[1..]) && DecimalValue(d[1..]) == -c.returncode)
  {
  }

  /** `echo hi` exits with 0 and prints "hi\n"; the tool returns "hi". */
  lemma EchoExample()
    ensures BashOutput(Completed(0, "hi\n", "")) == "hi"
  {
    StripAroundCore("", "hi", "\n");
    assert "" + "hi" + "\n" == "hi\n";
  }

  /** A command that writes "boom" to standard error and exits with 3. */
  lemma ExitThreeExample()
    ensures BashOutput(Completed(3, "", "boom")) == "Command failed with exit code 3:\nboom"
  {
    assert NatToDecimal(3) == "3";
  }
}
