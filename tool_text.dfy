/**
 * The convention all three file tools share for their replies: a failure
 * is reported as text that starts with `Error: `.
 */
module ToolText {

  /** The tag that opens every failure's text. */
  const ErrorTag := "Error: "

  predicate IsErrorText(m: string)
  {
    |m| >= |ErrorTag| && m[..|ErrorTag|] == ErrorTag
  }

  lemma KeepsPrefix(a: string, b: string, n: nat)
    requires n <= |a|
    ensures (a + b)[..n] == a[..n]
  {
  }

  /** A tagged text is an error text, whatever follows the tag. */
  lemma TaggedIsError(rest: string)
    ensures IsErrorText(ErrorTag + rest)
  {
    KeepsPrefix(ErrorTag, rest, |ErrorTag|);
  }
}
