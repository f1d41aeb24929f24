/**
 The Y/N gate in front of every destructive operation. The lines a user
 types are a finite sequence; running out of them is the end-of-input error
 that aborts the process.
 */
module Prompt {
  import opened Common
  import opened Text

  /** A line accepted as an answer: `y` or `n` in either case. */
  predicate IsAnswer(line: string) {
    Lower(line) == "y" || Lower(line) == "n"
  }

  /** An answer, and the input left after it. */
  datatype Reply = Reply(yes: bool, rest: seq<string>)

  /**
   True when `reply` is what asking gives if `input[k]` is the first
   acceptable line: the lines before it are all rejected, the answer is yes
   exactly when that line is `y` or `Y`, and asking consumes it.
   */
  predicate AnsweredAt(input: seq<string>, k: int, reply: Reply) {
    && 0 <= k < |input|
    && IsAnswer(input[k])
    && (forall i | 0 <= i < k :: !IsAnswer(input[i]))
    && (reply.yes <==> Lower(input[k]) == "y")
    && reply.rest == input[k + 1..]
  }

  /**
   Ask until an acceptable line arrives. No reply at all exactly when no
   line is acceptable; otherwise the reply comes from the first acceptable
   line.
   */
  function Confirm(input: seq<string>): (r: Option<Reply>)
    ensures r.None? <==> forall i | 0 <= i < |input| :: !IsAnswer(input[i])
    ensures r.Some? ==> AnsweredAt(input, |input| - |r.value.rest| - 1, r.value)
  {
    if |input| == 0 then None
    else if IsAnswer(input[0]) then Some(Reply(Lower(input[0]) == "y", input[1..]))
    else
      var r := Confirm(input[1..]);
      assert forall i | 1 <= i < |input| :: input[i] == input[1..][i - 1];
      r
  }

  /** The accepted yes-answers are the two spellings of `y`. */
  lemma YesSpellings(line: string)
    ensures IsAnswer(line) && Lower(line) == "y" <==> line == "y" || line == "Y"
  {
    if Lower(line) == "y" {
      assert |line| == 1 && LowerChar(line[0]) == 'y';
      assert line == [line[0]];
    }
    if line == "Y" {
      assert Lower(line)[0] == 'y';
    }
  }
}
