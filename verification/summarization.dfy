/** Compressing old conversation into a standing fact.

    The language model is asked for a short summary of the newest turns; its
    answer (or the error it raised) is an input here.
 */
module Summarization {

  import opened Results
  import opened Text
  import opened Store

  /** Below this many turns there is nothing worth summarizing. */
  const MinHistory: nat := 10

  /** How many turns survive a successful summarization. */
  const KeepTurns: nat := 8

  /** The summary text taken from a successful answer, stripped. */
  function SummaryText(answer: Outcome<string>): string
    requires answer.Ok?
  {
    Strip(answer.value)
  }

  /** The summary is kept exactly when the history is long enough, the model
      answered, and the stripped answer is non-empty and not already a fact. */
  predicate Accepts(m: Memory, answer: Outcome<string>) {
    && |m.chatHistory| >= MinHistory
    && answer.Ok?
    && SummaryText(answer) != []
    && SummaryText(answer) !in m.facts
  }

  /** One summarization step. When the summary is accepted it becomes the
      newest fact and the history shrinks to its newest eight turns; in every
      other case (short history, failed call, empty answer, a summary already
      known) the record is returned unchanged. The name is never touched. */
  function SummarizeOldMemory(m: Memory, answer: Outcome<string>): (r: Memory)
    ensures r.userName == m.userName
    ensures Accepts(m, answer) ==>
              && r.facts == m.facts + [SummaryText(answer)]
              && r.chatHistory == m.chatHistory[|m.chatHistory| - KeepTurns..]
              && |r.chatHistory| == KeepTurns
    ensures !Accepts(m, answer) ==> r == m
    ensures r.facts == m.facts <==> r == m
  {
    if |m.chatHistory| < MinHistory then m
    else match answer
      case Err(_) => m
      case Ok(text) =>
        var summary := Strip(text);
        if summary != [] && summary !in m.facts then
          m.(facts := m.facts + [summary], chatHistory := LastN(m.chatHistory, KeepTurns))
        else m
  }

  /** A summarization step keeps the fact list free of duplicates and of
      empty or unstripped entries. */
  lemma {:induction false} SummarizeKeepsFactsWellFormed(m: Memory, answer: Outcome<string>)
    requires FactsWellFormed(m)
    ensures FactsWellFormed(SummarizeOldMemory(m, answer))
  {
    if Accepts(m, answer) {
      var s := SummaryText(answer);
      var f := m.facts + [s];
      StripIdempotent(answer.value);
      assert f[|f| - 1] == s;
      forall i, j | 0 <= i < j < |f|
        ensures f[i] != f[j]
      {
        if j == |f| - 1 {
          assert f[i] in m.facts;
        }
      }
    }
  }

  /** Summarizing again with the same answer changes nothing: the summary is
      then already a fact. */
  lemma {:induction false} SummarizeIsIdempotent(m: Memory, answer: Outcome<string>)
    ensures var once := SummarizeOldMemory(m, answer);
      SummarizeOldMemory(once, answer) == once
  {
    var once := SummarizeOldMemory(m, answer);
    if Accepts(m, answer) {
      assert SummaryText(answer) in once.facts by {
        assert once.facts[|once.facts| - 1] == SummaryText(answer);
      }
    }
  }
}
