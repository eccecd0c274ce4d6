/** The chatbot's whole persistent state: one record holding the user's name,
    the conversation so far and the standing facts distilled from it.
 */
module Store {

  import opened Results
  import opened Text

  /** The bot's own name, used as the speaker label of its lines. */
  const BotName: string := "Neha"

  /** One exchange: what the user wrote and what the bot answered. */
  datatype Turn = Turn(user: string, bot: string)

  /** The memory record. `userName` is `None` until a name was extracted
      (the stored JSON holds `null`); it may also be `Some("")`. */
  datatype Memory = Memory(userName: Option<string>, chatHistory: seq<Turn>, facts: seq<string>)

  /** The record used when nothing has been stored yet. */
  const Fresh: Memory := Memory(None, [], [])

  /** The source tests the name for truthiness, so a missing name and an empty
      name both count as unknown. */
  predicate KnowsName(m: Memory) {
    m.userName.Some? && m.userName.value != ""
  }

  /** No fact is stored twice. */
  predicate Distinct(xs: seq<string>) {
    forall i, j :: 0 <= i < j < |xs| ==> xs[i] != xs[j]
  }

  /** The shape every fact list built by summarization has: no duplicates,
      and every fact is a non-empty text already stripped of surrounding
      whitespace. */
  predicate FactsWellFormed(m: Memory) {
    && Distinct(m.facts)
    && forall i :: 0 <= i < |m.facts| ==> m.facts[i] != [] && Strip(m.facts[i]) == m.facts[i]
  }

  /** `whole` starts with `part`. */
  predicate IsPrefix<T(==)>(part: seq<T>, whole: seq<T>) {
    |part| <= |whole| && whole[..|part|] == part
  }
}
