/** One turn of the conversation: from the user's message to the bot's reply
    and the updated memory.

    The checks run in a fixed order and the first that applies decides the
    turn: an empty message, an unknown name, a request for live data, and
    otherwise a call to the language model followed, every twentieth turn,
    by a summarization step. Everything the outside world supplies (the
    formatted time, the search key and the answers of the search service, the
    language model and the summarizer) comes in through `Env`; which of those
    services a turn actually consulted is reported in `calls`.
 */
module Reply {

  import opened Results
  import opened Text
  import opened Store
  import opened Extraction
  import opened Profile
  import opened Search
  import opened Summarization

  const EmptyReply: string := "Kuch toh bolo! 😄"
  const AskName: string := "Hey! Pehle mujhe apna naam batao 😊"
  const SearchPrefix: string := "Yeh mila mujhe live search se: "
  const ErrorPrefix: string := "Oops! Thoda issue aaya: "

  /** The greeting once the gate has read a name. */
  function Welcome(name: string): string {
    "Nice to meet you, " + name + "! Chalo baat karte hain 😊"
  }

  /** Words that ask for live data, matched anywhere in the lower-cased message. */
  const Keywords: seq<string> :=
    ["news", "weather", "stock", "price", "sensex", "nifty", "update", "rate", "kitna hai"]

  /** Summarization is attempted whenever the history length reaches a multiple of this. */
  const SummaryPeriod: nat := 20

  /** What the outside world supplies for one turn. */
  datatype Env = Env(
    now: string,
    searchKey: string,
    search: Outcome<Response>,
    model: Outcome<string>,
    summarizer: Outcome<string>)

  /** A request sent to an external service during the turn. */
  datatype Call = SearchCall(query: string) | ModelCall(prompt: string) | SummaryCall(prompt: string)

  datatype TurnResult = TurnResult(reply: string, memory: Memory, calls: seq<Call>)

  /** The message asks for live data: some keyword occurs in it. */
  predicate WantsLiveData(text: string) {
    exists k | 0 <= k < |Keywords| :: Contains(text, Keywords[k])
  }

  /** The reply taken from the model's answer: the stripped text, or an
      apology carrying the error. */
  function ModelReply(answer: Outcome<string>): string {
    match answer
    case Ok(text) => Strip(text)
    case Err(e) => ErrorPrefix + e
  }

  /** The memory after the model path appended the turn. */
  function Appended(m: Memory, input: string, reply: string): Memory {
    m.(chatHistory := m.chatHistory + [Turn(input, reply)])
  }

  /** The model path, from the memory after name extraction: ask the model,
      append the turn, and on a multiple of twenty run the summarization step. */
  function ModelTurn(known: Memory, input: string, env: Env): (r: TurnResult)
    ensures r.reply == ModelReply(env.model)
    ensures IsPrefix(known.facts, r.memory.facts) && |r.memory.facts| <= |known.facts| + 1
    ensures var grown := known.chatHistory + [Turn(input, r.reply)];
      r.memory.chatHistory == grown || r.memory.chatHistory == LastN(grown, KeepTurns)
    ensures 1 <= |r.calls| <= 2
  {
    var prompt := ReplyPrompt(known, input, env.now);
    var reply := ModelReply(env.model);
    var grown := Appended(known, input, reply);
    if |grown.chatHistory| % SummaryPeriod == 0 then
      var asked := if |grown.chatHistory| >= MinHistory
                   then [SummaryCall(SummaryPrompt(grown.chatHistory))] else [];
      TurnResult(reply, SummarizeOldMemory(grown, env.summarizer), [ModelCall(prompt)] + asked)
    else TurnResult(reply, grown, [ModelCall(prompt)])
  }

  /** One turn: a blank message is answered with a filler and changes
      nothing; any other message first goes through name extraction and is
      then routed by `Respond`. At most two external requests are made. */
  function GenerateReply(m: Memory, input: string, env: Env): (r: TurnResult)
    ensures |r.calls| <= 2
  {
    if Strip(input) == [] then TurnResult(EmptyReply, m, [])
    else Respond(RememberUserInfo(m, input), input, env)
  }

  /** Routing a non-blank message, given the memory after name extraction:
      the name gate, then live search, then the model. */
  function Respond(known: Memory, input: string, env: Env): (r: TurnResult)
    ensures |r.calls| <= 2
  {
    var text := Lower(input);
    if !KnowsName(known) then
      if Contains(text, MeraNaam) then
        var name := GateName(text);
        TurnResult(Welcome(name), known.(userName := Some(name)), [])
      else TurnResult(AskName, known, [])
    else if WantsLiveData(text) then
      var calls := if Configured(env.searchKey) then [SearchCall(input)] else [];
      TurnResult(SearchPrefix + WebSearch(env.searchKey, env.search), known, calls)
    else ModelTurn(known, input, env)
  }

  // ---------------------------------------------------------------------------
  // The four paths
  // ---------------------------------------------------------------------------

  /** An empty or all-whitespace message gets the fixed filler reply, changes
      nothing and asks nobody. */
  lemma BlankMessageChangesNothing(m: Memory, input: string, env: Env)
    requires AllSpace(input)
    ensures GenerateReply(m, input, env) == TurnResult(EmptyReply, m, [])
  {
  }

  /** Any other message is routed with the memory as name extraction left it,
      which differs from the stored one at most in the name. */
  lemma NonBlankIsRouted(m: Memory, input: string, env: Env)
    requires !AllSpace(input)
    ensures var known := RememberUserInfo(m, input);
      && GenerateReply(m, input, env) == Respond(known, input, env)
      && known.chatHistory == m.chatHistory && known.facts == m.facts
  {
  }

  /** While no name is known, the bot asks for the name, or greets the user
      with a name the gate reads itself (which may again be empty). The
      conversation and the facts stay as they were and no external service is
      asked. */
  lemma NameGateAsksNobody(known: Memory, input: string, env: Env)
    requires !KnowsName(known)
    ensures var r := Respond(known, input, env);
      && r.calls == []
      && r.memory.chatHistory == known.chatHistory
      && r.memory.facts == known.facts
      && (!Contains(Lower(input), MeraNaam) ==> r.reply == AskName && r.memory == known)
      && (Contains(Lower(input), MeraNaam) ==>
            r.reply == Welcome(GateName(Lower(input)))
            && r.memory.userName == Some(GateName(Lower(input))))
  {
  }

  /** With a name known, a message containing a live-data keyword is answered
      from the search service: the reply is the search answer behind a fixed
      prefix, the memory is not changed (so the history is not extended), and
      the model is not asked. */
  lemma LiveDataGoesToSearch(known: Memory, input: string, env: Env)
    requires KnowsName(known)
    requires WantsLiveData(Lower(input))
    ensures var r := Respond(known, input, env);
      && r.reply == SearchPrefix + WebSearch(env.searchKey, env.search)
      && r.memory == known
      && r.calls == (if Configured(env.searchKey) then [SearchCall(input)] else [])
  {
  }

  /** Otherwise the model is asked, with the prompt built from the memory as
      it stands after name extraction, and exactly one turn holding the
      message and the reply is appended to the history; a failed model call
      still yields a reply, the apology with the error text, which is appended
      like any other. Away from a multiple of twenty nothing else changes. */
  lemma ModelPathAppendsOneTurn(known: Memory, input: string, env: Env)
    requires KnowsName(known)
    requires !WantsLiveData(Lower(input))
    ensures var r := Respond(known, input, env);
      && r.calls != []
      && r.calls[0] == ModelCall(ReplyPrompt(known, input, env.now))
      && r.reply == ModelReply(env.model)
      && (env.model.Err? ==> r.reply == ErrorPrefix + env.model.error)
      && ((|known.chatHistory| + 1) % SummaryPeriod != 0 ==>
            && r.memory == Appended(known, input, r.reply)
            && r.memory.chatHistory == known.chatHistory + [Turn(input, r.reply)]
            && r.calls == [ModelCall(ReplyPrompt(known, input, env.now))])
  {
  }

  /** A model answer of only whitespace strips to an empty reply, and the
      turn is stored with that empty reply like any other: it is the newest
      turn of the history afterwards, and away from a multiple of twenty it
      is simply appended. */
  lemma BlankModelAnswerIsAppended(known: Memory, input: string, env: Env)
    requires KnowsName(known)
    requires !WantsLiveData(Lower(input))
    requires env.model.Ok? && AllSpace(env.model.value)
    ensures var r := Respond(known, input, env);
      && r.reply == ""
      && r.memory.chatHistory != []
      && r.memory.chatHistory[|r.memory.chatHistory| - 1] == Turn(input, "")
      && ((|known.chatHistory| + 1) % SummaryPeriod != 0 ==>
            r.memory.chatHistory == known.chatHistory + [Turn(input, "")])
  {
    RespondIsModelTurn(known, input, env);
    ModelPathAppendsOneTurn(known, input, env);
    var r := ModelTurn(known, input, env);
    assert r.reply == "";
    NewestTurnKept(known.chatHistory, Turn(input, ""), r.memory.chatHistory);
  }

  /** With a name known and no live-data keyword, routing is the model path. */
  lemma RespondIsModelTurn(known: Memory, input: string, env: Env)
    requires KnowsName(known)
    requires !WantsLiveData(Lower(input))
    ensures Respond(known, input, env) == ModelTurn(known, input, env)
  {
  }

  /** Both shapes the model path leaves the history in end with the new turn. */
  lemma NewestTurnKept(history: seq<Turn>, t: Turn, after: seq<Turn>)
    requires after == history + [t] || after == LastN(history + [t], KeepTurns)
    ensures after != [] && after[|after| - 1] == t
  {
  }

  /** When the append brings the history to a multiple of twenty, the
      summarizer is always asked, about the newest turns including this one,
      so the "fewer than ten turns" guard of the summarization step is never
      what stops it here; the memory is then the summarization step applied to
      the extended memory. */
  lemma TwentiethTurnSummarizes(known: Memory, input: string, env: Env)
    requires KnowsName(known)
    requires !WantsLiveData(Lower(input))
    requires (|known.chatHistory| + 1) % SummaryPeriod == 0
    ensures var r := Respond(known, input, env);
      var grown := Appended(known, input, r.reply);
      && |grown.chatHistory| >= MinHistory
      && r.calls == [ModelCall(ReplyPrompt(known, input, env.now)),
                     SummaryCall(SummaryPrompt(grown.chatHistory))]
      && r.memory == SummarizeOldMemory(grown, env.summarizer)
  {
    PeriodMultipleIsLarge(|known.chatHistory| + 1);
    var reply := ModelReply(env.model);
    var grown := Appended(known, input, reply);
    assert |grown.chatHistory| == |known.chatHistory| + 1;
    assert |grown.chatHistory| % SummaryPeriod == 0;
    assert Respond(known, input, env) == ModelTurn(known, input, env);
    assert ModelTurn(known, input, env) == TurnResult(reply, SummarizeOldMemory(grown, env.summarizer),
      [ModelCall(ReplyPrompt(known, input, env.now))] + [SummaryCall(SummaryPrompt(grown.chatHistory))]);
  }

  /** A positive multiple of the summary period is at least the period. */
  lemma PeriodMultipleIsLarge(n: nat)
    requires n > 0 && n % SummaryPeriod == 0
    ensures n >= SummaryPeriod
  {
  }

  // ---------------------------------------------------------------------------
  // Properties of every turn
  // ---------------------------------------------------------------------------

  /** Whatever a turn does, the old facts stay at the front of the fact list
      and at most one fact is added; the history either stays as it was,
      gains exactly this turn at its end, or (after a summary was kept) is cut
      down to the newest eight turns ending with this one. */
  lemma {:induction false} TurnChangesMemoryBoundedly(m: Memory, input: string, env: Env)
    ensures var r := GenerateReply(m, input, env);
      && IsPrefix(m.facts, r.memory.facts)
      && |r.memory.facts| <= |m.facts| + 1
      && var grown := m.chatHistory + [Turn(input, r.reply)];
        || r.memory.chatHistory == m.chatHistory
        || r.memory.chatHistory == grown
        || r.memory.chatHistory == LastN(grown, KeepTurns)
  {
    var r := GenerateReply(m, input, env);
    assert m.facts[..|m.facts|] == m.facts;
    if Strip(input) == [] {
      assert r.memory == m;
    } else {
      var known := RememberUserInfo(m, input);
      assert r == Respond(known, input, env);
      RespondChangesMemoryBoundedly(known, input, env);
      assert known.facts == m.facts && known.chatHistory == m.chatHistory;
    }
  }

  /** The routing step changes the memory it is given only within the same bounds. */
  lemma RespondChangesMemoryBoundedly(known: Memory, input: string, env: Env)
    ensures var r := Respond(known, input, env);
      && IsPrefix(known.facts, r.memory.facts)
      && |r.memory.facts| <= |known.facts| + 1
      && var grown := known.chatHistory + [Turn(input, r.reply)];
        || r.memory.chatHistory == known.chatHistory
        || r.memory.chatHistory == grown
        || r.memory.chatHistory == LastN(grown, KeepTurns)
  {
    assert known.facts[..|known.facts|] == known.facts;
  }

  /** A fact is added only by a kept summary, only on a turn that takes the
      history length to a multiple of twenty, and the history is then left
      with exactly its newest eight turns. */
  lemma FactsGrowOnlyOnTwentieth(known: Memory, input: string, env: Env)
    ensures var r := Respond(known, input, env);
      r.memory.facts != known.facts ==>
        && (|known.chatHistory| + 1) % SummaryPeriod == 0
        && |r.memory.chatHistory| == KeepTurns
        && r.memory.chatHistory == LastN(known.chatHistory + [Turn(input, r.reply)], KeepTurns)
  {
    var r := Respond(known, input, env);
    if r.memory.facts != known.facts {
      assert KnowsName(known) && !WantsLiveData(Lower(input));
      var grown := Appended(known, input, ModelReply(env.model));
      assert |grown.chatHistory| % SummaryPeriod == 0;
      assert Accepts(grown, env.summarizer);
    }
  }

  /** The model and the search service are asked only once a name is known. */
  lemma {:induction false} ServicesNeedAName(m: Memory, input: string, env: Env)
    ensures var r := GenerateReply(m, input, env);
      r.calls != [] ==> KnowsName(RememberUserInfo(m, input)) && !AllSpace(input)
  {
    var r := GenerateReply(m, input, env);
    if r.calls != [] {
      assert Strip(input) != [];
    }
  }

  /** Every turn keeps the fact list free of duplicates and of empty or
      unstripped entries. */
  lemma TurnKeepsFactsWellFormed(m: Memory, input: string, env: Env)
    requires FactsWellFormed(m)
    ensures FactsWellFormed(GenerateReply(m, input, env).memory)
  {
    if Strip(input) != [] {
      RespondKeepsFactsWellFormed(RememberUserInfo(m, input), input, env);
    }
  }

  /** The routing step keeps the fact list well formed. */
  lemma RespondKeepsFactsWellFormed(known: Memory, input: string, env: Env)
    requires FactsWellFormed(known)
    ensures FactsWellFormed(Respond(known, input, env).memory)
  {
    if KnowsName(known) && !WantsLiveData(Lower(input)) {
      var grown := Appended(known, input, ModelReply(env.model));
      if |grown.chatHistory| % SummaryPeriod == 0 {
        SummarizeKeepsFactsWellFormed(grown, env.summarizer);
      }
    }
  }

  // ---------------------------------------------------------------------------
  // Sessions
  // ---------------------------------------------------------------------------

  /** A message together with what the outside world answered during its turn. */
  datatype Step = Step(input: string, env: Env)

  /** The memory after a sequence of turns. */
  function RunSession(m: Memory, steps: seq<Step>): Memory
    decreases |steps|
  {
    if steps == [] then m
    else RunSession(GenerateReply(m, steps[0].input, steps[0].env).memory, steps[1..])
  }

  /** Over a whole session facts are only ever added at the end, never
      removed, and the fact list stays well formed. */
  lemma {:induction false} SessionFactsAppendOnly(m: Memory, steps: seq<Step>)
    requires FactsWellFormed(m)
    ensures IsPrefix(m.facts, RunSession(m, steps).facts)
    ensures FactsWellFormed(RunSession(m, steps))
    ensures |RunSession(m, steps).facts| <= |m.facts| + |steps|
    decreases |steps|
  {
    if steps != [] {
      var next := GenerateReply(m, steps[0].input, steps[0].env).memory;
      TurnChangesMemoryBoundedly(m, steps[0].input, steps[0].env);
      TurnKeepsFactsWellFormed(m, steps[0].input, steps[0].env);
      SessionFactsAppendOnly(next, steps[1..]);
      var last := RunSession(next, steps[1..]);
      assert last.facts[..|m.facts|] == next.facts[..|next.facts|][..|m.facts|];
    }
  }

  // ---------------------------------------------------------------------------
  // Routing by substring
  // ---------------------------------------------------------------------------

  /** A text without the letter 'm' cannot contain "mera naam". */
  lemma NoIntroductionWithoutM(text: string)
    requires forall i :: 0 <= i < |text| ==> text[i] != 'm'
    ensures !Contains(text, MeraNaam)
  {
    forall i | 0 <= i <= |text| - |MeraNaam|
      ensures !OccursAt(text, MeraNaam, i)
    {
      assert text[i..i + |MeraNaam|][0] == text[i];
    }
  }

  /** "Mera naam hai" names nobody: the name cut from it is empty. The empty
      name is stored but still counts as unknown, so the gate answers the
      same message with a greeting for an empty name, and keeps the gate
      closed for the next turn too. */
  lemma EmptyNameKeepsGateClosed(env: Env)
    ensures var known := RememberUserInfo(Fresh, "Mera naam hai");
      var r := GenerateReply(Fresh, "Mera naam hai", env);
      && known.userName == Some("")
      && !KnowsName(known)
      && r.reply == Welcome("")
      && r.memory.userName == Some("")
      && !KnowsName(r.memory)
      && r.calls == []
  {
    var input := "Mera naam hai";
    var known := Memory(Some(""), [], []);
    EmptyIntroStored();
    assert !AllSpace(input) by {
      assert !IsSpace(input[0]);
    }
    NonBlankIsRouted(Fresh, input, env);
    EmptyNameGate(known, input, env);
  }

  /** Name extraction stores the empty name cut from "Mera naam hai". */
  lemma EmptyIntroStored()
    ensures Introduces("Mera naam hai")
    ensures RememberUserInfo(Fresh, "Mera naam hai") == Memory(Some(""), [], [])
  {
    LowerEmptyIntro();
    EmptyIntroCuts("mera naam hai");
  }

  /** With the empty name stored, the gate greets "Mera naam hai" with an
      empty name again. */
  lemma EmptyNameGate(known: Memory, input: string, env: Env)
    requires known == Memory(Some(""), [], []) && input == "Mera naam hai"
    ensures var r := Respond(known, input, env);
      r.reply == Welcome("") && r.memory == known && r.calls == []
  {
    LowerEmptyIntro();
    EmptyIntroCuts("mera naam hai");
    NameGateAsksNobody(known, input, env);
  }

  lemma LowerEmptyIntro()
    ensures Lower("Mera naam hai") == "mera naam hai"
  {
  }

  /** Both cuts of "mera naam hai" are the single space between the markers,
      so both extracted names are empty. */
  lemma EmptyIntroCuts(text: string)
    requires text == "mera naam hai"
    ensures Contains(text, MeraNaam) && Contains(text, Hai)
    ensures IntroName(text) == "" && GateName(text) == ""
  {
    assert OccursAt(text, MeraNaam, 0);
    assert OccursAt(text, Hai, 10);
    assert Find(text, MeraNaam) == Some(0);
    var seg := Between(text, MeraNaam, Hai);
    AvoidanceBoundsSlice(text, 9, seg, Hai, 1);
    OneSpaceSegment(text, seg);
    var once := BetweenOnce(text, MeraNaam, Hai);
    AvoidanceBoundsSlice(text, 9, once, Hai, 1);
    OneSpaceSegment(text, once);
  }

  /** The only slice from index 9 of "mera naam hai" that is shorter than four
      characters and stops at the end or at a marker is the space. */
  lemma OneSpaceSegment(text: string, seg: string)
    requires text == "mera naam hai"
    requires 9 + |seg| <= |text| && |seg| < 4 && seg == text[9..9 + |seg|]
    requires 9 + |seg| == |text| || OccursAt(text, MeraNaam, 9 + |seg|) || OccursAt(text, Hai, 9 + |seg|)
    ensures seg == " " && Strip(seg) == []
  {
    assert text[9] == ' ' && text[11] == 'a' && text[12] == 'i';
    assert IsSpace(seg[0]);
  }

  /** Keywords match as plain substrings: "karate" contains "rate", so a
      question about a karate class is answered from live search. */
  lemma KarateClassGoesToSearch(m: Memory, env: Env)
    requires KnowsName(m)
    ensures GenerateReply(m, "Karate class kab hai?", env).reply
              == SearchPrefix + WebSearch(env.searchKey, env.search)
  {
    var input := "Karate class kab hai?";
    var text := "karate class kab hai?";
    LowerKarate();
    NoIntroductionWithoutM(text);
    KarateWantsLiveData(text);
    assert !AllSpace(input) by {
      assert !IsSpace(input[0]);
    }
    NonBlankIsRouted(m, input, env);
    assert RememberUserInfo(m, input) == m;
    LiveDataGoesToSearch(m, input, env);
  }

  lemma LowerKarate()
    ensures Lower("Karate class kab hai?") == "karate class kab hai?"
  {
  }

  lemma KarateWantsLiveData(text: string)
    requires text == "karate class kab hai?"
    ensures WantsLiveData(text)
  {
    assert Keywords[7] == "rate" && text[2..6] == "rate";
    assert OccursAt(text, Keywords[7], 2);
  }
}
