/** What the chatbot tells the language model about the user and the
    conversation: the one-line profile summary, the system prompt around it,
    and the transcript of recent turns.
 */
module Profile {

  import opened Text
  import opened Store

  /** Said when neither a name nor any fact is known. */
  const NoInfo: string := "User ke baare mein abhi zyada info nahi hai."

  const NamePrefix: string := "User ka naam "

  const RecentPrefix: string := "Recent: "

  /** How many of the newest facts the summary mentions. */
  const RecentFacts: nat := 3

  /** The sentence that names the user. */
  function NameSentence(name: string): string {
    NamePrefix + name + " hai."
  }

  /** The newest facts, joined with "; " after "Recent: ". */
  function RecentSentence(facts: seq<string>): string {
    RecentPrefix + Join("; ", LastN(facts, RecentFacts))
  }

  /** The sentences the profile is made of: the name sentence when a name is
      known, then the sentence with the newest facts when there are any. */
  function ProfileParts(m: Memory): seq<string> {
    (if KnowsName(m) then [NameSentence(m.userName.value)] else [])
    + (if m.facts != [] then [RecentSentence(m.facts)] else [])
  }

  /** The profile summary: the profile parts joined with single spaces, or
      the fixed fallback when there are none. It is the fallback exactly when
      no name is known and there are no facts. Otherwise it starts with the
      name sentence when a name is known, and ends with the newest (at most
      three) facts when there are any. */
  function SummarizeProfile(m: Memory): (r: string)
    ensures r == NoInfo <==> !KnowsName(m) && m.facts == []
    ensures KnowsName(m) ==> IsPrefix(NameSentence(m.userName.value), r)
    ensures !KnowsName(m) && m.facts != [] ==> r == RecentSentence(m.facts)
    ensures KnowsName(m) && m.facts == [] ==> r == NameSentence(m.userName.value)
    ensures KnowsName(m) && m.facts != [] ==>
              r == NameSentence(m.userName.value) + " " + RecentSentence(m.facts)
  {
    var parts := ProfileParts(m);
    if parts == [] then NoInfo
    else
      var r := Join(" ", parts);
      JoinedParts(m);
      r
  }

  /** What joining the profile parts gives, case by case, and that it is
      never the fallback text. */
  lemma JoinedParts(m: Memory)
    requires ProfileParts(m) != []
    ensures var r := Join(" ", ProfileParts(m));
      && r != NoInfo
      && (!KnowsName(m) ==> r == RecentSentence(m.facts))
      && (KnowsName(m) && m.facts == [] ==> r == NameSentence(m.userName.value))
      && (KnowsName(m) && m.facts != [] ==>
            r == NameSentence(m.userName.value) + " " + RecentSentence(m.facts))
      && (KnowsName(m) ==> IsPrefix(NameSentence(m.userName.value), r))
  {
    var parts := ProfileParts(m);
    var r := Join(" ", parts);
    if KnowsName(m) {
      var name := NameSentence(m.userName.value);
      if m.facts != [] {
        assert parts == [name, RecentSentence(m.facts)];
        assert parts[1..] == [RecentSentence(m.facts)];
        assert Join(" ", parts[1..]) == RecentSentence(m.facts);
        assert r == name + " " + RecentSentence(m.facts);
      } else {
        assert parts == [name];
      }
      assert r[..|name|] == name;
      assert name[..|NamePrefix|] == NamePrefix;
      assert r[..|NamePrefix|] == r[..|name|][..|NamePrefix|];
      DiffersFromNoInfo(r);
    } else {
      assert parts == [RecentSentence(m.facts)];
      assert r[..|RecentPrefix|] == RecentPrefix;
      DiffersFromNoInfo(r);
    }
  }

  /** Neither the name sentence nor the list of facts can be mistaken for the fallback. */
  lemma DiffersFromNoInfo(r: string)
    requires IsPrefix(NamePrefix, r) || IsPrefix(RecentPrefix, r)
    ensures r != NoInfo
  {
    if IsPrefix(NamePrefix, r) {
      assert r[6] == r[..|NamePrefix|][6] == 'a';
      assert NoInfo[6] == 'e';
    } else {
      assert r[0] == r[..|RecentPrefix|][0] == 'R';
      assert NoInfo[0] == 'U';
    }
  }

  /** The summary depends on the name (only through whether it is known, and
      which it is) and on the newest three facts, and on nothing else: the
      conversation and older facts never reach the prompt through it. */
  lemma SummaryDependsOnNameAndRecentFacts(m1: Memory, m2: Memory)
    requires KnowsName(m1) == KnowsName(m2)
    requires KnowsName(m1) ==> m1.userName == m2.userName
    requires LastN(m1.facts, RecentFacts) == LastN(m2.facts, RecentFacts)
    ensures SummarizeProfile(m1) == SummarizeProfile(m2)
  {
    assert m1.facts == [] <==> m2.facts == [];
  }

  // ---------------------------------------------------------------------------
  // The system prompt
  // ---------------------------------------------------------------------------

  /** The persona description that opens every system prompt. */
  const Persona: string :=
    "Tum ek friendly female Hinglish chatbot ho jiska naam " + BotName + " hai. "
    + "Tumhara tone ek 30 saal ki Delhi ki ladki jaisa hai – modern, warm aur short baat karti ho. "
    + "Tum simple Hindi aur English mix mein baat karti ho. "
    + "Never use pronoun 'tu' for anyone. "
    + "Never say 'main kya help kar sakti hoon'. "

  const TimeIntro: string := "Aaj ka date aur time hai "

  const RecallNote: string := "Tum user ke pehle diye gaye details ko yaad rakhti ho aur naturally use karti ho. "

  /** The system prompt, given the current date and time already formatted as text. */
  function BuildSystemPrompt(m: Memory, now: string): string {
    Persona + TimeIntro + now + ". " + RecallNote + SummarizeProfile(m)
  }

  /** The system prompt carries the profile summary as its last part, right
      after the fixed text and the time, so two memories give the same system
      prompt at the same time exactly when their summaries agree. */
  lemma SystemPromptEndsWithSummary(m1: Memory, m2: Memory, now: string)
    ensures var fixed := Persona + TimeIntro + now + ". " + RecallNote;
      && |fixed| <= |BuildSystemPrompt(m1, now)|
      && BuildSystemPrompt(m1, now)[|fixed|..] == SummarizeProfile(m1)
    ensures (BuildSystemPrompt(m1, now) == BuildSystemPrompt(m2, now))
            <==> (SummarizeProfile(m1) == SummarizeProfile(m2))
  {
    var fixed := Persona + TimeIntro + now + ". " + RecallNote;
    assert BuildSystemPrompt(m1, now) == fixed + SummarizeProfile(m1);
    assert BuildSystemPrompt(m2, now) == fixed + SummarizeProfile(m2);
    assert (fixed + SummarizeProfile(m1))[|fixed|..] == SummarizeProfile(m1);
    assert (fixed + SummarizeProfile(m2))[|fixed|..] == SummarizeProfile(m2);
  }

  // ---------------------------------------------------------------------------
  // Transcripts
  // ---------------------------------------------------------------------------

  /** One turn as two lines, the user's under `speaker`, the bot's under its name. */
  function RenderTurn(speaker: string, t: Turn): string {
    speaker + ": " + t.user + "\n" + BotName + ": " + t.bot
  }

  /** The turns rendered one after another, separated by newlines. */
  function Transcript(speaker: string, turns: seq<Turn>): string
    decreases |turns|
  {
    if |turns| == 0 then []
    else if |turns| == 1 then RenderTurn(speaker, turns[0])
    else RenderTurn(speaker, turns[0]) + "\n" + Transcript(speaker, turns[1..])
  }

  /** Rendering keeps the conversation's order: the transcript of two
      consecutive stretches of turns is the first stretch's transcript, a
      newline, then the second's. */
  lemma {:induction false} TranscriptAppend(speaker: string, a: seq<Turn>, b: seq<Turn>)
    requires a != [] && b != []
    ensures Transcript(speaker, a + b) == Transcript(speaker, a) + "\n" + Transcript(speaker, b)
    decreases |a|
  {
    if |a| == 1 {
      assert (a + b)[1..] == b;
    } else {
      assert (a + b)[1..] == a[1..] + b;
      TranscriptAppend(speaker, a[1..], b);
    }
  }

  /** How many recent turns the reply prompt shows. */
  const WindowSize: nat := 8

  /** The turns the reply prompt shows: exactly the newest
      min(8, |history|) turns, oldest first, so a short history is shown
      whole. */
  function Window(history: seq<Turn>): (w: seq<Turn>)
    ensures |w| == if |history| < WindowSize then |history| else WindowSize
    ensures w == history[|history| - |w|..]
    ensures |history| <= WindowSize ==> w == history
  {
    LastN(history, WindowSize)
  }

  /** The conversation part of the reply prompt. */
  function Context(history: seq<Turn>): string {
    Transcript("You", Window(history))
  }

  const ConversationHeader: string := "\n\nConversation so far:\n"

  /** The text after the transcript: the new message, then the bot's name as
      the cue for its answer. */
  function NewTurnCue(input: string): string {
    "\n\nYou: " + input + "\n" + BotName + ":"
  }

  /** The reply prompt: the system prompt, the recent transcript, and the new
      message, in that order. */
  function ReplyPrompt(m: Memory, input: string, now: string): string {
    BuildSystemPrompt(m, now) + ConversationHeader + Context(m.chatHistory) + NewTurnCue(input)
  }

  /** The reply prompt reads back: it starts with the system prompt and the
      header, ends with the new message and the cue, and what lies between is
      exactly the transcript of the window of recent turns. */
  lemma ReplyPromptLayout(m: Memory, input: string, now: string)
    ensures var r := ReplyPrompt(m, input, now);
      var head := BuildSystemPrompt(m, now) + ConversationHeader;
      var cue := NewTurnCue(input);
      && |head| + |cue| <= |r|
      && r[..|head|] == head
      && r[|r| - |cue|..] == cue
      && r[|head|..|r| - |cue|] == Transcript("You", Window(m.chatHistory))
  {
    var head := BuildSystemPrompt(m, now) + ConversationHeader;
    var body := Context(m.chatHistory);
    var cue := NewTurnCue(input);
    var r := head + body + cue;
    assert r[|head|..|r| - |cue|] == body;
  }

  /** Adding one turn to a history of at least eight slides the window by one:
      the oldest shown turn drops out and the new one is shown last. */
  lemma {:induction false} WindowSlides(history: seq<Turn>, t: Turn)
    requires |history| >= WindowSize
    ensures Window(history + [t]) == Window(history)[1..] + [t]
  {
    var h := history + [t];
    assert h[|h| - WindowSize..] == history[|history| - WindowSize + 1..] + [t];
  }

  // ---------------------------------------------------------------------------
  // The summarization prompt
  // ---------------------------------------------------------------------------

  /** How many recent turns the summarization prompt shows. */
  const SummaryWindow: nat := 10

  const SummaryInstruction: string :=
    "Summarize the key personal facts or recurring interests about the user "
    + "in 2–4 short Hinglish bullets (no full paragraphs):\n"

  /** The prompt asking for a summary: the instruction, then the newest (at
      most ten) turns with the user's lines labelled "User". */
  function SummaryPrompt(history: seq<Turn>): string {
    SummaryInstruction + Transcript("User", LastN(history, SummaryWindow))
  }
}
