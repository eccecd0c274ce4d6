# Neha chatbot: conversation memory and turn routing

This project models the memory and routing logic of a Hinglish chatbot,
"Neha", in `app.py`. The bot keeps one memory record with three parts:
the user's name, the conversation so far as a list of turns, and a list of
standing facts. The model covers everything the bot does with that record:

- Every message is read for an introduction ("mera naam Asha hai"). When one
  is found, the name is cut out, stripped and title-cased.
- The profile summary is built from the name and the newest three facts, and
  it goes into the system prompt after the persona text and the current time.
- A turn is routed in a fixed order:
  - an empty or all-whitespace message gets a filler reply;
  - while no name is known, the bot asks for one, or greets the user with a
    name read from the message;
  - a message with a live-data keyword is answered from web search;
  - any other message goes to the language model. Its prompt holds the
    system prompt, the last eight turns and the new message. The turn is
    then appended to the history.
- When an append brings the history length to a multiple of twenty, a
  summarization step runs. It may add the model's summary as a new fact and
  cut the history down to its last eight turns.

Everything the outside world supplies is a parameter of the model:

- the formatted current time;
- the search key;
- the answer of the search service (a decoded response or an error text);
- the answer of the language model for the reply (a text or an error text);
- the answer of the language model for the summary (a text or an error text).

Which services a turn asked is reported as a list of `Call`s.

Python's string operations are modelled in `Text`:

- `lower`, `title` and `strip`;
- `in`, as `Contains`;
- `split(sep)` and `split(sep, 1)`;
- `join`;
- `xs[-n:]`.

The model follows the code's quirks. Each is stated by the lemma named
after it:

- The every-message rule (line 40) cuts at the nearest "hai" or the next
  "mera naam", whichever starts first (`Extraction.IntroCutIsNearest`).
- A "hai" inside a name cuts the name short: "Mera naam Shaina hai" stores
  "S" (`Extraction.ShainaIsCutShort`).
- A later introduction overwrites a name already stored
  (`Extraction.LaterIntroductionOverwrites`).
- The name may become empty, and an empty name counts as unknown:
  "Mera naam hai" stores "" and the gate greets an empty name
  (`Reply.EmptyNameKeepsGateClosed`).
- The gate rule (line 141) needs only "mera naam", not "hai"
  (`Reply.NameGateAsksNobody`).
- Keywords match inside words: "karate" contains "rate"
  (`Reply.KarateClassGoesToSearch`).
- A model answer of only whitespace gives an empty reply, and that turn is
  appended like any other (`Reply.BlankModelAnswerIsAppended`).

Modules and files:

- `results.dfy`: `Option` and `Outcome`.
- `text.dfy`: the Python string operations.
- `store.dfy`: the memory record and its well-formedness.
- `extraction.dfy`: `remember_user_info` and the two name cuts.
- `profile.dfy`: `summarize_profile`, `build_system_prompt`, and the
  transcripts in the reply and summary prompts.
- `search.dfy`: choosing the answer in `web_search`.
- `summarization.dfy`: `summarize_old_memory`.
- `reply.dfy`: `generate_reply` and whole sessions.

Some behaviour worth knowing about `app.py`:

- A later introduction overwrites the stored name (line 41); the first name
  does not win.
- The name is everything between "mera naam" and "hai", not one word.
- A failed model call yields a non-empty reply, the apology with the error
  text. A successful model answer that is blank yields an empty reply, which
  is appended like any other.
- There is no gender or location handling.

## Model

| member | source | states |
|---|---|---|
| Text.Lower | app.py:37 | Lower-casing keeps the length and position of every character: no upper-case letter is left, every other character is kept as it is, and letters stay letters. |
| Text.TitleIgnoresCase | app.py:37-40 | Title-casing a lower-cased text gives the same result as title-casing the text itself, so lower-casing first changes nothing about the stored name. |
| Text.Title | app.py:40 | Title-casing keeps the length. A cased letter becomes upper case when it follows no cased letter and lower case otherwise; other characters stay as they are. |
| Text.Strip | app.py:40 | The stripped text is empty exactly when the input is all whitespace. Otherwise it starts and ends with a non-space character and is a slice of the input with only whitespace around it. |
| Text.StripIdempotent | app.py:118-119 | Stripping a stripped text changes nothing, so a stored summary is already in stripped form. |
| Text.Split | app.py:40 | `split` yields at least two pieces exactly when the text contains the separator. The first piece is the text before the first occurrence: it ends where `Find` puts the least index of the separator, and it does not contain the separator. |
| Text.SplitJoin | app.py:40 | Joining the pieces of a split with the separator gives back the original text. |
| Text.SplitPiecesAvoidSeparator | app.py:40 | No piece of a split contains the separator. |
| Text.SplitOnce | app.py:141 | `split(sep, 1)` has two pieces exactly when the separator occurs. No occurrence starts inside the first piece, so the cut is at the least index of the separator. The pieces are the text before it and everything after it, and joining them gives the text back. |
| Text.SplitOnceAgrees | app.py:40 | Both forms of `split` have the same first piece. The full split of the text after the first cut is the rest of the full split. |
| Text.Between | app.py:40 | The cut of the every-message rule is the slice right after the first "mera naam". It contains neither marker and ends at the end of the text or just before a "mera naam" or a "hai". No "mera naam" starts inside it, and no "hai" either when a "hai" cannot run into a "mera naam". |
| Text.NearestSliceIsUnique | app.py:40 | When a `b` cannot run into an `a`, only one slice from a given start avoids both markers, stops at one, and has none starting inside it. So the cut is the nearest marker, not a later one. |
| Text.BetweenIsSplit | app.py:40 | That slice is exactly `text.split(a)[1].split(b)[0]`. |
| Text.BetweenOnce | app.py:141 | The cut of the gate rule is the slice right after the first "mera naam". No "hai" starts inside it, and it ends at the end of the text or just before a "hai". |
| Text.BetweenOnceIsSplit | app.py:141 | That slice is exactly `text.split(a, 1)[1].split(b, 1)[0]`. |
| Text.LastN | app.py:52 | `xs[-n:]` has min(n, len(xs)) elements and is the end of `xs`, in order. |
| Extraction.RememberUserInfo | app.py:36-44 | When the lower-cased message contains "mera naam" and, anywhere, "hai", the name becomes the cut text, stripped and title-cased, whatever was stored before. Otherwise the record is unchanged. History and facts are never touched. |
| Extraction.IntroCutIsNearest | app.py:40 | The name cut of line 40 has no "mera naam" and no "hai" starting inside it, and it is the only slice after the first "mera naam" that stops at a marker with none inside. |
| Extraction.ShainaIsCutShort | app.py:40 | "Mera naam Shaina hai" stores the name "S", because "shaina" contains "hai". |
| Extraction.LaterIntroductionOverwrites | app.py:38-41 | A new introduction replaces a name that is already stored. |
| Profile.SummarizeProfile | app.py:47-55 | The summary is the fallback text exactly when there is no name and no facts. Otherwise it is the name sentence, the "Recent: " sentence, or both joined by one space. |
| Profile.JoinedParts | app.py:48-55 | Joining one or two profile parts gives the single part or the two parts with a space between, and never the fallback text. |
| Profile.SummaryDependsOnNameAndRecentFacts | app.py:47-55 | Two records with the same known name and the same newest three facts have the same summary. Older facts and the conversation never reach the summary. |
| Profile.SystemPromptEndsWithSummary | app.py:90-101 | The system prompt ends with the profile summary, right after the fixed text and the time. Two records give the same prompt at the same time exactly when their summaries agree. |
| Profile.TranscriptAppend | app.py:156 | The transcript of two consecutive stretches of turns is the first transcript, a newline, then the second, so rendering keeps the conversation order. |
| Profile.Window | app.py:155-156 | The context window holds exactly the newest min(8, length) turns, oldest first. A short history is shown whole. |
| Profile.WindowSlides | app.py:155-156 | Appending a turn to a history of eight or more slides the window by one: the oldest shown turn drops out and the new one is shown last. |
| Profile.ReplyPromptLayout | app.py:158-159 | The reply prompt starts with the system prompt and the header and ends with the new "You:" line and the bot's cue. Everything between is exactly the transcript of the window. |
| Search.BestAnswer | app.py:78-82 | A non-empty knowledge-panel description wins. Otherwise the first organic result's snippet is used, or the fixed text when it has none. With no organic results the answer is the "nothing relevant" text. |
| Search.WebSearch | app.py:69-84 | Without a usable key the answer is "Live search unavailable.". A failed request gives "Search failed: " plus the error. Otherwise the answer is the best answer in the response. |
| Search.AnswerProvenance | app.py:69-84 | A search answer is either a fixed text or a text taken from the response or the error. It is empty exactly when the first organic snippet is present and empty. |
| Summarization.SummarizeOldMemory | app.py:107-125 | Summarization needs at least 10 turns, a successful model answer, and a stripped summary that is non-empty and new. Then the summary becomes the last fact and the history becomes its last 8 turns. Otherwise the record is unchanged. The name is never touched, and the facts change exactly when the record does. |
| Summarization.SummarizeKeepsFactsWellFormed | app.py:118-121 | After summarization the facts are still distinct, non-empty and stripped. |
| Summarization.SummarizeIsIdempotent | app.py:119-121 | Summarizing again with the same answer changes nothing, because the summary is then already a fact. |
| Reply.ModelTurn | app.py:155-171 | On the model path the reply is the stripped model answer or the apology with the error. The old facts stay in front with at most one added. The history gains the turn, or is cut to the newest 8 turns ending with it. One or two requests are made. |
| Reply.GenerateReply | app.py:131-174 | A turn asks at most two external services. |
| Reply.BlankMessageChangesNothing | app.py:132-133 | A blank message gets "Kuch toh bolo! 😄". The whole memory is unchanged and no service is asked. |
| Reply.Respond | app.py:137-171 | Routing after extraction (the memory as line 135 left it) asks at most two external services. |
| Reply.NonBlankIsRouted | app.py:132-135 | A non-blank message is routed with the memory after name extraction, which has the same history and facts as before. |
| Reply.NameGateAsksNobody | app.py:138-148 | While no name is known after extraction, the bot asks for the name. If the message says "mera naam", it instead greets the user with the name the gate cut, and stores it. History and facts are unchanged and no service is asked. |
| Reply.LiveDataGoesToSearch | app.py:150-153 | With a known name and a keyword in the message, the reply is the search prefix plus the search answer. The memory is not changed, so the history is not extended. The search service is asked only with a usable key, and the model is not asked. |
| Reply.ModelPathAppendsOneTurn | app.py:155-170 | Otherwise the model is asked first, with the prompt built after extraction. The reply is the model's, or the apology with the error. Away from a multiple of twenty, exactly the one turn (message, reply) is appended and nothing else changes. |
| Reply.BlankModelAnswerIsAppended | app.py:162-171 | A model answer of only whitespace gives the empty reply. The turn (message, "") is then the newest turn of the history. Away from a multiple of twenty it is appended to the old history. |
| Reply.TwentiethTurnSummarizes | app.py:168-171 | When the append reaches a multiple of twenty, exactly two requests are made: the reply prompt, then the summary prompt over the extended history. The 10-turn guard of summarization never stops it here. The memory is the summarization step applied to the extended record. |
| Reply.TurnChangesMemoryBoundedly | app.py:131-174 | Any turn keeps the old facts in front with at most one added. The history stays as it was, gains exactly this turn, or becomes the newest 8 turns ending with it. |
| Reply.RespondChangesMemoryBoundedly | app.py:137-171 | The same bounds hold for the routing step on the memory after extraction. |
| Reply.FactsGrowOnlyOnTwentieth | app.py:168-171 | Routing changes the facts only on a turn whose append reaches a multiple of twenty. The history is then exactly its newest 8 turns. |
| Reply.ServicesNeedAName | app.py:137-153 | An external service is asked only for a non-blank message from a user whose name is known after extraction. |
| Reply.TurnKeepsFactsWellFormed | app.py:131-174 | Every turn keeps the facts distinct, non-empty and stripped. |
| Reply.RespondKeepsFactsWellFormed | app.py:137-171 | The routing step keeps the facts well formed. |
| Reply.SessionFactsAppendOnly | app.py:131-174 | Over a whole session the facts only grow at the end, by at most one per turn, and stay well formed. |
| Reply.EmptyNameKeepsGateClosed | app.py:131-144 | "Mera naam hai" stores the empty name, which still counts as unknown. The gate then greets the user with an empty name, stores "" again, and asks no service. |
| Reply.KarateClassGoesToSearch | app.py:151-153 | "Karate class kab hai?" from a user with a known name is answered from search, because "karate" contains the keyword "rate". |

## Left out

- The Streamlit user interface and session handling (app.py:177 onwards): presentation only.
- `load_memory` and `save_memory`, and every call to `save_memory`: disk I/O. The model works on the record itself.
- The `print` of a swallowed summarization error (app.py:124): console output only. The record is returned unchanged, as `SummarizeOldMemory` states.
- `get_now`: it reads the wall clock and converts time zones. The formatted time is the parameter `now`.
- The HTTP request to the search service, and the calls to the language model: network clients. Their outcomes are parameters, either an answer or the text of the raised error.
- The configuration read from the environment (app.py:12-15): the search key is a parameter.
- Text.Lower and Text.Title: the full Unicode case tables are out of scope, so only ASCII letters are cased. Every other letter is left unchanged and counts as uncased. An ASCII letter right after a non-ASCII letter therefore starts a new word. `Title("renée")` gives "RenéE", where Python gives "Renée". `Lower` leaves "É" as it is, so "RENÉE" becomes "RenÉE" after line 40, where Python gives "Renée".
- Search.WebSearch: only absent and present fields are modelled. A field that is present but JSON `null` is not. An explicit `"snippet": null` makes `.get` at line 81 return `None`, so the reply ends in "None". The model gives the fixed "Kuch result nahi mila." text instead. An explicit `"knowledge": null` makes line 78 raise, so the answer is "Search failed: " plus the error. The model goes on to the organic results instead. A field of another wrong JSON type, and any other exception raised while reading the response, are not modelled either.
- Summarization.SummarizeOldMemory: a model answer whose text is `None` is modelled as `Ok("")`, which `(result.text or "")` makes equivalent.
- The `except` branches at lines 42-43 and 145-146: unreachable, because the guards at lines 38 and 139 ensure that index 1 of the split exists.
- The summarizer's prompt is modelled (`SummaryPrompt`). The summarizer's answer to it is a parameter, and no property of the summary text is assumed.
