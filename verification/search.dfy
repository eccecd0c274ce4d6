/** Live search: turning the web-search service's answer into one short text.

    The HTTP request itself is not modelled; its outcome (the decoded JSON
    response, or the text of the error it raised) is an input.
 */
module Search {

  import opened Results
  import opened Text

  /** The "knowledge" panel of a response; its description may be missing. */
  datatype Knowledge = Knowledge(description: Option<string>)

  /** One organic result; its snippet may be missing. */
  datatype Organic = Organic(snippet: Option<string>)

  /** The parts of the service's JSON response the chatbot reads. */
  datatype Response = Response(knowledge: Option<Knowledge>, organic: Option<seq<Organic>>)

  /** The placeholder the configuration falls back to when no key is set. */
  const KeyPlaceholder: string := "YOUR_SERPER_API_KEY"

  const Unavailable: string := "Live search unavailable."
  const FailedPrefix: string := "Search failed: "
  const NoSnippet: string := "Kuch result nahi mila."
  const NoResult: string := "Kuch relevant result nahi mila 😅"

  /** A key is usable when it is non-empty and is not the placeholder. */
  predicate Configured(key: string) {
    key != [] && !Contains(key, KeyPlaceholder)
  }

  /** The knowledge panel's description, when present and non-empty. */
  predicate HasDescription(resp: Response) {
    resp.knowledge.Some? && resp.knowledge.value.description.Some?
    && resp.knowledge.value.description.value != []
  }

  /** There is at least one organic result. */
  predicate HasOrganic(resp: Response) {
    resp.organic.Some? && resp.organic.value != []
  }

  /** The single best answer in a response. A non-empty knowledge-panel
      description wins; otherwise the first organic result's snippet (even an
      empty one), or a canned text when that result has no snippet; otherwise
      the canned "nothing relevant" text. */
  function BestAnswer(resp: Response): (r: string)
    ensures HasDescription(resp) ==> r == resp.knowledge.value.description.value
    ensures !HasDescription(resp) && HasOrganic(resp) ==>
              r == resp.organic.value[0].snippet.GetOr(NoSnippet)
    ensures !HasDescription(resp) && !HasOrganic(resp) ==> r == NoResult
  {
    if HasDescription(resp) then resp.knowledge.value.description.value
    else if HasOrganic(resp) then resp.organic.value[0].snippet.GetOr(NoSnippet)
    else NoResult
  }

  /** The text a search produces: nothing is asked of the service without a
      usable key; a failed request becomes an error text; otherwise the best
      answer of the response. */
  function WebSearch(key: string, outcome: Outcome<Response>): (r: string)
    ensures !Configured(key) ==> r == Unavailable
    ensures Configured(key) && outcome.Err? ==> r == FailedPrefix + outcome.error
    ensures Configured(key) && outcome.Ok? ==> r == BestAnswer(outcome.value)
  {
    if !Configured(key) then Unavailable
    else match outcome
      case Err(e) => FailedPrefix + e
      case Ok(resp) => BestAnswer(resp)
  }

  /** Every search answer is a text taken from the response or one of the
      fixed texts; and it is empty only when the service returned an empty
      snippet for its first organic result. */
  lemma {:induction false} AnswerProvenance(key: string, outcome: Outcome<Response>)
    ensures var r := WebSearch(key, outcome);
      || r in {Unavailable, NoSnippet, NoResult}
      || (outcome.Err? && r == FailedPrefix + outcome.error)
      || (outcome.Ok? && HasDescription(outcome.value)
          && r == outcome.value.knowledge.value.description.value)
      || (outcome.Ok? && HasOrganic(outcome.value)
          && outcome.value.organic.value[0].snippet == Some(r))
    ensures WebSearch(key, outcome) == [] <==>
      && Configured(key) && outcome.Ok? && !HasDescription(outcome.value)
      && HasOrganic(outcome.value) && outcome.value.organic.value[0].snippet == Some([])
  {
    var r := WebSearch(key, outcome);
    assert Unavailable != [] && NoSnippet != [] && NoResult != [];
    if Configured(key) && outcome.Err? {
      assert |r| >= |FailedPrefix|;
    }
  }
}
