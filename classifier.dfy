/** The classifier of index.go: the prompt and the chat-completion request
    built by queryModel, the answer postData hands back, and the mapping of
    that answer to a verdict. */
module Classifier {
  import opened Text

  /** The fixed instruction that precedes the page content in every prompt. */
  const Instruction: string :=
    "Based on the following webpage content, determine if the event is currently accepting applications. Answer only with 'yes' or 'no'. Content:\n"

  const ModelName: string := "gpt-4o-mini"
  const UserRole: string := "user"
  const MaxTokens: int := 5
  const ChoiceCount: int := 1

  datatype Message = Message(role: string, content: string)

  /** ChatCompletionRequest without its floating-point Temperature field. */
  datatype Request = Request(model: string, messages: seq<Message>, maxTokens: int, n: int)

  /** What postData produced for a request: the content of the first choice,
      or one of its fatal failures (unset key, transport error, non-200
      status, undecodable body, no choices), reported by its reason. */
  datatype Reply = Replied(content: string) | ReplyFailed(reason: string)

  /** The result of queryModel: the trimmed answer, or the fatal failure. */
  datatype Answer = Answered(text: string) | QueryFailed(reason: string)

  datatype Verdict = Accepting | NotAccepting | Undetermined

  /** The prompt: the instruction followed by the page content verbatim, with
      no truncation. */
  function Prompt(pageContent: string): (p: string)
    ensures |p| == |Instruction| + |pageContent|
    ensures p[..|Instruction|] == Instruction
    ensures p[|Instruction|..] == pageContent
  {
    Instruction + pageContent
  }

  /** The page content a prompt carries: what follows the instruction. */
  function PageContentOf(prompt: string): (c: string)
    requires |prompt| >= |Instruction|
    ensures |c| == |prompt| - |Instruction|
  {
    prompt[|Instruction|..]
  }

  /** The request queryModel sends: one user message holding the prompt. */
  function BuildRequest(pageContent: string): (r: Request)
    ensures r.model == ModelName && r.maxTokens == MaxTokens && r.n == ChoiceCount
    ensures |r.messages| == 1 && r.messages[0].role == UserRole
    ensures r.messages[0].content == Prompt(pageContent)
  {
    Request(ModelName, [Message(UserRole, Prompt(pageContent))], MaxTokens, ChoiceCount)
  }

  /** The page content is recovered unchanged from the request built for it,
      so different pages always give different requests. */
  lemma RequestCarriesPage(pageContent: string)
    ensures PageContentOf(BuildRequest(pageContent).messages[0].content) == pageContent
  {
  }

  lemma RequestInjective(a: string, b: string)
    requires BuildRequest(a) == BuildRequest(b)
    ensures a == b
  {
    RequestCarriesPage(a);
    RequestCarriesPage(b);
  }

  /** queryModel: the request for `pageContent` is sent and `reply` is the
      endpoint's reply to it; postData trims the first choice's content. */
  function QueryModel(pageContent: string, reply: Reply): (a: Answer)
    ensures a.Answered? <==> reply.Replied?
    ensures reply.Replied? ==> a == Answered(TrimSpace(reply.content)) && Unpadded(a.text)
    ensures reply.ReplyFailed? ==> a == QueryFailed(reply.reason)
  {
    match reply
    case Replied(content) => Answered(TrimSpace(content))
    case ReplyFailed(reason) => QueryFailed(reason)
  }

  /** The classification chain: the trimmed answer is compared exactly,
      case included, with "yes" and then with "no". */
  function Classify(answer: string): (v: Verdict)
    ensures v == Accepting <==> TrimSpace(answer) == "yes"
    ensures v == NotAccepting <==> TrimSpace(answer) == "no"
    ensures v == Undetermined <==> TrimSpace(answer) !in {"yes", "no"}
  {
    var t := TrimSpace(answer);
    if t == "yes" then Accepting
    else if t == "no" then NotAccepting
    else Undetermined
  }

  /** "yes" or "no" surrounded by any white space is still recognised. */
  lemma ClassifyIgnoresPadding(p: string, w: string, q: string)
    requires AllSpace(p) && AllSpace(q) && (w == "yes" || w == "no")
    ensures Classify(p + w + q) == (if w == "yes" then Accepting else NotAccepting)
  {
    assert !IsSpace(w[0]) && !IsSpace(w[|w| - 1]);
    TrimSpaceOfPadded(p, w, q);
    var t := TrimSpace(p + w + q);
    assert t == w;
    assert |"no"| != |"yes"|;
  }

  /** Classifying the already-trimmed answer postData returns gives the same
      verdict as classifying the raw content. */
  lemma ClassifyTrimmed(content: string)
    ensures Classify(TrimSpace(content)) == Classify(content)
  {
    TrimSpaceIdempotent(content);
  }

  /** Surrounding white space is dropped before the comparison. */
  lemma ClassifyPaddedYes()
    ensures Classify(" yes\n") == Accepting
  {
    var s := " yes\n";
    assert s == [s[0]] + s[1..4] + [s[4]];
    assert AllSpace([s[0]]) && AllSpace([s[4]]);
    ClassifyIgnoresPadding([s[0]], s[1..4], [s[4]]);
  }

  /** The comparison is case-sensitive: "Yes" is not recognised. */
  lemma ClassifyCaseSensitive()
    ensures Classify("Yes") == Undetermined
  {
    var w := "Yes";
    assert Unpadded(w);
    TrimSpaceOfPadded([], w, []);
    assert [] + w + [] == w;
    assert w[0] != "yes"[0] && |w| != |"no"|;
  }

  /** An empty answer is not recognised. */
  lemma ClassifyEmpty()
    ensures Classify("") == Undetermined
  {
  }
}
