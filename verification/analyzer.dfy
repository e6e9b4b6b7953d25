/**
 * `ScamAnalyzer`: build the classification prompt for a post, send it to a chat
 * completion service, and read the reply with a three-tier policy: the JSON object
 * between the first `{` and the last `}` when it decodes, a keyword heuristic when the
 * reply holds no such span, and a fixed error record when the span does not decode.
 *
 * The chat service and the JSON decoder are oracles: the service maps a request to
 * the reply text or to the text of the exception it raised, and the decoder maps a
 * string to the decoded value or to None for a `JSONDecodeError`.
 */
module Analyzer {

  import opened Wrappers
  import opened Text
  import Extractor

  /** The result dictionaries, by the keys they carry. */
  datatype Analysis<J> =
    | Decoded(value: J)   // the object decoded from the reply, returned as it is
    | Heuristic(isSuspicious: bool, confidence: int, category: string, explanation: string,
                redFlags: seq<string>, recommendations: string)
    | Failure(error: string, isSuspicious: bool, confidence: int, explanation: string)

  // ---- Reading the model's reply ----

  /** Some `{` comes before some `}`: the condition for `\{.*\}` (DOTALL) to match. */
  ghost predicate HasBraceSpan(s: string) {
    exists i, j :: 0 <= i < j < |s| && s[i] == '{' && s[j] == '}'
  }

  /**
   * The match of `\{.*\}` with DOTALL: from the first `{` to the last `}`, given as
   * the half-open range `[start, end)`.
   */
  function BraceSpan(s: string): (r: Option<(nat, nat)>)
    ensures r.Some? ==> r.value.0 < r.value.1 <= |s| && s[r.value.0] == '{' && s[r.value.1 - 1] == '}'
    ensures r.Some? ==> (forall k :: 0 <= k < r.value.0 ==> s[k] != '{') && (forall k :: r.value.1 <= k < |s| ==> s[k] != '}')
    ensures r.None? <==> !HasBraceSpan(s)
  {
    var first := IndexFrom(s, '{', 0);
    match LastIndexBefore(s, '}', |s|)
    case Some(last) =>
      if first < last then Some((first, last + 1))
      else
        assert forall i, j :: 0 <= i < j < |s| && s[i] == '{' && s[j] == '}' ==> first <= i && j <= last;
        None
    case None => None
  }

  /** The keyword test on the lower-cased reply: "suspicious" or "scam" occurs, ignoring ASCII case. */
  function MentionsScam(reply: string): (r: bool)
    ensures r <==> OccursIgnoringCase(reply, "suspicious") || OccursIgnoringCase(reply, "scam")
  {
    ContainsLowerIff(reply, "suspicious");
    ContainsLowerIff(reply, "scam");
    Contains(Lower(reply), "suspicious") || Contains(Lower(reply), "scam")
  }

  /**
   * `_parse_analysis_result`: the heuristic verdict exactly when the reply has no `{`
   * before a `}`; a decoded object or the fixed parse-error record otherwise.
   */
  function ParseAnalysisResult<J>(reply: string, decode: string -> Option<J>): (r: Analysis<J>)
    ensures r.Heuristic? <==> !HasBraceSpan(reply)
    ensures r.Heuristic? ==>
      r == Heuristic(MentionsScam(reply), 50, "unclear", reply, [], "Manual review recommended")
    ensures r.Failure? ==> r == Failure("Could not parse analysis result", false, 0, reply)
  {
    match BraceSpan(reply)
    case Some((start, end)) =>
      (match decode(reply[start..end])
       case Some(v) => Decoded(v)
       case None => Failure("Could not parse analysis result", false, 0, reply))
    case None =>
      Heuristic(MentionsScam(reply), 50, "unclear", reply, [], "Manual review recommended")
  }

  /** `word` sits at position `i` of `s` when upper-case ASCII letters of `s` are read as lower-case. */
  ghost predicate MatchesIgnoringCase(s: string, word: string, i: nat) {
    i + |word| <= |s| && forall k :: 0 <= k < |word| ==> LowerChar(s[i + k]) == word[k]
  }

  /** `word` occurs somewhere in `s`, ignoring ASCII case. */
  ghost predicate OccursIgnoringCase(s: string, word: string) {
    exists i: nat :: MatchesIgnoringCase(s, word, i)
  }

  /** A match in the lower-cased text is a case-insensitive match in the original, and back. */
  lemma LowerOccursAtIff(s: string, word: string, i: nat)
    ensures OccursAt(Lower(s), word, i) <==> MatchesIgnoringCase(s, word, i)
  {
    var t := Lower(s);
    if i + |word| <= |s| {
      var slice := t[i..i + |word|];
      assert forall k :: 0 <= k < |word| ==> slice[k] == LowerChar(s[i + k]);
      if MatchesIgnoringCase(s, word, i) {
        assert slice == word;
      }
    }
  }

  lemma ContainsLowerIff(s: string, word: string)
    ensures Contains(Lower(s), word) <==> OccursIgnoringCase(s, word)
  {
    var t := Lower(s);
    ContainsIff(t, word);
    if Contains(t, word) {
      var i :| 0 <= i <= |t| && OccursAt(t, word, i);
      LowerOccursAtIff(s, word, i);
    }
    if OccursIgnoringCase(s, word) {
      var i: nat :| MatchesIgnoringCase(s, word, i);
      LowerOccursAtIff(s, word, i);
    }
  }

  /**
   * When some `}` follows the first `{`, the decoder is handed exactly the text from
   * the first `{` to the last `}`: what it decodes is returned as it is, and a
   * decoding failure yields the fixed error record carrying the raw reply.
   */
  lemma ParseDecodesSpan<J>(reply: string, decode: string -> Option<J>, i: nat, j: nat)
    requires i < j < |reply| && reply[i] == '{' && reply[j] == '}'
    requires forall k :: 0 <= k < i ==> reply[k] != '{'
    requires forall k :: j < k < |reply| ==> reply[k] != '}'
    ensures decode(reply[i..j + 1]).Some? ==> ParseAnalysisResult(reply, decode) == Decoded(decode(reply[i..j + 1]).value)
    ensures decode(reply[i..j + 1]).None? ==>
      ParseAnalysisResult(reply, decode) == Failure("Could not parse analysis result", false, 0, reply)
  {
    var r := BraceSpan(reply);
    assert r.Some? by {
      assert HasBraceSpan(reply) by {
        assert 0 <= i < j < |reply| && reply[i] == '{' && reply[j] == '}';
      }
    }
    var (a, b) := r.value;
    assert a == i by {
      assert !(a < i) && !(i < a);
    }
    assert b == j + 1 by {
      assert !(b - 1 < j) && !(j < b - 1);
    }
  }

  /**
   * Without a `{` before a `}`, the decoder is not consulted and the verdict is the
   * fixed heuristic one: suspicious exactly when "suspicious" or "scam" occurs in the
   * reply, ignoring case; confidence 50, category "unclear", the reply as explanation,
   * no red flags, and a manual review recommended.
   */
  lemma ParseWithoutSpan<J>(reply: string, decode: string -> Option<J>)
    requires !HasBraceSpan(reply)
    ensures ParseAnalysisResult(reply, decode) ==
      Heuristic(MentionsScam(reply), 50, "unclear", reply, [], "Manual review recommended")
    ensures MentionsScam(reply) <==> OccursIgnoringCase(reply, "suspicious") || OccursIgnoringCase(reply, "scam")
  {
  }

  // ---- The prompt ----

  /** The template text before the post content. */
  const PromptHead: string :=
    "\n"
    + "Analyze the following social media post "
    + "for potential scam, phishing, or fraudulent content:\n"
    + "\n"
    + "POST CONTENT:\n"

  /** The template text after the instance. */
  const PromptTail: string :=
    "\n\n"
    + "Please analyze this post and determine if it appears to be:\n1. A scam or fraudulent scheme\n2. A phishing attempt\n3. Legitimate content\n"
    + "\nConsider these factors:\n- Urgency tactics (\"act now\", \"limited time\")\n"
    + "- Requests for personal information\n- Suspicious links or promises\n- Too-good-to-be-true offers\n- Impersonation attempts\n"
    + "- Grammar and spelling issues\n- Cryptocurrency or investment schemes\n- Fake giveaways or contests\n\n"
    + "Respond in JSON format with:\n{\n    \"is_suspicious\": boolean,\n"
    + "    \"confidence\": number (0-100),\n    \"category\": \"scam|phishing|legitimate|unclear\",\n    \"explanation\": \"detailed explanation of your analysis\",\n"
    + "    \"red_flags\": [\"list\", \"of\", \"specific\", \"concerns\"],\n    \"recommendations\": \"what users should do\"\n}\n"

  const AuthorLabel: string := "\n\nAUTHOR: "
  const InstanceLabel: string := "\nINSTANCE: "

  /** `_create_analysis_prompt`: the fixed template with the three fields filled in. */
  function CreateAnalysisPrompt(content: string, author: string, instance: string): string {
    PromptHead + content + AuthorLabel + author + InstanceLabel + instance + PromptTail
  }

  /**
   * The prompt is the template with content, author and instance inserted verbatim:
   * each can be read back at a fixed offset, between the fixed pieces of the template.
   */
  lemma PromptCarriesFields(content: string, author: string, instance: string)
    ensures var p := CreateAnalysisPrompt(content, author, instance);
      && |p| == |PromptHead| + |content| + |AuthorLabel| + |author| + |InstanceLabel| + |instance| + |PromptTail|
      && p[..|PromptHead|] == PromptHead
      && p[|PromptHead|..|PromptHead| + |content|] == content
      && var a := |PromptHead| + |content| + |AuthorLabel|;
      && p[a - |AuthorLabel|..a] == AuthorLabel && p[a..a + |author|] == author
      && var n := a + |author| + |InstanceLabel|;
      && p[n - |InstanceLabel|..n] == InstanceLabel && p[n..n + |instance|] == instance
      && p[|p| - |PromptTail|..] == PromptTail
  {
    FillLayout(PromptHead, content, AuthorLabel, author, InstanceLabel, instance, PromptTail);
  }

  /** Where each piece of a seven-piece concatenation lies. */
  lemma FillLayout(h: string, c: string, al: string, a: string, il: string, i: string, t: string)
    ensures var p := h + c + al + a + il + i + t;
      && |p| == |h| + |c| + |al| + |a| + |il| + |i| + |t|
      && p[..|h|] == h
      && p[|h|..|h| + |c|] == c
      && p[|h| + |c|..|h| + |c| + |al|] == al
      && p[|h| + |c| + |al|..|h| + |c| + |al| + |a|] == a
      && p[|h| + |c| + |al| + |a|..|h| + |c| + |al| + |a| + |il|] == il
      && p[|h| + |c| + |al| + |a| + |il|..|h| + |c| + |al| + |a| + |il| + |i|] == i
      && p[|p| - |t|..] == t
  {
    var p := h + c + al + a + il + i + t;
    var n1 := |h|;
    var n2 := n1 + |c|;
    var n3 := n2 + |al|;
    var n4 := n3 + |a|;
    var n5 := n4 + |il|;
    var n6 := n5 + |i|;
    assert p[..n1] == h;
    assert p[n1..n2] == c;
    assert p[n2..n3] == al;
    assert p[n3..n4] == a;
    assert p[n4..n5] == il;
    assert p[n5..n6] == i;
    assert p[n6..] == t;
  }

  // ---- Analysing a post ----

  const SystemPrompt: string :=
    "You are a cybersecurity expert specializing in identifying scams, "
    + "phishing attempts, and fraudulent content on social media platforms."

  /** The model used when none is configured. */
  const DefaultModel: string := "openai/gpt-oss-20b:free"

  datatype Message = Message(role: string, content: string)

  /** A chat completion request: model, messages, sampling temperature, output-token budget. */
  datatype ChatRequest = ChatRequest(model: string, messages: seq<Message>, temperature: real, maxTokens: nat)

  function AnalysisRequest(model: string, prompt: string): ChatRequest {
    ChatRequest(model, [Message("system", SystemPrompt), Message("user", prompt)], 0.1, 1000)
  }

  /**
   * A `ScamAnalyzer` is its model name, `DefaultModel` unless one is given; the
   * client's endpoint and key live in the `complete` oracle.
   */
  datatype ScamAnalyzer = ScamAnalyzer(model: string := DefaultModel) {

    /**
     * `analyze_post`: the empty-content error exactly when the post has no content;
     * otherwise one request to the service, whose answer `ReadAnswer` turns into the verdict.
     */
    function AnalyzePost<J>(post: Extractor.PostRecord, complete: ChatRequest -> Result<string, string>,
                            decode: string -> Option<J>): (r: Analysis<J>)
      ensures post.content == "" <==> r == Failure(NoContentError, false, 0, "No content found in the post")
    {
      if post.content == "" then
        Failure(NoContentError, false, 0, "No content found in the post")
      else
        ReadAnswer(complete(AnalysisRequest(model, CreateAnalysisPrompt(post.content, post.author, post.instance))), decode)
    }
  }

  const NoContentError: string := "No content to analyze"

  /**
   * The reply parsed, or the service-error record carrying the exception's text. Every
   * error record says "not suspicious" with confidence 0, and none is the empty-content
   * error; the heuristic verdict always has confidence 50, category "unclear" and no red flags.
   */
  function ReadAnswer<J>(answer: Result<string, string>, decode: string -> Option<J>): (r: Analysis<J>)
    ensures r.Failure? ==> !r.isSuspicious && r.confidence == 0 && r.error != NoContentError
    ensures r.Heuristic? ==> r.confidence == 50 && r.category == "unclear" && r.redFlags == []
  {
    match answer
    case Ok(reply) =>
      var r := ParseAnalysisResult(reply, decode);
      assert r.Failure? ==> r.error[0] == 'C';
      r
    case Err(cause) =>
      var error := "Analysis failed: " + cause;
      assert error[0] == 'A';
      Failure(error, false, 0, "Could not complete analysis due to API error")
  }

  /** A post without content gets the fixed error verdict, whatever the chat service would answer. */
  lemma EmptyContentGuard<J>(analyzer: ScamAnalyzer, post: Extractor.PostRecord, decode: string -> Option<J>)
    requires post.content == ""
    ensures forall complete: ChatRequest -> Result<string, string> ::
      analyzer.AnalyzePost(post, complete, decode) == Failure(NoContentError, false, 0, "No content found in the post")
  {
  }

  /**
   * A post with content is sent once, as the system framing plus the filled-in
   * template, at temperature 0.1 with 1000 output tokens; the verdict depends on the
   * service only through its answer to that request.
   */
  lemma AnalysisAsksOnce<J>(analyzer: ScamAnalyzer, post: Extractor.PostRecord, decode: string -> Option<J>,
                            complete1: ChatRequest -> Result<string, string>, complete2: ChatRequest -> Result<string, string>)
    requires post.content != ""
    requires var request := AnalysisRequest(analyzer.model, CreateAnalysisPrompt(post.content, post.author, post.instance));
      complete1(request) == complete2(request)
    ensures analyzer.AnalyzePost(post, complete1, decode) == analyzer.AnalyzePost(post, complete2, decode)
  {
  }

  /** A failing service call is reported with its cause and never reaches the reply parser. */
  lemma ServiceFailure<J>(analyzer: ScamAnalyzer, post: Extractor.PostRecord,
                          complete: ChatRequest -> Result<string, string>, decode: string -> Option<J>, cause: string)
    requires post.content != ""
    requires complete(AnalysisRequest(analyzer.model, CreateAnalysisPrompt(post.content, post.author, post.instance))) == Err(cause)
    ensures analyzer.AnalyzePost(post, complete, decode) ==
      Failure("Analysis failed: " + cause, false, 0, "Could not complete analysis due to API error")
  {
  }
}
