/**
 * The pure helpers of `GeminiService`: the plain prompt with optional
 * context, the retrieval prompt with the recent conversation and numbered
 * context documents, and the keyword-based application-intent analysis used
 * when the language model's answer cannot be parsed.
 */
module Prompts {
  import opened PyStr
  import opened Wrappers

  // ---------------------------------------------------------------------------
  // `_construct_prompt`
  // ---------------------------------------------------------------------------

  const PromptHead := "\n            Context: "
  const PromptMid := "\n            \n            User Question: "
  const PromptTail := "\n            \n            Please provide a helpful and accurate response based on the context provided.\n            "

  /**
   * `_construct_prompt`: the prompt unchanged when there is no context (None
   * or empty); otherwise a template holding the context, then the prompt.
   */
  function ConstructPrompt(prompt: string, context: Option<string>): (r: string)
    ensures context.None? || context.value == "" ==> r == prompt
    ensures context.Some? && context.value != "" ==>
              |r| == |PromptHead| + |context.value| + |PromptMid| + |prompt| + |PromptTail| &&
              OccursAt(context.value, r, |PromptHead|) &&
              OccursAt(prompt, r, |PromptHead| + |context.value| + |PromptMid|)
  {
    if context.Some? && context.value != "" then
      var r := PromptHead + context.value + PromptMid + prompt + PromptTail;
      assert r[|PromptHead|..|PromptHead| + |context.value|] == context.value;
      var p := |PromptHead| + |context.value| + |PromptMid|;
      assert r[p..p + |prompt|] == prompt;
      r
    else
      prompt
  }

  /** With a non-empty context the constructed prompt contains both the context and the prompt. */
  lemma PromptContainsBoth(prompt: string, context: string)
    requires context != ""
    ensures IsInfix(context, ConstructPrompt(prompt, Some(context)))
    ensures IsInfix(prompt, ConstructPrompt(prompt, Some(context)))
  {
    var r := ConstructPrompt(prompt, Some(context));
    assert OccursAt(context, r, |PromptHead|);
    assert OccursAt(prompt, r, |PromptHead| + |context| + |PromptMid|);
  }

  // ---------------------------------------------------------------------------
  // `_construct_rag_prompt`
  // ---------------------------------------------------------------------------

  /** A conversation-history entry: its `message_type` and `content` keys, either of which may be absent. */
  datatype Message = Message(messageType: Option<string>, content: Option<string>)

  /** How many of the latest messages the prompt keeps. */
  const HistoryWindow: nat := 5

  const SystemPrompt := "\n        You are a helpful university assistant chatbot. Use the provided context documents to answer questions about the university.\n        Always be accurate and helpful. If you cannot find the answer in the provided context, say so clearly.\n        Maintain a friendly and professional tone.\n        "
  const HistoryHeader := "\n\nPrevious conversation:\n"
  const ContextHeader := "\n\nRelevant University Information:\n"

  /** `conversation_history[-5:]`: the last five messages, or all of them when there are fewer. */
  function RecentMessages(history: seq<Message>): (recent: seq<Message>)
    ensures |recent| == if |history| < HistoryWindow then |history| else HistoryWindow
    ensures recent == history[|history| - |recent|..]
  {
    if |history| <= HistoryWindow then history else history[|history| - HistoryWindow..]
  }

  /** The role shown for a message: its `message_type`, `'user'` when absent. */
  function RoleOf(m: Message): string {
    m.messageType.GetOr("user")
  }

  /** `f"{role.capitalize()}: {content}\n"`: one line, as long as the role, ": " and the content, ending in a line break. */
  function HistoryLine(m: Message): (line: string)
    ensures |line| == |RoleOf(m)| + 2 + |m.content.GetOr("")| + 1
    ensures line[|line| - 1] == '\n'
  {
    Capitalize(RoleOf(m)) + ": " + m.content.GetOr("") + "\n"
  }

  /** A history line is the capitalised role, ": ", the content, and a line break. */
  lemma HistoryLineShape(m: Message)
    ensures var line := HistoryLine(m);
            var role := RoleOf(m);
            var content := m.content.GetOr("");
            |line| == |role| + 2 + |content| + 1 &&
            line[..|role|] == Capitalize(role) &&
            line[|role|..|role| + 2] == ": " &&
            line[|role| + 2..|line| - 1] == content &&
            line[|line| - 1] == '\n'
  {
    var role := Capitalize(RoleOf(m));
    var line := HistoryLine(m);
    assert line[..|role|] == role;
  }

  /** A message without a `message_type` is shown as the user's, without a `content` as empty. */
  lemma DefaultHistoryLine()
    ensures HistoryLine(Message(None, None)) == "User: \n"
  {
    assert Capitalize("user") == "User";
  }

  /** The lines of the given messages, in order. */
  function HistoryLines(messages: seq<Message>): (lines: seq<string>)
    ensures |lines| == |messages|
    ensures forall i :: 0 <= i < |messages| ==> lines[i] == HistoryLine(messages[i])
  {
    seq(|messages|, i requires 0 <= i < |messages| => HistoryLine(messages[i]))
  }

  /** `history_text`: empty without history; otherwise the header and the recent messages' lines. */
  function HistoryText(history: Option<seq<Message>>): (text: string)
    ensures history.None? || history.value == [] ==> text == ""
  {
    if history.Some? && history.value != [] then HistoryHeader + Join(HistoryLines(RecentMessages(history.value)))
    else ""
  }

  /** The block of the `k`-th context document (counting from 1). */
  function DocumentBlock(k: nat, doc: string): string {
    "\n[Document " + NatToString(k) + "]:\n" + doc + "\n"
  }

  /** The blocks of the documents, numbered 1, 2, … in list order. */
  function DocumentBlocks(docs: seq<string>): (blocks: seq<string>)
    ensures |blocks| == |docs|
    ensures forall i :: 0 <= i < |docs| ==> blocks[i] == DocumentBlock(i + 1, docs[i])
  {
    seq(|docs|, i requires 0 <= i < |docs| => DocumentBlock(i + 1, docs[i]))
  }

  /** `context_text`: the header and the numbered documents. */
  function ContextText(docs: seq<string>): string {
    ContextHeader + Join(DocumentBlocks(docs))
  }

  const Indent := "\n        "
  const QuestionLabel := "\n        \n        Current Question: "
  const ResponseTrailer := "\n        \n        Response:\n        "

  /**
   * `_construct_rag_prompt(query, context_documents, conversation_history)`:
   * the system prompt, the history, the context and the labelled question,
   * which comes last, right before the closing "Response:" line.
   */
  function RagPrompt(query: string, docs: seq<string>, history: Option<seq<Message>>): (prompt: string)
    ensures |prompt| >= |query| + |ResponseTrailer|
    ensures OccursAt(query, prompt, |prompt| - |ResponseTrailer| - |query|)
    ensures prompt[|prompt| - |ResponseTrailer|..] == ResponseTrailer
  {
    var before := Indent + SystemPrompt + Indent + HistoryText(history) + Indent + ContextText(docs) + QuestionLabel;
    Framed(before, query, ResponseTrailer);
    before + query + ResponseTrailer
  }

  /**
   * History order: the line of the `i`-th recent message follows the lines
   * of the recent messages before it, so the lines keep the messages' order.
   */
  lemma HistoryLineAt(history: seq<Message>, i: nat)
    requires history != [] && i < |RecentMessages(history)|
    ensures var recent := RecentMessages(history);
            var before := HistoryHeader + Join(HistoryLines(recent)[..i]);
            OccursAt(HistoryLine(recent[i]), HistoryText(Some(history)), |before|)
  {
    JoinAtAfter(HistoryHeader, HistoryLines(RecentMessages(history)), i);
  }

  /**
   * Document numbering: the `i`-th document (from 0) appears in the context
   * text labelled `[Document i+1]`, followed by its full text.
   */
  lemma DocumentNumbered(docs: seq<string>, i: nat)
    requires i < |docs|
    ensures IsInfix(DocumentBlock(i + 1, docs[i]), ContextText(docs))
  {
    var blocks := DocumentBlocks(docs);
    JoinAt(blocks, i);
    InfixOfConcat(blocks[i], ContextHeader, Join(blocks));
  }

  /** Every context document's numbered block, and so its text, is part of the retrieval prompt. */
  lemma DocumentInRagPrompt(query: string, docs: seq<string>, history: Option<seq<Message>>, i: nat)
    requires i < |docs|
    ensures IsInfix(DocumentBlock(i + 1, docs[i]), RagPrompt(query, docs, history))
  {
    var b := DocumentBlock(i + 1, docs[i]);
    var before := Indent + SystemPrompt + Indent + HistoryText(history) + Indent;
    var context := ContextText(docs);
    DocumentNumbered(docs, i);
    InfixOfConcat(b, before, context);
    InfixOfConcat(b, before + context, QuestionLabel);
    InfixOfConcat(b, before + context + QuestionLabel, query);
    InfixOfConcat(b, before + context + QuestionLabel + query, ResponseTrailer);
  }

  /** The question itself is part of the retrieval prompt. */
  lemma QueryInRagPrompt(query: string, docs: seq<string>, history: Option<seq<Message>>)
    ensures IsInfix(query, RagPrompt(query, docs, history))
  {
    var before := Indent + SystemPrompt + Indent + HistoryText(history) + Indent + ContextText(docs) + QuestionLabel;
    assert OccursAt(query, query, 0);
    InfixOfConcat(query, before, query);
    InfixOfConcat(query, before + query, ResponseTrailer);
  }

  /**
   * The history loop: each recent message's line, in order, after the
   * header. Nothing is added without history.
   */
  method BuildHistoryText(history: Option<seq<Message>>) returns (historyText: string)
    ensures historyText == HistoryText(history)
  {
    historyText := "";
    if history.Some? && history.value != [] {
      historyText := HistoryHeader;
      var recent := RecentMessages(history.value);
      ghost var lines := HistoryLines(recent);
      for i := 0 to |recent|
        invariant historyText == HistoryHeader + Join(lines[..i])
      {
        var line := HistoryLine(recent[i]);
        assert line == lines[i];
        JoinSnoc(lines, i);
        ConcatAssoc(HistoryHeader, Join(lines[..i]), line);
        historyText := historyText + line;
      }
      assert lines[..|recent|] == lines;
    }
  }

  /** The context loop: `[Document k]` blocks for k = 1, 2, … after the header. */
  method BuildContextText(docs: seq<string>) returns (contextText: string)
    ensures contextText == ContextText(docs)
  {
    contextText := ContextHeader;
    ghost var blocks := DocumentBlocks(docs);
    for i := 0 to |docs|
      invariant contextText == ContextHeader + Join(blocks[..i])
    {
      var block := DocumentBlock(i + 1, docs[i]);
      assert block == blocks[i];
      JoinSnoc(blocks, i);
      ConcatAssoc(ContextHeader, Join(blocks[..i]), block);
      contextText := contextText + block;
    }
    assert blocks[..|docs|] == blocks;
  }

  /** `_construct_rag_prompt`: the history and context loops, then the final template. */
  method ConstructRagPrompt(query: string, contextDocuments: seq<string>, conversationHistory: Option<seq<Message>>)
    returns (finalPrompt: string)
    ensures finalPrompt == RagPrompt(query, contextDocuments, conversationHistory)
  {
    var historyText := BuildHistoryText(conversationHistory);
    var contextText := BuildContextText(contextDocuments);
    finalPrompt := Indent + SystemPrompt + Indent + historyText + Indent + contextText +
                   QuestionLabel + query + ResponseTrailer;
  }

  // ---------------------------------------------------------------------------
  // `_keyword_based_intent_analysis`
  // ---------------------------------------------------------------------------

  const ApplicationKeywords: seq<string> :=
    ["apply", "application", "enroll", "enrollment", "admission",
     "register", "registration", "join", "enter", "study at"]

  const NoKeywordsReasoning := "No application keywords found"
  const KeywordsReasoningPrefix := "Keyword-based analysis found: "

  /** The result dictionary of the intent analysis. */
  datatype IntentAnalysis = IntentAnalysis(hasApplicationIntent: bool, confidence: real, reasoning: string)

  /** `a` is `b` with some elements left out, the rest kept in order. */
  ghost predicate IsSubsequence<T>(a: seq<T>, b: seq<T>)
    decreases |b|
  {
    a == [] || (b != [] && ((a[0] == b[0] && IsSubsequence(a[1..], b[1..])) || IsSubsequence(a, b[1..])))
  }

  /**
   * `[k for k in keywords if k in text]`: exactly the keywords that occur in
   * the text, in keyword-list order.
   */
  function MatchedKeywords(keywords: seq<string>, text: string): (ms: seq<string>)
    ensures forall k :: k in ms <==> k in keywords && IsInfix(k, text)
    ensures IsSubsequence(ms, keywords)
  {
    if keywords == [] then []
    else
      var rest := MatchedKeywords(keywords[1..], text);
      if Contains(text, keywords[0]) then [keywords[0]] + rest else rest
  }

  function MinReal(a: real, b: real): real {
    if a <= b then a else b
  }

  /**
   * `_keyword_based_intent_analysis`: intent exactly when some keyword occurs
   * in the lower-cased message, confidence `min(0.8, 0.3 * matches)`, and the
   * "no keywords" reasoning exactly when nothing matched.
   */
  function KeywordBasedIntentAnalysis(message: string): (r: IntentAnalysis)
    ensures r.hasApplicationIntent <==> exists k :: k in ApplicationKeywords && IsInfix(k, Lower(message))
    ensures 0.0 <= r.confidence <= 0.8
    ensures r.confidence == 0.0 <==> !r.hasApplicationIntent
    ensures r.reasoning == NoKeywordsReasoning <==> !r.hasApplicationIntent
  {
    var messageLower := Lower(message);
    var matches := MatchedKeywords(ApplicationKeywords, messageLower);
    var hasIntent := |matches| > 0;
    var confidence := MinReal(0.8, 0.3 * |matches| as real);
    var reasoning := if matches != [] then KeywordsReasoningPrefix + ListRepr(matches) else NoKeywordsReasoning;
    assert matches != [] ==> reasoning[0] == 'K';
    if hasIntent then
      assert matches[0] in matches;
      IntentAnalysis(hasIntent, confidence, reasoning)
    else
      IntentAnalysis(hasIntent, confidence, reasoning)
  }

  /** Three or more matched keywords saturate the confidence at 0.8; one or two give 0.3 or 0.6. */
  lemma ConfidenceSteps(message: string)
    ensures var n := |MatchedKeywords(ApplicationKeywords, Lower(message))|;
            var c := KeywordBasedIntentAnalysis(message).confidence;
            (n == 1 ==> c == 0.3) && (n == 2 ==> c == 0.6) && (n >= 3 ==> c == 0.8)
  {
    var n := |MatchedKeywords(ApplicationKeywords, Lower(message))|;
    if n >= 3 {
      assert 0.3 * n as real >= 0.9;
    }
  }

  /** A one-word message naming a keyword: one match, confidence 0.3, and the match listed in the reasoning. */
  lemma IntentExample()
    ensures KeywordBasedIntentAnalysis("Apply") ==
            IntentAnalysis(true, 0.3, "Keyword-based analysis found: ['apply']")
  {
    ApplyMatches();
    SingletonListRepr("apply");
    ReasoningText();
  }

  lemma ApplyMatches()
    ensures MatchedKeywords(ApplicationKeywords, Lower("Apply")) == ["apply"]
  {
    var kws := ApplicationKeywords;
    ApplyLower();
    ApplyScan();
    ApplyMissesTail();
    assert MatchedKeywords(kws[4..], "apply") == [];
    assert MatchedKeywords(kws[3..], "apply") == [];
    assert MatchedKeywords(kws[2..], "apply") == [];
    assert MatchedKeywords(kws[1..], "apply") == [];
    assert MatchedKeywords(kws, "apply") == [kws[0]] + MatchedKeywords(kws[1..], "apply");
  }

  /** None of the last five keywords occurs in "apply". */
  lemma ApplyMissesTail()
    ensures MatchedKeywords(ApplicationKeywords[5..], "apply") == []
  {
    var kws := ApplicationKeywords;
    ApplyScan();
    assert MatchedKeywords(kws[9..], "apply") == [];
    assert MatchedKeywords(kws[8..], "apply") == [];
    assert MatchedKeywords(kws[7..], "apply") == [];
    assert MatchedKeywords(kws[6..], "apply") == [];
  }

  lemma ApplyLower()
    ensures Lower("Apply") == "apply"
  {
  }

  lemma ApplyScan()
    ensures Contains("apply", "apply")
    ensures !Contains("apply", "join") && !Contains("apply", "enter")
  {
    assert "apply"[..5] == "apply";
    assert "apply"[..4][0] != "join"[0] && "pply"[0] != "join"[0];
    assert "apply"[1..] == "pply" && !Contains("ply", "join");
    assert "apply"[..5][0] != "enter"[0];
  }

  lemma ReasoningText()
    ensures KeywordsReasoningPrefix + ("['" + "apply" + "']") == "Keyword-based analysis found: ['apply']"
  {
  }

  /** A message with no keyword: no intent, confidence 0 and the fixed reasoning. */
  lemma NoIntentExample()
    ensures KeywordBasedIntentAnalysis("Hi") == IntentAnalysis(false, 0.0, NoKeywordsReasoning)
  {
    assert MatchedKeywords(ApplicationKeywords, Lower("Hi")) == [];
  }
}
