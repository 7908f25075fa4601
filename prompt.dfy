/**
 * The prompts the chat approach sends: the query-generation prompt with the
 * history and the question filled in, the fixed follow-up-questions
 * instruction, and the chat message list (a system message with the
 * sources, a fixed assistant message, then one user and one assistant
 * message per turn).
 */
module Prompt {
  import opened Wrappers
  import opened PyText
  import opened Models

  /** A template with two fields filled in splits back into its five parts. */
  lemma Fill2Fields(head: string, a: string, middle: string, b: string, tail: string)
    ensures var p, h, m := head + a + middle + b + tail, |head|, |head| + |a| + |middle|;
      && |p| == m + |b| + |tail|
      && p[..h] == head
      && p[h..h + |a|] == a
      && p[h + |a|..m] == middle
      && p[m..m + |b|] == b
      && p[m + |b|..] == tail
  {
    var p := head + a + middle + b + tail;
    Parts(head + a, middle, b, tail);
    Parts(head, "", a, middle + b + tail);
    assert p == head + a + (middle + b + tail);
    assert p[|head| + |a|..|head| + |a| + |middle|] == (middle + b + tail)[..|middle|];
  }

  // ---------------------------------------------------------------------
  // GPTPrompt (lines 4-21)
  // ---------------------------------------------------------------------

  /** The query template up to `{chat_history}`. */
  const QUERY_HEAD: string :=
    "\n"
    + "        Below is a history of the conversation so far, and a new question asked by the user that needs to be answered by searching in a knowledge base about a companies internal documents.\n"
    + "        Generate a search query based on the conversation and the new question. \n"
    + "        Do not include cited source filenames and document names e.g info.txt or doc.pdf in the search query terms.\n"
    + "        Do not include any text inside [] or <<>> in the search query terms.\n"
    + "        If the question is not in English, translate the question to English before generating the search query.\n"
    + "\n"
    + "        Chat History:\n"
    + "        "

  /** The query template between `{chat_history}` and `{question}`. */
  const QUERY_MIDDLE: string :=
    "\n"
    + "\n"
    + "        Question:\n"
    + "        "

  /** The query template after `{question}`. */
  const QUERY_TAIL: string :=
    "\n"
    + "\n"
    + "        Search query:\n"
    + "        "

  /** The template with the history and the question substituted (str.format substitutes once). */
  function GPTPrompt(history: string, question: string): string
  {
    QUERY_HEAD + history + QUERY_MIDDLE + question + QUERY_TAIL
  }

  /** The filled-in fields can be cut back out: the history, then the question, between the fixed parts. */
  lemma GPTPromptFields(history: string, question: string)
    ensures var p, h, m := GPTPrompt(history, question), |QUERY_HEAD|, |QUERY_HEAD| + |history| + |QUERY_MIDDLE|;
      && |p| == m + |question| + |QUERY_TAIL|
      && p[..h] == QUERY_HEAD
      && p[h..h + |history|] == history
      && p[h + |history|..m] == QUERY_MIDDLE
      && p[m..m + |question|] == question
      && p[m + |question|..] == QUERY_TAIL
  {
    Fill2Fields(QUERY_HEAD, history, QUERY_MIDDLE, question, QUERY_TAIL);
  }

  /** Prompts that agree, with histories of one length, come from the same history and question. */
  lemma GPTPromptInjective(h1: string, q1: string, h2: string, q2: string)
    requires |h1| == |h2| && GPTPrompt(h1, q1) == GPTPrompt(h2, q2)
    ensures h1 == h2 && q1 == q2
  {
    GPTPromptFields(h1, q1);
    GPTPromptFields(h2, q2);
  }

  // ---------------------------------------------------------------------
  // FollowUpQuestionsPrompt (lines 24-32)
  // ---------------------------------------------------------------------

  /** The follow-up-questions instruction, the same on every call. */
  const FOLLOW_UP_QUESTIONS: string :=
    "\n"
    + "            Generate three very brief follow-up questions that the user would likely ask next about their companies internal document. \n"
    + "            Use double angle brackets to reference the questions, e.g. <<Are there exclusions for aws tags?>>.\n"
    + "            Try not to repeat questions that have already been asked.\n"
    + "            Only generate questions and do not generate any text before or after the questions, such as 'Next Questions'\n"
    + "        "

  /**
   * The instruction the chat prompt gets (readretrieveread.py, lines 42-44):
   * the follow-up text when suggestions are asked for, else nothing.
   */
  function FollowUpQuestions(suggest: bool): (r: string)
    ensures r != "" <==> suggest
    ensures suggest ==> r == FOLLOW_UP_QUESTIONS
  {
    if suggest then FOLLOW_UP_QUESTIONS else ""
  }

  // ---------------------------------------------------------------------
  // ChatGPTPrompt (lines 35-67)
  // ---------------------------------------------------------------------

  /** The system message up to `{followup_questions}`. */
  const SYSTEM_HEAD: string :=
    "\n"
    + "            Assistant helps the company employees with questions regarding company documents. Be brief in your answers.\n"
    + "            Answer ONLY with the facts listed in the list of sources below. If there isn't enough information below, say you don't know. Do not generate answers that don't use the sources below. If asking a clarifying question to the user would help, ask the question.\n"
    + "            For tabular information return it as an html table. Do not return markdown format.\n"
    + "            Each source has a name followed by colon and the actual information, always include the source name for each fact you use in the response. Use square brakets to reference the source, e.g. [info1.txt]. Don't combine sources, list each source separately, e.g. [info1.txt][info2.pdf].\n"
    + "            "

  /** The system message between `{followup_questions}` and `{sources}`. */
  const SYSTEM_MIDDLE: string :=
    "\n"
    + "            Sources:\n"
    + "            "

  /** The system message after `{sources}`. */
  const SYSTEM_TAIL: string :=
    "\n"
    + "        "

  function SystemContent(sources: string, followupQuestions: string): string
  {
    SYSTEM_HEAD + followupQuestions + SYSTEM_MIDDLE + sources + SYSTEM_TAIL
  }

  /** The follow-up instruction and the sources sit at fixed places in the system message. */
  lemma SystemContentFields(sources: string, followupQuestions: string)
    ensures var c, h, m := SystemContent(sources, followupQuestions), |SYSTEM_HEAD|, |SYSTEM_HEAD| + |followupQuestions| + |SYSTEM_MIDDLE|;
      && |c| == m + |sources| + |SYSTEM_TAIL|
      && c[h..h + |followupQuestions|] == followupQuestions
      && c[m..m + |sources|] == sources
  {
    Fill2Fields(SYSTEM_HEAD, followupQuestions, SYSTEM_MIDDLE, sources, SYSTEM_TAIL);
  }

  function SystemMessage(sources: string, followupQuestions: string): MessagePrompt
  {
    MessagePrompt(System, Some(SystemContent(sources, followupQuestions)), "system")
  }

  const GREETING: MessagePrompt := MessagePrompt(Assistant, Some("Remember your name is Athena"), "athena")

  function UserMessage(h: ChatHistory): MessagePrompt
  {
    MessagePrompt(User, Some(h.user), "employee")
  }

  /** The reply of a turn, or the empty text for a turn not answered yet. */
  function BotMessage(h: ChatHistory): MessagePrompt
  {
    MessagePrompt(Assistant, Some(if h.bot.Some? then h.bot.value else ""), "athena")
  }

  /** Two messages per turn, in the order of the turns. */
  function HistoryMessages(history: seq<ChatHistory>): (ms: seq<MessagePrompt>)
    ensures |ms| == 2 * |history|
  {
    if history == [] then []
    else
      var n := |history| - 1;
      HistoryMessages(history[..n]) + [UserMessage(history[n]), BotMessage(history[n])]
  }

  /** The message list ChatGPTPrompt returns. */
  function PromptMessages(sources: string, history: seq<ChatHistory>, followupQuestions: string): seq<MessagePrompt>
  {
    [SystemMessage(sources, followupQuestions), GREETING] + HistoryMessages(history)
  }

  lemma {:induction false} HistoryMessagesAt(history: seq<ChatHistory>, k: nat)
    requires k < |history|
    ensures HistoryMessages(history)[2 * k] == UserMessage(history[k])
    ensures HistoryMessages(history)[2 * k + 1] == BotMessage(history[k])
    decreases |history|
  {
    var n := |history| - 1;
    if k < n {
      HistoryMessagesAt(history[..n], k);
    }
  }

  /**
   * The list has 2 + 2 * |history| messages: the system message carrying the
   * sources and the follow-up instruction, the fixed greeting, then for each
   * turn in order its question and its reply.
   */
  lemma PromptMessagesShape(sources: string, history: seq<ChatHistory>, followupQuestions: string)
    ensures var ms := PromptMessages(sources, history, followupQuestions);
      && |ms| == 2 + 2 * |history|
      && ms[0].role == System && ms[0].name == "system" && ms[0].content == Some(SystemContent(sources, followupQuestions))
      && ms[1] == MessagePrompt(Assistant, Some("Remember your name is Athena"), "athena")
      && forall k :: 0 <= k < |history| ==>
           && ms[2 + 2 * k] == MessagePrompt(User, Some(history[k].user), "employee")
           && ms[3 + 2 * k] == MessagePrompt(Assistant, Some(if history[k].bot.Some? then history[k].bot.value else ""), "athena")
  {
    var ms := PromptMessages(sources, history, followupQuestions);
    forall k | 0 <= k < |history|
      ensures ms[2 + 2 * k] == UserMessage(history[k]) && ms[3 + 2 * k] == BotMessage(history[k])
    {
      HistoryMessagesAt(history, k);
    }
  }

  lemma HistoryMessagesSnoc(history: seq<ChatHistory>, i: nat)
    requires i < |history|
    ensures HistoryMessages(history[..i + 1]) == HistoryMessages(history[..i]) + [UserMessage(history[i]), BotMessage(history[i])]
  {
    assert history[..i + 1][..i] == history[..i];
  }

  lemma AppendTwo<T>(a: seq<T>, b: seq<T>, x: T, y: T)
    ensures a + b + [x] + [y] == a + (b + [x, y])
  {
  }

  /** Lines 35-67. */
  method ChatGPTPrompt(sources: string, history: seq<ChatHistory>, followupQuestions: string)
    returns (finalPrompt: seq<MessagePrompt>)
    ensures finalPrompt == PromptMessages(sources, history, followupQuestions)
  {
    var head := [SystemMessage(sources, followupQuestions), GREETING];
    finalPrompt := head;
    for i := 0 to |history|
      invariant finalPrompt == head + HistoryMessages(history[..i])
    {
      var hist := history[i];
      HistoryMessagesSnoc(history, i);
      AppendTwo(head, HistoryMessages(history[..i]), UserMessage(hist), BotMessage(hist));
      finalPrompt := finalPrompt + [UserMessage(hist)];
      finalPrompt := finalPrompt + [BotMessage(hist)];
    }
    assert history[..|history|] == history;
  }
}
