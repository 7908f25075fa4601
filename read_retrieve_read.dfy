/**
 * The text handling of the read-retrieve-read chat approach: the search
 * filter that excludes a category, the result lines built from the search
 * documents, newline stripping, and the conversation history rendered as
 * chat-markup text under a length budget. The search and completion calls
 * themselves are outside the model.
 */
module ReadRetrieveRead {
  import opened Wrappers
  import opened PyText
  import opened Models

  // ---------------------------------------------------------------------
  // nonewlines (lines 146-148)
  // ---------------------------------------------------------------------

  /** s.replace("\n", " ").replace("\r", " "). */
  function NoNewlines(s: string): (r: string)
    ensures |r| == |s| && '\n' !in r && '\r' !in r
    ensures forall i :: 0 <= i < |s| ==> r[i] == (if s[i] == '\n' || s[i] == '\r' then ' ' else s[i])
  {
    ReplaceChar(ReplaceChar(s, '\n', ' '), '\r', ' ')
  }

  /** Stripping newlines twice is stripping them once. */
  lemma NoNewlinesIdempotent(s: string)
    ensures NoNewlines(NoNewlines(s)) == NoNewlines(s)
  {
  }

  // ---------------------------------------------------------------------
  // The category filter (lines 66-70)
  // ---------------------------------------------------------------------

  /** s.replace("'", "''"): the quoting of a string literal in an OData filter. */
  function DoubleQuotes(s: string): (r: string)
    ensures |r| >= |s|
    decreases |s|
  {
    if s == [] then [] else (if s[0] == '\'' then "''" else [s[0]]) + DoubleQuotes(s[1..])
  }

  /** The body of an OData string literal: every quote is one of a doubled pair. */
  predicate QuotesPaired(t: string)
    decreases |t|
  {
    || t == []
    || (t[0] != '\'' && QuotesPaired(t[1..]))
    || (|t| >= 2 && t[0] == '\'' && t[1] == '\'' && QuotesPaired(t[2..]))
  }

  /** The value a literal body stands for: each doubled quote read as one. */
  function Undouble(t: string): string
    decreases |t|
  {
    if t == [] then []
    else if |t| >= 2 && t[0] == '\'' && t[1] == '\'' then "'" + Undouble(t[2..])
    else [t[0]] + Undouble(t[1..])
  }

  /** Doubling yields a well-formed literal body, and reading it back gives the value. */
  lemma {:induction false} DoubleQuotesRoundTrip(s: string)
    ensures QuotesPaired(DoubleQuotes(s)) && Undouble(DoubleQuotes(s)) == s
    decreases |s|
  {
    if s != [] {
      DoubleQuotesRoundTrip(s[1..]);
      var d := DoubleQuotes(s);
      if s[0] == '\'' {
        assert d[2..] == DoubleQuotes(s[1..]);
      } else {
        assert d[1..] == DoubleQuotes(s[1..]);
      }
    }
  }

  /** Every well-formed literal body is the doubling of the value it stands for. */
  lemma {:induction false} UndoubleRoundTrip(t: string)
    requires QuotesPaired(t)
    ensures DoubleQuotes(Undouble(t)) == t
    decreases |t|
  {
    if t != [] {
      if |t| >= 2 && t[0] == '\'' && t[1] == '\'' {
        UndoubleRoundTrip(t[2..]);
        var u := Undouble(t);
        assert u[1..] == Undouble(t[2..]);
        assert t == "''" + t[2..];
      } else {
        UndoubleRoundTrip(t[1..]);
        var u := Undouble(t);
        assert u[1..] == Undouble(t[1..]);
        assert t == [t[0]] + t[1..];
      }
    }
  }

  const FILTER_HEAD: string := "category ne '"

  /** No filter for a missing or empty category, else one that excludes it. */
  function SearchFilter(excludeCategory: Option<string>): (f: Option<string>)
    ensures f.None? <==> excludeCategory.None? || excludeCategory.value == ""
  {
    if excludeCategory.Some? && excludeCategory.value != "" then
      Some(FILTER_HEAD + DoubleQuotes(excludeCategory.value) + "'")
    else None
  }

  /** The filter for a category is one comparison with a literal that reads back as the category. */
  lemma SearchFilterParses(category: string)
    requires category != ""
    ensures var f := SearchFilter(Some(category)).value;
      && |f| > |FILTER_HEAD|
      && f[..|FILTER_HEAD|] == FILTER_HEAD && f[|f| - 1] == '\''
      && QuotesPaired(f[|FILTER_HEAD|..|f| - 1])
      && Undouble(f[|FILTER_HEAD|..|f| - 1]) == category
  {
    var body := DoubleQuotes(category);
    Parts(FILTER_HEAD, "", body, "'");
    DoubleQuotesRoundTrip(category);
  }

  /** Different categories give different filters. */
  lemma SearchFilterInjective(a: string, b: string)
    requires a != "" && b != "" && SearchFilter(Some(a)) == SearchFilter(Some(b))
    ensures a == b
  {
    SearchFilterParses(a);
    SearchFilterParses(b);
  }

  // ---------------------------------------------------------------------
  // Result lines (lines 86-101)
  // ---------------------------------------------------------------------

  /** The fields of a search document the approach reads. */
  datatype SearchDoc = SearchDoc(sourcepage: string, content: string, captions: seq<string>)

  /** The captions joined with " . " under semantic captions, else the content field. */
  function ResultText(doc: SearchDoc, semanticCaptions: bool): string
  {
    if semanticCaptions then Join(doc.captions, " . ") else doc.content
  }

  function ResultLine(doc: SearchDoc, semanticCaptions: bool): string
  {
    doc.sourcepage + ": " + NoNewlines(ResultText(doc, semanticCaptions))
  }

  /** One line per document, in the order the search returned them. */
  function ResultLines(docs: seq<SearchDoc>, semanticCaptions: bool): (lines: seq<string>)
    ensures |lines| == |docs|
    ensures forall i :: 0 <= i < |docs| ==> lines[i] == ResultLine(docs[i], semanticCaptions)
  {
    seq(|docs|, i requires 0 <= i < |docs| => ResultLine(docs[i], semanticCaptions))
  }

  /**
   * A result line is the document's source page, ": ", then its text with
   * newlines blanked; it holds a newline only if the source page does.
   */
  lemma ResultLineShape(doc: SearchDoc, semanticCaptions: bool)
    ensures var line, n := ResultLine(doc, semanticCaptions), |doc.sourcepage| + 2;
      && |line| == n + |ResultText(doc, semanticCaptions)|
      && line[..n] == doc.sourcepage + ": "
      && line[n..] == NoNewlines(ResultText(doc, semanticCaptions))
      && ('\n' in line ==> '\n' in doc.sourcepage)
  {
    var line := ResultLine(doc, semanticCaptions);
    Parts(doc.sourcepage, ": ", NoNewlines(ResultText(doc, semanticCaptions)), "");
    if '\n' in line {
      var k :| 0 <= k < |line| && line[k] == '\n';
      assert k < |doc.sourcepage| && doc.sourcepage[k] == '\n';
    }
  }

  // ---------------------------------------------------------------------
  // The history as text (lines 121-144)
  // ---------------------------------------------------------------------

  /** `if hist.bot`: a present, non-empty reply. */
  predicate Answered(h: ChatHistory)
  {
    h.bot.Some? && h.bot.value != ""
  }

  const USER_HEAD: string := "<|im_start|>user" + "\n"
  const ASSISTANT_HEAD: string := "\n" + "<|im_end|>" + "\n" + "<|im_start|>assistant" + "\n"

  /** Lines 129-140: the chat markup of one turn. */
  function TurnBlock(h: ChatHistory): string
  {
    "<|im_start|>user" + "\n" + h.user + "\n" + "<|im_end|>" + "\n" + "<|im_start|>assistant" + "\n"
      + (if Answered(h) then h.bot.value + "<|im_end|>" else "") + "\n"
  }

  /**
   * A turn block is the user head, the question, the assistant head, the
   * reply and its end marker only when the turn was answered, and a newline.
   */
  lemma TurnBlockShape(h: ChatHistory)
    ensures var reply := if Answered(h) then h.bot.value + "<|im_end|>" else "";
      TurnBlock(h) == USER_HEAD + h.user + ASSISTANT_HEAD + reply + "\n"
    ensures var b, n := TurnBlock(h), |USER_HEAD| + |h.user| + |ASSISTANT_HEAD|;
      && |b| >= n + 1
      && b[..|USER_HEAD|] == USER_HEAD
      && b[|USER_HEAD|..|USER_HEAD| + |h.user|] == h.user
      && (Answered(h) ==> b[n..] == h.bot.value + "<|im_end|>" + "\n")
      && (!Answered(h) ==> b[n..] == "\n")
  {
    var reply := if Answered(h) then h.bot.value + "<|im_end|>" else "";
    var b := TurnBlock(h);
    assert b == USER_HEAD + h.user + ASSISTANT_HEAD + (reply + "\n");
    Parts(USER_HEAD, h.user, ASSISTANT_HEAD, reply + "\n");
  }

  /** f(s[0]) + f(s[1]) + ...: the texts of the items, in order. */
  function ConcatMap<T>(f: T -> string, s: seq<T>): string
    decreases |s|
  {
    if s == [] then "" else f(s[0]) + ConcatMap(f, s[1..])
  }

  lemma {:induction false} ConcatMapAppend<T>(f: T -> string, a: seq<T>, b: seq<T>)
    ensures ConcatMap(f, a + b) == ConcatMap(f, a) + ConcatMap(f, b)
    decreases |a|
  {
    if a == [] {
      assert a + b == b;
    } else {
      ConcatMapAppend(f, a[1..], b);
      assert (a + b)[0] == a[0] && (a + b)[1..] == a[1..] + b;
    }
  }

  /** The blocks of the turns, oldest first. */
  function HistoryText(turns: seq<ChatHistory>): string
  {
    ConcatMap(TurnBlock, turns)
  }

  /** The text of consecutive stretches of turns is the concatenation of their texts. */
  lemma HistoryTextAppend(a: seq<ChatHistory>, b: seq<ChatHistory>)
    ensures HistoryText(a + b) == HistoryText(a) + HistoryText(b)
  {
    ConcatMapAppend(TurnBlock, a, b);
  }

  /** The turns the text is built from: all, or all but the last (`history[:-1]`). */
  function Considered(history: seq<ChatHistory>, includeLastTurn: bool): seq<ChatHistory>
  {
    if includeLastTurn || history == [] then history else history[..|history| - 1]
  }

  /** The last `k` turns. */
  function Last(turns: seq<ChatHistory>, k: nat): seq<ChatHistory>
    requires k <= |turns|
  {
    turns[|turns| - k..]
  }

  /** How many of the latest turns the loop keeps, once `i` of them fitted. */
  function KeptFrom(turns: seq<ChatHistory>, limit: int, i: nat): nat
    requires i <= |turns|
    decreases |turns| - i
  {
    if i == |turns| then i
    else if |HistoryText(Last(turns, i + 1))| > limit then i + 1
    else KeptFrom(turns, limit, i + 1)
  }

  function KeptCount(turns: seq<ChatHistory>, limit: int): nat
  {
    KeptFrom(turns, limit, 0)
  }

  /** The text get_chat_history_as_text returns. */
  function HistoryAsText(history: seq<ChatHistory>, includeLastTurn: bool, approxMaxTokens: int): string
  {
    var turns := Considered(history, includeLastTurn);
    var k := KeptFrom(turns, approxMaxTokens * 4, 0);
    KeptFromBound(turns, approxMaxTokens * 4, 0);
    HistoryText(Last(turns, k))
  }

  lemma {:induction false} KeptFromBound(turns: seq<ChatHistory>, limit: int, i: nat)
    requires i <= |turns|
    ensures i <= KeptFrom(turns, limit, i) <= |turns|
    ensures i < |turns| ==> i < KeptFrom(turns, limit, i)
    decreases |turns| - i
  {
    if i < |turns| && |HistoryText(Last(turns, i + 1))| <= limit {
      KeptFromBound(turns, limit, i + 1);
    }
  }

  /** KeptFrom stops at the first count past `i` whose text exceeds the limit, or at all turns. */
  lemma {:induction false} KeptFromSpec(turns: seq<ChatHistory>, limit: int, i: nat)
    requires i <= |turns|
    ensures var k := KeptFrom(turns, limit, i);
      && i <= k <= |turns|
      && (k == |turns| || |HistoryText(Last(turns, k))| > limit)
      && forall j :: i < j < k ==> |HistoryText(Last(turns, j))| <= limit
    decreases |turns| - i
  {
    KeptFromBound(turns, limit, i);
    if i < |turns| && |HistoryText(Last(turns, i + 1))| <= limit {
      KeptFromSpec(turns, limit, i + 1);
    }
  }

  /**
   * The kept count is every considered turn, or the smallest count whose
   * text exceeds the budget: every shorter stretch of latest turns fits.
   */
  lemma KeptCountMinimal(turns: seq<ChatHistory>, limit: int)
    ensures var k := KeptCount(turns, limit);
      && k <= |turns| && (turns != [] ==> k >= 1)
      && (k == |turns| || |HistoryText(Last(turns, k))| > limit)
      && forall j :: 0 < j < k ==> |HistoryText(Last(turns, j))| <= limit
  {
    KeptFromSpec(turns, limit, 0);
    KeptFromBound(turns, limit, 0);
  }

  /**
   * The result is the blocks of the latest turns considered, oldest first;
   * the last turn is left out when asked; no turns give the empty text.
   */
  lemma HistoryAsTextShape(history: seq<ChatHistory>, includeLastTurn: bool, approxMaxTokens: int)
    ensures var turns := Considered(history, includeLastTurn);
      && (includeLastTurn ==> turns == history)
      && (!includeLastTurn && history != [] ==> turns == history[..|history| - 1])
      && KeptCount(turns, approxMaxTokens * 4) <= |turns|
      && HistoryAsText(history, includeLastTurn, approxMaxTokens) == HistoryText(Last(turns, KeptCount(turns, approxMaxTokens * 4)))
    ensures history == [] ==> HistoryAsText(history, includeLastTurn, approxMaxTokens) == ""
  {
    var turns := Considered(history, includeLastTurn);
    var k := KeptFrom(turns, approxMaxTokens * 4, 0);
    KeptFromBound(turns, approxMaxTokens * 4, 0);
    assert HistoryAsText(history, includeLastTurn, approxMaxTokens) == HistoryText(Last(turns, k));
  }

  lemma HistoryTextPrepend(turns: seq<ChatHistory>, i: nat)
    requires i < |turns|
    ensures HistoryText(Last(turns, i + 1)) == TurnBlock(turns[|turns| - 1 - i]) + HistoryText(Last(turns, i))
  {
    assert Last(turns, i + 1)[1..] == Last(turns, i);
  }

  /** Lines 121-144. */
  method GetChatHistoryAsText(history: seq<ChatHistory>, includeLastTurn: bool, approxMaxTokens: int)
    returns (historyText: string)
    ensures historyText == HistoryAsText(history, includeLastTurn, approxMaxTokens)
  {
    var turns := if includeLastTurn || history == [] then history else history[..|history| - 1];
    var limit := approxMaxTokens * 4;
    historyText := "";
    var i := 0;
    while i < |turns|
      invariant 0 <= i <= |turns|
      invariant historyText == HistoryText(Last(turns, i))
      invariant KeptFrom(turns, limit, i) == KeptCount(turns, limit)
    {
      var hist := turns[|turns| - 1 - i];
      HistoryTextPrepend(turns, i);
      historyText := TurnBlock(hist) + historyText;
      i := i + 1;
      if |historyText| > limit {
        break;
      }
    }
  }
}
