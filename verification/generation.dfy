/**
 * Answer generation (backend/services/qa_service.py, `generate_answer_from_contexts`). The
 * language model is an oracle from the prompt to the decoded text; what is modelled is the
 * prompt assembly and the post-processing of the decoded text.
 */
module Generation {
  import opened PyStr

  /** The fixed refusal the service answers with when it has no grounded answer. */
  const Sentinel: string := "Bu dokümanlarda bu bilgi yer almıyor."

  /** The label that closes the prompt; the answer is what follows its last occurrence. */
  const AnswerLabel: string := "Answer:"

  /** Answers shorter than this are refused. */
  const MinAnswerLength: nat := 10

  /** Publisher and front-matter terms whose presence, in any letter case, refuses an answer. */
  const BannedTerms: seq<string> := ["Packt", "Publishing", "Edition", "Copyright"]

  /** The prompt text before the joined contexts. */
  const PromptHead: string :=
    "\n    You are a document-grounded question answering assistant.\n\n"
    + "    Your task is to answer the question using ONLY the information provided in the document text below.\n"
    + "    You may paraphrase and combine related statements from the document, but you MUST NOT add any new information or external knowledge.\n\n"
    + "    Rules:\n"
    + "    - The answer must be a single, clear, explanatory sentence.\n"
    + "    - Do NOT include book titles, author names, copyright notices, or publication details.\n"
    + "    - Do NOT add examples, explanations, or restate the question.\n"
    + "    - Do NOT mention the document or your reasoning process.\n\n"
    + "    If the document does NOT contain enough information to answer the question, reply EXACTLY with:\n"
    + "    \"" + Sentinel + "\"\n\n"
    + "    Document:\n    "

  /** The prompt text between the contexts and the question. */
  const PromptMiddle: string := "\n\n    Question:\n    "

  /** Whitespace that follows the closing label of the prompt. */
  const PromptPadding: string := "\n    "

  /** The blank line before the closing label. */
  const PromptGap: string := "\n\n    "

  /** A prompt laid out as the service lays it out, after the given instructions: the
      contexts joined by blank lines, the question, then the "Answer:" label the model is to
      continue. */
  function Frame(head: string, question: string, contexts: seq<string>): string {
    head + (Join("\n\n", contexts) + PromptMiddle + question + PromptGap + (AnswerLabel + PromptPadding))
  }

  /** Whatever the instructions, the prompt quotes the joined contexts right after them, then
      the question, and closes with the "Answer:" label. */
  lemma FramePlacement(head: string, question: string, contexts: seq<string>)
    ensures var p := Frame(head, question, contexts);
      && OccursAt(p, |head|, Join("\n\n", contexts))
      && OccursAt(p, |head| + |Join("\n\n", contexts)| + |PromptMiddle|, question)
      && OccursAt(p, |p| - |PromptPadding| - |AnswerLabel|, AnswerLabel)
  {
    var context := Join("\n\n", contexts);
    var rest := context + PromptMiddle + question + PromptGap;
    FourParts(context, PromptMiddle, question, PromptGap);
    Nested(head, rest, 0, context);
    Nested(head, rest, |context| + |PromptMiddle|, question);
    Quoted(head + rest, AnswerLabel + PromptPadding, |head|, context);
    Quoted(head + rest, AnswerLabel + PromptPadding, |head| + |context| + |PromptMiddle|, question);
    Closing(head + rest, AnswerLabel, PromptPadding);
    assert Frame(head, question, contexts) == (head + rest) + (AnswerLabel + PromptPadding);
  }

  /** The grounding prompt. */
  function Prompt(question: string, contexts: seq<string>): string {
    Frame(PromptHead, question, contexts)
  }

  /** Where the first and third parts of a four-part concatenation sit. */
  lemma FourParts(b: string, c: string, d: string, e: string)
    ensures OccursAt(b + c + d + e, 0, b)
    ensures OccursAt(b + c + d + e, |b| + |c|, d)
  {
    var s := b + c + d + e;
    assert s[..|b|] == b;
    assert s[|b| + |c|..|b| + |c| + |d|] == d;
  }

  /** Text quoted in the tail of a string is quoted in the string, shifted by the head. */
  lemma Nested(head: string, rest: string, j: nat, t: string)
    requires OccursAt(rest, j, t)
    ensures OccursAt(head + rest, |head| + j, t)
  {
    assert (head + rest)[|head| + j..|head| + j + |t|] == rest[j..j + |t|];
  }

  /** Text quoted in a string stays quoted when more is appended. */
  lemma Quoted(s: string, more: string, i: nat, t: string)
    requires OccursAt(s, i, t)
    ensures OccursAt(s + more, i, t)
  {
    assert (s + more)[i..i + |t|] == s[i..i + |t|];
  }

  /** A label followed by padding ends the string it closes. */
  lemma Closing(s: string, tag: string, pad: string)
    ensures OccursAt(s + (tag + pad), |s|, tag)
  {
    assert (s + (tag + pad))[|s|..|s| + |tag|] == tag;
  }

  /** The answer cut out of the decoded text: whatever follows the last "Answer:", stripped,
      or the whole text stripped when there is no such label. */
  function ExtractAnswer(decoded: string): (a: string)
    ensures !Contains(a, AnswerLabel)
    ensures !Contains(decoded, AnswerLabel) ==> a == Strip(decoded)
  {
    var piece := SplitLast(decoded, AnswerLabel);
    StripKeepsNoSeparator(piece, AnswerLabel);
    Strip(piece)
  }

  /** The answer is the stripped text after an occurrence of "Answer:" that is followed by no
      other, whenever the decoded text has one. */
  lemma ExtractAnswerFollowsLastLabel(decoded: string)
    requires Contains(decoded, AnswerLabel)
    ensures exists k: nat ::
      && k + |AnswerLabel| <= |decoded|
      && OccursAt(decoded, k, AnswerLabel)
      && ExtractAnswer(decoded) == Strip(decoded[k + |AnswerLabel|..])
      && !Contains(decoded[k + |AnswerLabel|..], AnswerLabel)
  {
    var piece := SplitLast(decoded, AnswerLabel);
    var k := |decoded| - |piece| - |AnswerLabel|;
    assert decoded[k + |AnswerLabel|..] == piece;
  }

  /** A decoded text that echoes the prompt and continues without another label yields the
      stripped continuation as the answer: the instructions, contexts and question never leak
      into it. */
  lemma EchoedPromptYieldsContinuation(question: string, contexts: seq<string>, cont: string)
    requires !Contains(cont, AnswerLabel)
    ensures ExtractAnswer(Prompt(question, contexts) + cont) == Strip(cont)
  {
    EchoedFrameYieldsContinuation(PromptHead, question, contexts, cont);
  }

  /** The same for any instructions heading the prompt. */
  lemma EchoedFrameYieldsContinuation(head: string, question: string, contexts: seq<string>, cont: string)
    requires !Contains(cont, AnswerLabel)
    ensures ExtractAnswer(Frame(head, question, contexts) + cont) == Strip(cont)
  {
    var body := head + (Join("\n\n", contexts) + PromptMiddle + question + PromptGap);
    assert Frame(head, question, contexts) + cont == body + AnswerLabel + (PromptPadding + cont);
    ContinuationAfterLastLabel(body, cont);
  }

  /** Text up to a final label and its padding contributes nothing to the answer. */
  lemma ContinuationAfterLastLabel(before: string, cont: string)
    requires !Contains(cont, AnswerLabel)
    ensures ExtractAnswer(before + AnswerLabel + (PromptPadding + cont)) == Strip(cont)
  {
    var after := PromptPadding + cont;
    assert AnswerLabel[0] !in AnswerLabel[1..];
    PaddingIsBlank();
    NoSeparatorAfterPrefix(PromptPadding, cont, AnswerLabel);
    LastPieceAfterFinalSeparator(before, AnswerLabel, after);
    StripByPadding(PromptPadding, cont, "", IsSpace);
    assert after + "" == after;
  }

  /** The whitespace after the closing label is all blank and cannot start the label. */
  lemma PaddingIsBlank()
    ensures forall i :: 0 <= i < |PromptPadding| ==> IsSpace(PromptPadding[i])
    ensures AnswerLabel[0] !in PromptPadding
  {
  }

  /** The answer mentions a banned term, compared case-insensitively. */
  predicate MentionsBanned(a: string) {
    exists t :: t in BannedTerms && Contains(Lower(a), Lower(t))
  }

  /** The guards applied to the extracted answer: too short or mentioning a banned term
      yields the sentinel, anything else is returned as it is. */
  function PostProcess(decoded: string): (r: string)
    ensures r == Sentinel || r == ExtractAnswer(decoded)
    ensures |ExtractAnswer(decoded)| < MinAnswerLength ==> r == Sentinel
    ensures MentionsBanned(ExtractAnswer(decoded)) ==> r == Sentinel
    ensures |ExtractAnswer(decoded)| >= MinAnswerLength && !MentionsBanned(ExtractAnswer(decoded)) ==>
      r == ExtractAnswer(decoded)
    ensures r != Sentinel ==> |r| >= MinAnswerLength && !Contains(r, AnswerLabel)
    ensures r != Sentinel ==> forall t :: t in BannedTerms ==> !Contains(Lower(r), Lower(t))
  {
    var answer := if Contains(decoded, AnswerLabel) then Strip(SplitLast(decoded, AnswerLabel)) else Strip(decoded);
    if |answer| < MinAnswerLength then Sentinel
    else if MentionsBanned(answer) then Sentinel
    else answer
  }

  /** `generate_answer_from_contexts`: the model decodes the prompt, and the decoded text
      is post-processed. */
  function Generate(question: string, contexts: seq<string>, model: string -> string): (r: string)
    ensures r == Sentinel || (|r| >= MinAnswerLength && !Contains(r, AnswerLabel))
    ensures r != Sentinel ==> forall t :: t in BannedTerms ==> !Contains(Lower(r), Lower(t))
  {
    PostProcess(model(Prompt(question, contexts)))
  }

  /** A model that echoes the prompt before continuing: the reply is the stripped
      continuation or the sentinel, and a continuation that strips to fewer than ten
      characters is refused. */
  lemma GenerateAfterEcho(question: string, contexts: seq<string>, model: string -> string, cont: string)
    requires model(Prompt(question, contexts)) == Prompt(question, contexts) + cont
    requires !Contains(cont, AnswerLabel)
    ensures Generate(question, contexts, model) in {Sentinel, Strip(cont)}
    ensures |Strip(cont)| < MinAnswerLength ==> Generate(question, contexts, model) == Sentinel
  {
    EchoedPromptYieldsContinuation(question, contexts, cont);
  }
}
