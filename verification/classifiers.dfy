/**
 * The two question classifiers of backend/services/qa_service.py. Their regular expressions are
 * spelled out: a literal occurs at a position, `.` is any character but a newline, `\b` is a
 * change between word and non-word characters, `re.search` takes the leftmost match and a
 * greedy group the longest one that still lets the rest of the pattern match.
 */
module Classifiers {
  import opened Wrappers
  import opened PyStr

  /** `question.lower().strip()`. */
  function Normalise(q: string): string {
    Strip(Lower(q))
  }

  /** Python's `\w` on ASCII and Latin-1: letters, digits (including the Latin-1 numeric
      signs that `str.isalnum` accepts) and the underscore. */
  predicate IsWordChar(c: char) {
    || ('a' <= c <= 'z') || ('A' <= c <= 'Z') || ('0' <= c <= '9') || c == '_'
    || c == '\U{AA}' || c == '\U{B2}' || c == '\U{B3}' || c == '\U{B5}' || c == '\U{B9}' || c == '\U{BA}'
    || ('\U{BC}' <= c <= '\U{BE}')
    || ('\U{C0}' <= c <= '\U{FF}' && c != '\U{D7}' && c != '\U{F7}')
  }

  /** `\b` at position `i` of `q`: exactly one side of `i` is a word character. */
  predicate WordBoundary(q: string, i: nat)
    requires i <= |q|
  {
    (i > 0 && IsWordChar(q[i - 1])) != (i < |q| && IsWordChar(q[i]))
  }

  /** `q[lo..hi]` is matched by `.*`: it holds no newline. */
  predicate NoNewline(q: string, lo: nat, hi: nat) {
    hi <= |q| && forall k :: lo <= k < hi ==> q[k] != '\n'
  }

  /** `^phrase\b`. */
  predicate StartsWithPhrase(q: string, phrase: string) {
    OccursAt(q, 0, phrase) && WordBoundary(q, |phrase|)
  }

  /** `^is .*word\b`, where `word` carries the space the pattern puts before it. */
  predicate IsFormWith(q: string, word: string) {
    && OccursAt(q, 0, "is ")
    && exists e: nat :: 3 <= e <= |q| && NoNewline(q, 3, e) && OccursAt(q, e, word) && WordBoundary(q, e + |word|)
  }

  /** `is_negative_question`: a non-string is never negative; a string is when its lower-cased,
      stripped form matches one of six start-anchored shapes. */
  function IsNegativeQuestion(question: Option<string>): (r: bool)
    ensures question.None? ==> !r
    ensures question.Some? ==> (r <==> var q := Normalise(question.value);
      || StartsWithPhrase(q, "does the document mention")
      || StartsWithPhrase(q, "does it mention")
      || StartsWithPhrase(q, "does it talk about")
      || StartsWithPhrase(q, "is there any mention of")
      || IsFormWith(q, " discussed")
      || IsFormWith(q, " mentioned"))
  {
    match question
    case None => false
    case Some(s) =>
      var q := Normalise(s);
      || StartsWithPhrase(q, "does the document mention")
      || StartsWithPhrase(q, "does it mention")
      || StartsWithPhrase(q, "does it talk about")
      || StartsWithPhrase(q, "is there any mention of")
      || IsFormWith(q, " discussed")
      || IsFormWith(q, " mentioned")
  }

  /** Normalising a normalised question changes nothing. */
  lemma NormaliseIdempotent(s: string)
    ensures Normalise(Normalise(s)) == Normalise(s)
  {
    var l := Lower(s);
    var t := Strip(l);
    var lo := LeadingRun(l, IsSpace);
    assert t == l[lo..lo + |t|];
    assert Lower(t) == t;
    StripByIdempotent(l, IsSpace);
  }

  /** The classification does not depend on letter case. */
  lemma NegativeIgnoresCase(s: string)
    ensures IsNegativeQuestion(Some(Lower(s))) == IsNegativeQuestion(Some(s))
  {
    LowerIsLower(s);
    assert Lower(Lower(s)) == Lower(s);
  }

  /** The classification does not depend on surrounding whitespace. */
  lemma NegativeIgnoresPadding(pre: string, s: string, post: string)
    requires forall i :: 0 <= i < |pre| ==> IsSpace(pre[i])
    requires forall i :: 0 <= i < |post| ==> IsSpace(post[i])
    ensures IsNegativeQuestion(Some(pre + s + post)) == IsNegativeQuestion(Some(s))
  {
    assert Lower(pre + s + post) == Lower(pre) + Lower(s) + Lower(post);
    StripByPadding(Lower(pre), Lower(s), Lower(post), IsSpace);
  }

  /** A lower-case question without surrounding whitespace is its own normal form. */
  lemma AlreadyNormal(q: string)
    requires IsLower(q) && q != [] && !IsSpace(q[0]) && !IsSpace(q[|q| - 1])
    ensures Normalise(q) == q
  {
    assert Lower(q) == q;
    StripByUnique(q, IsSpace, 0, q);
  }

  /** An occurrence fixes every character it covers. */
  lemma OccursAtChar(q: string, e: nat, w: string, k: nat)
    requires k < |w|
    ensures OccursAt(q, e, w) ==> e + k < |q| && q[e + k] == w[k]
  {
    if OccursAt(q, e, w) {
      assert q[e..e + |w|][k] == w[k];
    }
  }

  /** A phrase whose k-th character the question does not have does not start it. */
  lemma PhraseMismatch(q: string, phrase: string, k: nat)
    requires k < |phrase| && (k >= |q| || q[k] != phrase[k])
    ensures !StartsWithPhrase(q, phrase)
  {
    OccursAtChar(q, 0, phrase, k);
  }

  /** No character of the question from position 3 on can start `w`, so `^is .*w` cannot
      match. */
  lemma NoFormAfter(q: string, w: string)
    requires w != [] && 3 <= |q| && w[0] !in q[3..]
    ensures !IsFormWith(q, w)
  {
    forall e: nat | 3 <= e <= |q| ensures !OccursAt(q, e, w) {
      OccursAtChar(q, e, w, 0);
      if e < |q| {
        assert q[e] == q[3..][e - 3];
      }
    }
  }

  /** The same when the only character from position 3 on that could start `w` is at `c`,
      and `w` does not occur there. */
  lemma NoFormExcept(q: string, w: string, c: nat)
    requires w != [] && 3 <= c < |q|
    requires w[0] !in q[3..c] && w[0] !in q[c + 1..] && !OccursAt(q, c, w)
    ensures !IsFormWith(q, w)
  {
    forall e: nat | 3 <= e <= |q| ensures !OccursAt(q, e, w) {
      OccursAtChar(q, e, w, 0);
      if e < c {
        assert q[e] == q[3..c][e - 3];
      } else if c < e < |q| {
        assert q[e] == q[c + 1..][e - c - 1];
      }
    }
  }

  /** None of the four phrases starts the question. */
  predicate NoPhraseShape(q: string) {
    && !StartsWithPhrase(q, "does the document mention")
    && !StartsWithPhrase(q, "does it mention")
    && !StartsWithPhrase(q, "does it talk about")
    && !StartsWithPhrase(q, "is there any mention of")
  }

  /** Neither `is ... discussed` nor `is ... mentioned` matches the question. */
  predicate NoFormShape(q: string) {
    !IsFormWith(q, " discussed") && !IsFormWith(q, " mentioned")
  }

  /** A question whose normal form has none of the six shapes is not negative. */
  lemma NotNegativeWhen(s: string)
    requires NoPhraseShape(Normalise(s)) && NoFormShape(Normalise(s))
    ensures !IsNegativeQuestion(Some(s))
  {
  }

  /** A question that does not open with "i" has neither form. */
  lemma NoFormWithoutIs(q: string)
    requires q == [] || q[0] != 'i'
    ensures NoFormShape(q)
  {
    OccursAtChar(q, 0, "is ", 0);
  }

  /** A question that opens with "i" but not with "is t" has none of the phrases. */
  lemma NoPhraseAfterIs(q: string)
    requires 3 < |q| && q[0] == 'i' && q[3] != 't'
    ensures NoPhraseShape(q)
  {
    PhraseMismatch(q, "does the document mention", 0);
    PhraseMismatch(q, "does it mention", 0);
    PhraseMismatch(q, "does it talk about", 0);
    PhraseMismatch(q, "is there any mention of", 3);
  }

  /** The six shapes, one question each. */
  lemma DocumentMentionIsNegative()
    ensures IsNegativeQuestion(Some("does the document mention x"))
  {
    var q := "does the document mention x";
    AlreadyNormal(q);
    assert q[..26] == "does the document mention" + " ";
    PhraseThenSpace(q, "does the document mention");
  }

  lemma ItMentionIsNegative()
    ensures IsNegativeQuestion(Some("does it mention x"))
  {
    var q := "does it mention x";
    AlreadyNormal(q);
    assert q[..16] == "does it mention" + " ";
    PhraseThenSpace(q, "does it mention");
  }

  lemma ItTalkAboutIsNegative()
    ensures IsNegativeQuestion(Some("does it talk about x"))
  {
    var q := "does it talk about x";
    AlreadyNormal(q);
    assert q[..19] == "does it talk about" + " ";
    PhraseThenSpace(q, "does it talk about");
  }

  lemma AnyMentionIsNegative()
    ensures IsNegativeQuestion(Some("is there any mention of x"))
  {
    var q := "is there any mention of x";
    AlreadyNormal(q);
    assert q[..24] == "is there any mention of" + " ";
    PhraseThenSpace(q, "is there any mention of");
  }

  /** `^is .*word\b` matches a question that is "is ", a one-line middle and the word, when
      the word ends in a word character. */
  lemma FormAtEnd(q: string, w: string, e: nat)
    requires 3 <= e && e + |w| == |q| && w != [] && IsWordChar(w[|w| - 1])
    requires q[..3] == "is " && NoNewline(q, 3, e) && q[e..] == w
    ensures IsFormWith(q, w)
  {
    assert OccursAt(q, 0, "is ");
    assert q[e..e + |w|] == w;
    assert q[|q| - 1] == w[|w| - 1];
    assert WordBoundary(q, e + |w|);
  }

  lemma DiscussedIsNegative()
    ensures IsNegativeQuestion(Some("is x discussed"))
  {
    AlreadyNormal("is x discussed");
    DiscussedForm();
  }

  lemma DiscussedForm()
    ensures IsFormWith("is x discussed", " discussed")
  {
    var q := "is x discussed";
    assert q[..3] == "is " && q[3] == 'x' && q[4..] == " discussed";
    FormAtEnd(q, " discussed", 4);
  }

  lemma MentionedIsNegative()
    ensures IsNegativeQuestion(Some("is x mentioned"))
  {
    AlreadyNormal("is x mentioned");
    MentionedForm();
  }

  lemma MentionedForm()
    ensures IsFormWith("is x mentioned", " mentioned")
  {
    var q := "is x mentioned";
    assert q[..3] == "is " && q[3] == 'x' && q[4..] == " mentioned";
    FormAtEnd(q, " mentioned", 4);
  }

  /** The word of `^is .* mentioned\b` needs the space before it: "unmentioned" does
      not end the form. */
  lemma UnmentionedIsNotNegative()
    ensures !IsNegativeQuestion(Some("is it unmentioned?"))
  {
    AlreadyNormal("is it unmentioned?");
    UnmentionedHasNoShape();
    NotNegativeWhen("is it unmentioned?");
  }

  lemma UnmentionedHasNoShape()
    ensures NoPhraseShape("is it unmentioned?") && NoFormShape("is it unmentioned?")
  {
    NoPhraseAfterIs("is it unmentioned?");
    UnmentionedNotForm(" discussed");
    UnmentionedNotForm(" mentioned");
  }

  /** The one space after "is " in "is it unmentioned?" is followed by "u". */
  lemma UnmentionedNotForm(w: string)
    requires |w| > 1 && w[0] == ' ' && w[1] != 'u'
    ensures !IsFormWith("is it unmentioned?", w)
  {
    var q := "is it unmentioned?";
    assert q[3..5] == "it" && q[5] == ' ' && q[6] == 'u' && q[6..] == "unmentioned?";
    OccursAtChar(q, 5, w, 1);
    NoFormExcept(q, w, 5);
  }

  /** `.*` may be empty but the space before the word is still needed. */
  lemma BareDiscussedIsNotNegative()
    ensures !IsNegativeQuestion(Some("is discussed"))
  {
    AlreadyNormal("is discussed");
    BareDiscussedHasNoShape();
    NotNegativeWhen("is discussed");
  }

  lemma BareDiscussedHasNoShape()
    ensures NoPhraseShape("is discussed") && NoFormShape("is discussed")
  {
    var q := "is discussed";
    NoPhraseAfterIs(q);
    assert q[3..] == "discussed";
    NoFormAfter(q, " discussed");
    NoFormAfter(q, " mentioned");
  }

  /** The word glued to what precedes it does not end the form. */
  lemma GluedMentionedIsNotNegative()
    ensures !IsNegativeQuestion(Some("is xmentioned"))
  {
    AlreadyNormal("is xmentioned");
    GluedMentionedHasNoShape();
    NotNegativeWhen("is xmentioned");
  }

  lemma GluedMentionedHasNoShape()
    ensures NoPhraseShape("is xmentioned") && NoFormShape("is xmentioned")
  {
    var q := "is xmentioned";
    NoPhraseAfterIs(q);
    assert q[3..] == "xmentioned";
    NoFormAfter(q, " discussed");
    NoFormAfter(q, " mentioned");
  }

  /** A longer word in place of "document" breaks the phrase. */
  lemma DocumentationIsNotNegative()
    ensures !IsNegativeQuestion(Some("does the documentation mention x"))
  {
    AlreadyNormal("does the documentation mention x");
    DocumentationHasNoShape();
    NotNegativeWhen("does the documentation mention x");
  }

  lemma DocumentationHasNoShape()
    ensures NoPhraseShape("does the documentation mention x") && NoFormShape("does the documentation mention x")
  {
    var q := "does the documentation mention x";
    PhraseMismatch(q, "does the document mention", 17);
    PhraseMismatch(q, "does it mention", 5);
    PhraseMismatch(q, "does it talk about", 5);
    PhraseMismatch(q, "is there any mention of", 0);
    NoFormWithoutIs(q);
  }

  /** `\b` after the phrase: "mentions" runs on past "mention". */
  lemma RunOnPhraseIsNotNegative()
    ensures !IsNegativeQuestion(Some("does it mentions x"))
  {
    AlreadyNormal("does it mentions x");
    RunOnPhraseHasNoShape();
    NotNegativeWhen("does it mentions x");
  }

  lemma RunOnPhraseHasNoShape()
    ensures NoPhraseShape("does it mentions x") && NoFormShape("does it mentions x")
  {
    var q := "does it mentions x";
    PhraseMismatch(q, "does the document mention", 5);
    assert IsWordChar(q[14]) && IsWordChar(q[15]);
    PhraseMismatch(q, "does it talk about", 8);
    PhraseMismatch(q, "is there any mention of", 0);
    NoFormWithoutIs(q);
  }

  /** The regular expression `before(.+)after`. */
  datatype Pattern = Pattern(before: string, after: string)

  /** The patterns `extract_question_focus` tries, in order. */
  const FocusPatterns: seq<Pattern> := [
    Pattern("does the document mention ", ""),
    Pattern("does it mention ", ""),
    Pattern("does it talk about ", ""),
    Pattern("is there any mention of ", ""),
    Pattern("is ", " discussed"),
    Pattern("is ", " mentioned")
  ]

  /** A match of `before(.+)after` in `q` that starts at `i` and whose group ends at `e`. */
  predicate GroupMatch(q: string, p: Pattern, i: nat, e: nat) {
    && OccursAt(q, i, p.before)
    && i + |p.before| < e
    && NoNewline(q, i + |p.before|, e)
    && OccursAt(q, e, p.after)
  }

  /** `re.search(p, q)` succeeds. */
  ghost predicate Matches(q: string, p: Pattern) {
    exists i: nat, e: nat :: GroupMatch(q, p, i, e)
  }

  /** End of the line that position `k` is on: the first newline at or after `k`, or the end. */
  function LineEnd(q: string, k: nat): (r: nat)
    requires k <= |q|
    ensures k <= r <= |q| && NoNewline(q, k, r)
    ensures r == |q| || q[r] == '\n'
    decreases |q| - k
  {
    if k == |q| || q[k] == '\n' then k else LineEnd(q, k + 1)
  }

  /** The largest `x` with `g < x <= e` at which `suf` occurs. */
  function LastOccurrenceAbove(q: string, g: nat, e: nat, suf: string): (r: Option<nat>)
    ensures r.Some? ==> g < r.value <= e && OccursAt(q, r.value, suf)
    ensures r.Some? ==> forall x: nat :: r.value < x <= e ==> !OccursAt(q, x, suf)
    ensures r.None? ==> forall x: nat :: g < x <= e ==> !OccursAt(q, x, suf)
    decreases e
  {
    if e <= g then None
    else if OccursAt(q, e, suf) then Some(e)
    else LastOccurrenceAbove(q, g, e - 1, suf)
  }

  /** The match of the pattern starting at `i`, with the greedy (longest) group, if any. */
  function MatchAt(q: string, p: Pattern, i: nat): (r: Option<nat>)
    requires i <= |q|
    ensures r.Some? ==> GroupMatch(q, p, i, r.value)
    ensures r.Some? ==> forall e: nat :: GroupMatch(q, p, i, e) ==> e <= r.value
    ensures r.None? ==> forall e: nat :: !GroupMatch(q, p, i, e)
  {
    if !OccursAt(q, i, p.before) then None
    else
      var g := i + |p.before|;
      var end := LineEnd(q, g);
      LastOccurrenceAbove(q, g, end, p.after)
  }

  /** `re.search`: the leftmost start at or after `from` where the pattern matches. */
  function SearchFrom(q: string, p: Pattern, from: nat): (r: Option<(nat, nat)>)
    requires from <= |q|
    ensures r.None? ==> forall i: nat, e: nat :: from <= i ==> !GroupMatch(q, p, i, e)
    ensures r.Some? ==> from <= r.value.0 && GroupMatch(q, p, r.value.0, r.value.1)
    ensures r.Some? ==> forall i: nat, e: nat :: from <= i < r.value.0 ==> !GroupMatch(q, p, i, e)
    ensures r.Some? ==> forall e: nat :: GroupMatch(q, p, r.value.0, e) ==> e <= r.value.1
    decreases |q| - from
  {
    match MatchAt(q, p, from)
    case Some(e) => Some((from, e))
    case None =>
      if from == |q| then None else SearchFrom(q, p, from + 1)
  }

  /** The match `re.search` reports: the leftmost start, and from it the longest group. */
  ghost predicate LeftmostGreedy(q: string, p: Pattern, i: nat, e: nat) {
    && GroupMatch(q, p, i, e)
    && (forall j: nat, e': nat :: j < i ==> !GroupMatch(q, p, j, e'))
    && (forall e': nat :: GroupMatch(q, p, i, e') ==> e' <= e)
  }

  /** `m.group(1)` of `re.search(p, q)`, or `None` when there is no match. */
  function Capture(q: string, p: Pattern): (r: Option<string>)
    ensures r.None? <==> !Matches(q, p)
  {
    match SearchFrom(q, p, 0)
    case None => None
    case Some((i, e)) => Some(q[i + |p.before|..e])
  }

  /** The capture is the group of the leftmost match, taken as long as it can be. */
  lemma CaptureIsLeftmostGreedy(q: string, p: Pattern)
    requires Capture(q, p).Some?
    ensures exists i: nat, e: nat ::
      && LeftmostGreedy(q, p, i, e) && i + |p.before| <= e <= |q|
      && Capture(q, p).value == q[i + |p.before|..e]
  {
    var m := SearchFrom(q, p, 0).value;
    assert LeftmostGreedy(q, p, m.0, m.1);
  }

  /** Characters removed by `strip(" ?.")`. */
  predicate FocusTrim(c: char) {
    c == ' ' || c == '?' || c == '.'
  }

  /** The group each pattern captures in `q`, in pattern order. Python stops searching at the
      first pattern that matches; searching has no effects, so computing every capture and
      taking the first that is present gives the same focus. */
  function Captures(q: string, ps: seq<Pattern>): (caps: seq<Option<string>>)
    ensures |caps| == |ps|
  {
    seq(|ps|, j requires 0 <= j < |ps| => Capture(q, ps[j]))
  }

  /** The first capture present from position `k` on, trimmed of spaces, `?` and `.`. */
  function FirstCapture(caps: seq<Option<string>>, k: nat): (r: Option<string>)
    requires k <= |caps|
    ensures r.None? <==> forall j :: k <= j < |caps| ==> caps[j].None?
    decreases |caps| - k
  {
    if k == |caps| then None
    else match caps[k]
      case Some(g) => Some(StripBy(g, FocusTrim))
      case None => FirstCapture(caps, k + 1)
  }

  /** `extract_question_focus`: `None` for a non-string and when no pattern matches; otherwise
      the group of the first matching pattern, trimmed of spaces, `?` and `.`. */
  function ExtractFocus(question: Option<string>): (r: Option<string>)
    ensures question.None? ==> r.None?
    ensures question.Some? ==>
      (r.None? <==> forall j :: 0 <= j < |FocusPatterns| ==> !Matches(Normalise(question.value), FocusPatterns[j]))
  {
    match question
    case None => None
    case Some(s) =>
      CapturesAbsentIff(Normalise(s), FocusPatterns);
      FirstCapture(Captures(Normalise(s), FocusPatterns), 0)
  }

  /** Every capture is absent exactly when no pattern matches. */
  lemma CapturesAbsentIff(q: string, ps: seq<Pattern>)
    ensures var caps := Captures(q, ps);
      (forall j :: 0 <= j < |caps| ==> caps[j].None?) <==> (forall j :: 0 <= j < |ps| ==> !Matches(q, ps[j]))
  {
    var caps := Captures(q, ps);
    forall j | 0 <= j < |ps| ensures caps[j].None? <==> !Matches(q, ps[j]) {
      assert caps[j] == Capture(q, ps[j]);
    }
  }

  /** In a lower-case question every capture is lower-case. */
  lemma CapturesAreLower(q: string, ps: seq<Pattern>)
    requires IsLower(q)
    ensures var caps := Captures(q, ps);
      forall j :: 0 <= j < |caps| && caps[j].Some? ==> IsLower(caps[j].value)
  {
    var caps := Captures(q, ps);
    forall j | 0 <= j < |caps| && caps[j].Some? ensures IsLower(caps[j].value) {
      assert caps[j] == Capture(q, ps[j]);
      CaptureIsLower(q, ps[j]);
    }
  }

  /** A focus is lower-case and neither starts nor ends with a trimmed character. */
  predicate TrimmedLower(r: Option<string>) {
    r.Some? ==> IsLower(r.value) && (r.value != [] ==> !FocusTrim(r.value[0]) && !FocusTrim(r.value[|r.value| - 1]))
  }

  /** Every focus is lower-case and trimmed. */
  lemma FocusIsTrimmedLower(question: Option<string>)
    ensures TrimmedLower(ExtractFocus(question))
  {
    if question.Some? {
      NormalisedIsLower(question.value);
      FirstCaptureOfLowerQuestion(Normalise(question.value), FocusPatterns);
    }
  }

  /** The first capture in a lower-case question, trimmed, is lower-case and trimmed. */
  lemma FirstCaptureOfLowerQuestion(q: string, ps: seq<Pattern>)
    requires IsLower(q)
    ensures TrimmedLower(FirstCapture(Captures(q, ps), 0))
  {
    CapturesAreLower(q, ps);
    FirstCaptureIsTrimmedLower(Captures(q, ps), 0);
  }

  lemma NormalisedIsLower(s: string)
    ensures IsLower(Normalise(s))
  {
    var l := Lower(s);
    var lo := LeadingRun(l, IsSpace);
    assert Normalise(s) == l[lo..lo + |Normalise(s)|];
  }

  lemma SliceIsLower(s: string, lo: nat, hi: nat)
    requires lo <= hi <= |s| && IsLower(s)
    ensures IsLower(s[lo..hi])
  {
    forall i | 0 <= i < hi - lo ensures LowerChar(s[lo..hi][i]) == s[lo..hi][i] {
      assert s[lo..hi][i] == s[lo + i];
    }
  }

  /** What a pattern captures in a lower-case question is lower-case. */
  lemma CaptureIsLower(q: string, p: Pattern)
    requires IsLower(q) && Capture(q, p).Some?
    ensures IsLower(Capture(q, p).value)
  {
    var m := SearchFrom(q, p, 0).value;
    var a := m.0 + |p.before|;
    assert a <= m.1 <= |q| && Capture(q, p).value == q[a..m.1];
    SliceIsLower(q, a, m.1);
  }

  /** Trimming keeps a lower-case string lower-case. */
  lemma TrimmedIsLower(g: string)
    requires IsLower(g)
    ensures IsLower(StripBy(g, FocusTrim))
  {
    var lo := LeadingRun(g, FocusTrim);
    SliceIsLower(g, lo, lo + |StripBy(g, FocusTrim)|);
  }

  lemma {:induction false} FirstCaptureIsTrimmedLower(caps: seq<Option<string>>, k: nat)
    requires k <= |caps|
    requires forall j :: 0 <= j < |caps| && caps[j].Some? ==> IsLower(caps[j].value)
    ensures TrimmedLower(FirstCapture(caps, k))
    decreases |caps| - k
  {
    if k < |caps| {
      if caps[k].Some? {
        TrimmedIsLower(caps[k].value);
      } else {
        FirstCaptureIsTrimmedLower(caps, k + 1);
      }
    }
  }

  /** The first pattern in list order that matches the normalised question decides the
      focus. */
  lemma FirstMatchingPatternWins(s: string, k: nat)
    requires k < |FocusPatterns| && Matches(Normalise(s), FocusPatterns[k])
    requires forall j :: 0 <= j < k ==> !Matches(Normalise(s), FocusPatterns[j])
    ensures Capture(Normalise(s), FocusPatterns[k]).Some?
    ensures ExtractFocus(Some(s)) == Some(StripBy(Capture(Normalise(s), FocusPatterns[k]).value, FocusTrim))
  {
    var caps := Captures(Normalise(s), FocusPatterns);
    forall j | 0 <= j < k ensures caps[j].None? {
    }
    FirstCaptureFrom(caps, 0, k);
  }

  /** Absent captures are skipped until one is present. */
  lemma {:induction false} FirstCaptureFrom(caps: seq<Option<string>>, from: nat, k: nat)
    requires from <= k < |caps| && caps[k].Some?
    requires forall j :: from <= j < k ==> caps[j].None?
    ensures FirstCapture(caps, from) == Some(StripBy(caps[k].value, FocusTrim))
    decreases k - from
  {
    if from < k {
      assert caps[from].None?;
      FirstCaptureFrom(caps, from + 1, k);
    } else {
      assert caps[from] == Some(caps[k].value);
    }
  }

  /** A pattern without suffix whose prefix opens a single-line string captures the rest. */
  lemma CaptureRestOfLine(q: string, p: Pattern)
    requires p.after == [] && OccursAt(q, 0, p.before) && |p.before| < |q|
    requires NoNewline(q, |p.before|, |q|)
    ensures Capture(q, p) == Some(q[|p.before|..])
  {
    assert GroupMatch(q, p, 0, |q|);
    var m := SearchFrom(q, p, 0).value;
    assert m.0 == 0;
    assert m.1 == |q|;
    assert q[|p.before|..|q|] == q[|p.before|..];
  }

  /** The example of the doc comment, "Does the document mention design patterns?", as its
      opening and the topic asked about. */
  const DocOpening: string := "Does the document mention "
  const DocTopic: string := "design patterns?"

  /** The opening lower-cased, which is the prefix of the first focus pattern. */
  const DocPrefix: string := "does the document mention "

  /** A phrase ending in a word character and followed by a space starts the text at a word
      boundary. */
  lemma PhraseThenSpace(q: string, phrase: string)
    requires phrase != [] && IsWordChar(phrase[|phrase| - 1])
    requires OccursAt(q, 0, phrase + " ")
    ensures StartsWithPhrase(q, phrase)
  {
    var n := |phrase|;
    assert q[..n + 1] == phrase + " ";
    assert q[..n] == phrase;
    assert q[n - 1] == phrase[n - 1];
    assert q[n] == ' ';
  }

  /** A prefix followed by a single line: the prefix occurs at the start and the rest of the
      first line is the line. */
  lemma PrefixThenLine(pre: string, line: string)
    requires NoNewline(line, 0, |line|)
    ensures OccursAt(pre + line, 0, pre)
    ensures NoNewline(pre + line, |pre|, |pre + line|)
    ensures (pre + line)[|pre|..] == line
  {
    var q := pre + line;
    assert q[..|pre|] == pre;
    assert q[|pre|..] == line;
    forall k | |pre| <= k < |q| ensures q[k] != '\n' {
      assert q[k] == line[k - |pre|];
    }
  }

  /** The opening lower-cases to the prefix of the first focus pattern. */
  lemma DocOpeningLowers()
    ensures Lower(DocOpening) == DocPrefix
    ensures FocusPatterns[0] == Pattern(DocPrefix, "")
  {
  }

  /** The topic is already lower-case and a single line. */
  lemma DocTopicPlain()
    ensures Lower(DocTopic) == DocTopic
    ensures NoNewline(DocTopic, 0, |DocTopic|)
  {
  }

  /** The prefix is the negative phrase followed by a space. */
  lemma DocPrefixIsPhrase()
    ensures DocPrefix == "does the document mention" + " "
  {
  }

  /** Trimming the topic drops its question mark. */
  lemma DocTopicTrimmed()
    ensures StripBy(DocTopic, FocusTrim) == "design patterns"
  {
    StripByUnique(DocTopic, FocusTrim, 0, "design patterns");
  }

  /** The example normalises to its lower-case form. */
  lemma DocQuestionNormalises()
    ensures Normalise(DocOpening + DocTopic) == DocPrefix + DocTopic
  {
    DocOpeningLowers();
    DocTopicPlain();
    LowerAppend(DocOpening, DocTopic);
    var q := DocPrefix + DocTopic;
    assert q[0] == 'd' && q[|q| - 1] == '?';
    StripByUnique(q, IsSpace, 0, q);
  }

  /** The example of the doc comment is a negative question. */
  lemma DocQuestionIsNegative()
    ensures IsNegativeQuestion(Some(DocOpening + DocTopic))
  {
    DocQuestionNormalises();
    DocTopicPlain();
    DocPrefixIsPhrase();
    PrefixThenLine(DocPrefix, DocTopic);
    PhraseThenSpace(DocPrefix + DocTopic, "does the document mention");
  }

  /** The example of the doc comment: the focus of the question is "design patterns". */
  lemma DocQuestionFocus()
    ensures ExtractFocus(Some(DocOpening + DocTopic)) == Some("design patterns")
  {
    DocQuestionNormalises();
    DocOpeningLowers();
    DocTopicPlain();
    var q := DocPrefix + DocTopic;
    PrefixThenLine(DocPrefix, DocTopic);
    CaptureRestOfLine(q, FocusPatterns[0]);
    DocTopicTrimmed();
    var caps := Captures(q, FocusPatterns);
    assert caps[0] == Some(DocTopic);
    assert FirstCapture(caps, 0) == Some("design patterns");
  }
}
