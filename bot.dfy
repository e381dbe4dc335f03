/**
 * The logic of bot.py: the line-scan FAQ lookup, the choice of the FAQ file
 * among the files of a Drive folder, and the argument of the `!ask` and `!faq`
 * chat commands. The Drive, Discord and OpenAI calls around them are not here.
 */
module Bot {
  import opened Wrappers
  import opened PyStr

  // ===========================================================================
  // search_faq
  // ===========================================================================

  /** The fixed reply when the matching line is the last line of the FAQ. */
  const NoAnswerText := "Sorry, I can't find the answer to that."

  /** `line` matches the already lower-cased question `q`. */
  predicate LineMatches(q: string, line: string)
  {
    Contains(Lower(line), q)
  }

  /** Line `i` is the first line, in document order, that matches `q`. */
  predicate IsFirstMatch(q: string, lines: seq<string>, i: nat)
  {
    && i < |lines|
    && LineMatches(q, lines[i])
    && forall j | 0 <= j < i :: !LineMatches(q, lines[j])
  }

  /** The index of the first line matching `q`, if any line does. */
  function FirstMatch(q: string, lines: seq<string>): (r: Option<nat>)
    ensures r.None? <==> forall j | 0 <= j < |lines| :: !LineMatches(q, lines[j])
    ensures r.Some? ==> IsFirstMatch(q, lines, r.value)
  {
    if lines == [] then None
    else if LineMatches(q, lines[0]) then Some(0)
    else match FirstMatch(q, lines[1..])
      case None => None
      case Some(i) => Some(i + 1)
  }

  /** The reply for a match on line `i`: the next line, or `NoAnswerText` after the last. */
  function AnswerAfter(lines: seq<string>, i: nat): (answer: string)
    requires i < |lines|
  {
    if i + 1 < |lines| then lines[i + 1] else NoAnswerText
  }

  /**
   * What `search_faq(question, faq_content)` returns: `None` when no line
   * contains the question, otherwise the reply for the first matching line.
   */
  function Lookup(question: string, content: string): (answer: Option<string>)
    ensures answer.Some? ==> answer.value in Split(content) || answer.value == NoAnswerText
  {
    var lines := Split(content);
    match FirstMatch(Lower(question), lines)
    case None => None
    case Some(i) => Some(AnswerAfter(lines, i))
  }

  /**
   * `search_faq`: scans the lines of the FAQ in order and stops at the first
   * one whose lower-cased text contains the lower-cased question.
   */
  method SearchFaq(question: string, faqContent: string) returns (answer: Option<string>)
    ensures answer == Lookup(question, faqContent)
  {
    var q := Lower(question);
    var lines := Split(faqContent);
    answer := None;
    var i := 0;
    while i < |lines|
      invariant i <= |lines|
      invariant answer.None?
      invariant forall j | 0 <= j < i :: !LineMatches(q, lines[j])
    {
      if Contains(Lower(lines[i]), q) {
        answer := Some(if i + 1 < |lines| then lines[i + 1] else NoAnswerText);
        assert IsFirstMatch(q, lines, i);
        break;
      }
      i := i + 1;
    }
  }

  /** Some line of `lines` matches `q`. */
  predicate SomeLineMatches(q: string, lines: seq<string>)
  {
    exists j | 0 <= j < |lines| :: LineMatches(q, lines[j])
  }

  /** The lookup finds nothing exactly when no line contains the question, ignoring case. */
  lemma LookupNoneIff(question: string, content: string)
    ensures Lookup(question, content).None? <==> !SomeLineMatches(Lower(question), Split(content))
  {
    var q, lines := Lower(question), Split(content);
    assert Lookup(question, content).None? <==> FirstMatch(q, lines).None?;
  }

  /**
   * When line `i` is the first match, the reply is line `i + 1` exactly as
   * written (even if blank), or `NoAnswerText` when line `i` is the last line.
   */
  lemma LookupFirstMatch(question: string, content: string, i: nat)
    requires IsFirstMatch(Lower(question), Split(content), i)
    ensures i + 1 < |Split(content)| ==> Lookup(question, content) == Some(Split(content)[i + 1])
    ensures i + 1 == |Split(content)| ==> Lookup(question, content) == Some(NoAnswerText)
  {
    var lines := Split(content);
    var q := Lower(question);
    var k := FirstMatch(q, lines).value;
    assert !(k < i) && !(i < k);
  }

  /** The first match and the line after it decide: FAQ lines appended after a newline change nothing. */
  lemma LookupIgnoresLaterText(question: string, content: string, more: string, i: nat)
    requires IsFirstMatch(Lower(question), Split(content), i)
    requires i + 1 < |Split(content)|
    ensures Lookup(question, content + "\n" + more) == Lookup(question, content)
  {
    var q := Lower(question);
    var lines := Split(content);
    SplitAppend(content, more);
    var all := Split(content + "\n" + more);
    assert all == lines + Split(more);
    assert IsFirstMatch(q, all, i);
    LookupFirstMatch(question, content, i);
    LookupFirstMatch(question, content + "\n" + more, i);
  }

  /** Lower-casing the question first does not change the reply. */
  lemma LookupIgnoresQuestionCase(question: string, content: string)
    ensures Lookup(Lower(question), content) == Lookup(question, content)
  {
    LowerIdempotent(question);
  }

  /**
   * Two FAQs whose lines match the question at the same positions, and whose
   * lines right after a matching line agree, give the same reply.
   */
  lemma {:induction false} LookupDependsOnMatchesAndAnswers(question: string, c1: string, c2: string)
    requires |Split(c1)| == |Split(c2)|
    requires forall j | 0 <= j < |Split(c1)| ::
      LineMatches(Lower(question), Split(c1)[j]) <==> LineMatches(Lower(question), Split(c2)[j])
    requires forall j | 0 < j < |Split(c1)| ::
      LineMatches(Lower(question), Split(c1)[j - 1]) ==> Split(c1)[j] == Split(c2)[j]
    ensures Lookup(question, c1) == Lookup(question, c2)
  {
    var q := Lower(question);
    var l1, l2 := Split(c1), Split(c2);
    match FirstMatch(q, l1)
    case None =>
    case Some(i) =>
      assert IsFirstMatch(q, l2, i);
      LookupFirstMatch(question, c1, i);
      LookupFirstMatch(question, c2, i);
  }

  /**
   * The empty question is contained in every line, so it matches line 0: the
   * reply is line 1, or `NoAnswerText` when the FAQ has no newline at all.
   */
  lemma EmptyQuestionMatchesFirstLine(content: string)
    ensures Count(content, '\n') == 0 ==> Lookup("", content) == Some(NoAnswerText)
    ensures Count(content, '\n') > 0 ==> Lookup("", content) == Some(Split(content)[1])
  {
    var lines := Split(content);
    ContainsEmpty(Lower(lines[0]));
    assert Lower("") == "";
    assert IsFirstMatch("", lines, 0);
    LookupFirstMatch("", content, 0);
  }

  /** A question found nowhere gives `None`, not `NoAnswerText`: here, an empty FAQ. */
  lemma NoMatchIsNone(question: string)
    requires question != ""
    ensures Lookup(question, "") == None
  {
    var q := Lower(question);
    assert Split("") == [""];
    assert Lower("") == "";
    assert !Contains("", q) by {
      forall k: nat | k <= 0 ensures !OccursAt(q, "", k) {
      }
    }
    LookupNoneIff(question, "");
  }

  // ===========================================================================
  // find_faq_file_in_folder: choosing the FAQ file
  // ===========================================================================

  /** One entry of the Drive folder listing: the file's `id` and `name`. */
  datatype DriveFile = DriveFile(id: string, name: string)

  /** The file name contains "faq", ignoring case. */
  predicate IsFaqName(name: string)
  {
    Contains(Lower(name), "faq")
  }

  /** `files[k]` is the first file, in listing order, with an FAQ name. */
  predicate IsFirstFaqFile(files: seq<DriveFile>, k: nat)
  {
    && k < |files|
    && IsFaqName(files[k].name)
    && forall j | 0 <= j < k :: !IsFaqName(files[j].name)
  }

  /**
   * The loop of `find_faq_file_in_folder` over the folder listing: the id of
   * the first file whose name contains "faq", or `None`.
   */
  method FindFaqFile(files: seq<DriveFile>) returns (faqFileId: Option<string>)
    ensures faqFileId.None? <==> forall j | 0 <= j < |files| :: !IsFaqName(files[j].name)
    ensures faqFileId.Some? ==> exists k: nat :: IsFirstFaqFile(files, k) && faqFileId.value == files[k].id
  {
    faqFileId := None;
    var i := 0;
    while i < |files|
      invariant i <= |files|
      invariant faqFileId.None?
      invariant forall j | 0 <= j < i :: !IsFaqName(files[j].name)
    {
      if Contains(Lower(files[i].name), "faq") {
        faqFileId := Some(files[i].id);
        assert IsFirstFaqFile(files, i);
        break;
      }
      i := i + 1;
    }
  }

  /** At most one file is the first FAQ file, so the chosen id is determined by the listing. */
  lemma FirstFaqFileUnique(files: seq<DriveFile>, k1: nat, k2: nat)
    requires IsFirstFaqFile(files, k1) && IsFirstFaqFile(files, k2)
    ensures k1 == k2
  {
  }

  // ===========================================================================
  // on_message: the argument of a command
  // ===========================================================================

  const AskCommand := "!ask"
  const FaqCommand := "!faq"

  /**
   * `message[len(command + ' '):].strip()`: the text after the command and
   * one more character, without surrounding whitespace.
   */
  function CommandArgument(message: string, command: string): (arg: string)
    ensures IsStripOf(SliceFrom(message, |command| + 1), arg)
  {
    Strip(SliceFrom(message, |command| + 1))
  }

  /** The text `on_message` hands to the OpenAI responder, for a message starting with `!ask`. */
  function AskArgument(message: string): (arg: Option<string>)
    ensures arg.Some? <==> StartsWith(message, AskCommand)
    ensures arg.Some? ==> IsStripOf(SliceFrom(message, |AskCommand| + 1), arg.value)
  {
    if StartsWith(message, AskCommand) then Some(CommandArgument(message, AskCommand)) else None
  }

  /** The question `on_message` hands to `search_faq`, for a message starting with `!faq`. */
  function FaqQuestion(message: string): (question: Option<string>)
    ensures question.Some? <==> StartsWith(message, FaqCommand)
    ensures question.Some? ==> IsStripOf(SliceFrom(message, |FaqCommand| + 1), question.value)
  {
    if StartsWith(message, FaqCommand) then Some(CommandArgument(message, FaqCommand)) else None
  }

  /**
   * For a `!faq` message, the question is what follows the fifth character,
   * stripped; the fifth character is dropped whatever it is, so "!faqhours"
   * asks about "ours".
   */
  lemma FaqQuestionOfMessage(c: char, rest: string)
    ensures FaqQuestion(FaqCommand + [c] + rest) == Some(Strip(rest))
  {
    var m := FaqCommand + [c] + rest;
    assert m[..4] == FaqCommand;
    assert m[5..] == rest;
  }

  /** The bare command "!faq" asks the empty question. */
  lemma BareFaqCommand()
    ensures FaqQuestion(FaqCommand) == Some("")
  {
    assert StartsWith(FaqCommand, FaqCommand);
  }

  /** The bare command "!ask" gives the empty argument. */
  lemma BareAskCommand()
    ensures AskArgument(AskCommand) == Some("")
  {
    assert StartsWith(AskCommand, AskCommand);
  }

  /** The `!ask` argument is formed the same way. */
  lemma AskArgumentOfMessage(c: char, rest: string)
    ensures AskArgument(AskCommand + [c] + rest) == Some(Strip(rest))
  {
    var m := AskCommand + [c] + rest;
    assert m[..4] == AskCommand;
    assert m[5..] == rest;
  }

  /** A message is either an `!ask` or a `!faq` command, never both. */
  lemma CommandsExclusive(message: string)
    ensures !(AskArgument(message).Some? && FaqQuestion(message).Some?)
  {
  }
}
