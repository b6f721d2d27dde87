/** The question editor of the quiz client: the list of answer options a
    question is edited with, and what it hands back on save. Each handler
    replaces the list with a new one computed from the old, so the list
    operations are functions and the editor's state is a class. */
module QuestionEditor {
  import opened Common

  datatype Answer = Answer(id: string, text: string, isCorrect: bool)

  /** A question as the editor receives and saves it; a new one has no id. */
  datatype Question = Question(id: Option<string>, text: string, answers: seq<Answer>)

  /** The answers of a new question: two empty options, neither correct. */
  const DefaultAnswers: seq<Answer> := [Answer("1", "", false), Answer("2", "", false)]

  function Ids(answers: seq<Answer>): seq<string>
    ensures |Ids(answers)| == |answers|
    ensures forall i :: 0 <= i < |answers| ==> Ids(answers)[i] == answers[i].id
  {
    seq(|answers|, i requires 0 <= i < |answers| => answers[i].id)
  }

  /** No two options share an id. */
  predicate DistinctIds(answers: seq<Answer>) {
    forall i, j :: 0 <= i < j < |answers| ==> answers[i].id != answers[j].id
  }

  // ---------------------------------------------------------------------------
  // The list operations

  /** The options without those whose id is `id`, in order. */
  function WithoutId(answers: seq<Answer>, id: string): (r: seq<Answer>)
    ensures IsSubsequence(r, answers)
    ensures forall a :: a in r <==> a in answers && a.id != id
    ensures forall a :: multiset(r)[a] == (if a.id != id then multiset(answers)[a] else 0)
  {
    Filter(answers, (a: Answer) => a.id != id)
  }

  /** With distinct ids, removing by id drops at most one option, so a list
      of more than two options keeps at least two. */
  lemma RemoveKeepsTwo(answers: seq<Answer>, id: string)
    requires DistinctIds(answers) && |answers| > 2
    ensures |WithoutId(answers, id)| >= 2
    ensures |WithoutId(answers, id)| + 1 >= |answers|
  {
    FilterDropsAtMostOne(answers, (a: Answer) => a.id != id);
  }

  /** Removing an id no option has changes nothing. */
  lemma RemoveAbsentId(answers: seq<Answer>, id: string)
    requires id !in Ids(answers)
    ensures WithoutId(answers, id) == answers
  {
    forall a | a in answers ensures a.id != id {
      var i :| 0 <= i < |answers| && answers[i] == a;
      assert Ids(answers)[i] == a.id;
    }
    FilterKeepsAll(answers, (a: Answer) => a.id != id);
  }

  /** The options with the text of those whose id is `id` replaced: length,
      order, ids and correctness stay. */
  function WithText(answers: seq<Answer>, id: string, text: string): (r: seq<Answer>)
    ensures |r| == |answers|
    ensures forall i :: 0 <= i < |r| ==> r[i].id == answers[i].id && r[i].isCorrect == answers[i].isCorrect
    ensures forall i :: 0 <= i < |r| ==> r[i].text == (if answers[i].id == id then text else answers[i].text)
  {
    seq(|answers|, i requires 0 <= i < |answers| =>
      if answers[i].id == id then answers[i].(text := text) else answers[i])
  }

  /** Every option marked correct exactly when its id is `id`; ids, texts and
      order stay. */
  function MarkCorrect(answers: seq<Answer>, id: string): (r: seq<Answer>)
    ensures |r| == |answers|
    ensures forall i :: 0 <= i < |r| ==> r[i].id == answers[i].id && r[i].text == answers[i].text
    ensures forall i :: 0 <= i < |r| ==> (r[i].isCorrect <==> answers[i].id == id)
  {
    seq(|answers|, i requires 0 <= i < |answers| => answers[i].(isCorrect := answers[i].id == id))
  }

  /** Marking the same option twice is marking it once. */
  lemma MarkCorrectIdempotent(answers: seq<Answer>, id: string)
    ensures MarkCorrect(MarkCorrect(answers, id), id) == MarkCorrect(answers, id)
  {
  }

  /** The option at `i` is correct and none before it is. */
  predicate FirstCorrect(answers: seq<Answer>, i: int) {
    0 <= i < |answers| && answers[i].isCorrect && forall j :: 0 <= j < i ==> !answers[j].isCorrect
  }

  /** The id the radio group shows as selected: that of the first correct
      option, or the empty string when none is correct. */
  function CorrectAnswerId(answers: seq<Answer>): (r: string)
    ensures (forall i :: 0 <= i < |answers| ==> !answers[i].isCorrect) ==> r == ""
    ensures forall i :: FirstCorrect(answers, i) ==> r == answers[i].id
  {
    if answers == [] then ""
    else if answers[0].isCorrect then answers[0].id
    else
      var r := CorrectAnswerId(answers[1..]);
      assert forall i :: 1 <= i < |answers| ==> answers[i] == answers[1..][i - 1];
      r
  }

  /** After an option is marked, the radio group shows it, whichever option
      was correct before; with no option of that id it shows nothing. */
  lemma {:induction false} CorrectAfterMark(answers: seq<Answer>, id: string)
    ensures id in Ids(answers) ==> CorrectAnswerId(MarkCorrect(answers, id)) == id
    ensures id !in Ids(answers) ==> CorrectAnswerId(MarkCorrect(answers, id)) == ""
  {
    var r := MarkCorrect(answers, id);
    if id in Ids(answers) {
      var k :| 0 <= k < |answers| && Ids(answers)[k] == id;
      var i := FirstWithId(answers, id, k);
      assert FirstCorrect(r, i);
    } else {
      forall i | 0 <= i < |r| ensures !r[i].isCorrect {
        assert Ids(answers)[i] == answers[i].id;
      }
    }
  }

  /** The first option with the id, given one at `k`. */
  lemma {:induction false} FirstWithId(answers: seq<Answer>, id: string, k: nat) returns (i: nat)
    requires k < |answers| && answers[k].id == id
    ensures i <= k && answers[i].id == id
    ensures forall j :: 0 <= j < i ==> answers[j].id != id
    decreases k
  {
    if exists j :: 0 <= j < k && answers[j].id == id {
      var j :| 0 <= j < k && answers[j].id == id;
      i := FirstWithId(answers, id, j);
    } else {
      i := k;
    }
  }

  /** The options whose text is not blank once trimmed, in order: what a save
      hands over. */
  function Filled(answers: seq<Answer>): (r: seq<Answer>)
    ensures IsSubsequence(r, answers)
    ensures forall a :: a in r <==> a in answers && Trim(a.text) != []
    ensures forall a :: multiset(r)[a] == (if Trim(a.text) != [] then multiset(answers)[a] else 0)
  {
    Filter(answers, (a: Answer) => Trim(a.text) != [])
  }

  /** A saved option has a character that is not white space, and every
      option that has one is saved. */
  lemma FilledIff(answers: seq<Answer>, a: Answer)
    ensures a in Filled(answers) <==> a in answers && exists i :: 0 <= i < |a.text| && !IsJsSpace(a.text[i])
  {
    TrimmedEmptyIff(a.text);
  }

  // ---------------------------------------------------------------------------
  // The editor

  class Editor {
    /** The question being edited, if any. */
    const question: Option<Question>
    var questionText: string
    var answers: seq<Answer>

    /** The editor opened on a question, or on a new one. */
    constructor (question: Option<Question>)
      ensures this.question == question
      ensures questionText == (if question.Some? then question.value.text else "")
      ensures answers == (if question.Some? then question.value.answers else DefaultAnswers)
      ensures question.None? ==> |answers| == 2 && DistinctIds(answers) && CorrectAnswerId(answers) == ""
    {
      this.question := question;
      questionText := if question.Some? then question.value.text else "";
      answers := if question.Some? then question.value.answers else DefaultAnswers;
    }

    method SetQuestionText(text: string)
      modifies this
      ensures questionText == text && answers == old(answers)
    {
      questionText := text;
    }

    /** Appends an empty, non-correct option; `freshId` is the clock's
        reading rendered as a string. */
    method AddAnswer(freshId: string)
      modifies this
      ensures answers == old(answers) + [Answer(freshId, "", false)]
      ensures questionText == old(questionText)
      ensures freshId !in Ids(old(answers)) && DistinctIds(old(answers)) ==> DistinctIds(answers)
    {
      answers := answers + [Answer(freshId, "", false)];
      assert forall i :: 0 <= i < |old(answers)| ==> Ids(old(answers))[i] == old(answers)[i].id;
    }

    /** Removes the options with the id, unless there are only two or fewer. */
    method RemoveAnswer(id: string)
      modifies this
      ensures answers == (if |old(answers)| > 2 then WithoutId(old(answers), id) else old(answers))
      ensures questionText == old(questionText)
      ensures DistinctIds(old(answers)) && |old(answers)| >= 2 ==> |answers| >= 2
    {
      if |answers| > 2 {
        if DistinctIds(answers) {
          RemoveKeepsTwo(answers, id);
        }
        answers := WithoutId(answers, id);
      }
    }

    method UpdateAnswerText(id: string, text: string)
      modifies this
      ensures answers == WithText(old(answers), id, text)
      ensures questionText == old(questionText)
    {
      answers := WithText(answers, id, text);
    }

    method SetCorrectAnswer(id: string)
      modifies this
      ensures answers == MarkCorrect(old(answers), id)
      ensures questionText == old(questionText)
      ensures id in Ids(old(answers)) ==> CorrectAnswerId(answers) == id
    {
      CorrectAfterMark(answers, id);
      answers := MarkCorrect(answers, id);
    }

    /** The question handed to the save callback: the original id, the text,
        and the options that are not blank. */
    method Save() returns (saved: Question)
      ensures saved.id == (if question.Some? then question.value.id else None)
      ensures saved.text == questionText
      ensures saved.answers == Filled(answers)
      ensures forall a :: a in saved.answers ==> a in answers && Trim(a.text) != []
    {
      saved := Question(if question.Some? then question.value.id else None, questionText, Filled(answers));
    }
  }
}
