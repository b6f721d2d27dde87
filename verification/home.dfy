/** The question library page of the quiz client: the list of questions, the
    search over it, creation, editing and the two-step delete. As in the
    editor, each handler replaces the list with one computed from the old. */
module Home {
  import opened Common
  import QE = QuestionEditor

  /** A question of the library; unlike in the editor, it always has an id. */
  datatype Question = Question(id: string, text: string, answers: seq<QE.Answer>)

  datatype View = ListView | CreateView | EditView

  // ---------------------------------------------------------------------------
  // The list operations

  /** The search: the query, lower-cased, occurs in the lower-cased text. */
  predicate Matches(q: Question, query: string) {
    IsSubstring(Lower(query), Lower(q.text))
  }

  /** The questions shown: those the search matches, in library order. */
  function SearchQuestions(qs: seq<Question>, query: string): (r: seq<Question>)
    ensures IsSubsequence(r, qs)
    ensures forall q :: q in r <==> q in qs && Matches(q, query)
    ensures forall q :: multiset(r)[q] == (if Matches(q, query) then multiset(qs)[q] else 0)
  {
    Filter(qs, (q: Question) => Matches(q, query))
  }

  /** An empty query shows the whole library. */
  lemma EmptyQueryShowsAll(qs: seq<Question>)
    ensures SearchQuestions(qs, "") == qs
  {
    forall q | q in qs ensures Matches(q, "") {
      assert OccursAt(Lower(""), Lower(q.text), 0);
    }
    FilterKeepsAll(qs, (q: Question) => Matches(q, ""));
  }

  /** The question at `i` is the first of the library with the id. */
  predicate FirstWithIdAt(qs: seq<Question>, i: int, id: string) {
    0 <= i < |qs| && qs[i].id == id && forall j :: 0 <= j < i ==> qs[j].id != id
  }

  /** The first question with the selected id; none when nothing is selected. */
  function FindById(qs: seq<Question>, selected: Option<string>): (r: Option<Question>)
    ensures r.Some? ==> r.value in qs && selected == Some(r.value.id)
    ensures r.Some? ==> exists i :: FirstWithIdAt(qs, i, selected.value) && qs[i] == r.value
    ensures r.None? <==> selected.None? || forall i :: 0 <= i < |qs| ==> qs[i].id != selected.value
  {
    if qs == [] || selected.None? then None
    else if qs[0].id == selected.value then Some(qs[0])
    else
      var r := FindById(qs[1..], selected);
      assert forall i :: 1 <= i < |qs| ==> qs[i] == qs[1..][i - 1];
      if r.Some? then
        var i :| FirstWithIdAt(qs[1..], i, selected.value) && qs[1..][i] == r.value;
        assert FirstWithIdAt(qs, i + 1, selected.value);
        r
      else r
  }

  /** The library with every question of the edited one's id replaced by it. */
  function ReplaceById(qs: seq<Question>, edited: Question): (r: seq<Question>)
    ensures |r| == |qs|
    ensures forall i :: 0 <= i < |r| ==> r[i] == (if qs[i].id == edited.id then edited else qs[i])
  {
    seq(|qs|, i requires 0 <= i < |qs| => if qs[i].id == edited.id then edited else qs[i])
  }

  /** After an edit, looking up the edited id finds the new question when it
      was in the library, and every other id finds what it found before. */
  lemma {:induction false} ReplaceByIdFind(qs: seq<Question>, edited: Question, selected: string)
    ensures selected == edited.id && FindById(qs, Some(selected)).Some? ==>
      FindById(ReplaceById(qs, edited), Some(selected)) == Some(edited)
    ensures selected != edited.id ==>
      FindById(ReplaceById(qs, edited), Some(selected)) == FindById(qs, Some(selected))
  {
    if qs != [] {
      ReplaceByIdFind(qs[1..], edited, selected);
      assert ReplaceById(qs, edited)[1..] == ReplaceById(qs[1..], edited);
    }
  }

  /** The library without the questions of that id, in order. */
  function RemoveById(qs: seq<Question>, id: string): (r: seq<Question>)
    ensures IsSubsequence(r, qs)
    ensures forall q :: q in r <==> q in qs && q.id != id
    ensures forall q :: multiset(r)[q] == (if q.id != id then multiset(qs)[q] else 0)
  {
    Filter(qs, (q: Question) => q.id != id)
  }

  /** After a delete the id is gone from the library. */
  lemma RemovedIsGone(qs: seq<Question>, id: string)
    ensures FindById(RemoveById(qs, id), Some(id)).None?
  {
    var r := RemoveById(qs, id);
    forall i | 0 <= i < |r| ensures r[i].id != id {
      assert r[i] in r;
    }
  }

  // ---------------------------------------------------------------------------
  // The page

  class HomePage {
    var view: View
    var searchQuery: string
    var deleteDialogOpen: bool
    var selectedQuestionId: Option<string>
    var questions: seq<Question>

    /** The page as it first renders, on the library it starts with. */
    constructor (library: seq<Question>)
      ensures view == ListView && searchQuery == "" && !deleteDialogOpen && selectedQuestionId.None?
      ensures questions == library
      ensures FilteredQuestions() == library
    {
      view, searchQuery, deleteDialogOpen, selectedQuestionId := ListView, "", false, None;
      questions := library;
      EmptyQueryShowsAll(library);
    }

    /** The questions listed under the search bar. */
    function FilteredQuestions(): seq<Question>
      reads this
    {
      SearchQuestions(questions, searchQuery)
    }

    /** The question the editor is opened on. */
    function SelectedQuestion(): Option<Question>
      reads this
    {
      FindById(questions, selectedQuestionId)
    }

    /** The editor of the edit view renders only for a question that exists. */
    predicate EditorShown()
      reads this
    {
      view == EditView && SelectedQuestion().Some?
    }

    method SetSearchQuery(query: string)
      modifies this
      ensures searchQuery == query
      ensures questions == old(questions) && view == old(view) && selectedQuestionId == old(selectedQuestionId)
      ensures deleteDialogOpen == old(deleteDialogOpen)
      ensures forall q :: q in FilteredQuestions() <==> q in questions && Matches(q, query)
    {
      searchQuery := query;
    }

    method OpenCreate()
      modifies this
      ensures view == CreateView && questions == old(questions) && selectedQuestionId == old(selectedQuestionId)
      ensures searchQuery == old(searchQuery) && deleteDialogOpen == old(deleteDialogOpen)
    {
      view := CreateView;
    }

    /** The save of a new question: it goes first in the library, under an
        id taken from the clock, and the list view returns. */
    method HandleCreateQuestion(text: string, answers: seq<QE.Answer>, freshId: string)
      modifies this
      ensures questions == [Question(freshId, text, answers)] + old(questions)
      ensures |questions| == |old(questions)| + 1 && questions[1..] == old(questions)
      ensures view == ListView
      ensures selectedQuestionId == old(selectedQuestionId) && searchQuery == old(searchQuery)
      ensures deleteDialogOpen == old(deleteDialogOpen)
    {
      questions := [Question(freshId, text, answers)] + questions;
      view := ListView;
    }

    /** The save of an edited question: when it has a (non-empty) id, every
        question of that id is replaced; the list view returns and the
        selection is cleared either way. */
    method HandleEditQuestion(saved: QE.Question)
      modifies this
      ensures saved.id.Some? && saved.id.value != "" ==>
        questions == ReplaceById(old(questions), Question(saved.id.value, saved.text, saved.answers))
      ensures saved.id.None? || saved.id.value == "" ==> questions == old(questions)
      ensures |questions| == |old(questions)|
      ensures view == ListView && selectedQuestionId.None?
      ensures searchQuery == old(searchQuery) && deleteDialogOpen == old(deleteDialogOpen)
    {
      if saved.id.Some? && saved.id.value != "" {
        questions := ReplaceById(questions, Question(saved.id.value, saved.text, saved.answers));
      }
      view := ListView;
      selectedQuestionId := None;
    }

    /** The first step of a delete: remember the question and open the dialog. */
    method HandleDeleteQuestion(id: string)
      modifies this
      ensures selectedQuestionId == Some(id) && deleteDialogOpen
      ensures questions == old(questions) && view == old(view) && searchQuery == old(searchQuery)
    {
      selectedQuestionId := Some(id);
      deleteDialogOpen := true;
    }

    /** The confirmation: the selected question leaves the library and the
        selection is cleared; with nothing (or an empty id) selected nothing
        changes. The dialog closes either way. */
    method ConfirmDelete()
      modifies this
      ensures old(selectedQuestionId).Some? && old(selectedQuestionId).value != "" ==>
        && questions == RemoveById(old(questions), old(selectedQuestionId).value)
        && FindById(questions, old(selectedQuestionId)).None?
        && selectedQuestionId.None?
      ensures old(selectedQuestionId).None? || old(selectedQuestionId).value == "" ==>
        questions == old(questions) && selectedQuestionId == old(selectedQuestionId)
      ensures !deleteDialogOpen && view == old(view) && searchQuery == old(searchQuery)
    {
      if selectedQuestionId.Some? && selectedQuestionId.value != "" {
        RemovedIsGone(questions, selectedQuestionId.value);
        questions := RemoveById(questions, selectedQuestionId.value);
        selectedQuestionId := None;
      }
      deleteDialogOpen := false;
    }

    /** The dialog's own open/close control. */
    method SetDeleteDialogOpen(open: bool)
      modifies this
      ensures deleteDialogOpen == open
      ensures questions == old(questions) && selectedQuestionId == old(selectedQuestionId) && view == old(view)
      ensures searchQuery == old(searchQuery)
    {
      deleteDialogOpen := open;
    }

    /** Opens the editor on a question. */
    method StartEdit(id: string)
      modifies this
      ensures selectedQuestionId == Some(id) && view == EditView
      ensures questions == old(questions) && searchQuery == old(searchQuery) && deleteDialogOpen == old(deleteDialogOpen)
      ensures EditorShown() <==> exists i :: 0 <= i < |questions| && questions[i].id == id
    {
      selectedQuestionId := Some(id);
      view := EditView;
    }

    method CancelCreate()
      modifies this
      ensures view == ListView && questions == old(questions) && selectedQuestionId == old(selectedQuestionId)
      ensures searchQuery == old(searchQuery) && deleteDialogOpen == old(deleteDialogOpen)
    {
      view := ListView;
    }

    method CancelEdit()
      modifies this
      ensures view == ListView && selectedQuestionId.None? && questions == old(questions)
      ensures searchQuery == old(searchQuery) && deleteDialogOpen == old(deleteDialogOpen)
    {
      view := ListView;
      selectedQuestionId := None;
    }
  }
}
