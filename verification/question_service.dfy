/**
 * The question service: the lists of known subjects and uses, and the two
 * operations that load the stored dataset and hand it to the question bank.
 * Loading the CSV file becomes the `stored` parameter.
 */
module QuestionService {
  import opened Wrappers
  import opened Unique
  import opened Models
  import opened CsvManagement

  /** The HTTP layer accepts `0 < num_questions <= 20`. */
  const MaxQuestions: nat := 20

  /** `get_subjects`: each subject of the stored rows once, in order of first appearance. */
  function GetSubjects(stored: seq<Question>): (subjects: seq<string>)
    ensures NoDuplicates(subjects)
    ensures forall s :: s in subjects <==> HasSubject(stored, s)
    ensures InFirstSeenOrder(SubjectColumn(stored), subjects)
  {
    DistinctIsFirstSeenListing(SubjectColumn(stored));
    SubjectsListsEverySubject(stored);
    Subjects(stored)
  }

  /** `get_uses`: each use of the stored rows once, in order of first appearance. */
  function GetUses(stored: seq<Question>): (uses: seq<string>)
    ensures NoDuplicates(uses)
    ensures forall u :: u in uses <==> HasUse(stored, u)
    ensures InFirstSeenOrder(UseColumn(stored), uses)
  {
    DistinctIsFirstSeenListing(UseColumn(stored));
    UsesListsEveryUse(stored);
    Uses(stored)
  }

  /** Rows sharing one subject and one use yield one-element listings. */
  lemma SingleSubjectAndUse(stored: seq<Question>)
    requires |stored| == 2
    requires stored[0].subject == stored[1].subject && stored[0].use == stored[1].use
    ensures GetSubjects(stored) == [stored[0].subject]
    ensures GetUses(stored) == [stored[0].use]
  {
  }

  /** `find_questions`: `get_questions` on the stored rows. */
  method FindQuestions(use: string, subjects: seq<string>, n: nat, stored: seq<Question>)
    returns (r: Result<seq<Question>, QuestionError>)
    requires 0 < n <= MaxQuestions
    ensures IsSelection(use, subjects, n, stored, r)
  {
    r := GetQuestions(use, subjects, n, stored);
  }

  /**
   * `create_question`: returns its argument together with the rows stored
   * afterwards. A duplicate or an answerless question leaves the rows as they
   * were and is still returned as if it had been created.
   */
  function CreateQuestion(q: Question, stored: seq<Question>): (r: (Question, seq<Question>))
    ensures r.0 == q
    ensures r.1 == if HasKey(stored, q) || q.correct == "" then stored else stored + [q]
  {
    var after := StoredAfterAdd(q, stored);
    assert AddQuestion(q, stored).Some? ==> after == stored + [q];
    (q, after)
  }
}
