/**
 * The question bank: cleaning of a freshly read CSV, the existence checks, the
 * filtered random selection of questions, and appending a question.
 *
 * The dataset is an in-memory `seq<Question>`. Reading and writing the CSV file
 * become "take the rows" and "return the rows to write".
 */
module CsvManagement {
  import opened Wrappers
  import opened Unique
  import opened Models

  // ---------------------------------------------------------------------------
  // Cleaning a freshly downloaded dataset (load_csv)
  // ---------------------------------------------------------------------------

  /** The misspelt subject label found in the published data set ... */
  const TypoSubject: string := "Sytèmes distribués"
  /** ... and the label it is replaced with. */
  const CorrectedSubject: string := "Systèmes distribués"

  /** A row as the CSV reader yields it: a blank cell is `None` (NaN in pandas). */
  datatype RawRow = RawRow(
    question: Option<string>,
    subject: Option<string>,
    use: Option<string>,
    correct: Option<string>,
    responseA: Option<string>,
    responseB: Option<string>,
    responseC: Option<string>,
    responseD: Option<string>,
    remark: Option<string>)

  /** Replaces the misspelt subject label; every other value, NaN included, is kept. */
  function FixSubject(subject: Option<string>): (r: Option<string>)
    ensures r != Some(TypoSubject)
    ensures subject != Some(TypoSubject) ==> r == subject
    ensures subject == Some(TypoSubject) ==> r == Some(CorrectedSubject)
  {
    if subject == Some(TypoSubject) then Some(CorrectedSubject) else subject
  }

  /** A row survives cleaning only if its `correct` cell is present and non-empty. */
  predicate HasAnswer(row: RawRow) {
    row.correct.Some? && row.correct.value != ""
  }

  /** The question a surviving row becomes: subject corrected, NaN cells turned into "". */
  function CleanRow(row: RawRow): Question {
    var subject := FixSubject(row.subject);
    Question(
      row.question.GetOr(""), subject.GetOr(""), row.use.GetOr(""), row.correct.GetOr(""),
      row.responseA.GetOr(""), row.responseB.GetOr(""), row.responseC.GetOr(""),
      row.responseD.GetOr(""), row.remark.GetOr(""))
  }

  /** Questions the cleaning pass would keep unchanged: an answer and no misspelt subject. */
  predicate IsCleanQuestion(q: Question) {
    q.correct != "" && q.subject != TypoSubject
  }

  /**
   * The cleaning pass of `load_csv`: fix the subject typo, drop rows whose answer
   * is missing or empty, fill the remaining blanks with "". All four steps act
   * row by row, so they are applied to one row at a time, in order.
   */
  function Clean(rows: seq<RawRow>): (r: seq<Question>)
    ensures forall i :: 0 <= i < |r| ==> IsCleanQuestion(r[i])
    ensures |r| <= |rows|
    ensures |r| == |rows| <==> forall i :: 0 <= i < |rows| ==> HasAnswer(rows[i])
  {
    if |rows| == 0 then []
    else
      var rest := Clean(rows[1..]);
      assert forall i :: 1 <= i < |rows| ==> rows[i] == rows[1..][i - 1];
      if HasAnswer(rows[0]) then [CleanRow(rows[0])] + rest else rest
  }

  /** A single row is kept, cleaned, exactly when it has an answer. */
  lemma CleanSingleRow(row: RawRow)
    ensures Clean([row]) == if HasAnswer(row) then [CleanRow(row)] else []
  {
  }

  /**
   * Cleaning acts row by row: cleaning a concatenation is concatenating the
   * cleaned parts. With `CleanSingleRow` this fixes the result completely:
   * every answered row, duplicates included, in input order, and nothing else.
   */
  lemma {:induction false} CleanDistributes(a: seq<RawRow>, b: seq<RawRow>)
    ensures Clean(a + b) == Clean(a) + Clean(b)
  {
    if |a| == 0 {
      assert a + b == b;
    } else {
      assert (a + b)[1..] == a[1..] + b;
      CleanDistributes(a[1..], b);
    }
  }

  /** A stored question seen as a raw row: every cell present. */
  function ToRawRow(q: Question): RawRow {
    RawRow(Some(q.question), Some(q.subject), Some(q.use), Some(q.correct),
           Some(q.responseA), Some(q.responseB), Some(q.responseC), Some(q.responseD), Some(q.remark))
  }

  /** The stored questions seen as raw rows, one per question, in order. */
  function ToRawRows(d: seq<Question>): (rows: seq<RawRow>)
    ensures |rows| == |d| && forall i :: 0 <= i < |d| ==> rows[i] == ToRawRow(d[i])
  {
    seq(|d|, i requires 0 <= i < |d| => ToRawRow(d[i]))
  }

  /** Cleaning rows that are already clean changes nothing. */
  lemma {:induction false} CleanOfCleanIsIdentity(d: seq<Question>)
    requires forall i :: 0 <= i < |d| ==> IsCleanQuestion(d[i])
    ensures Clean(ToRawRows(d)) == d
  {
    if |d| > 0 {
      assert ToRawRows(d)[1..] == ToRawRows(d[1..]);
      CleanOfCleanIsIdentity(d[1..]);
      assert CleanRow(ToRawRow(d[0])) == d[0];
      assert d == [d[0]] + d[1..];
    }
  }

  /** Cleaning is idempotent: a second pass over the cleaned data gives it back. */
  lemma CleanIsIdempotent(rows: seq<RawRow>)
    ensures Clean(ToRawRows(Clean(rows))) == Clean(rows)
  {
    CleanOfCleanIsIdentity(Clean(rows));
  }

  /** Every cleaned question comes from an answered input row, and every answered row yields one. */
  lemma {:induction false} CleanKeepsExactlyAnsweredRows(rows: seq<RawRow>, q: Question)
    ensures q in Clean(rows) <==> exists i :: 0 <= i < |rows| && HasAnswer(rows[i]) && CleanRow(rows[i]) == q
  {
    if |rows| > 0 {
      CleanKeepsExactlyAnsweredRows(rows[1..], q);
      assert forall i :: 1 <= i < |rows| ==> rows[i] == rows[1..][i - 1];
      if exists i :: 0 <= i < |rows| && HasAnswer(rows[i]) && CleanRow(rows[i]) == q {
        var i :| 0 <= i < |rows| && HasAnswer(rows[i]) && CleanRow(rows[i]) == q;
        if i > 0 {
          assert HasAnswer(rows[1..][i - 1]) && CleanRow(rows[1..][i - 1]) == q;
        }
      }
    }
  }

  // ---------------------------------------------------------------------------
  // Row selection (pandas boolean masks)
  // ---------------------------------------------------------------------------

  /** The rows of `d` for which `keep` holds, in their original order (`df[mask]`). */
  function Select(d: seq<Question>, keep: Question -> bool): (r: seq<Question>)
    ensures forall x :: multiset(r)[x] == if keep(x) then multiset(d)[x] else 0
    ensures forall x :: x in r <==> x in d && keep(x)
    ensures |r| <= |d|
  {
    if |d| == 0 then []
    else
      assert d == [d[0]] + d[1..];
      (if keep(d[0]) then [d[0]] else []) + Select(d[1..], keep)
  }

  /** Some row has `use` as its use. */
  predicate HasUse(d: seq<Question>, use: string) {
    exists i :: 0 <= i < |d| && d[i].use == use
  }

  /** Some row has `subject` as its subject. */
  predicate HasSubject(d: seq<Question>, subject: string) {
    exists i :: 0 <= i < |d| && d[i].subject == subject
  }

  /** Some row has the same question text and subject as `q`. */
  predicate HasKey(d: seq<Question>, q: Question) {
    exists i :: 0 <= i < |d| && SameKey(d[i], q)
  }

  /** Every requested subject is the subject of some row. */
  predicate SubjectsKnown(d: seq<Question>, subjects: seq<string>) {
    forall s :: s in subjects ==> HasSubject(d, s)
  }

  /** The `use` column. */
  function UseColumn(d: seq<Question>): (col: seq<string>)
    ensures |col| == |d| && forall i :: 0 <= i < |d| ==> col[i] == d[i].use
  {
    seq(|d|, i requires 0 <= i < |d| => d[i].use)
  }

  /** The `subject` column. */
  function SubjectColumn(d: seq<Question>): (col: seq<string>)
    ensures |col| == |d| && forall i :: 0 <= i < |d| ==> col[i] == d[i].subject
  {
    seq(|d|, i requires 0 <= i < |d| => d[i].subject)
  }

  /** `df['use'].unique()`. */
  function Uses(d: seq<Question>): seq<string> {
    Distinct(UseColumn(d))
  }

  /** `df['subject'].unique()`. */
  function Subjects(d: seq<Question>): seq<string> {
    Distinct(SubjectColumn(d))
  }

  /** The distinct uses are exactly the uses of the rows. */
  lemma UsesListsEveryUse(d: seq<Question>)
    ensures forall use :: use in Uses(d) <==> HasUse(d, use)
  {
  }

  /** The distinct subjects are exactly the subjects of the rows. */
  lemma SubjectsListsEverySubject(d: seq<Question>)
    ensures forall subject :: subject in Subjects(d) <==> HasSubject(d, subject)
  {
  }

  // ---------------------------------------------------------------------------
  // Existence checks
  // ---------------------------------------------------------------------------

  /** `verify_use_existance`: the use is among the distinct uses of the dataset. */
  function UseExists(use: string, d: seq<Question>): (b: bool)
    ensures b <==> HasUse(d, use)
  {
    UsesListsEveryUse(d);
    use in Uses(d)
  }

  /**
   * `verify_subject_existance`: scans the requested subjects and stops at the
   * first one that is not a subject of the dataset; an empty request passes.
   */
  function SubjectsExist(subjects: seq<string>, d: seq<Question>): (b: bool)
    ensures b <==> SubjectsKnown(d, subjects)
  {
    if |subjects| == 0 then true
    else
      assert subjects == [subjects[0]] + subjects[1..];
      SubjectsListsEverySubject(d);
      if subjects[0] !in Subjects(d) then false
      else SubjectsExist(subjects[1..], d)
  }

  /**
   * `verify_data_existance`: true when a row with the same text and subject is
   * present, and also (so that the caller refuses it) when `q` has no answer.
   */
  function DataExists(q: Question, d: seq<Question>): (b: bool)
    ensures b <==> HasKey(d, q) || q.correct == ""
  {
    var same := Select(d, row => SameKey(row, q));
    assert HasKey(d, q) ==> exists i :: 0 <= i < |d| && d[i] in same;
    assert |same| > 0 ==> same[0] in same;
    |same| > 0 || q.correct == ""
  }

  // ---------------------------------------------------------------------------
  // get_questions
  // ---------------------------------------------------------------------------

  /** A row the request asks for: the requested use and one of the requested subjects. */
  predicate Matches(q: Question, use: string, subjects: seq<string>) {
    q.use == use && q.subject in subjects
  }

  /** `df[(df['use'] == use) & (df['subject'].isin(subjects))]`. */
  function Filter(d: seq<Question>, use: string, subjects: seq<string>): (r: seq<Question>)
    ensures forall x :: multiset(r)[x] == if x.use == use && x.subject in subjects then multiset(d)[x] else 0
    ensures forall x :: x in r <==> x in d && x.use == use && x.subject in subjects
  {
    Select(d, q => Matches(q, use, subjects))
  }

  /** Why `get_questions` refused; each carries what the error message lists. */
  datatype QuestionError =
    | UnknownUse(availableUses: seq<string>)
    | UnknownSubjects(availableSubjects: seq<string>)
    | NotEnoughQuestions(available: nat)

  /**
   * `DataFrame.sample(n)`: `n` rows drawn without replacement. Which rows, and
   * in which order, is left to an arbitrary choice at each draw.
   */
  method Sample(rows: seq<Question>, n: nat) returns (picked: seq<Question>)
    requires n <= |rows|
    ensures |picked| == n
    ensures multiset(picked) <= multiset(rows)
  {
    picked := [];
    var pool := rows;
    while |picked| < n
      invariant |picked| <= n
      invariant |picked| + |pool| == |rows|
      invariant multiset(picked) + multiset(pool) == multiset(rows)
      decreases n - |picked|
    {
      var i :| 0 <= i < |pool|;
      assert pool == pool[..i] + [pool[i]] + pool[i + 1..];
      picked := picked + [pool[i]];
      pool := pool[..i] + pool[i + 1..];
    }
  }

  /**
   * What `get_questions` may return: the use is checked first, then every
   * subject, then the number of matching rows; a success is `n` distinct
   * draws from the matching rows.
   */
  ghost predicate IsSelection(use: string, subjects: seq<string>, n: nat, d: seq<Question>,
                              r: Result<seq<Question>, QuestionError>)
  {
    var filtered := Filter(d, use, subjects);
    if !HasUse(d, use) then r == Failure(UnknownUse(Uses(d)))
    else if !SubjectsKnown(d, subjects) then r == Failure(UnknownSubjects(Subjects(d)))
    else if |filtered| < n then r == Failure(NotEnoughQuestions(|filtered|))
    else
      && r.Success?
      && |r.value| == n
      && (forall i :: 0 <= i < |r.value| ==> Matches(r.value[i], use, subjects))
      && multiset(r.value) <= multiset(filtered)
  }

  /** `get_questions`. */
  method GetQuestions(use: string, subjects: seq<string>, n: nat, d: seq<Question>)
    returns (r: Result<seq<Question>, QuestionError>)
    ensures IsSelection(use, subjects, n, d, r)
  {
    if !UseExists(use, d) {
      return Failure(UnknownUse(Uses(d)));
    } else if !SubjectsExist(subjects, d) {
      return Failure(UnknownSubjects(Subjects(d)));
    }
    var filtered := Filter(d, use, subjects);
    if |filtered| < n {
      return Failure(NotEnoughQuestions(|filtered|));
    }
    var picked := Sample(filtered, n);
    forall i | 0 <= i < |picked|
      ensures Matches(picked[i], use, subjects)
    {
      assert picked[i] in multiset(filtered);
    }
    return Success(picked);
  }

  /** A sub-multiset as large as the whole is the whole. */
  lemma {:induction false} SubMultisetOfSameSize<T>(a: multiset<T>, b: multiset<T>)
    requires a <= b && |a| == |b|
    ensures a == b
    decreases |a|
  {
    if |a| > 0 {
      var x :| x in a;
      SubMultisetOfSameSize(a - multiset{x}, b - multiset{x});
      assert a == (a - multiset{x}) + multiset{x};
      assert b == (b - multiset{x}) + multiset{x};
    } else {
      assert |b - a| == 0;
    }
  }

  /** Asking for every matching row returns a reordering of exactly those rows. */
  lemma SelectionOfAllIsPermutation(use: string, subjects: seq<string>, d: seq<Question>,
                                    r: Result<seq<Question>, QuestionError>)
    requires IsSelection(use, subjects, |Filter(d, use, subjects)|, d, r) && r.Success?
    ensures multiset(r.value) == multiset(Filter(d, use, subjects))
  {
    SubMultisetOfSameSize(multiset(r.value), multiset(Filter(d, use, subjects)));
  }

  /**
   * The use and subject columns of the two-row data set of the repository's own
   * tests: "Exam" on "Subject 1", then "Quiz" on "Subject 2".
   */
  predicate IsTestData(d: seq<Question>) {
    && |d| == 2
    && d[0].use == "Exam" && d[0].subject == "Subject 1"
    && d[1].use == "Quiz" && d[1].subject == "Subject 2"
  }

  /** Only the first test row is an "Exam" question of "Subject 1". */
  lemma TestDataExamFilter(d: seq<Question>)
    requires IsTestData(d)
    ensures multiset(Filter(d, "Exam", ["Subject 1"])) == multiset{d[0]}
  {
  }

  /** On the test data, one "Exam" question of "Subject 1" is exactly the first row. */
  lemma TestDataSelectOne(d: seq<Question>, r: Result<seq<Question>, QuestionError>)
    requires IsTestData(d)
    requires IsSelection("Exam", ["Subject 1"], 1, d, r)
    ensures r == Success([d[0]])
  {
    assert HasUse(d, "Exam");
    assert SubjectsKnown(d, ["Subject 1"]) by {
      assert d[0].subject == "Subject 1";
    }
    TestDataExamFilter(d);
    var f := Filter(d, "Exam", ["Subject 1"]);
    assert |f| == |multiset(f)| == 1;
    assert r.value[0] in multiset(f);
    assert r.value == [r.value[0]];
  }

  /** On the test data, an unknown use is reported. */
  lemma TestDataUnknownUse(d: seq<Question>, r: Result<seq<Question>, QuestionError>)
    requires IsTestData(d)
    requires IsSelection("Non-existent Use", ["Subject 1"], 1, d, r)
    ensures r.Failure? && r.error.UnknownUse?
  {
  }

  /** "Non-existent Subject" is not a subject of the test data. */
  lemma TestDataLacksSubject(d: seq<Question>)
    requires IsTestData(d)
    ensures !SubjectsKnown(d, ["Non-existent Subject"])
  {
    assert |d[0].subject| != |"Non-existent Subject"| && |d[1].subject| != |"Non-existent Subject"|;
    assert "Non-existent Subject" in ["Non-existent Subject"];
  }

  /** On the test data, an unknown subject is reported. */
  lemma TestDataUnknownSubject(d: seq<Question>, r: Result<seq<Question>, QuestionError>)
    requires IsTestData(d)
    requires IsSelection("Exam", ["Non-existent Subject"], 1, d, r)
    ensures r.Failure? && r.error.UnknownSubjects?
  {
    assert HasUse(d, "Exam");
    TestDataLacksSubject(d);
  }

  /** Three "Exam" rows, two on "Math" and one on "Physics". */
  predicate IsExamScenario(d: seq<Question>) {
    && |d| == 3
    && d[0].use == "Exam" && d[1].use == "Exam" && d[2].use == "Exam"
    && d[0].subject == "Math" && d[1].subject == "Math" && d[2].subject == "Physics"
  }

  /** Every row of the scenario matches an "Exam" request for both subjects. */
  lemma ExamScenarioBothRows(d: seq<Question>)
    requires IsExamScenario(d)
    ensures multiset(Filter(d, "Exam", ["Math", "Physics"])) == multiset(d)
  {
  }

  /** A selection whose checks all pass draws `n` of the matching rows. */
  lemma SelectionSucceeds(use: string, subjects: seq<string>, n: nat, d: seq<Question>,
                          r: Result<seq<Question>, QuestionError>)
    requires IsSelection(use, subjects, n, d, r)
    requires HasUse(d, use) && SubjectsKnown(d, subjects) && n <= |Filter(d, use, subjects)|
    ensures r.Success? && |r.value| == n && multiset(r.value) <= multiset(Filter(d, use, subjects))
  {
  }

  /** Asking for three rows on both subjects returns all three rows, in some order. */
  lemma ExamScenarioAllRows(d: seq<Question>, r: Result<seq<Question>, QuestionError>)
    requires IsExamScenario(d)
    requires IsSelection("Exam", ["Math", "Physics"], 3, d, r)
    ensures r.Success? && multiset(r.value) == multiset(d)
  {
    var f := Filter(d, "Exam", ["Math", "Physics"]);
    ExamScenarioBothRows(d);
    assert |f| == |multiset(f)| == 3;
    assert HasUse(d, "Exam") by {
      assert d[0].use == "Exam";
    }
    assert SubjectsKnown(d, ["Math", "Physics"]) by {
      assert d[0].subject == "Math" && d[2].subject == "Physics";
    }
    SelectionSucceeds("Exam", ["Math", "Physics"], 3, d, r);
    SubMultisetOfSameSize(multiset(r.value), multiset(f));
  }

  /** Exactly the two "Math" rows of the scenario match an "Exam" request for "Math". */
  lemma ExamScenarioMathRows(d: seq<Question>)
    requires IsExamScenario(d)
    ensures |Filter(d, "Exam", ["Math"])| == 2
  {
    assert d == [d[0], d[1], d[2]];
    var m := Filter(d, "Exam", ["Math"]);
    assert !Matches(d[2], "Exam", ["Math"]);
    assert Matches(d[0], "Exam", ["Math"]) && Matches(d[1], "Exam", ["Math"]);
    var md := multiset(d);
    assert md == multiset{d[0], d[1]} + multiset{d[2]};
    assert multiset(m) == multiset{d[0], d[1]} by {
      forall x
        ensures multiset(m)[x] == multiset{d[0], d[1]}[x]
      {
        if x != d[2] {
          assert md[x] == multiset{d[0], d[1]}[x];
        }
      }
    }
    assert |m| == |multiset(m)|;
  }

  /** Asking for three "Math" rows reports that only two exist. */
  lemma ExamScenarioTooFew(d: seq<Question>, r: Result<seq<Question>, QuestionError>)
    requires IsExamScenario(d)
    requires IsSelection("Exam", ["Math"], 3, d, r)
    ensures r == Failure(NotEnoughQuestions(2))
  {
    assert HasUse(d, "Exam") by {
      assert d[0].use == "Exam";
    }
    assert SubjectsKnown(d, ["Math"]) by {
      assert d[0].subject == "Math";
    }
    ExamScenarioMathRows(d);
  }

  // ---------------------------------------------------------------------------
  // add_question
  // ---------------------------------------------------------------------------

  /**
   * `add_question`: the dataset to write back, or `None` when nothing is written.
   * A duplicate (same text and subject) or an answerless question is dropped
   * silently: the source has no `else` branch and raises nothing, although its
   * service test expects a `ValueError` in both cases.
   */
  function AddQuestion(q: Question, d: seq<Question>): (written: Option<seq<Question>>)
    ensures written.None? <==> HasKey(d, q) || q.correct == ""
    ensures written.Some? ==> |written.value| == |d| + 1 && written.value[..|d|] == d && written.value[|d|] == q
  {
    if !DataExists(q, d) then
      assert (d + [q])[..|d|] == d;
      Some(d + [q])
    else None
  }

  /** The dataset as stored after an `add_question` call. */
  function StoredAfterAdd(q: Question, d: seq<Question>): seq<Question> {
    AddQuestion(q, d).GetOr(d)
  }

  /** No two rows share question text and subject. */
  predicate KeysUnique(d: seq<Question>) {
    forall i, j :: 0 <= i < j < |d| ==> !SameKey(d[i], d[j])
  }

  /** Number of rows with the same text and subject as `q`. */
  function KeyCount(d: seq<Question>, q: Question): nat {
    if |d| == 0 then 0
    else (if SameKey(d[0], q) then 1 else 0) + KeyCount(d[1..], q)
  }

  lemma {:induction false} KeyCountZeroIffAbsent(d: seq<Question>, q: Question)
    ensures KeyCount(d, q) == 0 <==> !HasKey(d, q)
  {
    if |d| > 0 {
      KeyCountZeroIffAbsent(d[1..], q);
      if HasKey(d[1..], q) {
        var i :| 0 <= i < |d[1..]| && SameKey(d[1..][i], q);
        assert SameKey(d[i + 1], q);
      }
      if HasKey(d, q) && !SameKey(d[0], q) {
        var i :| 0 <= i < |d| && SameKey(d[i], q);
        assert SameKey(d[1..][i - 1], q);
      }
    }
  }

  lemma {:induction false} KeyCountAppend(d: seq<Question>, x: Question, q: Question)
    ensures KeyCount(d + [x], q) == KeyCount(d, q) + (if SameKey(x, q) then 1 else 0)
  {
    if |d| > 0 {
      assert (d + [x])[1..] == d[1..] + [x];
      KeyCountAppend(d[1..], x, q);
    } else {
      assert (d + [x])[1..] == [];
    }
  }

  /** A question that `add_question` writes is then present exactly once. */
  lemma AddedQuestionPresentOnce(q: Question, d: seq<Question>)
    requires AddQuestion(q, d).Some?
    ensures KeyCount(StoredAfterAdd(q, d), q) == 1
    ensures DataExists(q, StoredAfterAdd(q, d))
  {
    KeyCountZeroIffAbsent(d, q);
    KeyCountAppend(d, q, q);
    assert AddQuestion(q, d).value == d + [q];
  }

  /** Adding keeps the text-and-subject key unique across the dataset. */
  lemma AddKeepsKeysUnique(q: Question, d: seq<Question>)
    requires KeysUnique(d)
    ensures KeysUnique(StoredAfterAdd(q, d))
  {
  }

  /** Adding the same question twice writes once: the second call finds it. */
  lemma AddIsIdempotent(q: Question, d: seq<Question>)
    ensures AddQuestion(q, StoredAfterAdd(q, d)).None?
    ensures StoredAfterAdd(q, StoredAfterAdd(q, d)) == StoredAfterAdd(q, d)
  {
  }
}
