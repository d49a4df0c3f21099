# QCM question bank — Dafny model

A model of the core of a small multiple-choice-question (QCM) service: the
question bank kept in a CSV file (`api/csv_management.py`), the service
functions that read it (`api/service/question.py`) and the HTTP Basic
credential checks (`api/service/auth.py`).

The dataset is a `seq<Question>`. Reading the CSV file becomes a parameter
(`stored`), and writing it back becomes the returned sequence. pandas
`unique()` is `Unique.Distinct`: distinct values in order of first
appearance. A boolean mask `df[mask]` is `CsvManagement.Select`.
`DataFrame.sample(n)` is the method `CsvManagement.Sample`, which draws `n`
rows without replacement by an arbitrary choice (`:|`) at each step.
Raised `ValueError`s and `TypeError`s are `Result` failures. The user list
is the constant `Auth.UsersDb`. Both credential checks are functions of it,
so neither can change it.

Files:

- `wrappers.dfy`: `Option` and `Result`.
- `models.dfy`: `Question` (`CSVQuestion`) and `User`.
- `unique.dfy`: `Distinct`, with a proof that it is the one and only first-seen listing of its input.
- `csv_management.dfy`: the `load_csv` cleaning pass, the three existence checks, `get_questions` and `add_question`.
- `question_service.dfy`: `get_subjects`, `get_uses`, `find_questions` and `create_question`.
- `auth.dfy`: `users_db`, the lookup by name, `authenticate_user` and `is_admin`.

Where the code and its own tests disagree, the model follows the code:

- `add_question` raises nothing. A duplicate (same question text and subject)
  or a question with an empty `correct` is silently not written, because the
  `if` at `api/csv_management.py:131` has no `else`. The service test at
  `api/tests/test_service_question.py:74-90` expects a `ValueError` with those
  messages. The model keeps the silent no-op: `AddQuestion` returns `None`
  ("nothing written"), and `CreateQuestion` returns the question in every case.
- `secrets.compare_digest` raises `TypeError` when either string has a
  non-ASCII character. So `is_admin` raises for a non-ASCII user name, and
  `Auth.IsAdmin` returns `Failure(NonAsciiComparison)` in that case.
  `authenticate_user` compares the name only with the stored name it was just
  found under, so its name comparison never raises. `Auth.AuthenticateUser`
  proves this.

## Model

| member | source | states |
|---|---|---|
| `Unique.Distinct` | api/service/question.py:68 | the result has no duplicates, holds exactly the input's values, and is no longer than the input |
| `Unique.DistinctIsFirstSeenListing` | api/service/question.py:68 | `Distinct` lists values by strictly increasing position of first appearance |
| `Unique.FirstSeenListingIsDistinct` | api/service/question.py:68 | any duplicate-free listing of exactly the input's values, in first-seen order, equals `Distinct`; the listing is unique |
| `CsvManagement.FixSubject` | api/csv_management.py:15 | the misspelt subject label is replaced by the corrected one, and every other value, NaN included, is kept |
| `CsvManagement.Clean` | api/csv_management.py:15-18 | every cleaned row has a non-empty answer and no misspelt subject; no row is added; no row is dropped exactly when every row has an answer |
| `CsvManagement.CleanSingleRow` | api/csv_management.py:15-18 | one row is kept, with its subject fixed and blanks filled, iff its answer is present and non-empty |
| `CsvManagement.CleanDistributes` | api/csv_management.py:15-18 | cleaning acts row by row, so cleaning a concatenation concatenates the cleaned parts: every answered row survives, duplicates included, in input order |
| `CsvManagement.CleanKeepsExactlyAnsweredRows` | api/csv_management.py:16-18 | a question is in the cleaned data iff it is the cleaned form of some input row whose `correct` is present and non-empty |
| `CsvManagement.CleanOfCleanIsIdentity` | api/tests/test_csv_management.py:43-51 | cleaning rows that already have answers and no misspelt subject returns them unchanged |
| `CsvManagement.CleanIsIdempotent` | api/csv_management.py:15-18 | cleaning already-cleaned data gives it back |
| `CsvManagement.Select` | api/csv_management.py:114 | a boolean-mask selection keeps each matching row with its full multiplicity and no other row |
| `CsvManagement.Filter` | api/csv_management.py:114 | the rows of the given use and of one of the given subjects, each with its full multiplicity, and no other row |
| `CsvManagement.UsesListsEveryUse` | api/csv_management.py:53 | for every value: it is among the distinct uses iff some row has it as its use |
| `CsvManagement.SubjectsListsEverySubject` | api/csv_management.py:67 | for every value: it is among the distinct subjects iff some row has it as its subject |
| `CsvManagement.UseExists` | api/csv_management.py:42-53 | true iff some row has the given use |
| `CsvManagement.SubjectsExist` | api/csv_management.py:55-69 | true iff every requested subject is the subject of some row, so an empty request passes |
| `CsvManagement.DataExists` | api/csv_management.py:22-40 | true iff a row has the same question text and subject, or the question's answer is empty |
| `CsvManagement.Sample` | api/csv_management.py:118 | exactly `n` rows, drawn without replacement: a sub-multiset of the input |
| `CsvManagement.GetQuestions` | api/csv_management.py:96-120 | an unknown use fails first, listing the known uses; then any unknown subject fails, listing the known subjects; then too few matching rows fails with their count; otherwise exactly `n` rows, each of the use and one of the subjects, drawn without replacement from the matching rows |
| `CsvManagement.SelectionSucceeds` | api/csv_management.py:113-120 | once the use and every subject are known and enough rows match, the call succeeds with `n` rows drawn from the matching ones |
| `CsvManagement.SelectionOfAllIsPermutation` | api/csv_management.py:114-118 | asking for as many rows as match returns a reordering of exactly the matching rows |
| `CsvManagement.TestDataSelectOne` | api/tests/test_csv_management.py:119-123 | on the test data, one "Exam" question of "Subject 1" can only be the first row |
| `CsvManagement.TestDataUnknownUse` | api/tests/test_csv_management.py:125-127 | on the test data, an unknown use fails as an unknown use |
| `CsvManagement.TestDataUnknownSubject` | api/tests/test_csv_management.py:129-131 | on the test data, an unknown subject fails as an unknown subject |
| `CsvManagement.ExamScenarioAllRows` | api/csv_management.py:114-118 | with two "Math" rows and one "Physics" row, asking for three rows of both subjects returns all three rows in some order |
| `CsvManagement.ExamScenarioTooFew` | api/csv_management.py:114-116 | in the same data, asking for three "Math" rows fails and reports two available |
| `CsvManagement.AddQuestion` | api/csv_management.py:122-135 | nothing is written iff the key is already present or the answer is empty; otherwise the written data is the old rows unchanged followed by the new question, one row longer |
| `CsvManagement.AddedQuestionPresentOnce` | api/csv_management.py:131-135 | after a write, the new question's text and subject occur exactly once and the existence check finds it |
| `CsvManagement.AddKeepsKeysUnique` | api/csv_management.py:131-135 | if no two rows shared text and subject before, none do after |
| `CsvManagement.AddIsIdempotent` | api/csv_management.py:131-135 | adding the same question again writes nothing and leaves the rows as they are |
| `QuestionService.GetSubjects` | api/service/question.py:60-68 | no duplicates; a value is listed iff it is some row's subject; listed in order of first appearance |
| `QuestionService.GetUses` | api/service/question.py:70-78 | no duplicates; a value is listed iff it is some row's use; listed in order of first appearance |
| `QuestionService.SingleSubjectAndUse` | api/tests/test_service_question.py:92-102 | two rows with one subject and one use give one-element subject and use listings |
| `QuestionService.FindQuestions` | api/service/question.py:17-26 | the same outcomes as `get_questions` on the stored rows, for the counts the HTTP layer admits |
| `QuestionService.CreateQuestion` | api/service/question.py:28-40 | returns its argument unchanged; the stored rows gain the question at the end iff its key is new and its answer non-empty, else they stay as they were |
| `Auth.VerifyAcceptsOnlyHashedPassword` | api/service/auth.py:18-19 | a stored hash verifies a password iff it is the password the hash was made from |
| `Auth.FindUser` | api/service/auth.py:15-16 | no result iff no user has the name; otherwise the first user with that name |
| `Auth.GetUserByName` | api/service/auth.py:15-16 | no user iff no listed user has the name; otherwise the listed user with that name |
| `Auth.CompareDigest` | api/service/auth.py:29 | the comparison raises iff one of the strings has a non-ASCII character; otherwise it reports whether the strings are equal |
| `Auth.UserNamesAreAscii` | api/service/auth.py:8-13 | every user name in the fixed list is ASCII |
| `Auth.UserNamesAreUnique` | api/service/auth.py:8-13 | no two users in the fixed list share a name |
| `Auth.AuthenticateUser` | api/service/auth.py:26-32 | true iff a user has that name and the password verifies against that user's hash; false when no user has the name; the name comparison never raises |
| `Auth.IsAdmin` | api/service/auth.py:34-38 | the name comparison raises iff the user name is not ASCII; otherwise true iff the name is "admin" and the password verifies against the admin's hash |
| `Auth.ListedCredentialsAuthenticate` | api/service/auth.py:8-13 | each listed name with the plain-text password it was hashed from authenticates |
| `Auth.AuthenticatedCredentialsAreListed` | api/service/auth.py:26-32 | whatever authenticates is a listed name with its own plain-text password |
| `Auth.AuthenticateAcceptsListedCredentials` | api/service/auth.py:8-13 | authentication accepts exactly the four name and plain-text password pairs the user list was built from |
| `Auth.IsAdminAcceptsOnlyAdmin` | api/service/auth.py:34-38 | the admin check succeeds iff the name is "admin" and the password is the admin's |
| `Auth.AdminIsAuthenticated` | api/service/auth.py:26-38 | whoever passes the admin check also passes authentication |
| `Auth.ServiceTestAuthenticate` | api/tests/test_service_auth.py:14-17 | alice authenticates with her password and not with a wrong one; an unknown user is refused |
| `Auth.ServiceTestIsAdmin` | api/tests/test_service_auth.py:19-22 | the admin's credentials pass the admin check; alice's valid credentials and a wrong admin password do not |

## Left out

- HTTP routing, the mapping of errors to 400/401 responses, the health check and application start-up (`api/controller/`, `api/main.py`) are framework glue. Only the bound `0 < num_questions <= 20` (`api/controller/question.py:51`) is kept, as the precondition of `QuestionService.FindQuestions`.
- `qcm-api/main.py` and the two `labo.py` scripts do network requests and printing. They are not part of this model.
- Reading and writing CSV files, loading from a URL, and pandas type inference are not modelled. The stored file is taken to hold clean `Question` rows. Re-reading an empty cell as NaN is not represented.
- `convert_df_to_CSVQuestion_List` and `convert_CSVQuestion_List_to_dict_list` convert between DataFrame rows and records. Both are the identity on `seq<Question>`, which holds only under the clean-rows assumption above: a blank optional cell re-read as NaN would reach `CSVQuestion(**row)` as a float, which pydantic refuses with a `ValidationError` (a `ValueError`), so the program's `get_questions` can fail on such rows where the model succeeds.
- An optional field set to `None` (`responseD`, `remark`) is modelled as `""`, which is what an empty CSV cell becomes after cleaning.
- `delete_question` calls `remove_question`, which `api/csv_management.py` does not define. There is no code to model it against.
- The text of the error messages is left out. Each failure carries the data its message lists: the known uses, the known subjects, or the number of matching rows.
- CsvManagement.Sample: states the count and drawing without replacement, not the uniform distribution of `DataFrame.sample`, which has no counterpart in a nondeterministic model.
- Auth.Hash: keeps only that distinct passwords hash differently. Salt, one-wayness, and bcrypt's handling of passwords longer than 72 bytes are not represented. The four stored passwords are short, so truncation cannot make two of them collide.
- Auth.VerifyPassword: passlib refuses (with a `ValueError`) passwords that contain a NUL character or exceed its size limit; that refusal is not represented, and the model's verification is total.
- Auth.CompareDigest: the constant-time behaviour of `secrets.compare_digest` is not represented; it is plain string equality plus its ASCII check.
