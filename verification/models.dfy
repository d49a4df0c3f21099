/** The two record types of the service: a question row and a user account. */
module Models {

  /**
   * One row of the question bank (`CSVQuestion`). The optional answer `responseD`
   * and the `remark` default to the empty string.
   */
  datatype Question = Question(
    question: string,
    subject: string,
    use: string,
    correct: string,
    responseA: string,
    responseB: string,
    responseC: string,
    responseD: string := "",
    remark: string := "")

  /** A user account; `password` holds the password hash, never the plain text. */
  datatype User = User(id: int, name: string, password: string)

  /** Two rows denote the same question when both the text and the subject agree. */
  predicate SameKey(a: Question, b: Question) {
    a.question == b.question && a.subject == b.subject
  }
}
