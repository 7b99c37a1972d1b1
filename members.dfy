/**
 * The shapes both screens share: a member record as GET /members returns it,
 * restricted to the fields the modelled logic reads, and the two ways a
 * request can end.
 */
module Members {

  import opened Options

  /**
   * One member. `id` is the record's `_id` (the key the table and the delete
   * use). `epf` and `name` are the text their values print as; `welfareNo`
   * is numeric. Any of these three may be absent from a record.
   */
  datatype Member = Member(id: string, epf: Option<string>, welfareNo: Option<int>, name: Option<string>)

  /** A member that carries a welfare number, the key the directory sorts by. */
  type NumberedMember = m: Member | m.welfareNo.Some? witness Member("", None, Some(0), None)

  /** What an awaited GET produced: the response body, or a rejection caught by `catch`. */
  datatype Response<+T> = Received(data: T) | Rejected

  /** Whether an awaited write (DELETE, POST) resolved or rejected. */
  datatype Outcome = Succeeded | Failed

}
