/**
 * The refund request form of RefundForm.jsx: a four-field record edited one
 * field at a time, posted as it stands, cleared when the post succeeds and
 * kept for a retry when it fails; and the member list behind the EPF
 * suggestions, replaced by each successful fetch.
 */
module Refund {

  import opened Members

  /** The form's inputs, by their `name` attribute. */
  datatype Field = Epf | Amount | Reason | Message

  /** `formData`: the text of each input (`amount` too is the input's text). */
  datatype FormData = FormData(epf: string, amount: string, reason: string, message: string)

  /** The initial and post-success value of `formData`: every field empty. */
  const EmptyForm := FormData("", "", "", "")

  const SubmittedToast := "Form submitted successfully"
  const SubmitErrorToast := "There was an error submitting the form."

  /** The toast `handleSubmit` shows. */
  datatype Toast = SuccessToast(text: string) | ErrorToast(text: string)

  /** `formData[name]`. */
  function Get(f: FormData, name: Field): string {
    match name
    case Epf => f.epf
    case Amount => f.amount
    case Reason => f.reason
    case Message => f.message
  }

  /** `{ ...f, [name]: value }`: field `name` becomes `value`, every other field stays. */
  function Set(f: FormData, name: Field, value: string): (r: FormData)
    ensures Get(r, name) == value
    ensures forall n :: n != name ==> Get(r, n) == Get(f, n)
  {
    match name
    case Epf => f.(epf := value)
    case Amount => f.(amount := value)
    case Reason => f.(reason := value)
    case Message => f.(message := value)
  }

  /** Every field of the empty form reads as the empty string. */
  lemma EmptyFormIsBlank(n: Field)
    ensures Get(EmptyForm, n) == ""
  {
  }

  /** Two forms that read the same in every field are the same form. */
  lemma FormExtensionality(f: FormData, g: FormData)
    requires forall n :: Get(f, n) == Get(g, n)
    ensures f == g
  {
    assert Get(f, Epf) == Get(g, Epf) && Get(f, Amount) == Get(g, Amount);
    assert Get(f, Reason) == Get(g, Reason) && Get(f, Message) == Get(g, Message);
  }

  /** Typing into a field what it already holds leaves the form as it was. */
  lemma SetSameValue(f: FormData, name: Field)
    ensures Set(f, name, Get(f, name)) == f
  {
    FormExtensionality(Set(f, name, Get(f, name)), f);
  }

  /** Edits to two different fields commute. */
  lemma SetsCommute(f: FormData, m: Field, u: string, n: Field, v: string)
    requires m != n
    ensures Set(Set(f, m, u), n, v) == Set(Set(f, n, v), m, u)
  {
    FormExtensionality(Set(Set(f, m, u), n, v), Set(Set(f, n, v), m, u));
  }

  /** A later edit of the same field overrides the earlier one. */
  lemma SetOverrides(f: FormData, name: Field, u: string, v: string)
    ensures Set(Set(f, name, u), name, v) == Set(f, name, v)
  {
    FormExtensionality(Set(Set(f, name, u), name, v), Set(f, name, v));
  }

  /** The state of the RefundForm component and its handlers. */
  class RefundForm {
    var members: seq<Member>
    var formData: FormData

    constructor ()
      ensures members == [] && formData == EmptyForm
    {
      members := [];
      formData := EmptyForm;
    }

    /** `fetchMembers`: a response replaces the list as it came; a rejection (only logged) keeps it. */
    method FetchMembers(response: Response<seq<Member>>)
      modifies this`members
      ensures members == if response.Received? then response.data else old(members)
    {
      if response.Received? {
        members := response.data;
      }
    }

    /** `handleChange`: the input named `name` now holds `value`; nothing else changes. */
    method HandleChange(name: Field, value: string)
      modifies this`formData
      ensures formData == Set(old(formData), name, value)
      ensures Get(formData, name) == value
      ensures forall n :: n != name ==> Get(formData, n) == Get(old(formData), n)
    {
      formData := Set(formData, name, value);
    }

    /**
     * `handleSubmit`: posts `formData` as it stands (`payload`); `outcome` is
     * how the POST ends. On success the form is cleared, on failure it is
     * kept for a retry; either way a toast says which.
     */
    method HandleSubmit(outcome: Outcome) returns (payload: FormData, toast: Toast)
      modifies this`formData
      ensures payload == old(formData)
      ensures formData == if outcome == Succeeded then EmptyForm else old(formData)
      ensures toast == if outcome == Succeeded then SuccessToast(SubmittedToast) else ErrorToast(SubmitErrorToast)
    {
      payload := formData;
      if outcome == Succeeded {
        toast := SuccessToast(SubmittedToast);
        formData := EmptyForm;
      } else {
        toast := ErrorToast(SubmitErrorToast);
      }
    }
  }

  /**
   * A failed submission followed by a resubmission posts the same payload
   * again: nothing the user entered is lost on failure.
   */
  method RetryAfterFailure(form: RefundForm, outcome: Outcome) returns (first: FormData, second: FormData)
    modifies form`formData
    ensures first == second == old(form.formData)
    ensures form.members == old(form.members)
    ensures form.formData == if outcome == Succeeded then EmptyForm else old(form.formData)
  {
    var t1, t2;
    first, t1 := form.HandleSubmit(Failed);
    second, t2 := form.HandleSubmit(outcome);
  }
}
