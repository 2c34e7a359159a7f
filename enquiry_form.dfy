/**
 * The contact form: POST /api/enquiryForm validates the e-mail and appends a row to
 * `enquirydetails`; GET /api/getEnquiries returns every row projected to five columns.
 */
module EnquiryForm {
  import opened Http
  import EmailPattern

  /** The value `NOW()` gives when the row is inserted; the caller supplies it. */
  type Timestamp = nat

  /** A row of `enquirydetails`; `id` stands for the key the INSERT leaves to the database. */
  datatype Enquiry = Enquiry(id: nat, name: string, email: string, mobile: string, query: string, date: Timestamp)

  /** A row of the GET answer: `SELECT name, email, mobile, query, date`. */
  datatype EnquiryView = EnquiryView(name: string, email: string, mobile: string, query: string, date: Timestamp)

  const InvalidEmailFormat := "Invalid email format"
  const FormSubmitted := "Form submitted successfully"

  /** This file's own copy of the validator: it accepts exactly the pattern's language, as the signup one does. */
  function IsValidEmail(email: string): (ok: bool)
    ensures ok <==> EmailPattern.MatchesPattern(email)
  {
    EmailPattern.IsValidEmailCorrect(email);
    EmailPattern.IsValidEmail(email)
  }

  class EnquiryTable {
    var rows: seq<Enquiry>
    var nextId: nat

    constructor (existing: seq<Enquiry>, counter: nat)
      ensures rows == existing && nextId == counter
    {
      rows := existing;
      nextId := counter;
    }

    /** POST /api/enquiryForm, with `now` the insertion time. */
    method Submit(name: string, email: string, mob: string, query: string, now: Timestamp)
      returns (res: Response)
      modifies this
      ensures !EmailPattern.MatchesPattern(email) ==>
        res == BadRequest(InvalidEmailFormat) && rows == old(rows) && nextId == old(nextId)
      ensures EmailPattern.MatchesPattern(email) ==>
        && res == Ok(FormSubmitted)
        && rows == old(rows) + [Enquiry(old(nextId), name, email, mob, query, now)]
        && nextId == old(nextId) + 1
    {
      if !IsValidEmail(email) {
        return BadRequest(InvalidEmailFormat);
      }
      rows := rows + [Enquiry(nextId, name, email, mob, query, now)];
      nextId := nextId + 1;
      res := Ok(FormSubmitted);
    }

    /** GET /api/getEnquiries: every stored row, in table order, without its key. */
    method GetEnquiries() returns (view: seq<EnquiryView>)
      ensures |view| == |rows|
      ensures forall i :: 0 <= i < |rows| ==>
        view[i] == EnquiryView(rows[i].name, rows[i].email, rows[i].mobile, rows[i].query, rows[i].date)
    {
      var table := rows;
      view := seq(|table|, i requires 0 <= i < |table| =>
        EnquiryView(table[i].name, table[i].email, table[i].mobile, table[i].query, table[i].date));
    }
  }
}
