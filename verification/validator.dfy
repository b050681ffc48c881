/** The server-side form validator: five strings in, an (ok, message) pair
    out. Four checks run in a fixed order and the first one that fails
    decides the message. */
module Validator {
  import opened Patterns

  /** The five fields a user submits for a student. */
  datatype Form = Form(name: string, email: string, phone: string, course: string, address: string)

  const MissingFieldMessage: string := "All fields are required."
  const BadEmailMessage: string := "Invalid email format."
  const BadPhoneMessage: string := "Invalid phone number (e.g., +1234567890)."
  const ShortNameMessage: string := "Name must be at least 2 characters."
  const ValidMessage: string := "Valid"

  /** Python's `not s` on a string: true only for the empty string. No
      trimming happens, so a field of blanks is present. */
  predicate AllPresent(f: Form) {
    f.name != "" && f.email != "" && f.phone != "" && f.course != "" && f.address != ""
  }

  predicate NameLongEnough(f: Form) {
    |f.name| >= 2
  }

  /** The validator: presence, then email, then phone, then name length.
      The result pairs the verdict with exactly one message. */
  function Validate(f: Form): (r: (bool, string))
    ensures r.0 <==> AllPresent(f) && EmailMatches(f.email) && PhoneMatches(f.phone) && NameLongEnough(f)
    ensures r.0 ==> r.1 == ValidMessage
    ensures !AllPresent(f) ==> r.1 == MissingFieldMessage
    ensures AllPresent(f) && !EmailMatches(f.email) ==> r.1 == BadEmailMessage
    ensures AllPresent(f) && EmailMatches(f.email) && !PhoneMatches(f.phone) ==> r.1 == BadPhoneMessage
    ensures AllPresent(f) && EmailMatches(f.email) && PhoneMatches(f.phone) && !NameLongEnough(f) ==> r.1 == ShortNameMessage
  {
    if !AllPresent(f) then (false, MissingFieldMessage)
    else if !EmailMatches(f.email) then (false, BadEmailMessage)
    else if !PhoneMatches(f.phone) then (false, BadPhoneMessage)
    else if !NameLongEnough(f) then (false, ShortNameMessage)
    else (true, ValidMessage)
  }

  /** The messages are pairwise distinct, so the message alone tells which
      check failed. */
  lemma MessagesDistinct()
    ensures |{MissingFieldMessage, BadEmailMessage, BadPhoneMessage, ShortNameMessage, ValidMessage}| == 5
  {
  }

  /** The validator computed with the two scanners instead of the regex
      predicates; it returns what Validate returns for every form. */
  method ValidateByScanning(f: Form) returns (ok: bool, message: string)
    ensures (ok, message) == Validate(f)
  {
    if f.name == "" || f.email == "" || f.phone == "" || f.course == "" || f.address == "" {
      return false, MissingFieldMessage;
    }
    var emailOk := ScanEmail(f.email);
    if !emailOk {
      return false, BadEmailMessage;
    }
    var phoneOk := ScanPhone(f.phone);
    if !phoneOk {
      return false, BadPhoneMessage;
    }
    if |f.name| < 2 {
      return false, ShortNameMessage;
    }
    return true, ValidMessage;
  }
}
