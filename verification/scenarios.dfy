/** Concrete inputs that pin down the validator's quirks and the store's
    end-to-end behaviour. */
module Scenarios {
  import opened Patterns
  import opened Validator
  import opened StudentStore

  /** A string without '@' never passes the email check. */
  lemma NoAtNoEmail(e: string)
    requires forall m | 0 <= m < |e| :: e[m] != '@'
    ensures !EmailMatches(e)
  {
  }

  /** "a@b.c" is accepted; "not-an-email" is refused; anything after an
      accepted prefix, even more '@' characters, is ignored. */
  lemma EmailExamples()
    ensures EmailMatches("a@b.c")
    ensures !EmailMatches("not-an-email")
    ensures EmailMatches("a@b.c@@ trailing")
  {
    assert EmailSplit("a@b.c", 1, 3, 5);
    NoAtNoEmail("not-an-email");
    EmailMatchIgnoresSuffix("a@b.c", "@@ trailing");
    assert "a@b.c" + "@@ trailing" == "a@b.c@@ trailing";
  }

  /** "123" is too short; "+1234567890" is accepted; "0123456789" is
      accepted although it starts with 0; sixteen digits pass only when the
      first is 1-9; `$` lets one final newline through. */
  lemma PhoneExamples()
    ensures !PhoneMatches("123")
    ensures PhoneMatches("+1234567890")
    ensures PhoneMatches("0123456789")
    ensures PhoneMatches("1234567890123456")
    ensures !PhoneMatches("0123456789012345")
    ensures PhoneMatches("1234567890\n")
  {
    assert PhoneSplit("+1234567890", 1, 1);
    assert PhoneSplit("0123456789", 0, 0);
    assert PhoneSplit("1234567890123456", 0, 1);
    PhoneBodyIffRunRule("0123456789012345");
    assert "1234567890\n"[..10] == "1234567890";
    assert PhoneSplit("1234567890", 0, 0);
  }

  /** First failure wins: a one-character name with a bad email is reported
      as a bad email; a name of blanks counts as present. */
  lemma ValidatorOrderExamples()
    ensures Validate(Form("A", "not-an-email", "123", "CS", "x")) == (false, BadEmailMessage)
    ensures Validate(Form(" ", "a@b.c", "+1234567890", " ", " ")) == (false, ShortNameMessage)
    ensures Validate(Form("Al", "a@b.c", "+1234567890", "CS", "x")) == (true, ValidMessage)
    ensures Validate(Form("Al", "a@b.c", "+1234567890", "", "x")) == (false, MissingFieldMessage)
  {
    EmailExamples();
    PhoneExamples();
  }

  const Ann: Form := Form("Ann Lee", "ann@x.com", "+12345678901", "CS", "1 Main St")

  /** Register Ann into the empty table: she gets id 1. Registering the same
      email again is a duplicate and changes nothing; the listing then has
      one entry. */
  lemma AnnLeeScenario(t1: Timestamp, t2: Timestamp)
    ensures
      var r1 := Register(Empty, Ann, t1);
      && r1.result.Ok?
      && r1.result.value.id == 1
      && Register(r1.store, Ann, t2) == Step(Err(DuplicateEmail), r1.store)
      && |ListAll(r1.store)| == 1
  {
    assert EmailSplit(Ann.email, 3, 5, 7);
    assert PhoneSplit(Ann.phone, 1, 1);
    assert !EmailTaken(Empty, Ann.email);
    RegisterTwiceIsDuplicate(Empty, Ann, t1, t2);
    ListAllLength(Register(Empty, Ann, t1).store);
  }

  /** Edit does not validate: it stores empty fields that register would
      have refused. */
  lemma EditSkipsValidation(t: Timestamp)
    ensures
      var s1 := Register(Empty, Ann, t).store;
      var blank := Form("", "", "", "", "");
      && !Validate(blank).0
      && Edit(s1, 1, blank).result.Ok?
      && FieldsOf(Get(Edit(s1, 1, blank).store, 1).value) == blank
  {
    AnnLeeScenario(t, t);
  }
}
