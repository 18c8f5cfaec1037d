/** Concrete inputs and what the model gives for them: accept/reject pairs
    for the patterns, and the add-list-delete-list walk through the store. */
module Scenarios {
  import opened Wrappers
  import opened Ascii
  import opened Patterns
  import opened Contacts

  const Anna := Contact("Anna", "30", "01012345678", "a@b.com", "1 St, Cairo, Egypt")

  lemma AnnaIsValid()
    ensures ValidContact(Anna)
  {
    assert Word("Anna"[..4]) && JoinedWords("Anna"[4..]);
    assert EmailAt("a@b.com", 1, 3);
    assert "01012345678"[..3] == "010";
  }

  /** A carrier code outside the list and a number three digits short are
      both refused. */
  lemma PhoneExamples()
    ensures Matches(PhoneNumber, "01512345678")
    ensures !Matches(PhoneNumber, "09912345678")
    ensures !Matches(PhoneNumber, "010123456")
  {
    assert "01512345678"[..3] == "015";
    assert "09912345678"[..3] == "099";
  }

  /** Separators join letter runs but may not be doubled or stand at an end. */
  lemma NameExamples()
    ensures Matches(Name, "Mary-Jane O'Neil")
    ensures !Matches(Name, "Mary  Jane")
    ensures !Matches(Name, "-Mary")
  {
    var good := "Mary-Jane O'Neil";
    assert NameShape(good) by {
      assert forall i | 0 <= i < |good| :: IsLetter(good[i]) || IsNameSep(good[i]);
      assert forall i | 0 <= i < |good| - 1 :: IsNameSep(good[i]) ==> i in {4, 9, 11};
    }
    NameMatchShape(good);
    var doubled := "Mary  Jane";
    assert IsNameSep(doubled[4]) && !IsLetter(doubled[5]);
    NameMatchShape(doubled);
    NameMatchShape("-Mary");
  }

  /** The top-level domain needs at least two letters. */
  lemma EmailExamples()
    ensures Matches(Email, "first.last_1@mail.com")
    ensures !Matches(Email, "a@b.c")
  {
    assert EmailAt("first.last_1@mail.com", 12, 17);
    EmailMatchSplit("a@b.c");
    assert IndexOf("a@b.c", '@') == Some(1);
    assert "a@b.c"[2..] == "b.c";
    assert IndexOf("b.c", '.') == Some(1);
  }

  /** Inner whitespace of any kind is allowed in an address, other
      punctuation is not. */
  lemma AddressExamples()
    ensures Matches(Address, "Flat 3,\tNasr City")
    ensures !Matches(Address, "Cairo #5")
  {
    assert !IsAddressChar("Cairo #5"[6]);
  }

  /** The confirmation rule takes exactly "1" or "2"; the menu rule exactly
      "1" to "6". */
  lemma ChoiceExamples()
    ensures Matches(DeleteChoice, "2") && !Matches(DeleteChoice, "3") && !Matches(DeleteChoice, "12")
    ensures Matches(Menu, "6") && !Matches(Menu, "7") && !Matches(Menu, "0")
  {
  }

  /** Adding a contact to an empty book lists it as contact 1; deleting it by
      its phone number saves an empty book, which lists as empty. */
  lemma AddListDeleteList()
    ensures var added := Add([], Anna);
            var deleted := Delete(added.store, "01012345678");
            && ListAll(added.store) == Entries([Entry(1, Anna)])
            && deleted == Outcome([], true)
            && ListAll(deleted.store) == EmptyList
  {
  }
}
