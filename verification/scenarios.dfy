/** Worked examples of the controller: concrete inputs run through the
    handlers, with the resulting state stated exactly. */
module Scenarios {
  import opened Text
  import opened Contacts
  import opened Controller

  /** The add form's " Ada " / "123" validates to the trimmed pair. */
  lemma AdaValidates()
    ensures Validate(" Ada ", "123") == Some(Fields("Ada", "123"))
  {
    assert LeadingSpaces(" Ada ") == 1 && TrailingStart(" Ada ") == 4;
    assert Trim(" Ada ") == "Ada";
    assert LeadingSpaces("123") == 0 && TrailingStart("123") == 3;
    assert Trim("123") == "123";
  }

  /** Submitting "Ada" / "123" and receiving the server's record with id "7"
      renders exactly one row indexed by "7", "ada" and "123", and clears
      the form. */
  method AddRoundTrip() returns (rows: seq<Row>, sent: Option<Fields>, formCleared: bool)
    ensures sent == Some(Fields("Ada", "123"))
    ensures rows == [Row("7", "ada", "123", true, Display("Ada", "123"))]
    ensures formCleared
  {
    var list := new ContactList(Placeholder(true, EmptyMessage));
    list.EnterForm(" Ada ", "123");
    AdaValidates();
    sent := list.Add(Received(Record("7", "Ada", "123")));
    assert ToLower("Ada") == "ada";
    rows := list.rows;
    formCleared := list.formName == [] && list.formPhone == [];
  }

  /** A blank name blocks the submit: no request, nothing changes. */
  method AddBlankName() returns (sent: Option<Fields>, rowCount: nat, formName: string)
    ensures sent == None && rowCount == 0 && formName == "  "
  {
    var list := new ContactList(Placeholder(true, EmptyMessage));
    list.EnterForm("  ", "555");
    assert LeadingSpaces("  ") == 2;
    sent := list.Add(Received(Record("1", "x", "555")));
    rowCount := |list.rows|;
    formName := list.formName;
  }

  /** With rows "Ada" (phone "111") and "Bob" (phone "222"), typing "A"
      leaves Ada visible and hides Bob; clearing the search shows both. */
  method SearchAdaBob() returns (afterA: seq<bool>, countA: nat, afterClear: seq<bool>, countClear: nat)
    ensures afterA == [true, false] && countA == 1
    ensures afterClear == [true, true] && countClear == 2
  {
    var list := new ContactList(Placeholder(true, EmptyMessage));
    list.Mount(Record("1", "Ada", "111"));
    list.Mount(Record("2", "Bob", "222"));
    assert ToLower("Ada") == "ada" && ToLower("Bob") == "bob";
    assert ToLower("A") == "a";
    assert LeadingSpaces("a") == 0 && TrailingStart("a") == 1;
    assert NormalizeTerm("A") == "a";
    assert OccursAt("ada", "a", 0);
    assert !Contains("bob", "a") by {
      forall k: nat | k <= 3 ensures !OccursAt("bob", "a", k) {
        if k < 3 {
          assert "bob"[k..k + 1] == ["bob"[k]];
        }
      }
    }
    assert !Contains("222", "a") by {
      forall k: nat | k <= 3 ensures !OccursAt("222", "a", k) {
        if k < 3 {
          assert "222"[k..k + 1] == ["222"[k]];
        }
      }
    }
    countA := list.Search("A");
    afterA := [list.rows[0].visible, list.rows[1].visible];
    assert NormalizeTerm("") == "";
    countClear := list.Search("");
    EmptyTermShowsAll(list.rows);
    afterClear := [list.rows[0].visible, list.rows[1].visible];
  }

  /** Deleting the only row shows the empty-state message; deleting one of
      two rows leaves the placeholder as it was. */
  method DeleteLastAndNotLast() returns (onlyRow: Placeholder, oneOfTwo: Placeholder, left: seq<string>)
    ensures onlyRow == Placeholder(true, EmptyMessage)
    ensures !oneOfTwo.shown && left == ["2"]
  {
    var single := new ContactList(Placeholder(true, EmptyMessage));
    single.Mount(Record("1", "Ada", "111"));
    var sent := single.Delete(0, true, Received(()));
    onlyRow := single.placeholder;

    var pair := new ContactList(Placeholder(true, EmptyMessage));
    pair.Mount(Record("1", "Ada", "111"));
    pair.Mount(Record("2", "Bob", "222"));
    sent := pair.Delete(0, true, Received(()));
    oneOfTwo := pair.placeholder;
    left := [pair.rows[0].id];
  }

  /** The drafts "Bo " / "555" validate to the trimmed pair. */
  lemma BoValidates()
    ensures Validate("Bo ", "555") == Some(Fields("Bo", "555"))
  {
    assert LeadingSpaces("Bo ") == 0 && TrailingStart("Bo ") == 2;
    assert Trim("Bo ") == "Bo";
    assert LeadingSpaces("555") == 0 && TrailingStart("555") == 3;
    assert Trim("555") == "555";
  }

  /** Saving with a blank name sends nothing and leaves the row in edit mode
      with its drafts; a failed update does the same after sending the
      trimmed drafts. */
  method SaveBlockedOrFailed() returns (blank: Option<Record>, failed: Option<Record>, mode: Mode)
    ensures blank == None
    ensures failed == Some(Record("1", "Bo", "555"))
    ensures mode == Editing("Bo ", "555")
  {
    var list := new ContactList(Placeholder(true, EmptyMessage));
    list.Mount(Record("1", "Ada", "111"));
    list.BeginEdit(0);
    list.EditDraft(0, "", "555");
    blank := list.Save(0, Received(Record("1", "x", "555")));
    list.EditDraft(0, "Bo ", "555");
    BoValidates();
    failed := list.Save(0, Failed);
    mode := list.rows[0].mode;
  }

  /** Cancel rebuilds the card from the stored lower-cased name, so a contact
      mounted as "McDonald" shows "Mcdonald" after an edit is cancelled. */
  method CancelShowsCapitalisedStoredName() returns (before: Mode, after: Mode)
    ensures before == Display("McDonald", "5")
    ensures after == Display("Mcdonald", "5")
    ensures before != after
  {
    var list := new ContactList(Placeholder(true, EmptyMessage));
    list.Mount(Record("1", "McDonald", "5"));
    before := list.rows[0].mode;
    assert ToLower("McDonald") == "mcdonald";
    list.BeginEdit(0);
    list.Cancel(0);
    after := list.rows[0].mode;
    assert Capitalize("mcdonald") == "Mcdonald";
  }
}
