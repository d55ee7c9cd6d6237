/** The contact-list controller: the rendered list, the "no contacts"
    placeholder and the add form, changed in place by the page-load,
    submit, search and list-click handlers. Each network request is a
    `Reply` parameter; each method returns the request it would send
    (`None` when it sends none). */
module Controller {
  import opened Text
  import opened Contacts

  class ContactList {
    /** The `<li>` children of the contact list, in document order. */
    var rows: seq<Row>
    /** The "no contacts" element. */
    var placeholder: Placeholder
    /** The current values of the add form's name and phone inputs. */
    var formName: string
    var formPhone: string

    /** Every stored name is lower-case, and the empty-state message is on
        show only over an empty list. */
    ghost predicate Valid()
      reads this
    {
      && WellFormed(rows)
      && (placeholder.shown && placeholder.message == EmptyMessage ==> rows == [])
    }

    /** An empty list with an empty form; the placeholder's initial state
        comes from the page's markup. */
    constructor (initial: Placeholder)
      ensures Valid()
      ensures rows == [] && placeholder == initial
      ensures formName == [] && formPhone == []
    {
      rows := [];
      placeholder := initial;
      formName, formPhone := [], [];
    }

    /** The user types into the add form. */
    method EnterForm(name: string, phone: string)
      requires Valid()
      modifies this
      ensures Valid()
      ensures formName == name && formPhone == phone
      ensures rows == old(rows) && placeholder == old(placeholder)
    {
      formName, formPhone := name, phone;
    }

    /** `displayContact`: hides the placeholder and appends the record's row. */
    method Mount(rec: Record)
      requires Valid()
      modifies this
      ensures Valid()
      ensures rows == old(rows) + [RowFor(rec)]
      ensures placeholder == old(placeholder).(shown := false)
      ensures formName == old(formName) && formPhone == old(formPhone)
    {
      RowForIndexesRecord(rec);
      placeholder := placeholder.(shown := false);
      rows := rows + [RowFor(rec)];
    }

    /** `fetchContacts`: on success with a non-empty list, hides the
        placeholder and mounts the records in the server's order. */
    method Load(reply: Reply<seq<Record>>)
      requires Valid()
      modifies this
      ensures Valid()
      ensures reply.Failed? ==> rows == old(rows) && placeholder == old(placeholder)
      ensures reply.Received? ==> rows == old(rows) + RowsFor(reply.value)
      ensures reply.Received? && reply.value == [] ==> placeholder == old(placeholder)
      ensures reply.Received? && reply.value != [] ==> placeholder == old(placeholder).(shown := false)
      ensures formName == old(formName) && formPhone == old(formPhone)
    {
      if reply.Failed? {
        return;
      }
      var records := reply.value;
      if |records| == 0 {
        return;
      }
      placeholder := placeholder.(shown := false);
      var i := 0;
      while i < |records|
        invariant 0 <= i <= |records|
        invariant Valid()
        invariant rows == old(rows) + RowsFor(records[..i])
        invariant placeholder == old(placeholder).(shown := false)
        invariant formName == old(formName) && formPhone == old(formPhone)
      {
        Mount(records[i]);
        assert records[..i + 1] == records[..i] + [records[i]];
        RowsForAppend(records[..i], [records[i]]);
        i := i + 1;
      }
      assert records[..i] == records;
    }

    /** The submit handler: validates the trimmed inputs (no request when
        either is blank); on success resets the form and mounts the
        server's record; on failure changes nothing. */
    method Add(reply: Reply<Record>) returns (sent: Option<Fields>)
      requires Valid()
      modifies this
      ensures Valid()
      ensures sent == Validate(old(formName), old(formPhone))
      ensures sent.None? || reply.Failed? ==>
        rows == old(rows) && placeholder == old(placeholder) &&
        formName == old(formName) && formPhone == old(formPhone)
      ensures sent.Some? && reply.Received? ==>
        rows == old(rows) + [RowFor(reply.value)] &&
        placeholder == old(placeholder).(shown := false) &&
        formName == [] && formPhone == []
    {
      sent := Validate(formName, formPhone);
      if sent.None? {
        return;
      }
      if reply.Failed? {
        return;
      }
      formName, formPhone := [], [];
      Mount(reply.value);
    }

    /** The search input handler: normalises the term, recomputes every
        row's visibility, and shows the placeholder with the no-match
        message, with the empty-state message, or hides it. */
    method Search(input: string) returns (visibleCount: nat)
      requires Valid()
      modifies this
      ensures Valid()
      ensures rows == ApplyFilter(old(rows), NormalizeTerm(input))
      ensures visibleCount == CountMatching(old(rows), NormalizeTerm(input)) == CountVisible(rows)
      ensures placeholder == PlaceholderAfterSearch(old(placeholder), |rows|, visibleCount)
      ensures formName == old(formName) && formPhone == old(formPhone)
    {
      var term := NormalizeTerm(input);
      visibleCount := ShowMatching(term);
      placeholder := PlaceholderAfterSearch(placeholder, |rows|, visibleCount);
    }

    /** The loop of the search handler: each row is shown when its stored
        name or phone includes `term` and hidden otherwise, and the shown
        rows are counted. */
    method ShowMatching(term: string) returns (visibleCount: nat)
      requires Valid()
      modifies this
      ensures Valid()
      ensures rows == ApplyFilter(old(rows), term)
      ensures visibleCount == CountMatching(old(rows), term) == CountVisible(rows)
      ensures placeholder == old(placeholder)
      ensures formName == old(formName) && formPhone == old(formPhone)
    {
      ghost var before := rows;
      var list := rows;
      visibleCount := 0;
      var i := 0;
      while i < |list|
        invariant 0 <= i <= |list| == |before|
        invariant forall j :: 0 <= j < i ==> list[j] == before[j].(visible := RowMatches(before[j], term))
        invariant forall j :: i <= j < |list| ==> list[j] == before[j]
        invariant visibleCount == CountMatching(before[..i], term)
        modifies {}
      {
        var row := list[i];
        CountMatchingStep(before, i, term);
        var matches := RowMatches(row, term);
        list := list[i := row.(visible := matches)];
        visibleCount := visibleCount + if matches then 1 else 0;
        i := i + 1;
      }
      SearchLoopDone(before, list, term, visibleCount);
      rows := list;
    }

    /** The delete branch of the list's click handler: nothing happens unless
        the user confirms (then the row's id is sent) and the server
        succeeds; then exactly that row goes, and the empty-state message is
        shown when no row is left. */
    method Delete(i: nat, confirmed: bool, reply: Reply<()>) returns (sent: Option<string>)
      requires Valid() && i < |rows| && rows[i].mode.Display?
      modifies this
      ensures Valid()
      ensures sent == if confirmed then Some(old(rows)[i].id) else None
      ensures !confirmed || reply.Failed? ==> rows == old(rows) && placeholder == old(placeholder)
      ensures confirmed && reply.Received? ==>
        rows == RemoveAt(old(rows), i) &&
        placeholder == (if rows == [] then Placeholder(true, EmptyMessage) else old(placeholder)) &&
        (placeholder.shown && placeholder.message == EmptyMessage <==> rows == [])
      ensures formName == old(formName) && formPhone == old(formPhone)
    {
      if !confirmed {
        return None;
      }
      sent := Some(rows[i].id);
      if reply.Failed? {
        return;
      }
      rows := RemoveAt(rows, i);
      if rows == [] {
        placeholder := Placeholder(true, EmptyMessage);
      }
    }

    /** The edit branch: the card of a displayed row becomes two inputs
        pre-filled with the shown name and phone. */
    method BeginEdit(i: nat)
      requires Valid() && i < |rows| && rows[i].mode.Display?
      modifies this
      ensures Valid()
      ensures rows == old(rows)[i := BeginEditRow(old(rows)[i])]
      ensures placeholder == old(placeholder)
      ensures formName == old(formName) && formPhone == old(formPhone)
    {
      rows := rows[i := BeginEditRow(rows[i])];
    }

    /** The user types into a row's edit inputs. */
    method EditDraft(i: nat, name: string, phone: string)
      requires Valid() && i < |rows| && rows[i].mode.Editing?
      modifies this
      ensures Valid()
      ensures rows == old(rows)[i := old(rows)[i].(mode := Editing(name, phone))]
      ensures placeholder == old(placeholder)
      ensures formName == old(formName) && formPhone == old(formPhone)
    {
      rows := rows[i := rows[i].(mode := Editing(name, phone))];
    }

    /** The save branch: validates the trimmed drafts (no request when either
        is blank), sends them with the row's id, and on success re-syncs the
        row from the server's record; on failure the row stays in edit mode
        with its drafts. */
    method Save(i: nat, reply: Reply<Record>) returns (sent: Option<Record>)
      requires Valid() && i < |rows| && rows[i].mode.Editing?
      modifies this
      ensures Valid()
      ensures var v := Validate(old(rows)[i].mode.draftName, old(rows)[i].mode.draftPhone);
        sent == if v.Some? then Some(Record(old(rows)[i].id, v.value.name, v.value.phone)) else None
      ensures sent.None? || reply.Failed? ==> rows == old(rows)
      ensures sent.Some? && reply.Received? ==> rows == old(rows)[i := SaveRow(old(rows)[i], reply.value)]
      ensures placeholder == old(placeholder)
      ensures formName == old(formName) && formPhone == old(formPhone)
    {
      var row := rows[i];
      var v := Validate(row.mode.draftName, row.mode.draftPhone);
      if v.None? {
        return None;
      }
      sent := Some(Record(row.id, v.value.name, v.value.phone));
      if reply.Failed? {
        return;
      }
      SaveResyncs(row, reply.value);
      rows := rows[i := SaveRow(row, reply.value)];
    }

    /** The cancel branch: the card is rebuilt from the stored attributes. */
    method Cancel(i: nat)
      requires Valid() && i < |rows| && rows[i].mode.Editing?
      modifies this
      ensures Valid()
      ensures rows == old(rows)[i := CancelRow(old(rows)[i])]
      ensures rows[i].mode.Display? && ToLower(rows[i].mode.shownName) == rows[i].storedName
      ensures rows[i].mode.shownPhone == rows[i].storedPhone
      ensures placeholder == old(placeholder)
      ensures formName == old(formName) && formPhone == old(formPhone)
    {
      CancelRestoresStored(rows[i]);
      rows := rows[i := CancelRow(rows[i])];
    }
  }
}
