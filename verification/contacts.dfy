/** The values the contact-list controller works with: server records, the
    rows of the rendered list, the placeholder, and the pure rules behind the
    handlers (input validation, the search filter, the row transitions of
    the inline editor). */
module Contacts {
  import opened Text

  datatype Option<T> = None | Some(value: T)

  /** The outcome of one network request: any transport failure or non-2xx
      status is `Failed`; a success carries the decoded body. */
  datatype Reply<T> = Failed | Received(value: T)

  /** A contact as the server stores it. */
  datatype Record = Record(id: string, name: string, phone: string)

  /** The two fields sent to the server on create and update. */
  datatype Fields = Fields(name: string, phone: string)

  /** What a row's card shows: the contact's name and phone as text, or the
      two edit inputs with their current values. */
  datatype Mode =
    | Display(shownName: string, shownPhone: string)
    | Editing(draftName: string, draftPhone: string)

  /** One `<li>` of the list: its `data-id`, `data-name` (lower-cased) and
      `data-phone` attributes, whether `style.display` lets it show, and its
      card. */
  datatype Row = Row(id: string, storedName: string, storedPhone: string, visible: bool, mode: Mode)

  /** The "no contacts" element: whether it is shown and its text. */
  datatype Placeholder = Placeholder(shown: bool, message: string)

  const EmptyMessage: string := "No contacts yet. Add your first contact above!"
  const NoMatchMessage: string := "No contacts found matching your search."

  // ----- Validation (add and save) -----

  /** The trimmed name and phone when both are non-blank; `None` (no request
      is made) otherwise. */
  function Validate(name: string, phone: string): Option<Fields> {
    var n, p := Trim(name), Trim(phone);
    if n == [] || p == [] then None else Some(Fields(n, p))
  }

  /** Validation fails exactly when a field is blank (all white space, or
      empty); when it passes it yields both fields trimmed, non-empty, and
      unchanged by a further trim. */
  lemma ValidateSpec(name: string, phone: string)
    ensures Validate(name, phone).Some? <==> !AllSpace(name) && !AllSpace(phone)
    ensures Validate(name, phone).Some? ==>
      var f := Validate(name, phone).value;
      && f == Fields(Trim(name), Trim(phone))
      && f.name != [] && f.phone != []
      && Trim(f.name) == f.name && Trim(f.phone) == f.phone
  {
    TrimEmptyIffBlank(name);
    TrimEmptyIffBlank(phone);
    TrimIdempotent(name);
    TrimIdempotent(phone);
  }

  // ----- Search -----

  /** The search input is lower-cased, then trimmed. */
  function NormalizeTerm(input: string): string {
    Trim(ToLower(input))
  }

  /** Typing the term in any letter case filters the same way. */
  lemma NormalizeIgnoresCase(input: string)
    ensures NormalizeTerm(ToLower(input)) == NormalizeTerm(input)
  {
    ToLowerIdempotent(input);
  }

  /** A normalised term is lower-case and normalising it again changes
      nothing. */
  lemma NormalizeTermIdempotent(input: string)
    ensures IsLower(NormalizeTerm(input))
    ensures NormalizeTerm(NormalizeTerm(input)) == NormalizeTerm(input)
  {
    var low := ToLower(input);
    ToLowerIsLower(input);
    var t := Trim(low);
    var lead: nat :| TrimmedAt(low, t, lead);
    assert forall i :: 0 <= i < |t| ==> t[i] == low[lead + i];
    assert IsLower(t);
    ToLowerIsLower(t);
    TrimIdempotent(low);
  }

  /** A row matches when its stored name or its stored phone includes the term. */
  predicate RowMatches(row: Row, term: string) {
    Contains(row.storedName, term) || Contains(row.storedPhone, term)
  }

  /** Every row, in the same order, with its visibility recomputed from the term. */
  function ApplyFilter(rows: seq<Row>, term: string): seq<Row> {
    seq(|rows|, j requires 0 <= j < |rows| => rows[j].(visible := RowMatches(rows[j], term)))
  }

  /** The number of rows that match the term. */
  function CountMatching(rows: seq<Row>, term: string): (n: nat)
    ensures n <= |rows|
  {
    if rows == [] then 0
    else CountMatching(rows[..|rows| - 1], term) + (if RowMatches(rows[|rows| - 1], term) then 1 else 0)
  }

  /** The count is zero exactly when no row matches, and the number of rows
      exactly when every row matches. */
  lemma {:induction false} CountMatchingExtremes(rows: seq<Row>, term: string)
    ensures CountMatching(rows, term) == 0 <==> forall j :: 0 <= j < |rows| ==> !RowMatches(rows[j], term)
    ensures CountMatching(rows, term) == |rows| <==> forall j :: 0 <= j < |rows| ==> RowMatches(rows[j], term)
  {
    if rows != [] {
      var init := rows[..|rows| - 1];
      CountMatchingExtremes(init, term);
      assert forall j :: 0 <= j < |init| ==> init[j] == rows[j];
    }
  }

  /** The number of rows whose visibility flag is set. */
  function CountVisible(rows: seq<Row>): nat {
    if rows == [] then 0
    else CountVisible(rows[..|rows| - 1]) + (if rows[|rows| - 1].visible then 1 else 0)
  }

  /** The placeholder after a search over `total` rows of which `visibleCount`
      matched: the no-match message when rows exist but none shows, the
      empty-state message when there are no rows, hidden otherwise (hiding
      keeps the old text). */
  function PlaceholderAfterSearch(p: Placeholder, total: nat, visibleCount: nat): Placeholder {
    if visibleCount == 0 && total > 0 then Placeholder(true, NoMatchMessage)
    else if total == 0 then Placeholder(true, EmptyMessage)
    else p.(shown := false)
  }

  /** A search neither adds, removes nor reorders rows: only the visibility
      flags change, and a row is visible exactly when it matches. */
  lemma FilterKeepsRows(rows: seq<Row>, term: string)
    ensures |ApplyFilter(rows, term)| == |rows|
    ensures forall j :: 0 <= j < |rows| ==>
      ApplyFilter(rows, term)[j].(visible := rows[j].visible) == rows[j]
    ensures forall j :: 0 <= j < |rows| ==>
      (ApplyFilter(rows, term)[j].visible <==> RowMatches(rows[j], term))
  {
  }

  /** The count the search handler keeps equals the number of rows it left visible. */
  lemma {:induction false} FilterCountAgrees(rows: seq<Row>, term: string)
    ensures CountVisible(ApplyFilter(rows, term)) == CountMatching(rows, term)
  {
    if rows != [] {
      var init := rows[..|rows| - 1];
      assert ApplyFilter(rows, term)[..|rows| - 1] == ApplyFilter(init, term);
      FilterCountAgrees(init, term);
    }
  }

  /** One more row of the search loop: the count grows by one exactly when
      the row matches. */
  lemma CountMatchingStep(rows: seq<Row>, i: nat, term: string)
    requires i < |rows|
    ensures CountMatching(rows[..i + 1], term) ==
      CountMatching(rows[..i], term) + (if RowMatches(rows[i], term) then 1 else 0)
  {
    assert rows[..i + 1][..i] == rows[..i];
  }

  /** When the search loop has visited every row, the list it built is the
      filtered list, its count is the number of rows it left visible, and the
      stored names are untouched. */
  lemma SearchLoopDone(before: seq<Row>, list: seq<Row>, term: string, count: nat)
    requires |list| == |before|
    requires forall j :: 0 <= j < |list| ==> list[j] == before[j].(visible := RowMatches(before[j], term))
    requires count == CountMatching(before[..|before|], term)
    ensures list == ApplyFilter(before, term)
    ensures count == CountMatching(before, term) == CountVisible(list)
    ensures WellFormed(before) ==> WellFormed(list)
  {
    assert before[..|before|] == before;
    FilterCountAgrees(before, term);
  }

  /** An empty term makes every row visible. */
  lemma EmptyTermShowsAll(rows: seq<Row>)
    ensures forall j :: 0 <= j < |rows| ==> ApplyFilter(rows, [])[j].visible
    ensures CountMatching(rows, []) == |rows|
  {
    forall j | 0 <= j < |rows| ensures RowMatches(rows[j], []) {
      ContainsEmpty(rows[j].storedName);
    }
    CountMatchingExtremes(rows, []);
  }

  /** The placeholder a search leaves: the empty-state message when there are
      no rows, the no-match message when rows exist but none matches, and
      hidden with its old text as soon as one row matches. */
  lemma SearchPlaceholder(p: Placeholder, rows: seq<Row>, term: string)
    ensures var q := PlaceholderAfterSearch(p, |rows|, CountMatching(rows, term));
      && (rows == [] ==> q == Placeholder(true, EmptyMessage))
      && (rows != [] && (forall j :: 0 <= j < |rows| ==> !RowMatches(rows[j], term)) ==>
            q == Placeholder(true, NoMatchMessage))
      && ((exists j :: 0 <= j < |rows| && RowMatches(rows[j], term)) ==>
            q == p.(shown := false))
      && (q.shown <==> forall j :: 0 <= j < |ApplyFilter(rows, term)| ==> !ApplyFilter(rows, term)[j].visible)
  {
    FilterKeepsRows(rows, term);
    CountMatchingExtremes(rows, term);
  }

  // ----- Mounting rows -----

  /** The row `displayContact` builds for a record: the id, the lower-cased
      name and the phone as attributes, visible, showing the record as given. */
  function RowFor(rec: Record): Row {
    Row(rec.id, ToLower(rec.name), rec.phone, true, Display(rec.name, rec.phone))
  }

  /** The rows for a server list, in the server's order. */
  function RowsFor(recs: seq<Record>): seq<Row> {
    seq(|recs|, j requires 0 <= j < |recs| => RowFor(recs[j]))
  }

  /** Mounting two server lists one after the other renders them in order,
      as mounting their concatenation would. */
  lemma RowsForAppend(a: seq<Record>, b: seq<Record>)
    ensures RowsFor(a + b) == RowsFor(a) + RowsFor(b)
    ensures |RowsFor(a + b)| == |a| + |b|
    ensures forall j :: 0 <= j < |a| + |b| ==> RowsFor(a + b)[j].id == (a + b)[j].id
  {
  }

  /** Every row's stored name is lower-case. */
  predicate WellFormed(rows: seq<Row>) {
    forall j :: 0 <= j < |rows| ==> IsLower(rows[j].storedName)
  }

  /** A mounted row is keyed by the record's id, indexes the lower-cased name
      and the raw phone, and lower-casing its stored name changes nothing. */
  lemma RowForIndexesRecord(rec: Record)
    ensures RowFor(rec).id == rec.id && RowFor(rec).storedPhone == rec.phone
    ensures ToLower(RowFor(rec).storedName) == ToLower(rec.name)
    ensures IsLower(RowFor(rec).storedName)
    ensures RowFor(rec).visible && RowFor(rec).mode == Display(rec.name, rec.phone)
  {
    ToLowerIdempotent(rec.name);
    ToLowerIsLower(rec.name);
  }

  // ----- Removing rows -----

  /** The list without the row at `i`: the rows before it and after it keep
      their order, and exactly that one row is gone. */
  function RemoveAt(rows: seq<Row>, i: nat): (r: seq<Row>)
    requires i < |rows|
    ensures |r| == |rows| - 1
    ensures forall j :: 0 <= j < i ==> r[j] == rows[j]
    ensures forall j :: i <= j < |r| ==> r[j] == rows[j + 1]
    ensures multiset(r) + multiset{rows[i]} == multiset(rows)
  {
    assert rows == rows[..i] + [rows[i]] + rows[i + 1..];
    rows[..i] + rows[i + 1..]
  }

  // ----- Inline editing -----

  /** The edit inputs are pre-filled with the text the card shows. */
  function BeginEditRow(row: Row): Row
    requires row.mode.Display?
  {
    row.(mode := Editing(row.mode.shownName, row.mode.shownPhone))
  }

  /** After a successful update the attributes are re-synchronised from the
      server's record (the id is kept) and the card shows that record. */
  function SaveRow(row: Row, rec: Record): Row {
    row.(storedName := ToLower(rec.name), storedPhone := rec.phone, mode := Display(rec.name, rec.phone))
  }

  /** Cancel rebuilds the card from the stored attributes, with the first
      letter of the stored name upper-cased; the drafts are dropped. */
  function CancelRow(row: Row): Row {
    row.(mode := Display(Capitalize(row.storedName), row.storedPhone))
  }

  /** A save keeps the id and visibility, indexes the server's name (lower-cased)
      and phone, and shows the server's values, not the drafts. */
  lemma SaveResyncs(row: Row, rec: Record)
    ensures SaveRow(row, rec).id == row.id && SaveRow(row, rec).visible == row.visible
    ensures SaveRow(row, rec).storedName == ToLower(rec.name) && IsLower(SaveRow(row, rec).storedName)
    ensures SaveRow(row, rec).storedPhone == rec.phone
    ensures SaveRow(row, rec).mode == Display(rec.name, rec.phone)
  {
    ToLowerIsLower(rec.name);
  }

  /** Cancel keeps the id, the stored attributes and the visibility; the name
      it shows lower-cases back to the stored name, and the phone it shows is
      the stored phone. */
  lemma CancelRestoresStored(row: Row)
    requires IsLower(row.storedName)
    ensures CancelRow(row).(mode := row.mode) == row
    ensures CancelRow(row).mode.Display?
    ensures ToLower(CancelRow(row).mode.shownName) == row.storedName
    ensures CancelRow(row).mode.shownPhone == row.storedPhone
  {
    CapitalizeLowerRoundTrip(row.storedName);
  }

  /** Beginning an edit and cancelling it restores the row exactly when the
      card already showed the capitalised stored name and the stored phone. */
  lemma BeginEditThenCancel(row: Row)
    requires row.mode.Display?
    ensures CancelRow(BeginEditRow(row)) == row <==>
      row.mode == Display(Capitalize(row.storedName), row.storedPhone)
  {
  }
}
