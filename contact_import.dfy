/**
 What `ContactAdmin.import_contact` does with the rows of an uploaded CSV
 file, stated as functions: each row is classified against the contact
 table as it stands when the row is reached, and the report (three row
 lists, a counter and a message) and the table are folded over the rows in
 file order. The imperative loop in DialerCampaignAdmin.ImportContact is
 proved to compute exactly Import below.
 */
module ContactImport {
  import opened Optional
  import opened Text
  import opened Models

  /** One CSV record: the fields, in the order contact, last_name,
      first_name, email, description, status, additional_vars. */
  type Row = seq<string>

  /** The page message `msg` after the last row that was not skipped. */
  datatype Message =
    | NoMessage                              // no row classified yet
    | AlreadyExists                          // last row was a duplicate
    | Uploaded(imported: nat, totalRows: nat) // last row was imported
    | InvalidValue                           // last row was a type error

  /** What happens to one row. */
  datatype Outcome = Skipped | TypeError | Duplicate | Imported(contact: Contact)

  /** The three lists the page shows: success_import_list,
      error_import_list and type_error_import_list. */
  datatype Bucket = SuccessList | ErrorList | TypeErrorList

  function BucketOf(o: Outcome): Option<Bucket> {
    match o
    case Skipped => None
    case TypeError => Some(TypeErrorList)
    case Duplicate => Some(ErrorList)
    case Imported(_) => Some(SuccessList)
  }

  /** The state the loop carries: the contact table, the three lists,
      `contact_record_count` and `msg`. */
  datatype Tally = Tally(
    contacts: map<ContactKey, Contact>,
    success: seq<Row>,
    duplicates: seq<Row>,
    typeErrors: seq<Row>,
    count: nat,
    msg: Message)

  /** The state before the first row. */
  function Initial(contacts: map<ContactKey, Contact>): Tally {
    Tally(contacts, [], [], [], 0, NoMessage)
  }

  function Listed(t: Tally): nat {
    |t.success| + |t.duplicates| + |t.typeErrors|
  }

  /** `striplist(row)`: every field stripped of surrounding whitespace
      (StripListAt gives the fields one by one). */
  function StripList(row: Row): (r: Row)
    ensures |r| == |row|
    decreases |row|
  {
    if row == [] then [] else StripList(row[..|row| - 1]) + [Strip(row[|row| - 1])]
  }

  lemma {:induction false} StripListAt(row: Row, i: nat)
    requires i < |row|
    ensures StripList(row)[i] == Strip(row[i])
    decreases |row|
  {
    var n := |row| - 1;
    if i < n {
      StripListAt(row[..n], i);
    }
  }

  /** `int(row[5])` succeeds: the row has a sixth field and it is an integer. */
  predicate StatusParses(r: Row) {
    |r| > 5 && ParseInt(r[5]).Some?
  }

  /** A stripped row that passes the type check against a phonebook that was
      found: the code goes on to the duplicate lookup. */
  predicate Typed(pb: Option<PhonebookId>, r: Row) {
    StatusParses(r) && pb.Some?
  }

  /** A typed row that also has the seventh field `create` reads. */
  predicate Insertable(pb: Option<PhonebookId>, r: Row) {
    Typed(pb, r) && |r| > 6
  }

  function RowKey(pb: Option<PhonebookId>, r: Row): ContactKey
    requires Typed(pb, r)
  {
    ContactKey(pb.value, r[0])
  }

  /** The contact `Contact.objects.create` builds from a stripped row. */
  function ContactOf(pb: Option<PhonebookId>, r: Row): (c: Contact)
    requires Insertable(pb, r)
    ensures KeyOf(c) == RowKey(pb, r)
  {
    Contact(pb.value, r[0], r[1], r[2], r[3], r[4], ParseInt(r[5]).value, r[6])
  }

  /** The classification of one row against the table as it stands and the
      result of the phonebook lookup (None when the phonebook does not
      exist). Python 2 compares any str as greater than any int, so the guard
      `row and str(row[0]) > 0` only skips rows with no fields. The lookup and
      the type check raise into the same handler, so a missing phonebook is a
      type error too; a non-duplicate row with only six fields raises when
      `create` reads the seventh and is a type error as well. */
  function Classify(contacts: map<ContactKey, Contact>, pb: Option<PhonebookId>, row: Row): Outcome
  {
    if row == [] then Skipped
    else
      var r := StripList(row);
      if !Typed(pb, r) then TypeError
      else if RowKey(pb, r) in contacts then Duplicate
      else if |r| < 7 then TypeError
      else Imported(ContactOf(pb, r))
  }

  /** One pass of the loop body: the row joins the list its outcome names,
      stripped, and an imported row is inserted and counted. */
  function Step(t: Tally, pb: Option<PhonebookId>, total: nat, row: Row): Tally
  {
    var r := StripList(row);
    match Classify(t.contacts, pb, row)
    case Skipped => t
    case TypeError => t.(typeErrors := t.typeErrors + [r], msg := InvalidValue)
    case Duplicate => t.(duplicates := t.duplicates + [r], msg := AlreadyExists)
    case Imported(c) =>
      t.(contacts := t.contacts[KeyOf(c) := c],
         success := t.success + [r],
         count := t.count + 1,
         msg := Uploaded(t.count + 1, total))
  }

  /** The loop run over `rows` from state `t`, in file order. */
  function Run(t: Tally, pb: Option<PhonebookId>, total: nat, rows: seq<Row>): Tally
    decreases |rows|
  {
    if rows == [] then t
    else Step(Run(t, pb, total, rows[..|rows| - 1]), pb, total, rows[|rows| - 1])
  }

  /** The whole import of a file: `total_rows` is the number of records. */
  function Import(contacts: map<ContactKey, Contact>, pb: Option<PhonebookId>, rows: seq<Row>): Tally {
    Run(Initial(contacts), pb, |rows|, rows)
  }

  /** The outcome of row `i`: its classification against the table left by
      the rows before it. */
  function OutcomeAt(t: Tally, pb: Option<PhonebookId>, total: nat, rows: seq<Row>, i: nat): Outcome
    requires i < |rows|
  {
    Classify(Run(t, pb, total, rows[..i]).contacts, pb, rows[i])
  }

  /** The stripped rows whose outcome puts them in bucket `b`, in file order. */
  function Picked(t: Tally, pb: Option<PhonebookId>, total: nat, rows: seq<Row>, b: Bucket): seq<Row>
    decreases |rows|
  {
    if rows == [] then []
    else
      var n := |rows| - 1;
      Picked(t, pb, total, rows[..n], b)
        + (if BucketOf(OutcomeAt(t, pb, total, rows, n)) == Some(b) then [StripList(rows[n])] else [])
  }

  /** The number of rows with at least one field. */
  function NonEmpty(rows: seq<Row>): nat
    decreases |rows|
  {
    if rows == [] then 0
    else NonEmpty(rows[..|rows| - 1]) + (if rows[|rows| - 1] == [] then 0 else 1)
  }

  // ---------------------------------------------------------------------
  // One row
  // ---------------------------------------------------------------------

  /** A row with no fields is skipped: it joins no list and the table,
      counter and message are unchanged. */
  lemma RowSkipped(t: Tally, pb: Option<PhonebookId>, total: nat, row: Row)
    requires row == []
    ensures Step(t, pb, total, row) == t
  {
  }

  /** A row whose status field is missing or not an integer, or whose
      phonebook does not exist, joins the type-error list; nothing else
      changes but the message. */
  lemma RowTypeError(t: Tally, pb: Option<PhonebookId>, total: nat, row: Row)
    requires row != [] && !Typed(pb, StripList(row))
    ensures Step(t, pb, total, row)
      == t.(typeErrors := t.typeErrors + [StripList(row)], msg := InvalidValue)
  {
  }

  /** A typed row whose key is already in the table joins the duplicate
      list and creates nothing, even if it has only six fields. */
  lemma RowDuplicate(t: Tally, pb: Option<PhonebookId>, total: nat, row: Row)
    requires row != [] && Typed(pb, StripList(row))
    requires RowKey(pb, StripList(row)) in t.contacts
    ensures Step(t, pb, total, row)
      == t.(duplicates := t.duplicates + [StripList(row)], msg := AlreadyExists)
  {
  }

  /** A typed, new row with only six fields fails inside `create` (there is
      no `row[6]`), so it joins the type-error list and creates nothing. */
  lemma RowTooShortToCreate(t: Tally, pb: Option<PhonebookId>, total: nat, row: Row)
    requires row != [] && Typed(pb, StripList(row)) && |row| == 6
    requires RowKey(pb, StripList(row)) !in t.contacts
    ensures Step(t, pb, total, row)
      == t.(typeErrors := t.typeErrors + [StripList(row)], msg := InvalidValue)
  {
  }

  /** Any other row adds exactly one contact, built from the stripped fields
      0 to 4, the integer value of field 5 and field 6, under a key that was
      free; the row joins the success list and the counter goes up by one. */
  lemma RowImported(t: Tally, pb: Option<PhonebookId>, total: nat, row: Row)
    requires row != [] && Insertable(pb, StripList(row))
    requires RowKey(pb, StripList(row)) !in t.contacts
    ensures var r := StripList(row);
      var t' := Step(t, pb, total, row);
      && t'.contacts == t.contacts[RowKey(pb, r) := ContactOf(pb, r)]
      && |t'.contacts| == |t.contacts| + 1
      && t'.success == t.success + [r]
      && t'.duplicates == t.duplicates && t'.typeErrors == t.typeErrors
      && t'.count == t.count + 1
      && t'.msg == Uploaded(t.count + 1, total)
  {
    var r := StripList(row);
    assert Classify(t.contacts, pb, row) == Imported(ContactOf(pb, r));
  }

  /** The list a row joins is the one its outcome names. */
  lemma StepList(t: Tally, pb: Option<PhonebookId>, total: nat, row: Row, b: Bucket)
    ensures ListOf(Step(t, pb, total, row), b)
      == ListOf(t, b) + (if BucketOf(Classify(t.contacts, pb, row)) == Some(b) then [StripList(row)] else [])
  {
  }

  /** Only an imported row changes the table, and it is counted. */
  lemma StepTable(t: Tally, pb: Option<PhonebookId>, total: nat, row: Row)
    ensures var t' := Step(t, pb, total, row);
      match Classify(t.contacts, pb, row)
      case Imported(c) =>
        && KeyOf(c) !in t.contacts && t'.contacts == t.contacts[KeyOf(c) := c]
        && t'.count == t.count + 1 && t'.success == t.success + [StripList(row)]
        && c == ContactOf(pb, StripList(row))
      case _ => t'.contacts == t.contacts && t'.count == t.count && t'.success == t.success
  {
  }

  /** The list of the report that bucket `b` names. */
  function ListOf(t: Tally, b: Bucket): seq<Row> {
    match b
    case SuccessList => t.success
    case ErrorList => t.duplicates
    case TypeErrorList => t.typeErrors
  }

  // ---------------------------------------------------------------------
  // The whole loop
  // ---------------------------------------------------------------------

  /** `contact_record_count` moves in step with the success list. */
  lemma {:induction false} RunCounter(t: Tally, pb: Option<PhonebookId>, total: nat, rows: seq<Row>)
    ensures Run(t, pb, total, rows).count - t.count == |Run(t, pb, total, rows).success| - |t.success|
    decreases |rows|
  {
    if rows != [] {
      var n := |rows| - 1;
      RunCounter(t, pb, total, rows[..n]);
      StepTable(Run(t, pb, total, rows[..n]), pb, total, rows[n]);
    }
  }

  /** Every row with a field joins exactly one list; skipped rows join none. */
  lemma {:induction false} RunPartition(t: Tally, pb: Option<PhonebookId>, total: nat, rows: seq<Row>)
    ensures Listed(Run(t, pb, total, rows)) == Listed(t) + NonEmpty(rows)
    decreases |rows|
  {
    if rows != [] {
      var n := |rows| - 1;
      var before := Run(t, pb, total, rows[..n]);
      RunPartition(t, pb, total, rows[..n]);
      StepList(before, pb, total, rows[n], SuccessList);
      StepList(before, pb, total, rows[n], ErrorList);
      StepList(before, pb, total, rows[n], TypeErrorList);
    }
  }

  /** Each list is the old list followed by the stripped rows that landed in
      it, in file order. */
  lemma {:induction false} RunList(t: Tally, pb: Option<PhonebookId>, total: nat, rows: seq<Row>, b: Bucket)
    ensures ListOf(Run(t, pb, total, rows), b) == ListOf(t, b) + Picked(t, pb, total, rows, b)
    decreases |rows|
  {
    if rows == [] {
      assert ListOf(t, b) + [] == ListOf(t, b);
    } else {
      var n := |rows| - 1;
      var before := Run(t, pb, total, rows[..n]);
      RunList(t, pb, total, rows[..n], b);
      StepList(before, pb, total, rows[n], b);
      var extra := if BucketOf(Classify(before.contacts, pb, rows[n])) == Some(b) then [StripList(rows[n])] else [];
      var p := Picked(t, pb, total, rows[..n], b);
      assert Picked(t, pb, total, rows, b) == p + extra;
      assert ListOf(Run(t, pb, total, rows), b) == ListOf(before, b) + extra;
      assert ListOf(t, b) + p + extra == ListOf(t, b) + (p + extra);
    }
  }

  /** Contacts already in the table stay as they were, and the table grows
      by one contact per imported row. */
  lemma {:induction false} RunKeepsTable(t: Tally, pb: Option<PhonebookId>, total: nat, rows: seq<Row>)
    ensures forall k :: k in t.contacts ==>
      k in Run(t, pb, total, rows).contacts && Run(t, pb, total, rows).contacts[k] == t.contacts[k]
    ensures |Run(t, pb, total, rows).contacts| == |t.contacts| + (|Run(t, pb, total, rows).success| - |t.success|)
    decreases |rows|
  {
    if rows != [] {
      var n := |rows| - 1;
      RunKeepsTable(t, pb, total, rows[..n]);
      StepTable(Run(t, pb, total, rows[..n]), pb, total, rows[n]);
    }
  }

  /** Every row of the new part of the success list was inserted under a key
      that was not in the table before the run, with the contact built from
      its fields, and no two of them share a key. */
  lemma {:induction false} RunInserted(t: Tally, pb: Option<PhonebookId>, total: nat, rows: seq<Row>)
    ensures var t' := Run(t, pb, total, rows);
      forall i :: |t.success| <= i < |t'.success| ==>
        Insertable(pb, t'.success[i])
        && RowKey(pb, t'.success[i]) !in t.contacts
        && RowKey(pb, t'.success[i]) in t'.contacts
        && t'.contacts[RowKey(pb, t'.success[i])] == ContactOf(pb, t'.success[i])
    ensures var t' := Run(t, pb, total, rows);
      forall i, j :: |t.success| <= i < j < |t'.success| ==>
        Insertable(pb, t'.success[i]) && Insertable(pb, t'.success[j])
        && RowKey(pb, t'.success[i]) != RowKey(pb, t'.success[j])
    decreases |rows|
  {
    if rows != [] {
      var n := |rows| - 1;
      var before := Run(t, pb, total, rows[..n]);
      var after := Run(t, pb, total, rows);
      RunInserted(t, pb, total, rows[..n]);
      RunKeepsTable(t, pb, total, rows[..n]);
      StepTable(before, pb, total, rows[n]);
      if after.success != before.success {
        var c := Classify(before.contacts, pb, rows[n]).contact;
        var last := |before.success|;
        assert after.success == before.success + [after.success[last]];
        forall i | |t.success| <= i < last
          ensures after.success[i] == before.success[i]
          ensures RowKey(pb, before.success[i]) in before.contacts
          ensures RowKey(pb, before.success[i]) != KeyOf(c)
        {
        }
      }
    }
  }

  /** The table only grows as the rows go by. */
  lemma {:induction false} RunGrows(t: Tally, pb: Option<PhonebookId>, total: nat, rows: seq<Row>, i: nat, j: nat)
    requires i <= j <= |rows|
    ensures Run(t, pb, total, rows[..i]).contacts.Keys <= Run(t, pb, total, rows[..j]).contacts.Keys
    decreases j - i
  {
    if i < j {
      RunGrows(t, pb, total, rows, i, j - 1);
      var p := rows[..j];
      assert p[..|p| - 1] == rows[..j - 1];
      StepTable(Run(t, pb, total, rows[..j - 1]), pb, total, rows[j - 1]);
    }
  }

  /** Order matters: once a row has been imported, a later row of the same
      file with the same contact number that gets as far as the duplicate
      lookup is reported as a duplicate. */
  lemma LaterSameNumberIsDuplicate(t: Tally, pb: Option<PhonebookId>, total: nat, rows: seq<Row>, i: nat, j: nat)
    requires i < j < |rows|
    requires OutcomeAt(t, pb, total, rows, i).Imported?
    requires rows[j] != [] && Typed(pb, StripList(rows[j]))
    requires StripList(rows[j])[0] == StripList(rows[i])[0]
    ensures OutcomeAt(t, pb, total, rows, j) == Duplicate
  {
    var p := rows[..i + 1];
    assert p[..|p| - 1] == rows[..i];
    var before := Run(t, pb, total, rows[..i]);
    StepTable(before, pb, total, rows[i]);
    RunGrows(t, pb, total, rows, i + 1, j);
    assert RowKey(pb, StripList(rows[j])) in Run(t, pb, total, rows[..j]).contacts;
  }

  /** The report of a whole import, summed up: the counter equals the number
      of rows in the success list and the number of contacts added; the three
      lists hold every row with a field, each once, in file order; contacts
      that were there before are untouched. */
  lemma ImportReport(contacts: map<ContactKey, Contact>, pb: Option<PhonebookId>, rows: seq<Row>)
    ensures var r := Import(contacts, pb, rows);
      && r.count == |r.success|
      && |r.contacts| == |contacts| + r.count
      && |r.success| + |r.duplicates| + |r.typeErrors| == NonEmpty(rows)
      && r.success == Picked(Initial(contacts), pb, |rows|, rows, SuccessList)
      && r.duplicates == Picked(Initial(contacts), pb, |rows|, rows, ErrorList)
      && r.typeErrors == Picked(Initial(contacts), pb, |rows|, rows, TypeErrorList)
      && (forall k :: k in contacts ==> k in r.contacts && r.contacts[k] == contacts[k])
  {
    var t := Initial(contacts);
    RunCounter(t, pb, |rows|, rows);
    RunKeepsTable(t, pb, |rows|, rows);
    RunPartition(t, pb, |rows|, rows);
    RunList(t, pb, |rows|, rows, SuccessList);
    RunList(t, pb, |rows|, rows, ErrorList);
    RunList(t, pb, |rows|, rows, TypeErrorList);
  }

  /** The table after an import is the old table plus one contact per row
      of the success list, each built from that row's fields, and nothing
      else. */
  lemma ImportAdds(contacts: map<ContactKey, Contact>, pb: Option<PhonebookId>, rows: seq<Row>)
    ensures var r := Import(contacts, pb, rows);
      forall i :: 0 <= i < |r.success| ==>
        Insertable(pb, r.success[i])
        && RowKey(pb, r.success[i]) !in contacts
        && RowKey(pb, r.success[i]) in r.contacts
        && r.contacts[RowKey(pb, r.success[i])] == ContactOf(pb, r.success[i])
    ensures var r := Import(contacts, pb, rows);
      forall k :: k in r.contacts && k !in contacts ==>
        exists i :: 0 <= i < |r.success| && Insertable(pb, r.success[i]) && RowKey(pb, r.success[i]) == k
  {
    var t := Initial(contacts);
    var r := Import(contacts, pb, rows);
    RunInserted(t, pb, |rows|, rows);
    RunKeepsTable(t, pb, |rows|, rows);
    var keys := seq(|r.success|, i requires 0 <= i < |r.success| => RowKey(pb, r.success[i]));
    NewKeysCome(contacts, r.contacts, keys);
    forall k | k in r.contacts && k !in contacts
      ensures exists i :: 0 <= i < |r.success| && Insertable(pb, r.success[i]) && RowKey(pb, r.success[i]) == k
    {
      var i :| 0 <= i < |keys| && keys[i] == k;
      assert Insertable(pb, r.success[i]);
    }
  }

  /** Counting argument behind ImportAdds: if `after` keeps the keys of
      `before`, has exactly |keys| more, and holds every one of `keys`, which
      are distinct and new, then it holds no other new key. */
  lemma NewKeysCome<K, V>(before: map<K, V>, after: map<K, V>, keys: seq<K>)
    requires before.Keys <= after.Keys
    requires |after| == |before| + |keys|
    requires forall i :: 0 <= i < |keys| ==> keys[i] !in before && keys[i] in after
    requires forall i, j :: 0 <= i < j < |keys| ==> keys[i] != keys[j]
    ensures forall k :: k in after && k !in before ==> exists i :: 0 <= i < |keys| && keys[i] == k
  {
    var added := set i | 0 <= i < |keys| :: keys[i];
    DistinctCard(keys);
    assert before.Keys !! added;
    assert |before.Keys + added| == |before.Keys| + |added|;
    forall k | k in after && k !in before
      ensures exists i :: 0 <= i < |keys| && keys[i] == k
    {
      if k !in added {
        var held := before.Keys + added + {k};
        SubsetCard(held, after.Keys);
        assert false;
      }
    }
  }

  lemma SubsetCard<T>(a: set<T>, b: set<T>)
    requires a <= b
    ensures |a| <= |b|
  {
    assert b == a + (b - a);
  }

  /** A sequence without repetitions has as many distinct elements as entries. */
  lemma {:induction false} DistinctCard<T>(keys: seq<T>)
    requires forall i, j :: 0 <= i < j < |keys| ==> keys[i] != keys[j]
    ensures |set i | 0 <= i < |keys| :: keys[i]| == |keys|
    decreases |keys|
  {
    if keys != [] {
      var n := |keys| - 1;
      var front := keys[..n];
      DistinctCard(front);
      var s := set i | 0 <= i < |keys| :: keys[i];
      var s0 := set i | 0 <= i < n :: front[i];
      assert s == s0 + {keys[n]} by {
        forall x | x in s ensures x in s0 + {keys[n]} {
          var i :| 0 <= i < |keys| && x == keys[i];
          if i < n { assert front[i] == keys[i]; }
        }
        forall x | x in s0 ensures x in s {
          var i :| 0 <= i < n && x == front[i];
          assert front[i] == keys[i];
        }
      }
      assert keys[n] !in s0;
    }
  }

  /** Every row lands in at most one list, and a row lands in none exactly
      when it has no fields. */
  lemma OneBucketPerRow(t: Tally, pb: Option<PhonebookId>, total: nat, rows: seq<Row>, i: nat)
    requires i < |rows|
    ensures BucketOf(OutcomeAt(t, pb, total, rows, i)) == None <==> rows[i] == []
  {
  }

  // ---------------------------------------------------------------------
  // A worked file
  // ---------------------------------------------------------------------

  const NewRow: Row := ["111", "A", "B", "a@x.com", "d", "1", "v1"]
  const EmptyFieldsRow: Row := ["", "", "", "", "", "", ""]
  const BadStatusRow: Row := ["222", "C", "D", "c@x.com", "d", "bad", "v2"]

  lemma ExampleFields()
    ensures StripList(NewRow) == NewRow
    ensures StripList(EmptyFieldsRow) == EmptyFieldsRow
    ensures StripList(BadStatusRow) == BadStatusRow
    ensures ParseInt("1") == Some(1) && ParseInt("") == None && ParseInt("bad") == None
  {
    StripListTight(NewRow);
    StripListTight(EmptyFieldsRow);
    StripListTight(BadStatusRow);
    ParseShowRoundTrip(1);
    assert !IsDigits("bad");
  }

  /** The four steps of the example, one row at a time. */
  lemma ExampleSteps(pb: PhonebookId) returns (t1: Tally, t2: Tally, t3: Tally, t4: Tally)
    ensures t1 == Step(Initial(map[]), Some(pb), 4, NewRow)
    ensures t2 == Step(t1, Some(pb), 4, NewRow)
    ensures t3 == Step(t2, Some(pb), 4, EmptyFieldsRow)
    ensures t4 == Step(t3, Some(pb), 4, BadStatusRow)
    ensures t4.success == [NewRow] && t4.duplicates == [NewRow]
    ensures t4.typeErrors == [EmptyFieldsRow, BadStatusRow]
    ensures t4.count == 1 && |t4.contacts| == 1 && t4.msg == InvalidValue
  {
    var p := Some(pb);
    ExampleFields();
    RowImported(Initial(map[]), p, 4, NewRow);
    t1 := Step(Initial(map[]), p, 4, NewRow);
    RowDuplicate(t1, p, 4, NewRow);
    t2 := Step(t1, p, 4, NewRow);
    RowTypeError(t2, p, 4, EmptyFieldsRow);
    t3 := Step(t2, p, 4, EmptyFieldsRow);
    RowTypeError(t3, p, 4, BadStatusRow);
    t4 := Step(t3, p, 4, BadStatusRow);
  }

  /** Four rows against an empty phonebook: one new contact, the same
      contact again, a row of seven empty fields and a row whose status is
      not a number. The third row is not skipped by the guard (it has
      fields) and `int("")` fails, so two rows are type errors. */
  lemma FourRowExample(pb: PhonebookId)
    ensures var r := Import(map[], Some(pb), [NewRow, NewRow, EmptyFieldsRow, BadStatusRow]);
      && r.success == [NewRow] && r.duplicates == [NewRow]
      && r.typeErrors == [EmptyFieldsRow, BadStatusRow]
      && r.count == 1 && |r.contacts| == 1
      && r.msg == InvalidValue
  {
    var rows := [NewRow, NewRow, EmptyFieldsRow, BadStatusRow];
    var p := Some(pb);
    var t0 := Initial(map[]);
    var t1, t2, t3, t4 := ExampleSteps(pb);
    var r1, r2, r3 := rows[..1], rows[..2], rows[..3];
    assert r1[..0] == [] && r2[..1] == r1 && r3[..2] == r2 && rows[..3] == r3;
    assert Run(t0, p, 4, r1) == t1;
    assert Run(t0, p, 4, r2) == t2;
    assert Run(t0, p, 4, r3) == t3;
  }

  /** Stripping a row of fields that are already tight changes nothing. */
  lemma {:induction false} StripListTight(row: Row)
    requires forall i :: 0 <= i < |row| ==> Tight(row[i])
    ensures StripList(row) == row
    decreases |row|
  {
    if row != [] {
      var n := |row| - 1;
      StripListTight(row[..n]);
      StripTight(row[n]);
    }
  }
}
