/**
 The three admin views of `dialer_campaign/admin.py` that carry logic: the
 campaign and contact add views, which refuse to create anything once the
 user's dialer limit is reached, and the contact CSV import, whose row loop
 is proved to compute ContactImport.Import.
 */
module DialerCampaignAdmin {
  import opened Optional
  import opened Text
  import opened Models
  import opened ContactImport

  datatype HttpMethod = Get | Post

  /** The parts of a request the views look at: the logged-in user (`None`
      where `request.user` is falsy) and its HTTP method. */
  datatype Request = Request(user: Option<UserId>, verb: HttpMethod)

  /** The admin list pages the views redirect to. */
  datatype Changelist = CampaignChangelist | ContactChangelist

  /** What the import page is rendered with: `msg` and the three lists.
      `imported` and `totalRows` are `contact_record_count` and `total_rows`,
      which reach the page through `msg`. */
  datatype ImportPage = ImportPage(
    msg: Message,
    success: seq<Row>,
    duplicates: seq<Row>,
    typeErrors: seq<Row>,
    imported: nat,
    totalRows: nat)

  /** The page shown for a GET or for a form that does not validate. */
  const EmptyImportPage: ImportPage := ImportPage(NoMessage, [], [], [], 0, 0)

  datatype Response =
    | Redirect(to: Changelist)   // limit reached: back to the list page
    | AddForm                    // the framework's own add view answered
    | ImportForm(page: ImportPage)

  /** What the framework's add view saves: the submitted object, on a POST
      whose form it accepts (`submitted` is `None` when it accepts none). */
  function Saved<T>(request: Request, submitted: Option<T>): (s: seq<T>)
    ensures |s| <= 1
    ensures s != [] <==> request.verb == Post && submitted.Some?
  {
    if request.verb == Post && submitted.Some? then [submitted.value] else []
  }

  /** The contact views check the limit only for a POST by a user. */
  predicate ContactLimitApplies(request: Request, limitReached: bool) {
    request.user.Some? && request.verb == Post && limitReached
  }

  /** `CampaignAdmin.add_view`. `limitReached` is what
      `check_dialer_setting(request, check_for="campaign")` answers; when it
      is true, a notification is sent, nothing is created and the user is
      sent back to the campaign list, whatever the request method. */
  method CampaignAddView(db: Store, request: Request, limitReached: bool, submitted: Option<Campaign>)
    returns (response: Response)
    modifies db
    ensures limitReached ==>
      && response == Redirect(CampaignChangelist)
      && db.campaigns == old(db.campaigns)
      && db.notices == old(db.notices) + [LimitReachedNotice]
    ensures !limitReached ==>
      && response == AddForm
      && db.campaigns == old(db.campaigns) + Saved(request, submitted)
      && db.notices == old(db.notices)
    ensures db.contacts == old(db.contacts) && db.phonebooks == old(db.phonebooks)
  {
    if limitReached {
      db.SendNotification(LimitReachedNotice);
      return Redirect(CampaignChangelist);
    }
    if request.verb == Post && submitted.Some? {
      db.CreateCampaign(submitted.value);
    }
    response := AddForm;
  }

  /** `ContactAdmin.add_view`: for a POST by a user whose contact limit is
      reached, a notification is sent, nothing is created and the user is
      sent back to the contact list; otherwise the framework's add view
      runs. */
  method ContactAddView(db: Store, request: Request, limitReached: bool, submitted: Option<Contact>)
    returns (response: Response)
    modifies db
    ensures ContactLimitApplies(request, limitReached) ==>
      && response == Redirect(ContactChangelist)
      && db.contacts == old(db.contacts)
      && db.notices == old(db.notices) + [LimitReachedNotice]
    ensures !ContactLimitApplies(request, limitReached) ==>
      && response == AddForm
      && db.contacts == (if request.verb == Post && submitted.Some?
                         then old(db.contacts)[KeyOf(submitted.value) := submitted.value]
                         else old(db.contacts))
      && db.notices == old(db.notices)
    ensures db.campaigns == old(db.campaigns) && db.phonebooks == old(db.phonebooks)
  {
    if request.user.Some? && request.verb == Post {
      if limitReached {
        db.SendNotification(LimitReachedNotice);
        return Redirect(ContactChangelist);
      }
    }
    if request.verb == Post && submitted.Some? {
      db.CreateContact(submitted.value);
    }
    response := AddForm;
  }

  /** `ContactAdmin.import_contact`. The same limit check as the add view
      comes first. Then, for a POST whose form validates, every row of the
      file is classified in order against the contact table as it stands,
      the contacts are created as it goes, and the page reports exactly what
      ContactImport.Import computes from the table before the import and the
      phonebook selected in the form; `totalRows` counts every row, skipped
      ones included. A GET, or a form that does not validate, shows the
      empty page and changes nothing. */
  method ImportContact(db: Store, request: Request, limitReached: bool, formValid: bool,
                       selected: PhonebookId, rows: seq<Row>)
    returns (response: Response)
    modifies db
    ensures ContactLimitApplies(request, limitReached) ==>
      && response == Redirect(ContactChangelist)
      && db.contacts == old(db.contacts)
      && db.notices == old(db.notices) + [LimitReachedNotice]
    ensures !ContactLimitApplies(request, limitReached) && !(request.verb == Post && formValid) ==>
      && response == ImportForm(EmptyImportPage)
      && db.contacts == old(db.contacts)
      && db.notices == old(db.notices)
    ensures !ContactLimitApplies(request, limitReached) && request.verb == Post && formValid ==>
      var r := Import(old(db.contacts), FindPhonebook(old(db.phonebooks), selected), rows);
      && response == ImportForm(ImportPage(r.msg, r.success, r.duplicates, r.typeErrors, r.count, |rows|))
      && db.contacts == r.contacts
      && db.notices == old(db.notices)
    ensures db.campaigns == old(db.campaigns) && db.phonebooks == old(db.phonebooks)
  {
    if request.user.Some? && request.verb == Post {
      if limitReached {
        db.SendNotification(LimitReachedNotice);
        return Redirect(ContactChangelist);
      }
    }
    if !(request.verb == Post && formValid) {
      return ImportForm(EmptyImportPage);
    }
    var totalRows := |rows|;
    var success: seq<Row> := [];
    var duplicates: seq<Row> := [];
    var typeErrors: seq<Row> := [];
    var count: nat := 0;
    var msg := NoMessage;
    ghost var pb := FindPhonebook(db.phonebooks, selected);
    ghost var start := Initial(db.contacts);
    var i := 0;
    while i < |rows|
      invariant 0 <= i <= |rows|
      invariant Run(start, pb, totalRows, rows[..i]) == Tally(db.contacts, success, duplicates, typeErrors, count, msg)
      invariant db.phonebooks == old(db.phonebooks) && db.campaigns == old(db.campaigns)
      invariant db.notices == old(db.notices)
    {
      ghost var before := Tally(db.contacts, success, duplicates, typeErrors, count, msg);
      var row := rows[i];
      // `row and str(row[0]) > 0`: under Python 2 any str is greater than
      // any int, so only a row without fields is skipped.
      if row == [] {
        RowSkipped(before, pb, totalRows, row);
      } else {
        var r := StripList(row);
        if |r| < 6 || ParseInt(r[5]).None? {
          RowTypeError(before, pb, totalRows, row);
          msg := InvalidValue;
          typeErrors := typeErrors + [r];
        } else {
          var phonebook := db.GetPhonebook(selected);
          if phonebook.None? {
            RowTypeError(before, pb, totalRows, row);
            msg := InvalidValue;
            typeErrors := typeErrors + [r];
          } else {
            var existing := db.GetContact(ContactKey(phonebook.value, r[0]));
            if existing.Some? {
              RowDuplicate(before, pb, totalRows, row);
              msg := AlreadyExists;
              duplicates := duplicates + [r];
            } else if |r| < 7 {
              // `create` reads `row[6]`, which raises into the outer handler.
              RowTooShortToCreate(before, pb, totalRows, row);
              msg := InvalidValue;
              typeErrors := typeErrors + [r];
            } else {
              RowImported(before, pb, totalRows, row);
              db.CreateContact(Contact(phonebook.value, r[0], r[1], r[2], r[3], r[4], ParseInt(r[5]).value, r[6]));
              count := count + 1;
              msg := Uploaded(count, totalRows);
              success := success + [r];
            }
          }
        }
      }
      assert rows[..i + 1][..i] == rows[..i];
      i := i + 1;
    }
    assert rows[..|rows|] == rows;
    response := ImportForm(ImportPage(msg, success, duplicates, typeErrors, count, totalRows));
  }
}
