# Newfies-Dialer campaign admin: contact import and dialer limits

This project models the part of the Newfies-Dialer `dialer_campaign` admin that
makes decisions:

- the CSV contact import of the contact admin (`import_contact`). Each row of
  the uploaded file is stripped field by field. It is then skipped, reported as
  a type error, reported as a duplicate of a contact already in the chosen
  phonebook, or stored as a new contact. The page reports the three row lists,
  the number of contacts imported and the number of rows in the file;
- the dialer-limit gates in front of it. The campaign add view, the contact add
  view and the import all send notification code `3` and redirect to the list
  page instead of creating anything once the user's limit is reached. For
  contacts this applies only to a POST by a logged-in user.

Modules:

- `Optional`: the option type.
- `Text`: Python 2 `str.strip()` and `int()`.
- `Models`: campaigns, contacts and phonebooks, and a `Store` class holding the
  tables the views read and write.
- `ContactImport`: the import as functions over an in-memory contact table
  keyed by (phonebook, contact number), with lemmas about one row and about a
  whole file.
- `DialerCampaignAdmin`: the three views as methods on a `Store`. The import
  loop is proved to compute `ContactImport.Import` and to leave the store
  holding its table.

The guard on each row, `row and str(row[0]) > 0`, compares a string with an
integer. Under Python 2 that comparison is always true, so only a row with no
fields is skipped. A row of empty fields is therefore not skipped. `int("")`
fails on it, so it is a type error. `ContactImport.FourRowExample` works through
such a file. The model follows the code here, not the reading of the guard as
"the first field is not empty".

A row with exactly six fields, a valid status and a new contact number gets past
the duplicate lookup. It then fails while the arguments of `create` are built,
because there is no `row[6]`. The outer handler reports it as a type error and
no contact is stored. A six-field row whose contact number already exists is a
duplicate.

## Model

| member | source | states |
|---|---|---|
| `Text.StripSplits` | newfies/dialer_campaign/admin.py:200 | a stripped field is the raw field minus whitespace (space, `\t` to `\r`) at both ends: whitespace before it, whitespace after it, and no whitespace at either of its own ends |
| `Text.StripIdempotent` | newfies/dialer_campaign/admin.py:200 | stripping an already stripped field changes nothing |
| `Text.ParseShowRoundTrip` | newfies/dialer_campaign/admin.py:203 | `int()` reads back the decimal rendering of every integer, negative ones included |
| `Text.ParseIntOfStripped` | newfies/dialer_campaign/admin.py:224 | `int()` of the stripped status field equals `int()` of the raw field |
| `Models.FindPhonebook` | newfies/dialer_campaign/admin.py:205-206 | the selected phonebook is found exactly when it exists |
| `Models.Store.GetPhonebook` | newfies/dialer_campaign/admin.py:205-206 | the phonebook lookup answers `FindPhonebook` on the stored phonebooks |
| `Models.Store.GetContact` | newfies/dialer_campaign/admin.py:210-212 | the contact lookup by (phonebook, number) finds a contact exactly when the key is stored, and returns that contact |
| `Models.Store.CreateContact` | newfies/dialer_campaign/admin.py:217-225 | creating a contact stores it under its key and changes no other entry |
| `Models.Store.SendNotification` | newfies/dialer_campaign/admin.py:165 | the notification code is appended to the notifications sent |
| `Models.Store.CreateCampaign` | newfies/dialer_campaign/admin.py:74 | saving a campaign appends it to the campaign table |
| `ContactImport.StripListAt` | newfies/dialer_campaign/admin.py:200 | the stripped row has the same number of fields, each the stripped original field |
| `ContactImport.ContactOf` | newfies/dialer_campaign/admin.py:217-225 | the contact built from a row is stored under the key (selected phonebook, field 0) |
| `ContactImport.RowSkipped` | newfies/dialer_campaign/admin.py:199 | a row with no fields joins no list, and the table, counter and message are unchanged |
| `ContactImport.RowTypeError` | newfies/dialer_campaign/admin.py:201-206 | a row with fewer than six fields, a status that is not an integer, or a missing phonebook joins the type-error list; the table and counter are unchanged |
| `ContactImport.RowDuplicate` | newfies/dialer_campaign/admin.py:207-214 | a row whose (phonebook, field 0) key is already stored joins the duplicate list; nothing is created |
| `ContactImport.RowTooShortToCreate` | newfies/dialer_campaign/admin.py:215-225 | a new six-field row fails while building `create`'s arguments: it is a type error and nothing is created |
| `ContactImport.RowImported` | newfies/dialer_campaign/admin.py:215-232 | any other row adds exactly one contact (stripped fields 0-4, `int` of field 5, field 6) under a key that was free; the table grows by one, no other entry changes, the row joins the success list, the counter goes up by one and the message reports count and total |
| `ContactImport.StepList` | newfies/dialer_campaign/admin.py:198-236 | a row is appended to the list its outcome names and to no other |
| `ContactImport.StepTable` | newfies/dialer_campaign/admin.py:207-232 | only an imported row changes the table or the counter |
| `ContactImport.RunCounter` | newfies/dialer_campaign/admin.py:196-232 | over any run of rows, the counter grows exactly as the success list grows |
| `ContactImport.RunPartition` | newfies/dialer_campaign/admin.py:198-236 | over any run of rows, the three lists grow by the number of rows that have fields |
| `ContactImport.RunList` | newfies/dialer_campaign/admin.py:198-236 | each list grows by the stripped rows classified into it, in file order |
| `ContactImport.RunKeepsTable` | newfies/dialer_campaign/admin.py:215-225 | contacts already stored are untouched, and the table grows by one per imported row |
| `ContactImport.RunInserted` | newfies/dialer_campaign/admin.py:215-232 | every newly imported row was stored under a key that was free before, with the contact built from it, and no two share a key |
| `ContactImport.RunGrows` | newfies/dialer_campaign/admin.py:198-225 | the set of stored keys only grows from row to row |
| `ContactImport.LaterSameNumberIsDuplicate` | newfies/dialer_campaign/admin.py:207-225 | once a row is imported, a later row of the same file with the same contact number that reaches the lookup is a duplicate |
| `ContactImport.OneBucketPerRow` | newfies/dialer_campaign/admin.py:198-236 | a row joins no list exactly when it has no fields |
| `ContactImport.ImportReport` | newfies/dialer_campaign/admin.py:196-236 | for a whole file: counter = success list length = contacts added; the lists hold every row with fields, each once, in file order; old contacts untouched |
| `ContactImport.ImportAdds` | newfies/dialer_campaign/admin.py:215-232 | the new table is the old one plus, for each success row and nothing else, the contact built from it under a key that was free |
| `ContactImport.FourRowExample` | newfies/dialer_campaign/admin.py:198-236 | a new row, the same row again, a row of empty fields and a row with status `bad` give one import, one duplicate and two type errors |
| `DialerCampaignAdmin.CampaignAddView` | newfies/dialer_campaign/admin.py:53-74 | limit reached: notification `3`, redirect to the campaign list, no campaign saved, whatever the method; otherwise the framework's add view saves the submitted campaign on POST |
| `DialerCampaignAdmin.ContactAddView` | newfies/dialer_campaign/admin.py:105-130 | a POST by a user with the limit reached: notification `3`, redirect to the contact list, table unchanged; otherwise the submitted contact is saved on POST |
| `DialerCampaignAdmin.ImportContact` | newfies/dialer_campaign/admin.py:155-236 | same gate as the add view. A GET or an invalid form shows the empty page and changes nothing. Otherwise the page shows exactly the lists, counter and message of `ContactImport.Import`, the total is the number of rows in the file, and the store holds `Import`'s table |

## Left out

- Django admin configuration (fieldsets, list columns, filters, ordering, registration) and the phonebook admin: declarations with no behaviour.
- URL routing in `get_urls`, template rendering, translated message texts and `messages.error`: framework plumbing. The page message is modelled by which branch last set it.
- CSV tokenising and the second read of the uploaded file: the rows arrive already split into fields, and the row count is taken from the same rows.
- `check_dialer_setting`, `dialer_setting_limit` and `Contact_fileImport.is_valid` are not part of this model: their answers are boolean parameters of the views.
- `striplist` is not part of this model: it is taken to strip every field, as `str.strip()` does.
- `common_send_notification` is not part of this model: it is recorded as the code it is sent.
- `MultipleObjectsReturned` from the contact lookup, and database errors such as field-length limits inside `create`: the table is a map, so a lookup finds at most one contact and an insert always succeeds.
- `DialerCampaignAdmin.ContactAddView`: the framework's add view is modelled as saving the submitted contact under its key. On a key already present this replaces the entry, where the database would hold two rows.
- `DialerCampaignAdmin.CampaignAddView`: a campaign carries only its name and user. The scheduling and retry fields are saved by the framework unchanged.
- Python 2 `int()` of a byte string is modelled as whitespace, an optional sign and one or more ASCII digits, then whitespace. Any other form it may accept is not modelled.
- Concurrent imports racing on the duplicate lookup: one request is modelled at a time.
- newfies/voip_app/admin.py: admin registration only, no logic.
