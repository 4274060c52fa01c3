/**
 The records the admin views read and write, and the database tables they
 live in. Only the fields and lookups the admin code touches are modelled:
 a campaign is created whole by the framework's add form, a contact is
 looked up by (phonebook, contact number) and inserted, a phonebook is
 looked up by primary key, and a limit-reached notification is recorded.
 */
module Models {
  import opened Optional

  type PhonebookId = int
  type UserId = int

  /** A campaign as the add form submits it; its scheduling and retry
      settings are carried along by the framework and play no part here. */
  datatype Campaign = Campaign(name: string, user: UserId)

  /** The lookup key of a contact: its phonebook and its contact number. */
  datatype ContactKey = ContactKey(phonebook: PhonebookId, contact: string)

  datatype Contact = Contact(
    phonebook: PhonebookId,
    contact: string,
    lastName: string,
    firstName: string,
    email: string,
    description: string,
    status: int,
    additionalVars: string)

  function KeyOf(c: Contact): ContactKey {
    ContactKey(c.phonebook, c.contact)
  }

  /** What `Phonebook.objects.get(pk=id)` finds among the stored phonebooks. */
  function FindPhonebook(phonebooks: set<PhonebookId>, id: PhonebookId): (found: Option<PhonebookId>)
    ensures found.Some? <==> id in phonebooks
    ensures found.Some? ==> found.value == id
  {
    if id in phonebooks then Some(id) else None
  }

  /** The notification code the admin views send when a limit is reached. */
  const LimitReachedNotice: string := "3"

  /** The database, as far as the admin views see it. */
  class Store {
    var campaigns: seq<Campaign>
    var contacts: map<ContactKey, Contact>
    var phonebooks: set<PhonebookId>
    /** Codes of the notifications sent, oldest first. */
    var notices: seq<string>

    constructor (phonebooks: set<PhonebookId>, contacts: map<ContactKey, Contact>)
      ensures this.phonebooks == phonebooks && this.contacts == contacts
      ensures campaigns == [] && notices == []
    {
      this.phonebooks := phonebooks;
      this.contacts := contacts;
      campaigns := [];
      notices := [];
    }

    /** `Phonebook.objects.get(pk=id)`: found exactly when the phonebook exists
        (`DoesNotExist` becomes `None`). */
    method GetPhonebook(id: PhonebookId) returns (found: Option<PhonebookId>)
      ensures found == FindPhonebook(phonebooks, id)
    {
      if id in phonebooks {
        found := Some(id);
      } else {
        found := None;
      }
    }

    /** `Contact.objects.get(phonebook_id=..., contact=...)`: the stored contact
        under that key, or `None` for `DoesNotExist`. */
    method GetContact(key: ContactKey) returns (found: Option<Contact>)
      ensures found.Some? <==> key in contacts
      ensures found.Some? ==> found.value == contacts[key]
    {
      if key in contacts {
        found := Some(contacts[key]);
      } else {
        found := None;
      }
    }

    /** `Contact.objects.create(...)`: the contact is stored under its key. */
    method CreateContact(c: Contact)
      modifies this`contacts
      ensures contacts == old(contacts)[KeyOf(c) := c]
    {
      contacts := contacts[KeyOf(c) := c];
    }

    /** Saving a new campaign appends it to the table. */
    method CreateCampaign(c: Campaign)
      modifies this`campaigns
      ensures campaigns == old(campaigns) + [c]
    {
      campaigns := campaigns + [c];
    }

    /** `common_send_notification(request, code)`: the notification is recorded. */
    method SendNotification(code: string)
      modifies this`notices
      ensures notices == old(notices) + [code]
    {
      notices := notices + [code];
    }
  }
}
