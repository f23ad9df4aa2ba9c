/** The contact form endpoint (`POST /api/contact`) and the contact
    collection it writes: a name and a well-formed email are required, the
    optional fields are stored only when given, and the saved record is
    echoed back with its id. */
module ContactForm {

  import opened Wrappers
  import Strings
  import opened PartModel

  // ---------------------------------------------------------------------
  // The email check

  /** One `[^\s@]+` piece of the email pattern. */
  predicate Segment(x: string) {
    x != [] && forall k :: 0 <= k < |x| ==> !Strings.IsWhitespace(x[k]) && x[k] != '@'
  }

  /** The language of `/^[^\s@]+@[^\s@]+\.[^\s@]+$/`. */
  ghost predicate MatchesEmailPattern(s: string) {
    exists a, b, c ::
      Segment(a) && Segment(b) && Segment(c) && s == a + "@" + b + "." + c
  }

  /** `s[i]` is the only `@` in `s`. */
  predicate OnlyAt(s: string, i: int) {
    0 <= i < |s| && s[i] == '@' && forall k :: 0 <= k < |s| && k != i ==> s[k] != '@'
  }

  /** The same condition said plainly: no whitespace, exactly one `@`, not
      at the start, and a `.` after it that is neither right after the `@`
      nor the last character. */
  predicate EmailShape(s: string) {
    && (forall k :: 0 <= k < |s| ==> !Strings.IsWhitespace(s[k]))
    && exists i :: 0 < i < |s| && OnlyAt(s, i) && exists j :: i + 1 < j < |s| - 1 && s[j] == '.'
  }

  /** A string of the plain shape matches the pattern. */
  lemma ShapeMatchesPattern(s: string)
    requires EmailShape(s)
    ensures MatchesEmailPattern(s)
  {
    var i :| 0 < i < |s| && OnlyAt(s, i) && exists j :: i + 1 < j < |s| - 1 && s[j] == '.';
    var j :| i + 1 < j < |s| - 1 && s[j] == '.';
    var a, b, c := s[..i], s[i + 1..j], s[j + 1..];
    assert s == a + "@" + b + "." + c;
    assert Segment(a) by {
      assert forall k :: 0 <= k < |a| ==> a[k] == s[k];
    }
    assert Segment(b) by {
      assert forall k :: 0 <= k < |b| ==> b[k] == s[i + 1 + k];
    }
    assert Segment(c) by {
      assert forall k :: 0 <= k < |c| ==> c[k] == s[j + 1 + k];
    }
  }

  /** A string matching the pattern has the plain shape. */
  lemma PatternHasShape(s: string)
    requires MatchesEmailPattern(s)
    ensures EmailShape(s)
  {
    var a, b, c :| Segment(a) && Segment(b) && Segment(c) && s == a + "@" + b + "." + c;
    var i, j := |a|, |a| + 1 + |b|;
    assert s[i] == '@' && s[j] == '.';
    forall k | 0 <= k < |s|
      ensures !Strings.IsWhitespace(s[k]) && (k != i ==> s[k] != '@')
    {
      if k < i {
        assert s[k] == a[k];
      } else if i < k < j {
        assert s[k] == b[k - i - 1];
      } else if j < k {
        assert s[k] == c[k - j - 1];
      }
    }
    assert OnlyAt(s, i);
  }

  /** The plain reading of the pattern is exact, in both directions. */
  lemma EmailShapeIsPattern(s: string)
    ensures EmailShape(s) <==> MatchesEmailPattern(s)
  {
    if EmailShape(s) {
      ShapeMatchesPattern(s);
    }
    if MatchesEmailPattern(s) {
      PatternHasShape(s);
    }
  }

  /** `"not-an-email"` has no `@` and is refused. */
  lemma RefusedExample()
    ensures !MatchesEmailPattern("not-an-email")
  {
    var s := "not-an-email";
    assert forall i :: 0 <= i < |s| ==> s[i] != '@';
    assert !EmailShape(s);
    EmailShapeIsPattern(s);
  }

  /** `"a@b.co"` is accepted. */
  lemma AcceptedExample()
    ensures MatchesEmailPattern("a@b.co")
  {
    var s := "a@b.co";
    assert OnlyAt(s, 1) && s[3] == '.';
    assert forall k :: 0 <= k < |s| ==> !Strings.IsWhitespace(s[k]);
    ShapeMatchesPattern(s);
  }

  // ---------------------------------------------------------------------
  // The contact collection

  /** A saved contact. `timestamps: true` sets both times at creation. */
  datatype Contact = Contact(
    name: string,
    company: Option<string>,
    email: string,
    phone: Option<string>,
    siyam_ref: Option<string>,
    createdAt: int,
    updatedAt: int)

  datatype StoredContact = StoredContact(id: ObjectId, contact: Contact)

  /** What the handler guarantees of every contact it saves. */
  ghost predicate WellFormed(c: Contact) {
    && c.name != "" && MatchesEmailPattern(c.email)
    && (c.company.Some? ==> c.company.value != "")
    && (c.phone.Some? ==> c.phone.value != "")
    && (c.siyam_ref.Some? ==> c.siyam_ref.value != "")
  }

  class ContactCollection {
    var docs: seq<StoredContact>
    var nextId: ObjectId

    /** Ids are distinct and below the next one to hand out. */
    ghost predicate Valid()
      reads this
    {
      && (forall i :: 0 <= i < |docs| ==> docs[i].id < nextId)
      && (forall i, j :: 0 <= i < j < |docs| ==> docs[i].id != docs[j].id)
    }

    constructor ()
      ensures Valid() && docs == [] && nextId == 0
    {
      docs := [];
      nextId := 0;
    }

    /** `contact.save()` of a new document. */
    method Save(c: Contact) returns (id: ObjectId)
      requires Valid()
      modifies this
      ensures Valid()
      ensures id == old(nextId) && docs == old(docs) + [StoredContact(id, c)]
      ensures forall i :: 0 <= i < |old(docs)| ==> old(docs)[i].id != id
      ensures nextId == old(nextId) + 1
    {
      id := nextId;
      docs := docs + [StoredContact(id, c)];
      nextId := nextId + 1;
    }
  }

  // ---------------------------------------------------------------------
  // The handler

  /** The request body: JSON that failed to parse (with what was thrown),
      or the five fields, each a string or absent when missing. */
  datatype Body =
    | Unparsable(error: Thrown)
    | Fields(name: Option<string>, company: Option<string>, email: Option<string>,
             phone: Option<string>, siyam_ref: Option<string>)

  datatype ContactResponse =
    | ContactCreated(message: string, id: string, name: string, company: Option<string>,
                     email: string, phone: Option<string>, siyam_ref: Option<string>)
    | ContactFailed(status: nat, error: string)

  /** JavaScript falsiness of an optional string. */
  predicate Falsy(o: Option<string>) {
    o.None? || o.value == ""
  }

  /** `value || undefined` */
  function OrUndefined(o: Option<string>): (r: Option<string>)
    ensures r.None? <==> Falsy(o)
    ensures r.Some? ==> r == o
  {
    if Falsy(o) then None else o
  }

  /** The contact built from an accepted body at time `now`: the name and
      email as given, an optional field only when it is given and not
      empty, and both times `now`. */
  function NewContact(body: Body, now: int): (c: Contact)
    requires body.Fields? && !Falsy(body.name) && !Falsy(body.email)
    ensures c.name == body.name.value && c.email == body.email.value
    ensures c.company.Some? <==> !Falsy(body.company)
    ensures c.phone.Some? <==> !Falsy(body.phone)
    ensures c.siyam_ref.Some? <==> !Falsy(body.siyam_ref)
    ensures (c.company.Some? ==> c.company.value != "") && (c.phone.Some? ==> c.phone.value != "")
    ensures c.siyam_ref.Some? ==> c.siyam_ref.value != ""
    ensures c.createdAt == now && c.updatedAt == now
  {
    Contact(body.name.value, OrUndefined(body.company), body.email.value,
            OrUndefined(body.phone), OrUndefined(body.siyam_ref), now, now)
  }

  /** The handler. `connectFault` and `saveFault` are failures of the
      database connection and of `save`; `now` is the clock. */
  method Submit(coll: ContactCollection, connectFault: Option<Thrown>, body: Body,
                saveFault: Option<Thrown>, now: int) returns (resp: ContactResponse)
    requires coll.Valid()
    modifies coll
    ensures coll.Valid()
    ensures resp.ContactFailed? ==> coll.docs == old(coll.docs) && coll.nextId == old(coll.nextId)
    ensures resp.ContactCreated? ==>
              && |coll.docs| == |old(coll.docs)| + 1 && coll.docs[..|old(coll.docs)|] == old(coll.docs)
              && WellFormed(coll.docs[|old(coll.docs)|].contact)
    ensures connectFault.Some? ==> resp == ContactFailed(500, connectFault.value.MessageOr("Failed to save contact"))
    ensures connectFault.None? && body.Unparsable? ==>
              resp == ContactFailed(500, body.error.MessageOr("Failed to save contact"))
    ensures connectFault.None? && body.Fields? && (Falsy(body.name) || Falsy(body.email)) ==>
              resp == ContactFailed(400, "Name and email are required")
    ensures connectFault.None? && body.Fields? && !Falsy(body.name) && !Falsy(body.email) ==>
              && (!MatchesEmailPattern(body.email.value) ==> resp == ContactFailed(400, "Invalid email format"))
              && (MatchesEmailPattern(body.email.value) && saveFault.Some? ==>
                    resp == ContactFailed(500, saveFault.value.MessageOr("Failed to save contact")))
              && (MatchesEmailPattern(body.email.value) && saveFault.None? ==>
                    var c := NewContact(body, now);
                    && coll.docs == old(coll.docs) + [StoredContact(old(coll.nextId), c)]
                    && WellFormed(c) && c.createdAt == c.updatedAt
                    && resp == ContactCreated("Contact information saved successfully", IdToString(old(coll.nextId)),
                                              c.name, c.company, c.email, c.phone, c.siyam_ref))
  {
    if connectFault.Some? {
      return ContactFailed(500, connectFault.value.MessageOr("Failed to save contact"));
    }
    if body.Unparsable? {
      return ContactFailed(500, body.error.MessageOr("Failed to save contact"));
    }
    if Falsy(body.name) || Falsy(body.email) {
      return ContactFailed(400, "Name and email are required");
    }
    EmailShapeIsPattern(body.email.value);
    if !EmailShape(body.email.value) {
      return ContactFailed(400, "Invalid email format");
    }
    var contact := NewContact(body, now);
    if saveFault.Some? {
      return ContactFailed(500, saveFault.value.MessageOr("Failed to save contact"));
    }
    var id := coll.Save(contact);
    resp := ContactCreated("Contact information saved successfully", IdToString(id),
                           contact.name, contact.company, contact.email, contact.phone, contact.siyam_ref);
  }
}
