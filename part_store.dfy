/** The part collection as the importer sees it: documents in natural
    (insertion) order, `findOne`/`updateOne` by `siyam_ref` acting on the
    first match, and `create` appending a document with a fresh `_id`.
    Nothing enforces a unique `siyam_ref`. */
module PartStore {

  import opened Wrappers
  import opened PartModel

  /** The fields the importer maps from one CSV row: the payload of both
      `Part.create(partData)` and `{ $set: partData }`. */
  datatype PartData = PartData(
    siyam_ref: string,
    radiator_type: string,
    make: string,
    model: string,
    oem: seq<string>,
    category: string,
    details: seq<Detail>)

  /** `p` holds exactly the mapped fields of `d`. */
  predicate Carries(p: Part, d: PartData) {
    && p.siyam_ref == d.siyam_ref && p.radiator_type == d.radiator_type
    && p.make == d.make && p.model == d.model && p.oem == d.oem
    && p.category == d.category && p.details == d.details
  }

  /** `$set: partData`: the mapped fields are replaced wholesale (`details`
      included, not merged); the image and Amazon fields stay as they were. */
  function Assign(p: Part, d: PartData): (q: Part)
    ensures Carries(q, d)
    ensures q.image_url == p.image_url && q.image_key == p.image_key && q.amazon_url == p.amazon_url
  {
    p.(siyam_ref := d.siyam_ref, radiator_type := d.radiator_type, make := d.make,
       model := d.model, oem := d.oem, category := d.category, details := d.details)
  }

  /** The document `create(partData)` inserts: unmapped fields absent. */
  function Fresh(d: PartData): (p: Part)
    ensures Carries(p, d)
    ensures p.image_url.None? && p.image_key.None? && p.amazon_url.None?
  {
    Part(d.siyam_ref, d.radiator_type, d.make, d.model, d.oem, d.category, d.details, None, None, None)
  }

  /** Assigning a second payload overrides the first entirely, and assigning
      what a part already carries changes nothing. */
  lemma AssignOverrides(p: Part, d1: PartData, d2: PartData)
    ensures Assign(Assign(p, d1), d2) == Assign(p, d2)
    ensures Carries(p, d1) ==> Assign(p, d1) == p
  {
  }

  /** The position `findOne({ siyam_ref: ref })` and `updateOne` pick: the
      first document, in natural order, whose `siyam_ref` equals `ref`. */
  function FirstWithRef(docs: seq<StoredPart>, ref: string): (r: Option<nat>)
    ensures r.Some? ==> r.value < |docs| && docs[r.value].part.siyam_ref == ref
    ensures forall j :: 0 <= j < |docs| && (r.None? || j < r.value) ==> docs[j].part.siyam_ref != ref
  {
    if docs == [] then None
    else if docs[0].part.siyam_ref == ref then Some(0)
    else match FirstWithRef(docs[1..], ref)
      case None => None
      case Some(k) => Some(k + 1)
  }

  /** `updateOne({ siyam_ref: ref }, { $set: d })` on a document list: the
      first match receives the payload, keeping its `_id`; nothing else
      changes, and without a match nothing changes at all. */
  function UpdateFirst(docs: seq<StoredPart>, ref: string, d: PartData): (r: seq<StoredPart>)
    ensures |r| == |docs|
    ensures FirstWithRef(docs, ref).None? ==> r == docs
    ensures FirstWithRef(docs, ref).Some? ==>
              var k := FirstWithRef(docs, ref).value;
              && r[k].id == docs[k].id && r[k].part == Assign(docs[k].part, d)
              && forall j :: 0 <= j < |docs| && j != k ==> r[j] == docs[j]
  {
    match FirstWithRef(docs, ref)
    case None => docs
    case Some(k) => docs[k := StoredPart(docs[k].id, Assign(docs[k].part, d))]
  }

  /** No two documents share an `_id`, and every `_id` is below the next one
      to be handed out. */
  ghost predicate IdsBelow(docs: seq<StoredPart>, nextId: ObjectId) {
    && (forall i :: 0 <= i < |docs| ==> docs[i].id < nextId)
    && (forall i, j :: 0 <= i < j < |docs| ==> docs[i].id != docs[j].id)
  }

  /** The collection. `_id` generation is modelled by a counter. */
  class PartCollection {
    var docs: seq<StoredPart>
    var nextId: ObjectId

    ghost predicate Valid()
      reads this
    {
      IdsBelow(docs, nextId)
    }

    constructor (initial: seq<StoredPart>, nextId: ObjectId)
      requires IdsBelow(initial, nextId)
      ensures Valid() && docs == initial && this.nextId == nextId
    {
      docs := initial;
      this.nextId := nextId;
    }

    /** `Part.findOne({ siyam_ref: ref })` */
    method FindOne(ref: string) returns (found: Option<StoredPart>)
      ensures found.Some? <==> exists j :: 0 <= j < |docs| && docs[j].part.siyam_ref == ref
      ensures found.Some? ==> found.value == docs[FirstWithRef(docs, ref).value]
    {
      match FirstWithRef(docs, ref)
      case None =>
        found := None;
      case Some(k) =>
        found := Some(docs[k]);
    }

    /** `Part.updateOne({ siyam_ref: ref }, { $set: d })` */
    method UpdateOne(ref: string, d: PartData)
      requires Valid()
      modifies this
      ensures Valid() && nextId == old(nextId)
      ensures docs == UpdateFirst(old(docs), ref, d)
    {
      docs := UpdateFirst(docs, ref, d);
      assert forall i :: 0 <= i < |docs| ==> docs[i].id == old(docs)[i].id;
    }

    /** `Part.create(d)`: one new document at the end, with an `_id` no
        earlier document has. */
    method Create(d: PartData) returns (created: StoredPart)
      requires Valid()
      modifies this
      ensures Valid()
      ensures created == StoredPart(old(nextId), Fresh(d)) && docs == old(docs) + [created]
      ensures forall i :: 0 <= i < |old(docs)| ==> old(docs)[i].id != created.id
      ensures nextId == old(nextId) + 1
    {
      created := StoredPart(nextId, Fresh(d));
      docs := docs + [created];
      nextId := nextId + 1;
    }
  }
}
