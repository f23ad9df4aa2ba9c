/** The `Detail` and `IPart` shapes of the part collection, stored documents
    with their `_id`, and the JSON form the API handlers return. */
module PartModel {

  import opened Wrappers
  import Strings

  /** One entry of the open-ended attribute bag. */
  datatype Detail = Detail(name: string, data: string)

  /** A catalog part. The schema requires no field and puts no unique index
      on `siyam_ref`; the importer always writes the first seven fields,
      while `image_url`, `image_key` and `amazon_url` may be absent. `oem`
      and `details` keep their order and may repeat entries. */
  datatype Part = Part(
    siyam_ref: string,
    radiator_type: string,
    make: string,
    model: string,
    oem: seq<string>,
    category: string,
    details: seq<Detail>,
    image_url: Option<string>,
    image_key: Option<string>,
    amazon_url: Option<string>)

  /** MongoDB's `_id`, a 96-bit number. */
  type ObjectId = nat

  /** The hexadecimal digits of an ObjectId's string form. */
  const OBJECT_ID_DIGITS := 24

  /** A document of the collection. */
  datatype StoredPart = StoredPart(id: ObjectId, part: Part)

  /** `{ ...doc, _id: doc._id.toString() }`, the shape every handler returns. */
  datatype PartJson = PartJson(id: string, part: Part)

  /** `_id.toString()`: lower-case hexadecimal, zero-padded to 24 digits. */
  function IdToString(id: ObjectId): string {
    Strings.PadLeft(Strings.NatToDigits(id, 16), OBJECT_ID_DIGITS, '0')
  }

  /** An id of the 96-bit ObjectId range renders as exactly 24 hex digits. */
  lemma IdToStringShape(id: ObjectId)
    requires id < Strings.Pow(16, OBJECT_ID_DIGITS)
    ensures |IdToString(id)| == OBJECT_ID_DIGITS
    ensures forall i :: 0 <= i < |IdToString(id)| ==> Strings.IsDigitIn(IdToString(id)[i], 16)
  {
    Strings.DigitsLength(id, 16, OBJECT_ID_DIGITS);
  }

  /** Reading the string form back as hexadecimal gives the id. */
  lemma IdToStringParses(id: ObjectId)
    ensures Strings.ParseDigits(IdToString(id), 16) == id
  {
    var d := Strings.NatToDigits(id, 16);
    Strings.ParseNatToDigits(id, 16);
    if |d| < OBJECT_ID_DIGITS {
      var z := seq(OBJECT_ID_DIGITS - |d|, _ => '0');
      assert IdToString(id) == z + d;
      Strings.ParseLeadingZeros(z, d, 16);
    }
  }

  /** Distinct documents keep distinct `_id` strings. */
  lemma IdToStringInjective(a: ObjectId, b: ObjectId)
    requires IdToString(a) == IdToString(b)
    ensures a == b
  {
    IdToStringParses(a);
    IdToStringParses(b);
  }

  /** A document as the handlers return it: `_id` as its string form,
      every other field as stored. */
  function ToJson(d: StoredPart): PartJson {
    PartJson(IdToString(d.id), d.part)
  }

  /** The JSON form loses nothing: distinct documents stay distinct. */
  lemma ToJsonInjective(a: StoredPart, b: StoredPart)
    requires ToJson(a) == ToJson(b)
    ensures a == b
  {
    IdToStringInjective(a.id, b.id);
  }

  /** `docs.map(d => ({ ...d, _id: d._id?.toString() }))` */
  function ToJsonAll(docs: seq<StoredPart>): (r: seq<PartJson>)
    ensures |r| == |docs|
    ensures forall i :: 0 <= i < |docs| ==> r[i] == ToJson(docs[i])
  {
    seq(|docs|, i requires 0 <= i < |docs| => ToJson(docs[i]))
  }
}
