/**
 * The seedwork value objects: the generic string form every frozen value object has, and the
 * identifier value object `UniqueEntityId`, which accepts only text the UUID constructor accepts.
 */
module ValueObjects {
  import opened Wrappers
  import opened HexDigits
  import opened Uuids
  import opened Values
  import opened Json

  // ---------------------------------------------------------------- ValueObject.__str__

  /**
   * `str(obj)` for a value object whose dataclass fields, in declaration order, are `fields`: the
   * `str` of the value when there is exactly one field, and otherwise `json.dumps` of the dict from
   * field name to value (which raises for a value it cannot encode).
   */
  function ToStr(fields: seq<Field>): (r: Result<string, TypeError>)
    requires DistinctNames(fields)
    ensures |fields| == 1 ==> r == Success(PyStr(fields[0].value))
    ensures |fields| != 1 ==> (r.Success? <==> Serializable(fields))
    ensures r.Failure? ==> r.error == TypeError(NotSerializableMessage)
  {
    if |fields| == 1 then Success(PyStr(fields[0].value))
    else DumpObject(fields)
  }

  /**
   * With any number of fields other than one, the string form is a JSON object that reads back as
   * one entry per field, in declaration order, each with its name and value.
   */
  lemma ToStrReadsBack(fields: seq<Field>)
    requires DistinctNames(fields) && |fields| != 1 && Serializable(fields)
    ensures ToStr(fields).Success?
    ensures DecodeObject(ToStr(fields).value) == Some(fields)
  {
    ReadDumpedObject(fields);
  }

  /** A field holding a datetime makes the string form of a value object with several fields raise. */
  lemma ToStrRejectsDatetime(fields: seq<Field>, i: nat)
    requires DistinctNames(fields) && |fields| != 1
    requires i < |fields| && fields[i].value.Moment?
    ensures ToStr(fields) == Failure(TypeError("Object of type datetime is not JSON serializable"))
  {
  }

  // ---------------------------------------------------------------- UniqueEntityId

  /** The identifier value object: one field, `id`, always a string the UUID constructor accepts. */
  datatype UniqueEntityId = UniqueEntityId(id: string)

  /** The dataclass fields of a `UniqueEntityId`. */
  function IdFields(x: UniqueEntityId): seq<Field> {
    [Field("id", Text(x.id))]
  }

  predicate Valid(x: UniqueEntityId) {
    IsUuidString(x.id)
  }

  /** What the constructor may be given as `id`: text, or a `uuid.UUID` value. */
  datatype IdCandidate = TextCandidate(text: string) | UuidCandidate(value: Uuid)

  /** The seedwork exception for an identifier that is not a UUID. */
  datatype InvalidUuidException = InvalidUuidException(message: string)

  const InvalidUuidMessage := "ID must be a valid UUID"

  /** The one write `__post_init__` makes: a UUID value is replaced by its canonical text. */
  function NormalisedId(c: IdCandidate): (id: string)
    ensures c.TextCandidate? ==> id == c.text
    ensures c.UuidCandidate? ==> IsRfcUuid(id) && Parse(id) == Some(c.value)
    ensures c.UuidCandidate? ==> forall i :: 0 <= i < |id| ==> !('A' <= id[i] <= 'F')
  {
    match c
    case TextCandidate(s) => s
    case UuidCandidate(u) => ParseFormat(u); Format(u)
  }

  /** `__validate`: the UUID constructor either reads the id or the seedwork exception is raised. */
  function Validate(id: string): (r: Result<(), InvalidUuidException>)
    ensures r.Success? <==> IsUuidString(id)
    ensures r.Failure? ==> r.error.message == InvalidUuidMessage
  {
    match Parse(id)
    case None => Failure(InvalidUuidException(InvalidUuidMessage))
    case Some(_) => Success(())
  }

  /**
   * `UniqueEntityId(id=c)`: the candidate is normalised and then validated; on success the object
   * holds the normalised text, otherwise no object is produced and the exception carries the
   * seedwork message.
   */
  function Create(c: IdCandidate): (r: Result<UniqueEntityId, InvalidUuidException>)
    ensures r.Success? <==> IsUuidString(NormalisedId(c))
    ensures r.Success? ==> r.value.id == NormalisedId(c) && Valid(r.value)
    ensures r.Failure? ==> r.error == InvalidUuidException(InvalidUuidMessage)
  {
    var id := NormalisedId(c);
    match Validate(id)
    case Failure(e) => Failure(e)
    case Success(_) => Success(UniqueEntityId(id))
  }

  /** A text candidate is accepted exactly when the UUID constructor accepts it, and it is kept as given. */
  lemma CreateFromText(s: string)
    ensures Create(TextCandidate(s)).Success? <==> Parse(s).Some?
    ensures Create(TextCandidate(s)).Success? ==> Create(TextCandidate(s)).value.id == s
  {
  }

  /** A UUID value is always accepted, and the stored id is its canonical text, which reads back as the value. */
  lemma CreateFromUuid(u: Uuid)
    ensures Create(UuidCandidate(u)) == Success(UniqueEntityId(Format(u)))
    ensures IsRfcUuid(Create(UuidCandidate(u)).value.id)
    ensures Parse(Create(UuidCandidate(u)).value.id) == Some(u)
  {
    ParseFormat(u);
  }

  /** Every string in the 8-4-4-4-12 layout of RFC 4122 is accepted unchanged. */
  lemma CreateFromRfcText(s: string)
    requires IsRfcUuid(s)
    ensures Create(TextCandidate(s)) == Success(UniqueEntityId(s))
  {
    ParseRfc(s);
  }

  /** The invalid identifier of the value-object tests is rejected with the seedwork message. */
  lemma FakeIdIsRejected()
    ensures Create(TextCandidate("fake id")) == Failure(InvalidUuidException("ID must be a valid UUID"))
  {
    FakeIdRejected();
  }

  /** Building an identifier again from the id of one that was built gives the same identifier. */
  lemma CreateIdempotent(c: IdCandidate)
    requires Create(c).Success?
    ensures Create(TextCandidate(Create(c).value.id)) == Create(c)
  {
  }

  /**
   * `UniqueEntityId()` with no argument: the default factory is the canonical text of a generated
   * UUID, so construction always succeeds with that text.
   */
  function CreateDefault(generated: Uuid): (x: UniqueEntityId)
    ensures Create(TextCandidate(Format(generated))) == Success(x)
    ensures x.id == Format(generated) && IsRfcUuid(x.id) && Valid(x)
  {
    ParseFormat(generated);
    UniqueEntityId(Format(generated))
  }

  /** `uuid.uuid4()` fixes the version nibble to 4 and the variant bits to 10. */
  predicate IsVersion4(u: Uuid) {
    u[12] == 4 && 8 <= u[16] < 12
  }

  /** A default identifier shows version 4 and the RFC 4122 variant in its text. */
  lemma DefaultIsVersion4(generated: Uuid)
    requires IsVersion4(generated)
    ensures CreateDefault(generated).id[14] == '4'
    ensures IsVariantDigit(CreateDefault(generated).id[19])
  {
    var u := generated;
    GroupStarts(Hex(u[..8]), Hex(u[8..12]), Hex(u[12..16]), Hex(u[16..20]), Hex(u[20..]));
    assert Hex(u[12..16])[0] == HexChar(u[12]);
    assert Hex(u[16..20])[0] == HexChar(u[16]);
    VariantDigit(u[16]);
  }

  /** The digits whose two high bits are 10. */
  predicate IsVariantDigit(c: char) {
    c == '8' || c == '9' || c == 'a' || c == 'b'
  }

  lemma VariantDigit(n: Nibble)
    requires 8 <= n < 12
    ensures IsVariantDigit(HexChar(n))
  {
  }

  /** In the 8-4-4-4-12 layout the third group starts at 14 and the fourth at 19. */
  lemma GroupStarts(a: string, b: string, c: string, d: string, e: string)
    requires |a| == 8 && |b| == 4 && |c| == 4 && |d| == 4
    ensures var s := a + "-" + b + "-" + c + "-" + d + "-" + e;
      s[14] == c[0] && s[19] == d[0]
  {
  }

  /** The string form of an identifier is its id. */
  lemma StrIsId(x: UniqueEntityId)
    ensures ToStr(IdFields(x)) == Success(x.id)
  {
  }
}
