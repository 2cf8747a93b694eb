/**
 * The category entity: a frozen record with a required name, an optional description, an
 * active flag that defaults to true and a creation time that the default factory takes from the
 * clock when none is given. The clock reading and the generated UUID are parameters.
 */
module Categories {
  import opened Wrappers
  import opened Uuids
  import opened Values
  import opened ValueObjects
  import Entities

  datatype Category = Category(
    uniqueEntityId: UniqueEntityId,
    name: string,
    description: Option<string>,
    isActive: Option<bool>,
    createdAt: Option<Timestamp>)

  /** A keyword argument's value, or the default when it is left out. */
  function ArgOr<T>(a: Arg<T>, default: T): (v: T)
    ensures a.Passed? ==> v == a.value
    ensures a.Omitted? ==> v == default
  {
    match a
    case Omitted => default
    case Passed(v) => v
  }

  /**
   * `Category(name=..., ...)`: the name as given; the description `None`, the flag `True` and the
   * creation time `now` (a fresh clock reading each time) where they are left out; any value that is
   * passed, `None` included, is stored unchanged; the identifier as the entity base builds it.
   */
  function Create(name: string, description: Arg<Option<string>>, isActive: Arg<Option<bool>>,
                  createdAt: Arg<Option<Timestamp>>, uid: Arg<UniqueEntityId>, generated: Uuid, now: Timestamp): (c: Category)
    requires uid.Passed? ==> Valid(uid.value)
    ensures c.name == name
    ensures description.Omitted? ==> c.description == None
    ensures description.Passed? ==> c.description == description.value
    ensures isActive.Omitted? ==> c.isActive == Some(true)
    ensures isActive.Passed? ==> c.isActive == isActive.value
    ensures createdAt.Omitted? ==> c.createdAt == Some(now)
    ensures createdAt.Passed? ==> c.createdAt == createdAt.value
    ensures Valid(c.uniqueEntityId)
    ensures uid.Passed? ==> c.uniqueEntityId == uid.value
    ensures uid.Omitted? ==> c.uniqueEntityId.id == Format(generated)
  {
    var e := Entities.Create(uid, generated, []);
    Category(e.uniqueEntityId, name, ArgOr(description, None), ArgOr(isActive, Some(true)),
             ArgOr(createdAt, Some(now)))
  }

  // ---------------------------------------------------------------- as an entity

  function TextOrNone(s: Option<string>): Value {
    match s
    case None => NoneValue
    case Some(t) => Text(t)
  }

  function BoolOrNone(b: Option<bool>): Value {
    match b
    case None => NoneValue
    case Some(v) => Boolean(v)
  }

  function MomentOrNone(t: Option<Timestamp>): Value {
    match t
    case None => NoneValue
    case Some(v) => Moment(v)
  }

  /** The declared fields, in declaration order. */
  const FieldNames: seq<string> := ["name", "description", "is_active", "created_at"]

  /** The category's declared fields with their values, in declaration order. */
  function Props(c: Category): (props: seq<Field>)
    ensures Names(props) == FieldNames && Entities.WellFormed(props)
  {
    var props := [Field("name", Text(c.name)), Field("description", TextOrNone(c.description)),
                  Field("is_active", BoolOrNone(c.isActive)), Field("created_at", MomentOrNone(c.createdAt))];
    assert Names(props) == FieldNames;
    props
  }

  function AsEntity(c: Category): Entities.Entity {
    Entities.Entity(c.uniqueEntityId, Props(c))
  }

  /** `category.id`: the text of its identifier. */
  function Id(c: Category): (id: string)
    ensures id == c.uniqueEntityId.id
  {
    Entities.Id(AsEntity(c))
  }

  /** `category.to_dict()`: exactly the keys `id`, `name`, `description`, `is_active`, `created_at`. */
  function ToDict(c: Category): (d: map<string, Value>)
    ensures d.Keys == {"id", "name", "description", "is_active", "created_at"}
    ensures d["id"] == Text(c.uniqueEntityId.id) && d["name"] == Text(c.name)
    ensures d["description"] == TextOrNone(c.description) && d["is_active"] == BoolOrNone(c.isActive)
    ensures d["created_at"] == MomentOrNone(c.createdAt)
  {
    var props := Props(c);
    var d := Entities.ToDict(AsEntity(c));
    assert (set i | 0 <= i < |props| :: props[i].name) == {"name", "description", "is_active", "created_at"} by {
      assert props[0].name == "name" && props[1].name == "description";
      assert props[2].name == "is_active" && props[3].name == "created_at";
    }
    assert d["name"] == props[0].value && d["description"] == props[1].value;
    assert d["is_active"] == props[2].value && d["created_at"] == props[3].value;
    d
  }

  // ---------------------------------------------------------------- reading a dict back

  function OptionalText(v: Value): Option<Option<string>> {
    match v
    case NoneValue => Some(None)
    case Text(s) => Some(Some(s))
    case _ => None
  }

  function OptionalBool(v: Value): Option<Option<bool>> {
    match v
    case NoneValue => Some(None)
    case Boolean(b) => Some(Some(b))
    case _ => None
  }

  function OptionalMoment(v: Value): Option<Option<Timestamp>> {
    match v
    case NoneValue => Some(None)
    case Moment(t) => Some(Some(t))
    case _ => None
  }

  /** Reads a category back from the fields of an entity, checking each field's type. */
  function FromEntity(e: Entities.Entity): Option<Category> {
    if |e.props| != 4 || !e.props[0].value.Text? then None
    else
      match (OptionalText(e.props[1].value), OptionalBool(e.props[2].value), OptionalMoment(e.props[3].value))
      case (Some(description), Some(isActive), Some(createdAt)) =>
        Some(Category(e.uniqueEntityId, e.props[0].value.s, description, isActive, createdAt))
      case _ => None
  }

  /** Reads a category back from a dict in the shape `to_dict` writes. */
  function FromDict(d: map<string, Value>): Option<Category> {
    match Entities.FromDict(d, FieldNames)
    case None => None
    case Some(e) => FromEntity(e)
  }

  /** A category with a valid identifier is read back from its dict. */
  lemma DictRoundTrip(c: Category)
    requires Valid(c.uniqueEntityId)
    ensures FromDict(ToDict(c)) == Some(c)
  {
    var e := AsEntity(c);
    assert ToDict(c) == Entities.ToDict(e);
    Entities.DictRoundTrip(e);
    assert Names(e.props) == FieldNames;
    FromAsEntity(c);
  }

  lemma FromAsEntity(c: Category)
    ensures FromEntity(AsEntity(c)) == Some(c)
  {
    var props := Props(c);
    assert props[1].value == TextOrNone(c.description);
    assert props[2].value == BoolOrNone(c.isActive);
    assert props[3].value == MomentOrNone(c.createdAt);
  }

  // ---------------------------------------------------------------- the constructor tests

  /** `Category(name=n)`: the defaults apply, and the identifier is the generated one. */
  lemma NameOnly(name: string, generated: Uuid, now: Timestamp)
    ensures var c := Create(name, Omitted, Omitted, Omitted, Omitted, generated, now);
      && c.name == name && c.description == None && c.isActive == Some(true) && c.createdAt == Some(now)
      && Id(c) == Format(generated) && IsRfcUuid(Id(c))
  {
  }

  /** Two categories built without a creation time, at two different clock readings, have different creation times. */
  lemma CreationTimesDiffer(n1: string, n2: string, g1: Uuid, g2: Uuid, now1: Timestamp, now2: Timestamp)
    requires now1 != now2
    ensures Create(n1, Omitted, Omitted, Omitted, Omitted, g1, now1).createdAt
         != Create(n2, Omitted, Omitted, Omitted, Omitted, g2, now2).createdAt
  {
  }
}
