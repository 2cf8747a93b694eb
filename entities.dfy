/**
 * The seedwork entity as its tests pin it down: a frozen record that owns a `UniqueEntityId`
 * (generated when none is given), exposes its text as `id`, and flattens to a dict of `id` and the
 * declared fields.
 */
module Entities {
  import opened Wrappers
  import opened Uuids
  import opened Values
  import opened ValueObjects

  /** An entity: its identifier and its declared fields (beyond the identifier), in declaration order. */
  datatype Entity = Entity(uniqueEntityId: UniqueEntityId, props: seq<Field>)

  /** Declared fields are distinct and named neither `id` nor `unique_entity_id`. */
  predicate WellFormed(props: seq<Field>) {
    DistinctNames(props) &&
    forall i :: 0 <= i < |props| ==> props[i].name != "id" && props[i].name != "unique_entity_id"
  }

  /** `entity.id`: the text of the owned identifier. */
  function Id(e: Entity): (id: string)
    ensures id == e.uniqueEntityId.id
    ensures ToStr(IdFields(e.uniqueEntityId)) == Success(id)
  {
    StrIsId(e.uniqueEntityId);
    e.uniqueEntityId.id
  }

  /**
   * Building an entity: a passed identifier is kept; an omitted one comes from the default factory,
   * here the canonical text of the generated UUID.
   */
  function Create(uid: Arg<UniqueEntityId>, generated: Uuid, props: seq<Field>): (e: Entity)
    requires uid.Passed? ==> Valid(uid.value)
    requires WellFormed(props)
    ensures Valid(e.uniqueEntityId) && e.props == props
    ensures uid.Passed? ==> e.uniqueEntityId == uid.value && Id(e) == uid.value.id
    ensures uid.Omitted? ==> Id(e) == Format(generated) && IsRfcUuid(Id(e))
  {
    var x := match uid
      case Passed(v) => v
      case Omitted => CreateDefault(generated);
    Entity(x, props)
  }

  /** The dict of the declared fields: each name maps to its value. */
  function PropsMap(props: seq<Field>): (m: map<string, Value>)
    requires DistinctNames(props)
    ensures m.Keys == set i | 0 <= i < |props| :: props[i].name
    ensures forall i :: 0 <= i < |props| ==> props[i].name in m && m[props[i].name] == props[i].value
  {
    if props == [] then map[]
    else
      var last := props[|props| - 1];
      var m := PropsMap(props[..|props| - 1]);
      assert forall i :: 0 <= i < |props| - 1 ==> props[..|props| - 1][i] == props[i];
      m[last.name := last.value]
  }

  /** `entity.to_dict()`: `id` and one entry per declared field with its value, and no other key. */
  function ToDict(e: Entity): (d: map<string, Value>)
    requires WellFormed(e.props)
    ensures d.Keys == {"id"} + set i | 0 <= i < |e.props| :: e.props[i].name
    ensures "id" in d && d["id"] == Text(Id(e))
    ensures forall i :: 0 <= i < |e.props| ==> e.props[i].name in d && d[e.props[i].name] == e.props[i].value
  {
    PropsMap(e.props)["id" := Text(Id(e))]
  }

  /** Reads the declared fields back from a dict, in the declaration order `names` gives. */
  function FieldsFrom(d: map<string, Value>, names: seq<string>): (r: Option<seq<Field>>)
    ensures r.Some? ==> |r.value| == |names| && forall i :: 0 <= i < |names| ==> r.value[i].name == names[i]
  {
    if names == [] then Some([])
    else
      var n := names[|names| - 1];
      match FieldsFrom(d, names[..|names| - 1])
      case None => None
      case Some(init) => if n in d then Some(init + [Field(n, d[n])]) else None
  }

  /** Reads an entity back from its dict: the identifier from `id`, the fields from their names. */
  function FromDict(d: map<string, Value>, names: seq<string>): Option<Entity> {
    if "id" in d && d["id"].Text? then
      match (ValueObjects.Create(TextCandidate(d["id"].s)), FieldsFrom(d, names))
      case (Success(x), Some(props)) => Some(Entity(x, props))
      case _ => None
    else None
  }

  /** A dict that holds every field reads those fields back, in the order of their names. */
  lemma {:induction false} FieldsFromHolding(d: map<string, Value>, props: seq<Field>)
    requires forall i :: 0 <= i < |props| ==> props[i].name in d && d[props[i].name] == props[i].value
    ensures FieldsFrom(d, Names(props)) == Some(props)
  {
    if props != [] {
      var init := props[..|props| - 1];
      assert Names(props)[..|props| - 1] == Names(init);
      FieldsFromHolding(d, init);
      assert props == init + [props[|props| - 1]];
    }
  }

  /** An entity with a valid identifier is read back from its dict and the names of its fields. */
  lemma DictRoundTrip(e: Entity)
    requires WellFormed(e.props) && Valid(e.uniqueEntityId)
    ensures FromDict(ToDict(e), Names(e.props)) == Some(e)
  {
    FieldsFromHolding(ToDict(e), e.props);
    CreateIdempotent(TextCandidate(e.uniqueEntityId.id));
  }

  const SampleId := "8635ef94-1a9b-486b-a7cc-d1d0ab416fb5"

  /** The identifier the entity tests pass in is accepted unchanged. */
  lemma SampleIdAccepted()
    ensures ValueObjects.Create(TextCandidate(SampleId)) == Success(UniqueEntityId(SampleId))
  {
    assert IsRfcUuid(SampleId);
    CreateFromRfcText(SampleId);
  }

  /** The dict of an entity with two declared fields. */
  lemma TwoFieldDict(x: UniqueEntityId, f: Field, g: Field)
    requires WellFormed([f, g])
    ensures ToDict(Entity(x, [f, g])) == map["id" := Text(x.id), f.name := f.value, g.name := g.value]
  {
    var props := [f, g];
    var d := ToDict(Entity(x, props));
    var expected := map["id" := Text(x.id), f.name := f.value, g.name := g.value];
    assert (set i | 0 <= i < |props| :: props[i].name) == {f.name, g.name} by {
      assert props[0] == f && props[1] == g;
    }
    assert d.Keys == expected.Keys;
    assert forall k | k in d.Keys :: d[k] == expected[k] by {
      assert props[0] == f && props[1] == g;
    }
  }

  /**
   * The entity the entity tests build through the constructor, passing the sample identifier and two
   * text fields: its `id` is the sample text, and its dict holds exactly the three entries.
   */
  lemma SampleEntity(generated: Uuid)
    ensures var props := [Field("prop_1", Text("value_1")), Field("prop_2", Text("value_2"))];
      && WellFormed(props) && Valid(UniqueEntityId(SampleId))
      && var e := Create(Passed(UniqueEntityId(SampleId)), generated, props);
      && Id(e) == SampleId
      && ToDict(e) == map["id" := Text(SampleId), "prop_1" := Text("value_1"), "prop_2" := Text("value_2")]
  {
    var f, g := Field("prop_1", Text("value_1")), Field("prop_2", Text("value_2"));
    assert WellFormed([f, g]) by {
      assert f.name != g.name;
    }
    assert Valid(UniqueEntityId(SampleId)) by {
      SampleIdAccepted();
    }
    TwoFieldDict(UniqueEntityId(SampleId), f, g);
  }
}
