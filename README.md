# Seedwork value objects, unique identifiers and the category entity

This project models the domain seedwork of a small catalogue service:

- `ValueObject`: a frozen dataclass whose string form is the `str` of its value when it has one field, and otherwise `json.dumps` of the dict from field name to value.
- `UniqueEntityId`: a value object with one field, `id`. A `uuid.UUID` value given as `id` is replaced by its canonical text. The text must be accepted by `uuid.UUID(...)`, or the seedwork `InvalidUuidException` ("ID must be a valid UUID") is raised. When `id` is omitted, the default factory is the text of `uuid.uuid4()`.
- `Entity`: the base entity, which owns a `UniqueEntityId`. It exposes the identifier's text as `id`, and `to_dict()` flattens it to `id` plus the declared fields.
- `Category`: a frozen, keyword-only entity. It has a required `name`, and `description` (default `None`), `is_active` (default `True`) and `created_at` (default: the clock at construction).

Modules, one per file:

- `HexDigits` (`hex.dfy`): hexadecimal digits and nibble sequences.
- `Values` (`values.dfy`): the values a field can hold (`str`, `int`, `bool`, `None`, `datetime`) and their `str` forms. This includes `str(datetime)`, the ISO format with a space separator.
- `Json` (`json.dfy`): `json.dumps` with its default separators and `ensure_ascii` escaping (surrogate pairs above U+FFFF), and a reader for the text it writes.
- `Uuids` (`uuids.dfy`): what `uuid.UUID(hex)` accepts and `str(UUID)`. The accepted text is what is left after removing `urn:`, removing `uuid:`, stripping braces and removing hyphens: it must be exactly 32 hexadecimal digits.
- `ValueObjects` (`value_objects.py`'s model, `value_objects.dfy`): `ValueObject.__str__` and `UniqueEntityId`.
- `Entities` (`entities.dfy`): the entity base.
- `Categories` (`category.dfy`): the category entity.

The random UUID and the clock reading are parameters (`generated`, `now`). Keyword arguments that may be left out are `Arg<T>` values (`Omitted` or `Passed(v)`). Constructors that raise return a `Result`.

The `Entity` base class (`src/__seedwork/domain/entities.py`) is not part of this model's sources. It is modelled from its unit tests: `id` mirrors the identifier, a passed identifier is kept, and `to_dict` returns `id` plus the declared fields. `json.dumps` is called without `sort_keys`, so the entries of the multi-field string form follow declaration order.

## Model

| member | source | states |
|---|---|---|
| ValueObjects.ToStr | src/__seedwork/domain/value_objects.py:12-17 | With exactly one field the string form is the `str` of that field's value. With any other number of fields it succeeds exactly when every value is JSON-encodable, and otherwise fails with the TypeError that `json.dumps` raises. |
| ValueObjects.ToStrReadsBack | src/__seedwork/domain/value_objects.py:14-17 | For a value object with other than one field and encodable values, the string form is a JSON object that decodes to exactly its fields: names, values and declaration order. |
| ValueObjects.ToStrRejectsDatetime | src/__seedwork/domain/value_objects.py:14-17 | A `datetime` in any field of a multi-field value object makes `str` raise "Object of type datetime is not JSON serializable". |
| ValueObjects.StrIsId | src/__seedwork/domain/value_objects.py:13-14 | The string form of a `UniqueEntityId` (one field) is its `id` text. |
| ValueObjects.NormalisedId | src/__seedwork/domain/value_objects.py:24-26 | `__post_init__` keeps a text id as given. A `uuid.UUID` id is replaced by its canonical text: the RFC 4122 8-4-4-4-12 layout with lower-case digits, which parses back to the same UUID. |
| ValueObjects.Validate | src/__seedwork/domain/value_objects.py:29-33 | Validation succeeds exactly when `uuid.UUID` accepts the id. On failure it carries the message "ID must be a valid UUID". |
| ValueObjects.Create | src/__seedwork/domain/value_objects.py:24-33 | `UniqueEntityId(id=c)` succeeds exactly when the normalised candidate is UUID text. On success the object holds that text and is valid. Otherwise the result is `InvalidUuidException` with the seedwork message, and no object exists. |
| ValueObjects.CreateFromText | src/__seedwork/domain/value_objects.py:29-33 | A text id is accepted exactly when the UUID parser accepts it, and is stored unchanged (not canonicalised). |
| ValueObjects.CreateFromUuid | src/__seedwork/domain/value_objects.py:25-27 | A `uuid.UUID` id is always accepted. The stored text is its canonical 8-4-4-4-12 form, which parses back to the same UUID. |
| ValueObjects.CreateFromRfcText | src/__seedwork/domain/value_objects.py:29-33 | Every string in the 8-4-4-4-12 hexadecimal layout is accepted unchanged. |
| ValueObjects.FakeIdIsRejected | src/__seedwork/tests/unit/domain/test_unit_value_objects.py:13-16 | `UniqueEntityId(id='fake id')` raises `InvalidUuidException` with the message "ID must be a valid UUID". |
| ValueObjects.CreateIdempotent | src/__seedwork/domain/value_objects.py:24-33 | Rebuilding an identifier from the id of one that was built gives the same identifier. |
| ValueObjects.CreateDefault | src/__seedwork/domain/value_objects.py:22 | The default factory's text passes validation. The resulting identifier holds the canonical text of the generated UUID, in the 8-4-4-4-12 layout. |
| ValueObjects.DefaultIsVersion4 | src/__seedwork/domain/value_objects.py:22 | For a version-4 UUID, as `uuid4()` makes, the default id shows `4` at position 14 and a variant digit (8, 9, a, b) at position 19. |
| Uuids.Format | src/__seedwork/domain/value_objects.py:25 | `str(UUID)` is 36 characters: 8-4-4-4-12 groups of hexadecimal digits joined by hyphens, with no upper-case digits. |
| Uuids.Parse | src/__seedwork/domain/value_objects.py:31 | The UUID constructor accepts a string exactly when the string, after removing `urn:`, removing `uuid:`, stripping braces and removing hyphens, is 32 hexadecimal digits. The parsed UUID's digits are those, in lower case. |
| Uuids.ParseFormat | src/__seedwork/domain/value_objects.py:25-31 | Parsing the canonical text of any UUID gives that UUID back. |
| Uuids.ParseRfc | src/__seedwork/domain/value_objects.py:31 | Any 8-4-4-4-12 hexadecimal string parses to the UUID of its 32 digits. Formatting that UUID gives the string back, lower-cased. |
| Uuids.ParseUrn | src/__seedwork/domain/value_objects.py:31 | The `urn:uuid:` prefix is accepted and does not change the parsed UUID. |
| Uuids.ParseBraced | src/__seedwork/domain/value_objects.py:31 | Enclosing braces are accepted and do not change the parsed UUID. |
| Uuids.ParseWithoutHyphens | src/__seedwork/domain/value_objects.py:31 | The 32 digits without hyphens parse to the same UUID as the hyphenated form. |
| Uuids.FakeIdRejected | src/__seedwork/tests/unit/domain/test_unit_value_objects.py:15 | The UUID parser rejects "fake id". |
| Json.DumpValue | src/__seedwork/domain/value_objects.py:14-17 | A single value encodes exactly when it is not a `datetime`. |
| Json.DumpObject | src/__seedwork/domain/value_objects.py:14-17 | `json.dumps` of the field dict succeeds exactly when every value is encodable. Otherwise it fails with the "not JSON serializable" TypeError. |
| Json.ReadEscaped | src/__seedwork/domain/value_objects.py:14-17 | Every string, escaped with `ensure_ascii` (including surrogate pairs), reads back to the same string. |
| Json.ReadDecimal | src/__seedwork/domain/value_objects.py:14-17 | An integer written in decimal reads back as the same integer, whatever its sign. |
| Json.ReadDumpedObject | src/__seedwork/domain/value_objects.py:14-17 | The JSON text of encodable fields decodes to exactly those fields, in order. |
| Values.Decimal | src/__seedwork/domain/value_objects.py:14 | `str(int)` is a minus sign exactly for negatives, followed by decimal digits whose value is the magnitude, with no leading zero (0 is written `0`). |
| Values.IsoFormatLayout | src/__seedwork/domain/value_objects.py:14 | `str(datetime)` has 19 characters, or 26 with microseconds. It has `-` at 4 and 7, a space at 10, `:` at 13 and 16, and `.` at 19 when microseconds are present. |
| Values.IsoFormatFields | src/__seedwork/domain/value_objects.py:14 | In `str(datetime)`, year, month, day, hour, minute and second are zero-padded decimal fields of width 4, 2, 2, 2, 2 and 2 at their fixed positions. |
| Values.IsoFormatFraction | src/__seedwork/domain/value_objects.py:14 | With non-zero microseconds, `str(datetime)` ends with the microseconds zero-padded to six digits. |
| Entities.Id | src/__seedwork/tests/unit/domain/test_unit_entities.py:23-28 | `entity.id` equals `entity.unique_entity_id.id`, which is also the identifier's string form. |
| Entities.Create | src/__seedwork/tests/unit/domain/test_unit_entities.py:23-37 | Declared fields are kept. A passed identifier is kept, and `id` is its text. An omitted identifier is generated, and `id` is the generated UUID's canonical text. The identifier is valid either way. |
| Entities.ToDict | src/__seedwork/tests/unit/domain/test_unit_entities.py:39-50 | The dict has exactly the key `id` plus the declared field names. `id` maps to the entity's id, and every field name maps to its value. |
| Entities.DictRoundTrip | src/__seedwork/tests/unit/domain/test_unit_entities.py:39-50 | An entity with a valid identifier is rebuilt exactly from its dict and field names. |
| Entities.SampleIdAccepted | src/__seedwork/tests/unit/domain/test_unit_entities.py:30-37 | The sample identifier of the entity tests is accepted and stored unchanged. |
| Entities.TwoFieldDict | src/__seedwork/tests/unit/domain/test_unit_entities.py:9-12 | The dict of an entity with two declared fields is the three-entry map of `id` and the two fields. |
| Entities.SampleEntity | src/__seedwork/tests/unit/domain/test_unit_entities.py:39-50 | The test's stub entity, built by the constructor with the sample identifier passed, has `id` equal to the sample text. Its dict is exactly `{'id': sample, 'prop_1': 'value_1', 'prop_2': 'value_2'}`. |
| Categories.Create | src/category/domain/entities.py:8-14 | The name is stored as given. Omitted arguments take their defaults: description `None`, `is_active` `True`, `created_at` the clock reading. Passed values, `None` included, are stored unchanged. The identifier follows the entity base. |
| Categories.Props | src/category/domain/entities.py:10-14 | The declared fields are `name`, `description`, `is_active` and `created_at`, in that order. They are distinct and clash with neither `id` nor `unique_entity_id`. |
| Categories.Id | src/__seedwork/tests/unit/domain/test_unit_entities.py:28 | A category's `id` is its identifier's text. |
| Categories.ToDict | src/category/domain/entities.py:9-14 | `to_dict()` has exactly the keys `id`, `name`, `description`, `is_active` and `created_at`, each mapped to the category's value (`None` where absent). |
| Categories.DictRoundTrip | src/category/domain/entities.py:9-14 | A category with a valid identifier is rebuilt exactly from its dict. |
| Categories.NameOnly | src/category/tests/unit/domain/test_unit_entities.py:26-30 | `Category(name=n)` has description `None`, `is_active` `True` and `created_at` the clock reading. Its `id` is the generated UUID in canonical form. |
| Categories.CreationTimesDiffer | src/category/tests/unit/domain/test_unit_entities.py:32-35 | Two categories built at different clock readings without `created_at` have different creation times. |

## Left out

- `uuid.uuid4()` randomness: the generated UUID is a parameter. That each call gives a different UUID is not modelled. `ValueObjects.DefaultIsVersion4` assumes the version and variant bits that `uuid4` sets.
- `datetime.now()`: the clock reading is a parameter. That two readings differ is a hypothesis of `Categories.CreationTimesDiffer`.
- Uuids.Parse: does not model the leniencies of Python's `int(hex, 16)` inside `uuid.UUID`. These are surrounding whitespace, underscores between digits, a leading `+`, a `0x` or `0X` prefix and non-ASCII Unicode digits. Such strings are rejected by the model but accepted by Python. `ValueObjects.Create` inherits this.
- `uuid.UUID`'s other constructor forms (`bytes`, `fields`, `int`) are not reachable from the seedwork and are not modelled.
- An `id` of a type other than `str` or `uuid.UUID` (for example an `int`) is not modelled. Python raises a `TypeError` or `AttributeError` there, which the seedwork does not catch.
- Values.Decimal: integers are unbounded, so Python's limit on converting integers of more than 4300 digits to text is not modelled. There `str(int)` raises `ValueError`, and so do `json.dumps` and `ValueObjects.ToStr` for such an `int` field (`Json.DumpValue` is affected too).
- `json.dumps` is modelled for `str`, `int`, `bool`, `None` and `datetime` values only (a `datetime` raises). Floats, lists, dicts and other objects are not modelled.
- Python strings may hold lone surrogates. Dafny characters are Unicode scalar values, so `ensure_ascii` escaping of a lone surrogate is not modelled.
- `dataclasses.fields` and `getattr` reflection are replaced by explicit field lists in declaration order.
- The dict returned by `to_dict()` is a map: its key order and its defensive-copy behaviour are not modelled.
- Frozen dataclasses: records are Dafny datatype values, so no field can be reassigned after construction. The `FrozenInstanceError` that `setattr` raises, with its message, is not modelled. Neither is `__delattr__`.
- The chaining of the `ValueError` (`raise ... from ex`) is not modelled.
- The introspection tests (`is_dataclass`, `isinstance(..., ABC)`) are not modelled.
- `ValidTimestamp` bounds each `datetime` field separately and does not check the day against the month. Time zones and `fold` are not modelled.
- `src/__seedwork/domain/entities.py` and `src/__seedwork/domain/exceptions.py` are not part of this model. The entity base is modelled from its tests, and the exception as a value carrying its message.
