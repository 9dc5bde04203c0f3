/** Record shapes of the dataset resource: the in-memory model (`ImmBase`
    plus `name`), the two transfer objects, and the ORM row (`OrmBase` plus
    the `name` column), with the column defaults that fill a row. */
module Models {
  import opened Wrappers
  import StringUtils

  /** A UUID. Identifiers come from a supply outside the model (`uuid4`). */
  type Uuid = nat

  /** A reading of the store's clock (`current_timestamp`); a logical clock. */
  type Time = nat

  /** `Dataset`: the `ImmBase` fields `id`, `created_at`, `updated_at`, and `name`. */
  datatype Dataset = Dataset(id: Uuid, createdAt: Time, updatedAt: Time, name: string)

  /** `DatasetCreateDto`: a required name, no id and no timestamps. */
  datatype DatasetCreateDto = DatasetCreateDto(name: string)

  /** `DatasetUpdateDto`: an optional name (None when the client sent none or null). */
  datatype DatasetUpdateDto = DatasetUpdateDto(name: Option<string>)

  /** One `(key, value)` item of `dto.dict()` for an update DTO. */
  datatype UpdateItem = NameItem(value: Option<string>)

  /** `dto.dict().items()`: every declared field, a None value included. */
  function UpdateItems(dto: DatasetUpdateDto): seq<UpdateItem> {
    [NameItem(dto.name)]
  }

  /** A `DatasetOrm` object. In memory its `name` attribute may hold None;
      the column is NOT NULL, which the store checks when the row is written. */
  datatype DatasetOrm = DatasetOrm(id: Uuid, createdAt: Time, updatedAt: Time, name: Option<string>)

  /** A row as the store may hold it at clock `clock`: a non-null name and
      timestamps no later than the clock, the creation time first. */
  ghost predicate StoredRow(row: DatasetOrm, clock: Time) {
    row.name.Some? && row.createdAt <= row.updatedAt <= clock
  }

  /** `DatasetOrm(**dto.dict())` written at time `now`: the id from the
      `uuid4` default, the DTO's name, and both timestamps from the
      `current_timestamp` server defaults. */
  function InsertRow(dto: DatasetCreateDto, id: Uuid, now: Time): DatasetOrm {
    DatasetOrm(id, now, now, Some(dto.name))
  }

  /** `setattr(obj_orm, k, v)` for one item of an update DTO. */
  function SetAttr(row: DatasetOrm, item: UpdateItem): DatasetOrm {
    match item
    case NameItem(v) => row.(name := v)
  }

  /** The `onupdate` rule of `updated_at`; `created_at` has none. */
  function OnUpdate(row: DatasetOrm, now: Time): DatasetOrm {
    row.(updatedAt := now)
  }

  /** `Dataset.from_orm(row)`. */
  function FromOrm(row: DatasetOrm): (d: Dataset)
    requires row.name.Some?
  {
    Dataset(row.id, row.createdAt, row.updatedAt, row.name.value)
  }

  /** A freshly inserted row is a stored row with equal timestamps. */
  lemma InsertRowIsStored(dto: DatasetCreateDto, id: Uuid, now: Time)
    ensures StoredRow(InsertRow(dto, id, now), now)
    ensures InsertRow(dto, id, now).createdAt == InsertRow(dto, id, now).updatedAt
    ensures FromOrm(InsertRow(dto, id, now)) == Dataset(id, now, now, dto.name)
  {
  }

  /** Writing an update at a clock reading no earlier than the row's keeps
      the timestamp order, never moves `updated_at` back, and keeps the id
      and `created_at`. */
  lemma OnUpdateKeepsOrder(row: DatasetOrm, clock: Time, now: Time)
    requires StoredRow(row, clock) && clock <= now
    ensures StoredRow(OnUpdate(row, now), now)
    ensures OnUpdate(row, now).updatedAt >= row.updatedAt
    ensures OnUpdate(row, now).id == row.id && OnUpdate(row, now).createdAt == row.createdAt
  {
  }

  // ---------------------------------------------------------------------
  // Field names and their camelCase aliases

  datatype Field = Id | CreatedAt | UpdatedAt | Name

  const Fields: seq<Field> := [Id, CreatedAt, UpdatedAt, Name]

  function FieldName(f: Field): string {
    match f
    case Id => "id"
    case CreatedAt => "created_at"
    case UpdatedAt => "updated_at"
    case Name => "name"
  }

  /** The wire name of a field: `alias_generator = to_camel`. */
  function Alias(f: Field): string {
    StringUtils.ToCamel(FieldName(f))
  }

  lemma AliasValues()
    ensures Alias(Id) == "id" && Alias(CreatedAt) == "createdAt"
    ensures Alias(UpdatedAt) == "updatedAt" && Alias(Name) == "name"
  {
    StringUtils.ToCamelIdentity("id");
    StringUtils.ToCamelIdentity("name");
    StringUtils.ToCamelCreatedAt();
    StringUtils.ToCamelUpdatedAt();
  }

  /** No alias contains an underscore. */
  lemma AliasHasNoUnderscore(f: Field)
    ensures '_' !in Alias(f)
  {
    StringUtils.ToCamelHasNoUnderscore(FieldName(f));
  }

  /** Whether a JSON key names field `f`, by alias or by field name. */
  predicate Names(key: string, f: Field) {
    key == Alias(f) || key == FieldName(f)
  }

  function FindField(key: string, fs: seq<Field>): Option<Field> {
    if fs == [] then None
    else if Names(key, fs[0]) then Some(fs[0])
    else FindField(key, fs[1..])
  }

  /** The field a JSON key populates: its alias, or its own name since
      `allow_population_by_field_name` is set. */
  function FieldForKey(key: string): Option<Field> {
    FindField(key, Fields)
  }

  lemma {:induction false} FindFieldSound(key: string, fs: seq<Field>)
    ensures FindField(key, fs).Some? ==> Names(key, FindField(key, fs).value)
    ensures FindField(key, fs).None? ==> forall i :: 0 <= i < |fs| ==> !Names(key, fs[i])
  {
    if fs != [] {
      FindFieldSound(key, fs[1..]);
      if FindField(key, fs).None? {
        forall i | 0 <= i < |fs| ensures !Names(key, fs[i]) {
          if i > 0 { assert fs[i] == fs[1..][i - 1]; }
        }
      }
    }
  }

  /** Distinct fields share neither a name nor an alias. */
  lemma KeysDistinct(f: Field, g: Field, key: string)
    requires key == Alias(f) || key == FieldName(f)
    requires key == Alias(g) || key == FieldName(g)
    ensures f == g
  {
    AliasValues();
  }

  /** A key populates a field exactly when it is that field's alias or name. */
  lemma FieldForKeyIff(key: string, f: Field)
    ensures FieldForKey(key) == Some(f) <==> key == Alias(f) || key == FieldName(f)
  {
    FindFieldSound(key, Fields);
    var g := FieldForKey(key);
    if g.Some? && (key == Alias(f) || key == FieldName(f)) {
      KeysDistinct(f, g.value, key);
    }
    assert f in Fields;
  }
}
