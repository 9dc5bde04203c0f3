# cosmos: a Dafny model of the dataset repository

Cosmos is a small HTTP service. It offers create, read, update, delete and
list operations on one resource, the *dataset*. The operations run through a
generic repository over one relational table. This project models that core
in Dafny and proves properties of it:

- `repository.dfy` models the repository (`RepositoryBase` at the dataset's
  types) as the class `DatasetRepository`. The class holds the committed
  table as a map from id to row, and the store's clock.
  - Each public operation is one unit of work. Its writes reach the table only
    at `commit`.
  - An operation that raises is rolled back by the session scope. In the model,
    the table is assigned only at the commit point, and every error path
    returns before it.
  - `update_by_id` writes each item of `dto.dict()` onto the row in a loop,
    as the source does.
  - Ids come from a supply outside the model (the `freshId` parameter, standing
    for `uuid4`). A taken id is the primary-key violation the store reports at
    commit.
  - Time is a logical clock. `create` and `update_by_id` each take a reading
    and advance it by a caller-given `tick`, also when they then raise
    (NotFound, a taken id or a NULL name). `delete_by_id` and the reads leave
    it alone, so the clock never goes back.
  - The class models the one `dataset` table
    (`src/cosmos/core/models/dataset.py:39-47`). The web framework builds a new
    `DatasetRepository` for every request
    (`src/cosmos/repositories/dataset.py:36`), and every such instance works on
    that same table, so one `DatasetRepository` object stands for all of them.
- `models.dfy` models the record shapes: `Dataset` (the `ImmBase` fields plus
  `name`), `DatasetCreateDto`, `DatasetUpdateDto` with an optional name, and
  the ORM row `DatasetOrm`.
  - It also models the column defaults: the id default, `created_at` and
    `updated_at` set at insert, and `updated_at` refreshed on update.
  - The `name` column is NOT NULL. The store checks this when a row is written.
  - The wire aliases of the field names are produced by `to_camel`. A key is
    accepted under its alias or its own field name.
- `strings.dfy` models `to_camel`: `lstrip("_")`, `split("_")`, and
  `capitalize` on every segment after the first.
- `config.dfy` models the settings:
  - the `api_prefix` regex `^$|^/[a-zA-Z0-9\-\.\_\~]+$` as a matcher, and its
    meaning as a positional predicate;
  - the `env` literal;
  - the defaults;
  - the OpenAPI URL the application factory builds from the prefix.
- `endpoints.dfy` models the five dataset handlers. Each one calls one
  repository operation and maps the outcome to a status and body, or lets the
  error propagate.
- `wrappers.dfy` holds `Option` and `Result`.

Two behaviours of the code are easy to miss, and the model keeps both:

- **PATCH on an unknown id.** GET
  (`src/cosmos/api/v1/endpoints/datasets.py:55-58`) and DELETE
  (`src/cosmos/api/v1/endpoints/datasets.py:41-44`) catch `NotFoundException`
  and answer 404. The PATCH handler at
  `src/cosmos/api/v1/endpoints/datasets.py:84` does not catch it, so the
  exception propagates out of the handler.
- **Absent update fields.** `update_by_id` writes every key of `dto.dict()`
  onto the row, None included (`src/cosmos/repositories/base.py:138-139`).
  An update without a name (for example a PATCH with `{}`) therefore sets
  `name` to NULL. That violates the NOT NULL column at commit, and the unit of
  work is rolled back. The row keeps its old name, and the caller gets a
  storage failure, not an unchanged entity.

## Model

| member | source | states |
|---|---|---|
| `StringUtils.LStrip` | src/cosmos/utils/string.py:13 | `lstrip("_")`: never lengthens the string, and what it returns is empty or does not start with the stripped character; `StringUtils.LStripRemovesRun` adds that it is a suffix of the input with only that character removed before it, and `StringUtils.LStripAppend` how it acts on a concatenation |
| `StringUtils.LStripRemovesRun` | src/cosmos/utils/string.py:13 | `lstrip` keeps a suffix of its input unchanged and removes only copies of the stripped character in front of it |
| `StringUtils.Capitalize` | src/cosmos/utils/string.py:14 | `capitalize`: first character upper-cased, the rest lower-cased; `StringUtils.CapitalizeShape`, `StringUtils.CapitalizeCase` and `StringUtils.CapitalizeIdempotent` carry its contract |
| `StringUtils.CapitalizeCase` | src/cosmos/utils/string.py:14 | after `capitalize` the first character is no lower-case letter and no later character is an upper-case letter |
| `StringUtils.CapitalizeIdempotent` | src/cosmos/utils/string.py:14 | capitalizing twice is capitalizing once |
| `StringUtils.ToCamel` | src/cosmos/utils/string.py:4-14 | `to_camel`: strips leading `_`, splits on `_`, keeps the first segment and capitalizes and concatenates the rest; its contract is carried by `StringUtils.ToCamelHasNoUnderscore`, `StringUtils.ToCamelLength`, `StringUtils.ToCamelIdempotent` and the lemmas below |
| `StringUtils.Split` | src/cosmos/utils/string.py:13 | `split` always yields at least one piece (the first segment `s_l[0]` always exists) |
| `StringUtils.JoinSplit` | src/cosmos/utils/string.py:13 | joining the pieces of a split with the separator gives back the string: splitting loses nothing |
| `StringUtils.SplitJoin` | src/cosmos/utils/string.py:13 | splitting a join of separator-free pieces gives back exactly those pieces (the other direction of the inverse) |
| `StringUtils.SplitPiecesFree` | src/cosmos/utils/string.py:13 | no piece of a split contains the separator |
| `StringUtils.SplitCount` | src/cosmos/utils/string.py:13 | a split has one more piece than the string has separators, so doubled and trailing `_` give empty pieces |
| `StringUtils.SplitAppend` | src/cosmos/utils/string.py:13 | splitting `x + "_" + y` is splitting `x` and `y` separately and concatenating the pieces |
| `StringUtils.CapitalizeShape` | src/cosmos/utils/string.py:14 | `capitalize` keeps the length and contains `_` exactly when its input does |
| `StringUtils.ToCamelHasNoUnderscore` | src/cosmos/utils/string.py:13-14 | the output of `to_camel` never contains `_` |
| `StringUtils.ToCamelIdentity` | src/cosmos/utils/string.py:13-14 | a string without `_` is returned unchanged (the empty string included) |
| `StringUtils.ToCamelIdempotent` | src/cosmos/utils/string.py:13-14 | `to_camel(to_camel(s)) == to_camel(s)` for every `s` |
| `StringUtils.ToCamelLength` | src/cosmos/utils/string.py:13-14 | the output is as long as the input minus its number of `_` characters |
| `StringUtils.ToCamelDropsLeadingUnderscore` | src/cosmos/utils/string.py:13 | a leading `_` makes no difference: leading underscores are dropped |
| `StringUtils.ToCamelSegments` | src/cosmos/utils/string.py:13-14 | for a non-empty first segment without `_`, the output is that segment unchanged followed by every later segment of the split, each capitalized |
| `StringUtils.ToCamelTwoSegments` | src/cosmos/utils/string.py:14 | `a_b` with `_`-free segments becomes `a` unchanged followed by `b` capitalized |
| `StringUtils.ToCamelTrailingUnderscore` | src/cosmos/utils/string.py:13-14 | a trailing `_` (an empty last segment) contributes nothing |
| `StringUtils.ToCamelDoubledUnderscore` | src/cosmos/utils/string.py:13-14 | a doubled `_` (an empty inner segment) gives the same output as a single one |
| `StringUtils.ToCamelCreatedAt` | src/cosmos/utils/string.py:14 | `to_camel("created_at") == "createdAt"` |
| `StringUtils.ToCamelUpdatedAt` | src/cosmos/utils/string.py:14 | `to_camel("updated_at") == "updatedAt"` |
| `Config.MatchesApiPrefix` | src/cosmos/config.py:9 | the regex as a matcher over its two alternatives; `Config.MatchesApiPrefixIff` carries its contract (it accepts exactly the empty string or `/` followed by unreserved characters) |
| `Config.MatchUnreservedPlusIff` | src/cosmos/config.py:9 | the `[...]+` part matches exactly the non-empty strings of unreserved characters |
| `Config.MatchesApiPrefixIff` | src/cosmos/config.py:9 | the prefix regex accepts a string exactly when it is empty or `/` followed by one or more of letters, digits, `-`, `.`, `_`, `~` (both directions) |
| `Config.ApiPrefixSlashes` | src/cosmos/config.py:9 | a non-empty accepted prefix has exactly one `/`, at index 0, and never ends with `/` |
| `Config.DefaultApiPrefixAccepted` | src/cosmos/config.py:36 | the default `api_prefix`, `""`, satisfies the regex |
| `Config.OpenApiUrl` | src/cosmos/main.py:20 | the OpenAPI URL, the prefix followed by `/openapi.json`; `Config.OpenApiUrlWellFormed` carries its contract |
| `Config.OpenApiUrlWellFormed` | src/cosmos/main.py:20 | for an accepted prefix, `prefix + "/openapi.json"` starts with `/` and contains no `//` |
| `Config.ParseEnv` | src/cosmos/config.py:38 | `env` is accepted exactly when it is `"dev"` or `"prod"`, and maps to the matching value |
| `Config.DefaultSettings` | src/cosmos/config.py:21-39 | the defaults: prefix `""`, no CORS origins, `env` `"dev"`, title `Cosmos`, no description and the fixed summary; `Config.DefaultApiPrefixAccepted` and `Config.LoadSettings` carry its contract |
| `Config.LoadSettings` | src/cosmos/config.py:26-39 | settings load exactly when the given `api_prefix` matches the regex and `env` is `"dev"` or `"prod"`; absent values take the defaults (`""`, `"dev"`, no CORS origins, the default OpenAPI info); a loaded prefix always satisfies the regex |
| `Models.UpdateItems` | src/cosmos/repositories/base.py:138 | `dto.dict().items()` for an update DTO: the one `name` item, a None value included; `Repository.DatasetRepository.UpdateById` carries its contract |
| `Models.InsertRow` | src/cosmos/repositories/base.py:57 | the row `DatasetOrm(**dto.dict())` becomes once the column defaults of `src/cosmos/core/models/base.py:51-60` fill it: the supplied id, the DTO's name, both timestamps the insert time; `Models.InsertRowIsStored` carries its contract |
| `Models.SetAttr` | src/cosmos/repositories/base.py:139 | `setattr` of one update item: replaces the name, None included, and nothing else; `Repository.DatasetRepository.UpdateById` carries its contract |
| `Models.OnUpdate` | src/cosmos/core/models/base.py:61 | the `onupdate` rule: sets `updated_at` to the write time and nothing else; `Models.OnUpdateKeepsOrder` carries its contract |
| `Models.FromOrm` | src/cosmos/repositories/base.py:117 | `from_orm`: the model with the row's id, timestamps and (non-null) name; `Models.InsertRowIsStored` and the repository methods carry its contract |
| `Models.InsertRowIsStored` | src/cosmos/core/models/base.py:51-60 | a newly inserted row has the supplied id, the DTO's name, a non-null name, and `created_at == updated_at ==` the insert time |
| `Models.OnUpdateKeepsOrder` | src/cosmos/core/models/base.py:52-63 | the on-update rule moves only `updated_at`, to a time no earlier than before, and so keeps `created_at <= updated_at`; id and `created_at` are unchanged |
| `Models.Alias` | src/cosmos/core/models/base.py:34 | a field's wire name, `to_camel` of its name; `Models.AliasValues` and `Models.AliasHasNoUnderscore` carry its contract |
| `Models.FieldForKey` | src/cosmos/core/models/base.py:34-35 | the field a JSON key populates, by alias or by field name; `Models.FieldForKeyIff` carries its contract |
| `Models.AliasValues` | src/cosmos/core/models/base.py:24-34 | the wire aliases are `id`, `createdAt`, `updatedAt` and `name` |
| `Models.AliasHasNoUnderscore` | src/cosmos/core/models/base.py:34 | no alias contains `_` |
| `Models.KeysDistinct` | src/cosmos/core/models/base.py:24-26 | two fields never share a name or an alias |
| `Models.FieldForKeyIff` | src/cosmos/core/models/base.py:34-35 | a key populates a field exactly when it is that field's alias or its own name (population by field name allowed) |
| `Repository.DatasetRepository.constructor` | src/cosmos/core/models/dataset.py:39-47 | a fresh, empty `dataset` table with the clock at its start; it satisfies the row invariant |
| `Repository.DatasetRepository.FindById` | src/cosmos/repositories/base.py:71-85 | `_get_by_id` returns the row with that id, or raises NotFound carrying the id when there is none |
| `Repository.DatasetRepository.Create` | src/cosmos/repositories/base.py:87-97 | `_create` and `create` add exactly one row under an id not previously in the table: the DTO's name, both timestamps equal to the current time. The returned model is that row. No other row changes. A taken id fails at commit with the table unchanged. The row invariant is preserved |
| `Repository.DatasetRepository.GetById` | src/cosmos/repositories/base.py:109-117 | returns the model of the row with that id, or NotFound and no model; it has no `modifies`, so the table is identical before and after |
| `Repository.DatasetRepository.List` | src/cosmos/repositories/base.py:119-127 | one model per stored row, each row exactly once (as many models as rows, distinct ids, every row present), in no guaranteed order; the table is untouched |
| `Repository.DatasetRepository.UpdateById` | src/cosmos/repositories/base.py:129-142 | on a missing id, NotFound with the table unchanged. Otherwise every `dto.dict()` item is written, None included. A None name fails at commit and the table is unchanged. A name is written with `updated_at` refreshed to the current time, never earlier than before. The id and `created_at` are kept, and no other row changes |
| `Repository.DatasetRepository.DeleteById` | src/cosmos/repositories/base.py:99-107 | `_delete_by_id` and `delete_by_id` remove exactly the row with that id, or raise NotFound and remove nothing |
| `Repository.CreateThenGet` | src/cosmos/repositories/base.py:87-117 | `get_by_id` on the id `create` returned yields the same model, with the DTO's name |
| `Repository.CreateThenList` | src/cosmos/repositories/base.py:87-127 | after a successful `create`, `list` holds one more model than there were rows: the new one exactly once, the model of every earlier row, and nothing else; every earlier row is unchanged |
| `Repository.DeleteTwice` | src/cosmos/repositories/base.py:99-117 | the second `delete_by_id` of the same id raises NotFound, and so does `get_by_id` afterwards |
| `Repository.UpdateWithoutName` | src/cosmos/repositories/base.py:136-140 | an update whose name is None fails at commit, and the row keeps its old name and timestamps |
| `Endpoints.CreateDataset` | src/cosmos/api/v1/endpoints/datasets.py:19-30 | POST answers 201 with the entity `create` returned; a storage failure propagates |
| `Endpoints.DeleteDataset` | src/cosmos/api/v1/endpoints/datasets.py:33-44 | DELETE answers 204 with no body when the row existed, else 404 with no body |
| `Endpoints.GetDataset` | src/cosmos/api/v1/endpoints/datasets.py:47-58 | GET by id answers 200 with the entity, and 404 with no body exactly when no row has that id |
| `Endpoints.ListDatasets` | src/cosmos/api/v1/endpoints/datasets.py:61-68 | GET of the collection answers 200 with the repository's list: every row once, nothing else |
| `Endpoints.UpdateDataset` | src/cosmos/api/v1/endpoints/datasets.py:71-84 | PATCH answers 200 with the updated entity; NotFound is not caught and propagates (never a 404), and so does the NOT NULL failure of a missing name |
| `Endpoints.CreateReadRenameDelete` | src/cosmos/api/v1/endpoints/datasets.py:19-84 | on a fresh table: POST `weather` gives 201, GET gives 200 with the same body, PATCH `climate` gives 200 with the same id and `createdAt` and a later `updatedAt` when time has passed, DELETE gives 204, and GET again gives 404 |

## Left out

- `src/cosmos/db/session.py`: the engine and scoped-session plumbing is not modelled. Only its effect is kept: an operation that raises leaves the table unchanged. Its line 14 reads `settings.sqlalchemy_url`, a setting that `Settings` does not declare.
- Plugin discovery (`src/cosmos/utils/plugins.py`) imports modules found by reflection at startup. It is a foreign-library side effect with no state to model.
- `src/cosmos/plugins/datasets/tread/` is not modelled. Its service uses `DatasetRepository` without importing it, and calls `super().__init__` on a plain class. Its endpoint only formats the result of `get_by_id`.
- `src/cosmos/main.py` (application factory, CORS middleware), the ping endpoint, router aggregation and package metadata are framework wiring. Only the OpenAPI URL of `main.py:20` is modelled.
- `src/cosmos/repositories/dataset.py` only binds types and injects dependencies. The repository is modelled directly at the dataset's types.
- `NotFoundException`'s message formatting is not modelled. NotFound is an error value carrying the id.
- UUID randomness and the database clock are parameters. `freshId` stands for `uuid4`, and `tick` for the time elapsed before a unit of work.
- Concurrent requests and transaction isolation ("last commit wins") are not modelled. Every operation runs alone.
- Pydantic coercion and 422 validation responses happen before a handler runs and are not modelled. Neither is JSON, ISO-8601 or UUID formatting on the wire.
- Storage failures other than a taken primary key and a NULL name (connection loss, for example) are not modelled. Nor is the 500 response the framework sends when an exception escapes a handler; the model stops at "the error propagates".
- Objects are modelled as values. The ORM object that `session.refresh` reloads, and the aliasing between it and the returned model, are not modelled.
- StringUtils.Capitalize: upper- and lower-casing is ASCII only. Python's `str.capitalize` also maps non-ASCII letters, and can change the length (`"ß".upper()` is `"SS"`). `ToCamelLength` is stated for this ASCII case mapping.
- Config.MatchesApiPrefix: Python's `$` also matches before one trailing newline, so the source also accepts, for example, `"/v1\n"`. The model accepts only the intended language.
- Config.LoadSettings: only the `api_prefix` and `env` overrides are modelled. The `AnyHttpUrl` validation of `cors_origins` and environment overrides of the OpenAPI info are not.
- Repository.DatasetRepository.UpdateById: the model refreshes `updated_at` on every successful update. SQLAlchemy emits no UPDATE, and so fires no on-update default, when the written name equals the stored one. The model does not capture that case.
- Endpoints.UpdateDataset: inherits the `updated_at` gap of `Repository.DatasetRepository.UpdateById`. A PATCH that writes the name the row already has answers with a refreshed `updatedAt` in the model, while SQLAlchemy emits no UPDATE and the stored time stays as it was.
- The environment variable names (the `COSMOS_` prefix and the `__` delimiter for nested keys, `src/cosmos/config.py:47-48`) are not modelled. `Config.LoadSettings` takes the values already looked up.
