/** The generic repository, at the dataset's types: create, read, update,
    delete and list over one table.

    Each public operation is one unit of work. Its writes reach the table only
    at `commit`; an operation that raises before or at `commit` is rolled back,
    so the table is then exactly what it was. In the methods below `table` is
    assigned only at the commit point, and every error path returns before it. */
module Repository {
  import opened Wrappers
  import opened Models

  /** Faults the store reports at `commit`. */
  datatype StorageFault =
    | DuplicateId   // the primary key is taken (a `uuid4` collision)
    | NullName      // the NOT NULL constraint of the `name` column

  /** What a repository operation may raise: `NotFoundException` carrying the
      id, or a storage failure that propagates unmodified. */
  datatype RepoError = NotFound(id: Uuid) | StorageFailure(fault: StorageFault)

  class DatasetRepository {
    /** The committed rows of the `dataset` table, by primary key. */
    var table: map<Uuid, DatasetOrm>
    /** The last clock reading a unit of work took; it never goes back. */
    var clock: Time

    /** Every row is stored under its own id (the primary key, so ids are
        unique), has a non-null name, and has `created_at <= updated_at`,
        both no later than the clock. */
    ghost predicate Valid()
      reads this
    {
      forall id :: id in table ==> table[id].id == id && StoredRow(table[id], clock)
    }

    constructor ()
      ensures Valid()
      ensures table == map[] && clock == 0
    {
      table := map[];
      clock := 0;
    }

    /** `_get_by_id`: the row with that id, or NotFound. Reads only. */
    method FindById(id: Uuid) returns (r: Result<DatasetOrm, RepoError>)
      ensures id in table ==> r == Ok(table[id])
      ensures id !in table ==> r == Err(NotFound(id))
    {
      if id in table {
        r := Ok(table[id]);
      } else {
        r := Err(NotFound(id));
      }
    }

    /** `create`: inserts one row built from the DTO under the supplied fresh
        id, stamped with the current time, commits, and returns its model.
        If the id is already taken the commit fails and nothing is written. */
    method Create(dto: DatasetCreateDto, freshId: Uuid, tick: Time) returns (r: Result<Dataset, RepoError>)
      requires Valid()
      modifies this
      ensures Valid()
      ensures clock == old(clock) + tick
      ensures freshId in old(table) ==> r == Err(StorageFailure(DuplicateId)) && table == old(table)
      ensures freshId !in old(table) ==>
                && r == Ok(Dataset(freshId, clock, clock, dto.name))
                && table == old(table)[freshId := InsertRow(dto, freshId, clock)]
    {
      var now := clock + tick;
      clock := now;
      var row := InsertRow(dto, freshId, now);
      if freshId in table {
        r := Err(StorageFailure(DuplicateId));
        return;
      }
      table := table[freshId := row];
      r := Ok(FromOrm(table[freshId]));
    }

    /** `get_by_id`: the model of the row with that id, or NotFound. It never
        commits, so the table is untouched. */
    method GetById(id: Uuid) returns (r: Result<Dataset, RepoError>)
      requires Valid()
      ensures id in table ==> r.Ok? && r.value.id == id && r.value == FromOrm(table[id])
      ensures id !in table ==> r == Err(NotFound(id))
    {
      var found := FindById(id);
      match found
      case Ok(row) => r := Ok(FromOrm(row));
      case Err(e) => r := Err(e);
    }

    /** `list`: one model per stored row, each row exactly once, in whatever
        order the store scans them. It never commits. */
    method List() returns (xs: seq<Dataset>)
      requires Valid()
      ensures |xs| == |table|
      ensures forall i :: 0 <= i < |xs| ==> xs[i].id in table && xs[i] == FromOrm(table[xs[i].id])
      ensures forall id :: id in table ==> FromOrm(table[id]) in xs
      ensures forall i, j :: 0 <= i < j < |xs| ==> xs[i].id != xs[j].id
    {
      var unscanned := table.Keys;
      xs := [];
      while unscanned != {}
        invariant unscanned <= table.Keys
        invariant |xs| + |unscanned| == |table|
        invariant forall i :: 0 <= i < |xs| ==> xs[i].id in table - unscanned && xs[i] == FromOrm(table[xs[i].id])
        invariant forall id :: id in table && id !in unscanned ==> FromOrm(table[id]) in xs
        invariant forall i, j :: 0 <= i < j < |xs| ==> xs[i].id != xs[j].id
        decreases |unscanned|
      {
        var id :| id in unscanned;
        xs := xs + [FromOrm(table[id])];
        unscanned := unscanned - {id};
      }
    }

    /** `update_by_id`: finds the row (NotFound otherwise), writes every item
        of `dto.dict()` onto it, None included, and commits; the commit
        refreshes `updated_at`. A None name violates NOT NULL at commit. Any
        failure leaves the table as it was. */
    method UpdateById(id: Uuid, dto: DatasetUpdateDto, tick: Time) returns (r: Result<Dataset, RepoError>)
      requires Valid()
      modifies this
      ensures Valid()
      ensures clock == old(clock) + tick
      ensures id !in old(table) ==> r == Err(NotFound(id)) && table == old(table)
      ensures id in old(table) && dto.name.None? ==>
                r == Err(StorageFailure(NullName)) && table == old(table)
      ensures id in old(table) && dto.name.Some? ==>
                && r == Ok(Dataset(id, old(table)[id].createdAt, clock, dto.name.value))
                && r.value.updatedAt >= old(table)[id].updatedAt
                && table == old(table)[id := old(table)[id].(name := dto.name, updatedAt := clock)]
    {
      var now := clock + tick;
      clock := now;
      var found := FindById(id);
      if found.Err? {
        r := Err(found.error);
        return;
      }
      var loaded := found.value;
      var row := loaded;
      var items := UpdateItems(dto);
      for i := 0 to |items|
        invariant row == loaded.(name := row.name)
        invariant i == 0 ==> row.name == loaded.name
        invariant i > 0 ==> row.name == items[i - 1].value
      {
        row := SetAttr(row, items[i]);
      }
      row := OnUpdate(row, now);
      if row.name.None? {
        r := Err(StorageFailure(NullName));
        return;
      }
      table := table[id := row];
      r := Ok(FromOrm(table[id]));
    }

    /** `delete_by_id`: removes exactly the row with that id and commits, or
        raises NotFound and removes nothing. */
    method DeleteById(id: Uuid) returns (r: Result<(), RepoError>)
      requires Valid()
      modifies this
      ensures Valid()
      ensures clock == old(clock)
      ensures id !in old(table) ==> r == Err(NotFound(id)) && table == old(table)
      ensures id in old(table) ==> r == Ok(()) && table == old(table) - {id}
    {
      var found := FindById(id);
      if found.Err? {
        r := Err(found.error);
        return;
      }
      table := table - {id};
      r := Ok(());
    }
  }

  // -----------------------------------------------------------------------
  // Properties of sequences of calls

  /** `create` followed by `get_by_id` on the returned id yields the model
      `create` returned. */
  method CreateThenGet(repo: DatasetRepository, dto: DatasetCreateDto, freshId: Uuid, tick: Time)
    returns (created: Result<Dataset, RepoError>, got: Result<Dataset, RepoError>)
    requires repo.Valid()
    modifies repo
    ensures repo.Valid()
    ensures created.Ok? ==> created.value.id == freshId && created.value.name == dto.name
    ensures created.Ok? ==> got == created
  {
    created := repo.Create(dto, freshId, tick);
    got := repo.GetById(freshId);
  }

  /** After a successful `create`, `list` holds the new model exactly once,
      the model of every row that was there before, and nothing else. */
  method CreateThenList(repo: DatasetRepository, dto: DatasetCreateDto, freshId: Uuid, tick: Time)
    returns (created: Result<Dataset, RepoError>, xs: seq<Dataset>)
    requires repo.Valid()
    modifies repo
    ensures repo.Valid()
    ensures created.Ok? ==> |xs| == |old(repo.table)| + 1
    ensures created.Ok? ==> exists i :: 0 <= i < |xs| && xs[i] == created.value
    ensures created.Ok? ==> forall i, j :: 0 <= i < j < |xs| ==> xs[i] != xs[j]
    ensures created.Ok? ==> forall id :: id in old(repo.table) ==> id in repo.table && repo.table[id] == old(repo.table)[id]
    ensures created.Ok? ==> forall id :: id in old(repo.table) ==> FromOrm(old(repo.table)[id]) in xs
    ensures created.Ok? ==> forall d :: d in xs ==>
              d == created.value || (d.id in old(repo.table) && d == FromOrm(old(repo.table)[d.id]))
  {
    created := repo.Create(dto, freshId, tick);
    xs := repo.List();
    if created.Ok? {
      assert FromOrm(repo.table[freshId]) == created.value;
      forall id | id in old(repo.table) ensures FromOrm(old(repo.table)[id]) in xs {
        assert repo.table[id] == old(repo.table)[id];
      }
    }
  }

  /** Deleting twice: the second `delete_by_id` raises NotFound, and so does
      a `get_by_id` after it. */
  method DeleteTwice(repo: DatasetRepository, id: Uuid)
    returns (first: Result<(), RepoError>, second: Result<(), RepoError>, got: Result<Dataset, RepoError>)
    requires repo.Valid()
    modifies repo
    ensures repo.Valid()
    ensures first.Ok? <==> id in old(repo.table)
    ensures second == Err(NotFound(id))
    ensures got == Err(NotFound(id))
    ensures repo.table == old(repo.table) - {id}
  {
    first := repo.DeleteById(id);
    second := repo.DeleteById(id);
    got := repo.GetById(id);
  }

  /** An update whose name is None (a PATCH with an empty body) fails at
      commit; the row keeps its old name and timestamps. */
  method UpdateWithoutName(repo: DatasetRepository, id: Uuid, tick: Time)
    returns (r: Result<Dataset, RepoError>, got: Result<Dataset, RepoError>)
    requires repo.Valid()
    modifies repo
    ensures repo.Valid()
    ensures r.Err?
    ensures id in old(repo.table) ==> r == Err(StorageFailure(NullName))
    ensures id in old(repo.table) ==> got == Ok(FromOrm(old(repo.table)[id]))
    ensures repo.table == old(repo.table)
  {
    r := repo.UpdateById(id, DatasetUpdateDto(None), tick);
    got := repo.GetById(id);
  }
}
