/** The dataset path operations: each handler invokes one repository
    operation and maps its outcome to an HTTP response, or lets the exception
    escape (the framework then answers with a server error). */
module Endpoints {
  import opened Wrappers
  import opened Models
  import opened Repository

  const StatusOk: nat := 200
  const StatusCreated: nat := 201
  const StatusNoContent: nat := 204
  const StatusNotFound: nat := 404

  datatype Body = EntityBody(entity: Dataset) | ListBody(entities: seq<Dataset>) | NoBody

  datatype Response = Response(status: nat, body: Body)

  /** What a handler does: answer, or let a repository error propagate. */
  datatype Handled = Responded(response: Response) | Raised(error: RepoError)

  /** `POST /datasets`: 201 with the created model; nothing is caught. */
  method CreateDataset(repo: DatasetRepository, dto: DatasetCreateDto, freshId: Uuid, tick: Time)
    returns (h: Handled)
    requires repo.Valid()
    modifies repo
    ensures repo.Valid()
    ensures freshId !in old(repo.table) ==>
              h == Responded(Response(StatusCreated, EntityBody(Dataset(freshId, repo.clock, repo.clock, dto.name))))
    ensures freshId in old(repo.table) ==> h == Raised(StorageFailure(DuplicateId))
    ensures repo.clock == old(repo.clock) + tick
    ensures repo.table == if freshId in old(repo.table) then old(repo.table)
                          else old(repo.table)[freshId := InsertRow(dto, freshId, repo.clock)]
  {
    var r := repo.Create(dto, freshId, tick);
    match r
    case Ok(d) => h := Responded(Response(StatusCreated, EntityBody(d)));
    case Err(e) => h := Raised(e);
  }

  /** `DELETE /datasets/{id}`: 204 with no body, or 404 with no body when the
      repository raises NotFound. */
  method DeleteDataset(repo: DatasetRepository, id: Uuid) returns (h: Handled)
    requires repo.Valid()
    modifies repo
    ensures repo.Valid()
    ensures id in old(repo.table) ==> h == Responded(Response(StatusNoContent, NoBody))
    ensures id !in old(repo.table) ==> h == Responded(Response(StatusNotFound, NoBody))
    ensures repo.table == old(repo.table) - {id} && repo.clock == old(repo.clock)
  {
    var r := repo.DeleteById(id);
    match r
    case Ok(_) => h := Responded(Response(StatusNoContent, NoBody));
    case Err(e) =>
      if e.NotFound? {
        h := Responded(Response(StatusNotFound, NoBody));
      } else {
        h := Raised(e);
      }
  }

  /** `GET /datasets/{id}`: 200 with the model, or 404 with no body exactly
      when no row has that id. */
  method GetDataset(repo: DatasetRepository, id: Uuid) returns (h: Handled)
    requires repo.Valid()
    ensures h.Responded?
    ensures h.response.status == StatusNotFound <==> id !in repo.table
    ensures id in repo.table ==> h.response == Response(StatusOk, EntityBody(FromOrm(repo.table[id])))
    ensures id !in repo.table ==> h.response.body == NoBody
  {
    var r := repo.GetById(id);
    match r
    case Ok(d) => h := Responded(Response(StatusOk, EntityBody(d)));
    case Err(e) =>
      if e.NotFound? {
        h := Responded(Response(StatusNotFound, NoBody));
      } else {
        h := Raised(e);
      }
  }

  /** `GET /datasets`: 200 with the repository's list as it is. */
  method ListDatasets(repo: DatasetRepository) returns (h: Handled)
    requires repo.Valid()
    ensures h.Responded? && h.response.status == StatusOk && h.response.body.ListBody?
    ensures |h.response.body.entities| == |repo.table|
    ensures forall id :: id in repo.table ==> FromOrm(repo.table[id]) in h.response.body.entities
    ensures forall d :: d in h.response.body.entities ==> d.id in repo.table && d == FromOrm(repo.table[d.id])
  {
    var xs := repo.List();
    h := Responded(Response(StatusOk, ListBody(xs)));
  }

  /** `PATCH /datasets/{id}`: 200 with the updated model. NotFound is not
      caught: it propagates out of the handler instead of becoming a 404. */
  method UpdateDataset(repo: DatasetRepository, id: Uuid, dto: DatasetUpdateDto, tick: Time)
    returns (h: Handled)
    requires repo.Valid()
    modifies repo
    ensures repo.Valid()
    ensures id !in old(repo.table) ==> h == Raised(NotFound(id))
    ensures id in old(repo.table) && dto.name.None? ==> h == Raised(StorageFailure(NullName))
    ensures id in old(repo.table) && dto.name.Some? ==>
              h == Responded(Response(StatusOk, EntityBody(
                     Dataset(id, old(repo.table)[id].createdAt, repo.clock, dto.name.value))))
    ensures h.Responded? ==> h.response.status == StatusOk
    ensures repo.clock == old(repo.clock) + tick
    ensures repo.table == if h.Raised? then old(repo.table)
                          else old(repo.table)[id := old(repo.table)[id].(name := dto.name, updatedAt := repo.clock)]
  {
    var r := repo.UpdateById(id, dto, tick);
    match r
    case Ok(d) => h := Responded(Response(StatusOk, EntityBody(d)));
    case Err(e) => h := Raised(e);
  }

  /** The request sequence a client of the service goes through: create a
      dataset, read it, rename it, delete it, read it again. `t1` and `t2` are
      the clock ticks before the two writing requests that stamp a time. */
  method CreateReadRenameDelete(id: Uuid, t1: Time, t2: Time)
    returns (post: Handled, get: Handled, patch: Handled, del: Handled, getAgain: Handled)
    ensures post == Responded(Response(StatusCreated, EntityBody(Dataset(id, t1, t1, "weather"))))
    ensures get == Responded(Response(StatusOk, post.response.body))
    ensures patch == Responded(Response(StatusOk, EntityBody(Dataset(id, t1, t1 + t2, "climate"))))
    ensures t2 > 0 ==> patch.response.body.entity.updatedAt != post.response.body.entity.updatedAt
    ensures del == Responded(Response(StatusNoContent, NoBody))
    ensures getAgain == Responded(Response(StatusNotFound, NoBody))
  {
    var repo := new DatasetRepository();
    post := CreateDataset(repo, DatasetCreateDto("weather"), id, t1);
    get := GetDataset(repo, id);
    patch := UpdateDataset(repo, id, DatasetUpdateDto(Some("climate")), t2);
    del := DeleteDataset(repo, id);
    getAgain := GetDataset(repo, id);
  }
}
