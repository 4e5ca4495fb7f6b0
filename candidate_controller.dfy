/** The REST controller: each action hands the service's outcome to an
    action result; only the update action catches exceptions. */
module Controllers {
  import opened Common
  import opened Mapping
  import opened Repositories
  import opened Services

  /** The problem body `{ Status, Title }` of an error result. */
  datatype ProblemDetails = ProblemDetails(status: Int32, title: string)

  /** The action results the controller builds. */
  datatype ActionResult<+T> =
    | Ok(value: T)
    | NoContent
    | NotFound
    | BadRequestObject(problem: ProblemDetails)
    | NotFoundObject(problem: ProblemDetails)
    | StatusCodeObject(statusCode: Int32, problem: ProblemDetails)
  {
    /** The HTTP status the result is sent with. */
    function Status(): Int32 {
      match this
      case Ok(_) => 200
      case NoContent => 204
      case NotFound => 404
      case BadRequestObject(_) => 400
      case NotFoundObject(_) => 404
      case StatusCodeObject(code, _) => code
    }

    /** The problem body, for the results that carry one. */
    function Problem(): Option<ProblemDetails> {
      match this
      case BadRequestObject(p) => Some(p)
      case NotFoundObject(p) => Some(p)
      case StatusCodeObject(_, p) => Some(p)
      case _ => None
    }
  }

  const InternalServerErrorTitle := "Internal Server Error"

  /** `Ok(await ...)`: the value becomes a 200 result, an exception passes
      through unhandled. */
  function OkResult<T>(outcome: Result<T>): (r: Result<ActionResult<T>>)
    ensures outcome.Success? <==> r.Success?
    ensures outcome.Success? ==> r.value.Ok? && r.value.value == outcome.value && r.value.Status() == 200
    ensures outcome.Failure? ==> r.error == outcome.error
  {
    match outcome
    case Success(v) => Success(Ok(v))
    case Failure(e) => Failure(e)
  }

  /** The try/catch of the update action. */
  function UpdateCandidateResult(outcome: Result<CandidateDto>): (r: ActionResult<CandidateDto>)
    ensures r.Ok? <==> outcome.Success?
    ensures outcome.Success? ==> r.value == outcome.value && r.Status() == 200
    ensures outcome.Failure? && outcome.error.CustomException? ==>
              && r.Status() == outcome.error.statusCode
              && r.Problem() == Some(ProblemDetails(outcome.error.statusCode, outcome.error.message))
              && (r.BadRequestObject? <==> outcome.error.statusCode == 400)
              && (r.NotFoundObject? <==> outcome.error.statusCode == 404)
    ensures outcome.Failure? && !outcome.error.CustomException? ==>
              r.Status() == 500 && r.Problem() == Some(ProblemDetails(500, InternalServerErrorTitle))
  {
    match outcome
    case Success(result) => Ok(result)
    case Failure(CustomException(code, message)) =>
      var problem := ProblemDetails(code, message);
      if code == 400 then BadRequestObject(problem)
      else if code == 404 then NotFoundObject(problem)
      else StatusCodeObject(code, problem)
    case Failure(_) => StatusCodeObject(500, ProblemDetails(500, InternalServerErrorTitle))
  }

  /** An exception other than a custom one says nothing about itself in the
      update action's result. */
  lemma UpdateHidesUnexpectedErrors(e1: Exception, e2: Exception)
    requires !e1.CustomException? && !e2.CustomException?
    ensures UpdateCandidateResult(Failure(e1)) == UpdateCandidateResult(Failure(e2))
  {
  }

  /** `await DeleteCandidateAsync(id) ? NoContent() : NotFound()`; an
      exception passes through unhandled. */
  function RemoveCandidateResult(outcome: Result<bool>): (r: Result<ActionResult<()>>)
    ensures outcome.Success? <==> r.Success?
    ensures outcome.Success? ==> (r.value == NoContent <==> outcome.value)
    ensures outcome.Success? ==> (r.value == NotFound <==> !outcome.value)
    ensures outcome.Success? ==> r.value.Status() == (if outcome.value then 204 else 404)
    ensures outcome.Failure? ==> r.error == outcome.error
  {
    match outcome
    case Success(deleted) => Success(if deleted then NoContent else NotFound)
    case Failure(e) => Failure(e)
  }

  class CandidateController {
    const service: CandidateService

    ghost predicate Valid()
      reads service.repository
    {
      service.Valid()
    }

    constructor (service: CandidateService)
      ensures this.service == service
    {
      this.service := service;
    }

    /** GET api/candidates */
    method GetAllCandidates() returns (r: ActionResult<set<CandidateDto>>)
      requires Valid()
      ensures r.Ok? && r.Status() == 200
      ensures |r.value| == |service.repository.rows|
      ensures forall k :: k in service.repository.rows ==> ToDto(service.repository.rows[k]) in r.value
      ensures forall d :: d in r.value ==> d.id in service.repository.rows && ToDto(service.repository.rows[d.id]) == d
    {
      var candidates := service.GetAllCandidatessAsync();
      r := Ok(candidates);
    }

    /** GET api/candidates/{id} */
    method GetCandidate(id: Int64) returns (r: Result<ActionResult<CandidateDto>>)
      requires Valid()
      ensures id in service.repository.rows ==> r == Success(Ok(ToDto(service.repository.rows[id])))
      ensures id !in service.repository.rows ==> r == Failure(CandidateNotFound)
    {
      var candidate := service.GetCandidatetAsync(id);
      r := OkResult(candidate);
    }

    /** POST api/candidates */
    method AddCandidateAsync(dto: CandidateCreateDto) returns (r: Result<ActionResult<CandidateDto>>)
      requires Valid()
      modifies service.repository
      ensures Valid()
      ensures r == Failure(CandidateAlreadyExist) <==> Duplicate(old(service.repository.rows), dto)
      ensures Duplicate(old(service.repository.rows), dto) ==> unchanged(service.repository)
      ensures !Duplicate(old(service.repository.rows), dto) && old(service.repository.lastId) == MaxInt64 ==>
                r == Failure(DbUpdateException(RowIdSpaceExhausted)) && unchanged(service.repository)
      ensures !Duplicate(old(service.repository.rows), dto) && old(service.repository.lastId) < MaxInt64 ==>
                var created := FromCreateDto(dto).(id := old(service.repository.lastId) + 1);
                && r == Success(Ok(ToDto(created)))
                && created.id !in old(service.repository.rows)
                && service.repository.rows == old(service.repository.rows)[created.id := created]
                && service.repository.lastId == created.id
                && service.repository.committed == service.repository.rows
    {
      var created := service.CreateCandidateAsync(dto);
      r := OkResult(created);
    }

    /** PUT api/candidates/{id} */
    method UpdateCandidateAsync(id: Int64, dto: CandidateUpdateDto) returns (r: ActionResult<CandidateDto>)
      requires Valid()
      modifies service.repository
      ensures Valid()
      ensures id !in old(service.repository.rows) ==>
                r == NotFoundObject(ProblemDetails(404, "candidate_not_found")) && unchanged(service.repository)
      ensures id in old(service.repository.rows) ==>
                var updated := Overlay(dto, old(service.repository.rows)[id]);
                && r == Ok(ToDto(updated))
                && service.repository.rows == old(service.repository.rows)[id := updated]
                && service.repository.lastId == old(service.repository.lastId)
                && service.repository.committed == service.repository.rows
    {
      var result := service.UpdateCandidateAsync(id, dto);
      r := UpdateCandidateResult(result);
    }

    /** DELETE api/candidates/{id}. With this service the `false` branch is
        never taken: a missing key is an exception, not `false`. */
    method RemoveCandidateAsync(id: Int64) returns (r: Result<ActionResult<()>>)
      requires Valid()
      modifies service.repository
      ensures Valid()
      ensures r != Success(NotFound)
      ensures r == Success(NoContent) <==> id in old(service.repository.rows)
      ensures id !in old(service.repository.rows) ==> r == Failure(CandidateNotFound)
      ensures id !in old(service.repository.rows) ==> unchanged(service.repository)
      ensures id in old(service.repository.rows) ==>
                && service.repository.rows == old(service.repository.rows) - {id}
                && service.repository.lastId == old(service.repository.lastId)
                && service.repository.committed == service.repository.rows
    {
      var deleted := service.DeleteCandidateAsync(id);
      r := RemoveCandidateResult(deleted);
    }
  }
}
