/** The three DTO shapes of the service boundary and the object mapping
    between them and the entity, reduced to plain field copies. */
module Mapping {
  import opened Common
  import opened Entities

  /** What the API returns: every column, key included. */
  datatype CandidateDto = CandidateDto(
    id: Int64,
    firstName: string,
    lastName: string,
    email: string,
    phoneNumber: Option<string>,
    bestCallTime: Option<CallTime>,
    linkedInProfile: Option<string>,
    gitHubProfile: Option<string>,
    comment: string)

  /** The body of a create request: every column but the key. */
  datatype CandidateCreateDto = CandidateCreateDto(
    firstName: string,
    lastName: string,
    email: string,
    phoneNumber: Option<string>,
    bestCallTime: Option<CallTime>,
    linkedInProfile: Option<string>,
    gitHubProfile: Option<string>,
    comment: string)

  /** The body of an update request: every column but the key. */
  datatype CandidateUpdateDto = CandidateUpdateDto(
    firstName: string,
    lastName: string,
    email: string,
    phoneNumber: Option<string>,
    bestCallTime: Option<CallTime>,
    linkedInProfile: Option<string>,
    gitHubProfile: Option<string>,
    comment: string)

  /** `Map<CandidateDto>(candidate)`. */
  function ToDto(c: Candidate): (d: CandidateDto)
    ensures d.id == c.id
    ensures FromDto(d) == c
  {
    CandidateDto(c.id, c.firstName, c.lastName, c.email, c.phoneNumber,
                 c.bestCallTime, c.linkedInProfile, c.gitHubProfile, c.comment)
  }

  /** `Map<Candidate>(dto)` for a `CandidateDto`: the reverse map declared
      beside the forward one; no operation of the service uses it. */
  function FromDto(d: CandidateDto): Candidate {
    Candidate(d.id, d.firstName, d.lastName, d.email, d.phoneNumber,
              d.bestCallTime, d.linkedInProfile, d.gitHubProfile, d.comment)
  }

  /** `Map<Candidate>(createDto)`: a new entity whose key is still unset. */
  function FromCreateDto(dto: CandidateCreateDto): (c: Candidate)
    ensures c.id == 0
    ensures Overlay(CandidateUpdateDto(dto.firstName, dto.lastName, dto.email, dto.phoneNumber,
                                       dto.bestCallTime, dto.linkedInProfile, dto.gitHubProfile,
                                       dto.comment), NewCandidate()) == c
  {
    Candidate(0, dto.firstName, dto.lastName, dto.email, dto.phoneNumber,
              dto.bestCallTime, dto.linkedInProfile, dto.gitHubProfile, dto.comment)
  }

  /** `Map(updateDto, model)`: the update's fields copied onto the loaded
      entity; the key is not a field of the update and is kept. */
  function Overlay(dto: CandidateUpdateDto, c: Candidate): (r: Candidate)
    ensures r.id == c.id
    ensures r == FromDto(CandidateDto(c.id, dto.firstName, dto.lastName, dto.email, dto.phoneNumber,
                                      dto.bestCallTime, dto.linkedInProfile, dto.gitHubProfile,
                                      dto.comment))
  {
    c.(firstName := dto.firstName, lastName := dto.lastName, email := dto.email,
       phoneNumber := dto.phoneNumber, bestCallTime := dto.bestCallTime,
       linkedInProfile := dto.linkedInProfile, gitHubProfile := dto.gitHubProfile,
       comment := dto.comment)
  }

  /** The entity-to-DTO map and its reverse are inverse to each other. */
  lemma DtoRoundTrip(c: Candidate, d: CandidateDto)
    ensures FromDto(ToDto(c)) == c
    ensures ToDto(FromDto(d)) == d
  {
  }

  /** An overlay keeps the key, and what it produces does not depend on the
      fields it overwrote: overlaying twice is overlaying once. */
  lemma OverlayKeepsKey(dto: CandidateUpdateDto, c: Candidate)
    ensures Overlay(dto, c).id == c.id
    ensures Overlay(dto, Overlay(dto, c)) == Overlay(dto, c)
  {
  }
}
