/** The one persisted entity of the system. */
module Entities {
  import opened Common

  /** A `DateTime`; the model never looks inside it. */
  datatype CallTime = CallTime(ticks: int)

  /** A row of the `Candidates` table. The three names, the e-mail address
      and the comment are never null; the other four columns are nullable. */
  datatype Candidate = Candidate(
    id: Int64,
    firstName: string,
    lastName: string,
    email: string,
    phoneNumber: Option<string>,
    bestCallTime: Option<CallTime>,
    linkedInProfile: Option<string>,
    gitHubProfile: Option<string>,
    comment: string)

  /** `new Candidate()`: every property at its initialiser, the key unset. */
  function NewCandidate(): (c: Candidate)
    ensures c.id == 0
    ensures c.firstName == "" && c.lastName == "" && c.email == "" && c.comment == ""
    ensures c.phoneNumber == None && c.bestCallTime == None
    ensures c.linkedInProfile == None && c.gitHubProfile == None
  {
    Candidate(0, "", "", "", None, None, None, None, "")
  }
}
