/** A client of the whole API, walking one candidate through its life: what
    callers can conclude from the contracts alone. */
module Scenario {
  import opened Common
  import opened CaseFolding
  import opened Entities
  import opened Mapping
  import opened Repositories
  import opened Services
  import opened Controllers
  import opened Http
  import opened ExceptionHandling

  /** A create, then a second create with the same first name and e-mail
      address in other letter case and under another last name. */
  method CreateTwice() returns (controller: CandidateController, ana: Candidate)
    ensures fresh(controller.service.repository) && controller.Valid()
    ensures controller.service.repository.rows == map[1 := ana]
    ensures ana.firstName == "Ana" && ana.lastName == "Li"
  {
    var repository := new CandidateRepository();
    var service := new CandidateService(repository);
    controller := new CandidateController(service);

    var first := CandidateCreateDto("Ana", "Li", "ana@x.io", None, None, None, None, "");
    var created := controller.AddCandidateAsync(first);
    ana := FromCreateDto(first).(id := 1);
    assert created == Success(Ok(ToDto(ana)));
    assert repository.rows == map[1 := ana];

    var second := CandidateCreateDto("ANA", "Other", "Ana@X.IO", None, None, None, None, "");
    OtherCaseMatches(ana, second);
    assert SameNameAndEmail(repository.rows[1], second);
    var again := controller.AddCandidateAsync(second);
    assert again == Failure(CandidateAlreadyExist);
  }

  /** The second create's first name and e-mail address differ from the
      stored ones only in letter case. */
  lemma OtherCaseMatches(ana: Candidate, second: CandidateCreateDto)
    requires ana.firstName == "Ana" && ana.email == "ana@x.io"
    requires second.firstName == "ANA" && second.email == "Ana@X.IO"
    ensures SameNameAndEmail(ana, second)
  {
    NameFolds();
    EmailFolds();
  }

  lemma NameFolds()
    ensures SqlLower("Ana") == "ana" == NetLower("ANA")
  {
  }

  lemma EmailFolds()
    ensures SqlLower("ana@x.io") == "ana@x.io" == NetLower("Ana@X.IO")
  {
  }

  /** An update of the last name, a delete, and then a read and a delete of
      keys that are not there. */
  method UpdateAndDelete(controller: CandidateController, ana: Candidate)
    requires controller.Valid()
    requires controller.service.repository.rows == map[1 := ana]
    modifies controller.service.repository
  {
    var repository := controller.service.repository;
    var updated := controller.UpdateCandidateAsync(1, CandidateUpdateDto(ana.firstName, "Lee", ana.email, None, None, None, None, ""));
    assert updated.Ok? && updated.value.id == 1 && updated.value.lastName == "Lee" && updated.value.firstName == ana.firstName;
    assert 1 in repository.rows;

    var removed := controller.RemoveCandidateAsync(1);
    assert removed == Success(NoContent);
    assert repository.rows == map[];

    var fetched := controller.GetCandidate(1);
    assert fetched == Failure(CandidateNotFound);

    var missing := controller.RemoveCandidateAsync(999);
    assert missing == Failure(CandidateNotFound);

    // The exception the delete action lets through, at the outer boundary.
    var response := new HttpResponse();
    Invoke(response, Threw(missing.error));
    assert response.statusCode == 404;
    assert response.body == [ErrorJson(404, "candidate_not_found")];
  }

  method CandidateLifecycle() {
    var controller, ana := CreateTwice();
    UpdateAndDelete(controller, ana);
  }
}
