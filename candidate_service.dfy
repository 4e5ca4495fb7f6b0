/** The business rules over the repository: duplicate detection on create
    and not-found checks before read, update and delete. */
module Services {
  import opened Common
  import opened Entities
  import opened CaseFolding
  import opened Mapping
  import opened Repositories

  const CandidateNotFound: Exception := CustomException(404, "candidate_not_found")
  const CandidateAlreadyExist: Exception := CustomException(409, "candidate_already_exist")

  /** The duplicate test of a create: the stored first name and e-mail
      address, lowered by the database, equal the input's, lowered by .NET.
      The last name is not compared. */
  predicate SameNameAndEmail(c: Candidate, dto: CandidateCreateDto) {
    SqlLower(c.firstName) == NetLower(dto.firstName) && SqlLower(c.email) == NetLower(dto.email)
  }

  /** Some stored candidate makes a create of `dto` a duplicate. */
  ghost predicate Duplicate(rows: map<Int64, Candidate>, dto: CandidateCreateDto) {
    exists k :: k in rows && SameNameAndEmail(rows[k], dto)
  }

  /** For input without capitals that only .NET lowers, the test is a plain
      case-insensitive comparison of first name and e-mail address. */
  lemma SameNameAndEmailIgnoresCase(c: Candidate, dto: CandidateCreateDto)
    requires HasNoForeignCapital(dto.firstName) && HasNoForeignCapital(dto.email)
    ensures SameNameAndEmail(c, dto) <==>
              SqlLower(c.firstName) == SqlLower(dto.firstName) && SqlLower(c.email) == SqlLower(dto.email)
  {
    FoldsAgreeIff(dto.firstName);
    FoldsAgreeIff(dto.email);
  }

  /** Sending a stored candidate's first name and e-mail address again is a
      duplicate, whatever the other fields, exactly when neither of them
      holds a capital that only .NET lowers. */
  lemma ResubmissionIsDuplicate(rows: map<Int64, Candidate>, k: Int64, dto: CandidateCreateDto)
    requires k in rows
    requires dto.firstName == rows[k].firstName && dto.email == rows[k].email
    ensures HasNoForeignCapital(dto.firstName) && HasNoForeignCapital(dto.email) ==> Duplicate(rows, dto)
    ensures SameNameAndEmail(rows[k], dto) <==> HasNoForeignCapital(dto.firstName) && HasNoForeignCapital(dto.email)
  {
    FoldsAgreeIff(dto.firstName);
    FoldsAgreeIff(dto.email);
  }

  /** A table holding only a candidate whose first name starts with a
      Cyrillic capital takes the very same create again. */
  lemma CyrillicResubmissionNotDuplicate(dto: CandidateCreateDto)
    requires dto.firstName == "Алишер" && dto.email == "a@x.uz"
    ensures !Duplicate(map[1 := FromCreateDto(dto).(id := 1)], dto)
  {
    CapitalResubmissionMisses();
  }

  /** A stored lower-case name makes the capitalised create a duplicate. */
  lemma CapitalisedCreateIsDuplicate(dto: CandidateCreateDto)
    requires dto.firstName == "Алишер" && dto.email == "a@x.uz"
    ensures Duplicate(map[1 := FromCreateDto(dto).(id := 1, firstName := "алишер")], dto)
  {
    CapitalInputMatchesLowerStored();
    SqlLowerKeeps("a@x.uz");
    NetLowerKeeps("a@x.uz");
    var rows := map[1 := FromCreateDto(dto).(id := 1, firstName := "алишер")];
    assert SameNameAndEmail(rows[1], dto);
  }

  /** Rows whose key is their id hold pairwise different candidates, so
      mapping them gives one DTO per row. */
  lemma {:induction false} MappedRowsCount(rows: map<Int64, Candidate>)
    requires forall k :: k in rows ==> rows[k].id == k
    ensures |set c | c in rows.Values :: ToDto(c)| == |rows|
  {
    if rows != map[] {
      var k :| k in rows;
      var rest := rows - {k};
      MappedRowsCount(rest);
      forall v | v in rows.Values ensures v in rest.Values || v == rows[k] {
        var j :| j in rows && rows[j] == v;
        if j != k {
          assert rest[j] == v;
        }
      }
      assert rows.Values == rest.Values + {rows[k]};
      assert (set c | c in rows.Values :: ToDto(c)) == (set c | c in rest.Values :: ToDto(c)) + {ToDto(rows[k])};
      assert ToDto(rows[k]) !in (set c | c in rest.Values :: ToDto(c));
      assert |rows| == |rest| + 1;
    }
  }

  class CandidateService {
    const repository: CandidateRepository

    ghost predicate Valid()
      reads repository
    {
      repository.Valid()
    }

    constructor (repository: CandidateRepository)
      ensures this.repository == repository
    {
      this.repository := repository;
    }

    /** Rejects a duplicate with 409 before touching the table; otherwise
        inserts the mapped candidate under a generated key. */
    method CreateCandidateAsync(dto: CandidateCreateDto) returns (r: Result<CandidateDto>)
      requires Valid()
      modifies repository
      ensures Valid()
      ensures r == Failure(CandidateAlreadyExist) <==> Duplicate(old(repository.rows), dto)
      ensures Duplicate(old(repository.rows), dto) ==> unchanged(repository)
      ensures !Duplicate(old(repository.rows), dto) && old(repository.lastId) == MaxInt64 ==>
                r == Failure(DbUpdateException(RowIdSpaceExhausted)) && unchanged(repository)
      ensures !Duplicate(old(repository.rows), dto) && old(repository.lastId) < MaxInt64 ==>
                var created := FromCreateDto(dto).(id := old(repository.lastId) + 1);
                && r == Success(ToDto(created))
                && created.id !in old(repository.rows)
                && repository.rows == old(repository.rows)[created.id := created]
                && repository.lastId == created.id
                && repository.committed == repository.rows
      ensures r.Success? ==>
                (Duplicate(repository.rows, dto) <==> HasNoForeignCapital(dto.firstName) && HasNoForeignCapital(dto.email))
    {
      var existCandidate := repository.GetAsync(Some((c: Candidate) => SameNameAndEmail(c, dto)));
      if existCandidate.Some? {
        assert SameNameAndEmail(existCandidate.value, dto);
        return Failure(CandidateAlreadyExist);
      }
      var createdCandidate := repository.CreateAsync(Some(FromCreateDto(dto)));
      if createdCandidate.Failure? {
        return Failure(createdCandidate.error);
      }
      repository.SaveChangesAsync();
      r := Success(ToDto(createdCandidate.value));
      var id := createdCandidate.value.id;
      ResubmissionIsDuplicate(repository.rows, id, dto);
      forall k | k in repository.rows && k != id ensures !SameNameAndEmail(repository.rows[k], dto) {
        assert k in old(repository.rows) && repository.rows[k] == old(repository.rows)[k];
      }
    }

    /** Fails with 404 for a missing key, otherwise deletes the row; it
        never answers `false`. */
    method DeleteCandidateAsync(id: Int64) returns (r: Result<bool>)
      requires Valid()
      modifies repository
      ensures Valid()
      ensures r == Failure(CandidateNotFound) <==> id !in old(repository.rows)
      ensures id !in old(repository.rows) ==> unchanged(repository)
      ensures id in old(repository.rows) ==>
                && r == Success(true)
                && repository.rows == old(repository.rows) - {id}
                && repository.lastId == old(repository.lastId)
                && repository.committed == repository.rows
      ensures r != Success(false)
    {
      var model := repository.GetAsync(Some((c: Candidate) => c.id == id));
      if model.None? {
        assert id in repository.rows ==> !Satisfies(Some((c: Candidate) => c.id == id), repository.rows[id]);
        return Failure(CandidateNotFound);
      }
      var _ := repository.DeleteAsync(id);
      repository.SaveChangesAsync();
      return Success(true);
    }

    /** One DTO for every stored candidate. */
    method GetAllCandidatessAsync() returns (r: set<CandidateDto>)
      requires Valid()
      ensures forall k :: k in repository.rows ==> ToDto(repository.rows[k]) in r
      ensures forall d :: d in r ==> d.id in repository.rows && ToDto(repository.rows[d.id]) == d
      ensures |r| == |repository.rows|
    {
      var models := repository.GetAll(Some((x: Candidate) => true));
      assert models == repository.rows.Values;
      r := set c | c in models :: ToDto(c);
      MappedRowsCount(repository.rows);
    }

    /** The DTO of the candidate with key `id`, or 404. */
    method GetCandidatetAsync(id: Int64) returns (r: Result<CandidateDto>)
      requires Valid()
      ensures r.Success? <==> id in repository.rows
      ensures id in repository.rows ==> r == Success(ToDto(repository.rows[id]))
      ensures id !in repository.rows ==> r == Failure(CandidateNotFound)
    {
      var model := repository.GetAsync(Some((c: Candidate) => c.id == id));
      if model.None? {
        assert id in repository.rows ==> !Satisfies(Some((c: Candidate) => c.id == id), repository.rows[id]);
        return Failure(CandidateNotFound);
      }
      return Success(ToDto(model.value));
    }

    /** Fails with 404 for a missing key; otherwise overlays the update onto
        that candidate, keeping its key, and saves it. */
    method UpdateCandidateAsync(id: Int64, dto: CandidateUpdateDto) returns (r: Result<CandidateDto>)
      requires Valid()
      modifies repository
      ensures Valid()
      ensures r == Failure(CandidateNotFound) <==> id !in old(repository.rows)
      ensures id !in old(repository.rows) ==> unchanged(repository)
      ensures id in old(repository.rows) ==>
                var updated := Overlay(dto, old(repository.rows)[id]);
                && updated.id == id
                && r == Success(ToDto(updated))
                && repository.rows == old(repository.rows)[id := updated]
                && repository.lastId == old(repository.lastId)
                && repository.committed == repository.rows
    {
      var model := repository.GetAsync(Some((c: Candidate) => c.id == id));
      if model.None? {
        assert id in repository.rows ==> !Satisfies(Some((c: Candidate) => c.id == id), repository.rows[id]);
        return Failure(CandidateNotFound);
      }
      var mapped := Overlay(dto, model.value);
      var result := repository.Update(Some(mapped));
      repository.SaveChangesAsync();
      r := Success(ToDto(result.value));
    }
  }
}
