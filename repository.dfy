/** The generic repository over the `Candidates` table, specialised to the
    one entity that uses it. */
module Repositories {
  import opened Common
  import opened Entities

  const NullAddMessage := "Cannot add a null entity to the database"
  const NullUpdateMessage := "Cannot update a null entity"

  /** A filter expression; `None` is the null expression, which matches all. */
  type Filter = Option<Candidate -> bool>

  predicate Satisfies(expression: Filter, c: Candidate) {
    expression.None? || expression.value(c)
  }

  /** The primary key of every row is the key it is stored under; no row has
      the unset key 0; no key exceeds the table's AUTOINCREMENT sequence
      value `lastId`, which starts at 0 and never decreases. */
  ghost predicate TableInvariant(rows: map<Int64, Candidate>, lastId: Int64) {
    && 0 <= lastId
    && forall k :: k in rows ==> rows[k].id == k && k != 0 && k <= lastId
  }

  /** The key is the primary key: no two stored candidates share an id. */
  lemma IdsUnique(rows: map<Int64, Candidate>, lastId: Int64, j: Int64, k: Int64)
    requires TableInvariant(rows, lastId)
    requires j in rows && k in rows && rows[j].id == rows[k].id
    ensures j == k
  {
  }

  /** The outcome of inserting one row: the entity as stored, or the
      failure, together with the table and sequence value afterwards. */
  datatype Insertion = Insertion(result: Result<Candidate>, rows: map<Int64, Candidate>, lastId: Int64)

  /** An INSERT of `e`. An unset key (0) is generated as one more than the
      largest key ever used, which fails once that is the largest `long`;
      an explicit key is used as given and fails if a row already has it. */
  function Insert(rows: map<Int64, Candidate>, lastId: Int64, e: Candidate): (ins: Insertion)
    requires TableInvariant(rows, lastId)
    ensures TableInvariant(ins.rows, ins.lastId)
    ensures ins.result.Failure? <==> (e.id == 0 && lastId == MaxInt64) || (e.id != 0 && e.id in rows)
    ensures ins.result.Failure? ==> ins.rows == rows && ins.lastId == lastId
    ensures ins.result.Success? ==>
              var stored := ins.result.value;
              && stored.id !in rows
              && ins.rows == rows[stored.id := stored]
              && stored == e.(id := stored.id)
              && (e.id != 0 ==> stored.id == e.id)
              && (e.id != 0 ==> ins.lastId == if e.id > lastId then e.id else lastId)
              && (e.id == 0 ==> forall k :: k in rows ==> k < stored.id)
              && (e.id == 0 ==> stored.id == lastId + 1 && ins.lastId == stored.id)
              && lastId <= ins.lastId
  {
    if e.id == 0 then
      if lastId == MaxInt64 then Insertion(Failure(DbUpdateException(RowIdSpaceExhausted)), rows, lastId)
      else
        var stored := e.(id := lastId + 1);
        Insertion(Success(stored), rows[stored.id := stored], stored.id)
    else if e.id in rows then Insertion(Failure(DbUpdateException(PrimaryKeyTaken)), rows, lastId)
    else Insertion(Success(e), rows[e.id := e], if e.id > lastId then e.id else lastId)
  }

  class CandidateRepository {
    /** The table as the context tracks it. */
    var rows: map<Int64, Candidate>
    /** The table as last saved to the database. */
    var committed: map<Int64, Candidate>
    /** The table's entry in `sqlite_sequence`: the largest key ever used. */
    var lastId: Int64

    ghost predicate Valid()
      reads this
    {
      TableInvariant(rows, lastId)
    }

    /** A freshly migrated, empty table. */
    constructor ()
      ensures Valid()
      ensures rows == map[] && committed == map[] && lastId == 0
    {
      rows, committed, lastId := map[], map[], 0;
    }

    /** Every row the expression accepts (every row for a null expression). */
    function GetAll(expression: Filter): (r: set<Candidate>)
      reads this
      ensures forall c :: c in r <==> c in rows.Values && Satisfies(expression, c)
      ensures expression.None? ==> r == rows.Values
    {
      if expression.None? then rows.Values else set c | c in rows.Values && Satisfies(expression, c)
    }

    /** `FirstOrDefault` over `GetAll`: some accepted row, or null when there
      is none. The query has no ORDER BY, so which row is left open. */
    method GetAsync(expression: Filter) returns (r: Option<Candidate>)
      ensures r.None? <==> forall k :: k in rows ==> !Satisfies(expression, rows[k])
      ensures r.Some? ==> r.value in rows.Values && Satisfies(expression, r.value)
    {
      var query := GetAll(expression);
      if query == {} {
        r := None;
      } else {
        var c :| c in query;
        r := Some(c);
      }
    }

    /** Adds a row and saves it. */
    method CreateAsync(entity: Option<Candidate>) returns (r: Result<Candidate>)
      requires Valid()
      modifies this
      ensures Valid()
      ensures entity.None? ==> r == Failure(ArgumentNullException("entity", NullAddMessage)) && unchanged(this)
      ensures entity.Some? ==>
                var ins := Insert(old(rows), old(lastId), entity.value);
                && r == ins.result && rows == ins.rows && lastId == ins.lastId
                && committed == (if r.Success? then rows else old(committed))
      ensures r.Failure? ==> unchanged(this)
    {
      if entity.None? {
        return Failure(ArgumentNullException("entity", NullAddMessage));
      }
      var ins := Insert(rows, lastId, entity.value);
      r := ins.result;
      if r.Success? {
        rows, lastId := ins.rows, ins.lastId;
        SaveChangesAsync();
      }
    }

    /** Removes the row with key `id` and saves, or reports that there is none. */
    method DeleteAsync(id: Int64) returns (deleted: bool)
      requires Valid()
      modifies this
      ensures Valid()
      ensures deleted <==> id in old(rows)
      ensures rows == old(rows) - {id} && lastId == old(lastId)
      ensures committed == (if deleted then rows else old(committed))
    {
      var entity := GetAsync(Some((e: Candidate) => e.id == id));
      if entity.None? {
        assert id in rows ==> !Satisfies(Some((e: Candidate) => e.id == id), rows[id]);
        return false;
      }
      rows := rows - {entity.value.id};
      SaveChangesAsync();
      return true;
    }

    /** Writes the entity over the row with its key and saves. An entity whose
        key is unset (0) is inserted instead, as the context then tracks it as
        added; one whose key is in no row fails when saved, because the
        UPDATE affects no row. */
    method Update(entity: Option<Candidate>) returns (r: Result<Candidate>)
      requires Valid()
      modifies this
      ensures Valid()
      ensures entity.None? ==> r == Failure(ArgumentNullException("entity", NullUpdateMessage)) && unchanged(this)
      ensures entity.Some? && entity.value.id == 0 ==>
                var ins := Insert(old(rows), old(lastId), entity.value);
                && r == ins.result && rows == ins.rows && lastId == ins.lastId
                && committed == (if r.Success? then rows else old(committed))
      ensures entity.Some? && entity.value.id != 0 && entity.value.id in old(rows) ==>
                && r == Success(entity.value)
                && rows == old(rows)[entity.value.id := entity.value]
                && lastId == old(lastId) && committed == rows
      ensures entity.Some? && entity.value.id != 0 && entity.value.id !in old(rows) ==>
                r == Failure(DbUpdateException(RowMissing)) && unchanged(this)
    {
      if entity.None? {
        return Failure(ArgumentNullException("entity", NullUpdateMessage));
      }
      var e := entity.value;
      if e.id == 0 {
        var ins := Insert(rows, lastId, e);
        r := ins.result;
        if r.Success? {
          rows, lastId := ins.rows, ins.lastId;
          SaveChangesAsync();
        }
      } else if e.id in rows {
        rows := rows[e.id := e];
        SaveChangesAsync();
        r := Success(e);
      } else {
        r := Failure(DbUpdateException(RowMissing));
      }
    }

    /** Commits the tracked table; the tracked table itself does not change. */
    method SaveChangesAsync()
      modifies this
      ensures rows == old(rows) && lastId == old(lastId)
      ensures committed == rows
    {
      committed := rows;
    }
  }
}
