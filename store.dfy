/** The `students` table as the handlers of server.js change it: one object
    whose single field is the table's contents, and one method per handler.
    Each method performs the handler's steps (validate, write, re-read) and is
    proved to leave the table and answer as the Records functions say. */
module StudentStore {
  import opened JsText
  import opened Validation
  import opened Records

  /** `x` placed into a newest-first list: after every row at least as new,
      before every older one. */
  function InsertNewestFirst(s: seq<Student>, x: Student): seq<Student> {
    if s == [] || s[0].createdAt < x.createdAt then [x] + s
    else [s[0]] + InsertNewestFirst(s[1..], x)
  }

  /** Insertion adds `x` and loses nothing. */
  lemma {:induction false} InsertAddsOne(s: seq<Student>, x: Student)
    ensures multiset(InsertNewestFirst(s, x)) == multiset(s) + multiset{x}
  {
    if s != [] && s[0].createdAt >= x.createdAt {
      InsertAddsOne(s[1..], x);
      assert s == [s[0]] + s[1..];
    }
  }

  /** Insertion introduces no row newer than a bound both inputs respect. */
  lemma {:induction false} InsertKeepsBound(s: seq<Student>, x: Student, bound: nat)
    requires forall i :: 0 <= i < |s| ==> s[i].createdAt <= bound
    requires x.createdAt <= bound
    ensures forall i :: 0 <= i < |InsertNewestFirst(s, x)| ==> InsertNewestFirst(s, x)[i].createdAt <= bound
  {
    InsertAddsOne(s, x);
    if s != [] && s[0].createdAt >= x.createdAt {
      InsertKeepsBound(s[1..], x, bound);
    }
  }

  /** Insertion keeps a list newest first. */
  lemma {:induction false} InsertKeepsOrder(s: seq<Student>, x: Student)
    requires NewestFirst(s)
    ensures NewestFirst(InsertNewestFirst(s, x))
  {
    if s != [] && s[0].createdAt >= x.createdAt {
      InsertKeepsOrder(s[1..], x);
      InsertKeepsBound(s[1..], x, s[0].createdAt);
    }
  }

  /** Inserting the row of one more key keeps a partial listing newest first. */
  lemma InsertListsOneMore(s: seq<Student>, t: Table, done: set<string>, k: string)
    requires KeyedById(t) && ListsKeys(s, t, done) && NewestFirst(s)
    requires k in t && k !in done
    ensures ListsKeys(InsertNewestFirst(s, t[k]), t, done + {k})
    ensures NewestFirst(InsertNewestFirst(s, t[k]))
  {
    InsertAddsOne(s, t[k]);
    InsertKeepsOrder(s, t[k]);
    ListsOneMore(s, InsertNewestFirst(s, t[k]), t, done, k);
  }

  /** Appending the row of one more key extends a partial listing. */
  lemma AppendListsOneMore(s: seq<Student>, t: Table, done: set<string>, k: string)
    requires KeyedById(t) && ListsKeys(s, t, done)
    requires k in t && k !in done
    ensures ListsKeys(s + [t[k]], t, done + {k})
  {
    assert multiset(s + [t[k]]) == multiset(s) + multiset{t[k]};
    ListsOneMore(s, s + [t[k]], t, done, k);
  }

  class StudentTable {
    var rows: Table

    ghost predicate Valid()
      reads this
    {
      KeyedById(rows)
    }

    /** The table as `CREATE TABLE IF NOT EXISTS` finds it at start-up. */
    constructor (existing: Table)
      requires KeyedById(existing)
      ensures Valid() && rows == existing
    {
      rows := existing;
    }

    /** The seeding part of `initializeDatabase`: count the rows, and insert
        the sample row when there are none. */
    method InitializeDatabase(now: nat)
      requires Valid()
      modifies this
      ensures Valid()
      ensures rows == Seed(old(rows), now)
    {
      var count := |rows|;
      if count == 0 {
        var sample := Sample(now);
        rows := rows[sample.id := sample];
      }
    }

    /** GET /api/students/:id */
    method GetStudent(id: string) returns (r: Reply)
      ensures r == Get(rows, id)
    {
      if id in rows {
        r := Found(rows[id]);
      } else {
        r := NotFound;
      }
    }

    /** POST /api/students */
    method CreateStudent(p: Payload, id: string, now: nat, isEmail: string -> bool) returns (r: Reply)
      requires Valid()
      modifies this
      ensures Valid()
      ensures Outcome(r, rows) == Create(old(rows), p, id, now, isEmail)
    {
      var verdict := Validate(p, isEmail);
      if verdict.Rejected? {
        return Invalid(verdict.errors);
      }
      if id in rows {
        // duplicate primary key: the INSERT fails
        return StoreFailure;
      }
      rows := rows[id := Student(id, verdict.fields, now)];
      var reread := GetStudent(id);
      r := Created(reread.student);
    }

    /** PUT /api/students/:id */
    method UpdateStudent(id: string, p: Payload, isEmail: string -> bool) returns (r: Reply)
      requires Valid()
      modifies this
      ensures Valid()
      ensures Outcome(r, rows) == Update(old(rows), id, p, isEmail)
    {
      var verdict := Validate(p, isEmail);
      if verdict.Rejected? {
        return Invalid(verdict.errors);
      }
      if id !in rows {
        // no row matched the UPDATE
        return NotFound;
      }
      rows := rows[id := rows[id].(fields := verdict.fields)];
      r := GetStudent(id);
    }

    /** DELETE /api/students/:id */
    method DeleteStudent(id: string) returns (r: Reply)
      requires Valid()
      modifies this
      ensures Valid()
      ensures Outcome(r, rows) == Delete(old(rows), id)
    {
      if id !in rows {
        return NotFound;
      }
      rows := rows - {id};
      r := Deleted;
    }

    /** GET /api/students: every row, newest first. The engine's ordering is
        modelled by inserting each row at its place; rows with equal
        timestamps come out in no particular order. */
    method ListStudents() returns (r: seq<Student>)
      requires Valid()
      ensures Enumerates(r, rows)
      ensures NewestFirst(r)
    {
      r := [];
      var remaining := rows.Keys;
      ghost var done: set<string> := {};
      while remaining != {}
        invariant remaining == rows.Keys - done
        invariant ListsKeys(r, rows, done)
        invariant NewestFirst(r)
        decreases remaining
      {
        var k :| k in remaining;
        InsertListsOneMore(r, rows, done, k);
        r := InsertNewestFirst(r, rows[k]);
        remaining := remaining - {k};
        done := done + {k};
      }
      ListsAllKeys(r, rows);
    }

    /** GET /api/export: every row, in no particular order. */
    method ExportStudents() returns (r: seq<Student>)
      requires Valid()
      ensures Enumerates(r, rows)
    {
      r := [];
      var remaining := rows.Keys;
      ghost var done: set<string> := {};
      while remaining != {}
        invariant remaining == rows.Keys - done
        invariant ListsKeys(r, rows, done)
        decreases remaining
      {
        var k :| k in remaining;
        AppendListsOneMore(r, rows, done, k);
        r := r + [rows[k]];
        remaining := remaining - {k};
        done := done + {k};
      }
      ListsAllKeys(r, rows);
    }
  }

  /** A name of two characters is rejected with the name error alone. */
  lemma ShortNameRejected(isEmail: string -> bool)
    ensures Validate(Payload(Str("Jo"), Missing, Missing, Missing, Missing, Missing), isEmail)
      == Rejected([NameError])
  {
    TrimOfTrimmed("Jo");
  }

  /** A payload with a valid name and email and no phone is accepted. */
  lemma EmailPayloadAccepted(isEmail: string -> bool)
    requires isEmail("x@example.com")
    ensures Validate(Payload(Str("John Doe"), Missing, Missing, Missing, Str("x@example.com"), Missing), isEmail).Accepted?
  {
    TrimOfTrimmed("John Doe");
  }

  /** A rename that leaves out every optional property is accepted. */
  lemma RenameAccepted(isEmail: string -> bool)
    ensures Validate(Payload(Str("John Q. Doe"), Missing, Missing, Missing, Missing, Missing), isEmail).Accepted?
  {
    TrimOfTrimmed("John Q. Doe");
  }

  /** A create that fails validation, a create, an update that omits the
      optional properties, and two deletes of the same row. */
  method CreateUpdateDeleteScenario(table: StudentTable, id: string, isEmail: string -> bool)
    requires table.Valid() && id !in table.rows
    requires isEmail("x@example.com")
    modifies table
  {
    var short := Payload(Str("Jo"), Missing, Missing, Missing, Missing, Missing);
    ShortNameRejected(isEmail);
    var bad := table.CreateStudent(short, id, 1, isEmail);
    assert bad == Invalid([NameError]) && id !in table.rows;

    var full := Payload(Str("John Doe"), Missing, Missing, Missing, Str("x@example.com"), Missing);
    EmailPayloadAccepted(isEmail);
    var created := table.CreateStudent(full, id, 2, isEmail);
    assert created.Created? && id in table.rows;

    var rename := Payload(Str("John Q. Doe"), Missing, Missing, Missing, Missing, Missing);
    RenameAccepted(isEmail);
    var updated := table.UpdateStudent(id, rename, isEmail);
    assert updated.Found? && updated.student.fields.address == "";

    var first := table.DeleteStudent(id);
    assert first == Deleted;
    var second := table.DeleteStudent(id);
    assert second == NotFound;
  }
}
