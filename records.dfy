/** What each handler of server.js does to the `students` table, stated on
    the table's contents: a map from primary key to row. The class in
    StudentStore performs these steps in place; the functions here are their
    specification. */
module Records {
  import opened JsText
  import opened Validation

  /** A row of `students`: the key, the six mutable columns and `created_at`. */
  datatype Student = Student(id: string, fields: Fields, createdAt: nat)

  type Table = map<string, Student>

  /** The primary key of every row is the row's own `id`. */
  predicate KeyedById(t: Table) {
    forall k :: k in t ==> t[k].id == k
  }

  /** Every row satisfies what validation guarantees about stored columns. */
  ghost predicate Consistent(t: Table, isEmail: string -> bool) {
    && KeyedById(t)
    && forall k :: k in t ==> WellFormedFields(t[k].fields, isEmail)
  }

  /** What a handler answers, before it becomes an HTTP status and a JSON body. */
  datatype Reply =
    | Created(student: Student)           // the row re-read after the INSERT
    | Found(student: Student)             // a row read or re-read after the UPDATE
    | Deleted                             // { success: true }
    | Invalid(errors: seq<FieldError>)    // { errors: [...] }
    | NotFound                            // { error: 'Not found' }
    | StoreFailure                        // the query failed: { error: 'DB insert error' }

  /** The HTTP status each handler sends with the reply. */
  function StatusCode(r: Reply): nat {
    match r
    case Created(_) => 201
    case Found(_) => 200
    case Deleted => 200
    case Invalid(_) => 422
    case NotFound => 404
    case StoreFailure => 500
  }

  /** A handler's reply together with the table it leaves behind. */
  datatype Outcome = Outcome(reply: Reply, table: Table)

  /** `SELECT * FROM students WHERE id = ?`, 404 on no row. */
  function Get(t: Table, id: string): (r: Reply)
    ensures r.Found? <==> id in t
    ensures r.Found? ==> r.student == t[id]
    ensures r.Found? || r == NotFound
  {
    if id in t then Found(t[id]) else NotFound
  }

  /** POST /api/students. `id` is the freshly generated UUID and `now` the
      insertion timestamp. Validation runs first; a key that already exists
      makes the INSERT fail, which the handler reports as a 500. */
  function Create(t: Table, p: Payload, id: string, now: nat, isEmail: string -> bool): Outcome {
    match Validate(p, isEmail)
    case Rejected(errors) => Outcome(Invalid(errors), t)
    case Accepted(fields) =>
      if id in t then Outcome(StoreFailure, t)
      else
        var row := Student(id, fields, now);
        Outcome(Created(row), t[id := row])
  }

  /** A rejected payload is answered with its errors and writes nothing; an
      accepted one under a new key is stored with the normalised columns and
      can be read back; no other row changes. */
  lemma CreateSpec(t: Table, p: Payload, id: string, now: nat, isEmail: string -> bool)
    ensures var o := Create(t, p, id, now, isEmail);
      && (o.reply.Invalid? <==> Validate(p, isEmail).Rejected?)
      && (o.reply.Invalid? ==> o.reply.errors == Validate(p, isEmail).errors)
      && (o.reply.Created? <==> Validate(p, isEmail).Accepted? && id !in t)
      && (o.reply.Created? || o.reply.Invalid? || o.reply == StoreFailure)
      && (o.reply.Created? ==>
        && o.reply.student == Student(id, Normalize(p), now)
        && Get(o.table, id) == Found(o.reply.student)
        && o.table.Keys == t.Keys + {id})
      && (!o.reply.Created? ==> o.table == t)
      && (forall k :: k in t ==> k in o.table && o.table[k] == t[k])
    ensures StatusCode(Create(t, p, id, now, isEmail).reply)
      == if Validate(p, isEmail).Rejected? then 422 else if id in t then 500 else 201
  {
  }

  /** PUT /api/students/:id. Validation runs first; then all six columns are
      overwritten, an omitted property becoming ''. No matched row is a 404. */
  function Update(t: Table, id: string, p: Payload, isEmail: string -> bool): Outcome {
    match Validate(p, isEmail)
    case Rejected(errors) => Outcome(Invalid(errors), t)
    case Accepted(fields) =>
      if id !in t then Outcome(NotFound, t)
      else
        var row := t[id].(fields := fields);
        Outcome(Found(row), t[id := row])
  }

  /** A rejected payload or a missing row leaves the table alone; otherwise
      the row keeps its key and timestamp, takes the normalised columns and
      reads back as answered, and no other row changes. */
  lemma UpdateSpec(t: Table, id: string, p: Payload, isEmail: string -> bool)
    ensures var o := Update(t, id, p, isEmail);
      && (o.reply.Invalid? <==> Validate(p, isEmail).Rejected?)
      && (o.reply.Invalid? ==> o.reply.errors == Validate(p, isEmail).errors)
      && (o.reply == NotFound <==> Validate(p, isEmail).Accepted? && id !in t)
      && (o.reply.Found? <==> Validate(p, isEmail).Accepted? && id in t)
      && (o.reply.Found? || o.reply.Invalid? || o.reply == NotFound)
      && (o.reply.Found? ==>
        && o.reply.student.id == t[id].id
        && o.reply.student.createdAt == t[id].createdAt
        && o.reply.student.fields == Normalize(p)
        && Get(o.table, id) == o.reply)
      && o.table.Keys == t.Keys
      && (forall k :: k in t && k != id ==> o.table[k] == t[k])
      && (!o.reply.Found? ==> o.table == t)
    ensures StatusCode(Update(t, id, p, isEmail).reply)
      == if Validate(p, isEmail).Rejected? then 422 else if id in t then 200 else 404
  {
  }

  /** A PUT carrying a stored row's own well-formed columns answers with the
      row and leaves the table as it was. */
  lemma UpdateUnchanged(t: Table, row: Student, isEmail: string -> bool)
    requires KeyedById(t) && row.id in t && t[row.id] == row
    requires WellFormedFields(row.fields, isEmail)
    ensures Update(t, row.id, AsPayload(row.fields), isEmail) == Outcome(Found(row), t)
  {
    WellFormedIsAccepted(row.fields, isEmail);
    assert t[row.id := row] == t;
  }

  /** DELETE /api/students/:id: success when a row was removed, 404 otherwise. */
  function Delete(t: Table, id: string): Outcome {
    if id in t then Outcome(Deleted, t - {id}) else Outcome(NotFound, t)
  }

  /** Exactly the row under `id` goes, and success is reported exactly when
      there was one. */
  lemma DeleteSpec(t: Table, id: string)
    ensures var o := Delete(t, id);
      && (o.reply == Deleted <==> id in t)
      && (o.reply == Deleted || o.reply == NotFound)
      && o.table.Keys == t.Keys - {id}
      && (forall k :: k in o.table ==> o.table[k] == t[k])
    ensures StatusCode(Delete(t, id).reply) == if id in t then 200 else 404
  {
  }

  const SampleId := "11111111-1111-1111-1111-111111111111"

  /** The fixed row the start-up step inserts. */
  function Sample(now: nat): Student {
    Student(SampleId,
      Fields("John Doe", "Example Address", "Example City", "Example State",
             "example@example.com", "9009009009"),
      now)
  }

  /** The start-up step: the sample row goes in only when the table is empty. */
  function Seed(t: Table, now: nat): (r: Table)
    ensures |t| == 0 ==> r.Keys == {SampleId} && r[SampleId] == Sample(now)
    ensures |t| != 0 ==> r == t
  {
    if |t| == 0 then map[SampleId := Sample(now)] else t
  }

  /** `s` lists the rows of `t`: each row exactly once and nothing else. */
  ghost predicate Enumerates(s: seq<Student>, t: Table) {
    && |s| == |t|
    && (forall y :: y in s ==> y.id in t && t[y.id] == y)
    && (forall k :: k in t ==> multiset(s)[t[k]] == 1)
  }

  /** `s` lists exactly the rows of `t` whose keys are in `done`, each once. */
  ghost predicate ListsKeys(s: seq<Student>, t: Table, done: set<string>) {
    && done <= t.Keys
    && |s| == |done|
    && (forall y :: y in s ==> y.id in done && t[y.id] == y)
    && (forall k :: k in done ==> multiset(s)[t[k]] == 1)
  }

  /** Adding the row of one more key to a partial listing. */
  lemma ListsOneMore(s: seq<Student>, s': seq<Student>, t: Table, done: set<string>, k: string)
    requires KeyedById(t) && ListsKeys(s, t, done)
    requires k in t && k !in done
    requires multiset(s') == multiset(s) + multiset{t[k]}
    ensures ListsKeys(s', t, done + {k})
  {
    assert multiset(s)[t[k]] == 0;
    forall y | y in s' ensures y.id in done + {k} && t[y.id] == y {
      assert y in multiset(s');
    }
    forall j | j in done + {k} ensures multiset(s')[t[j]] == 1 {
      if j != k {
        assert t[j] != t[k];
      }
    }
  }

  /** A listing of every key enumerates the table. */
  lemma ListsAllKeys(s: seq<Student>, t: Table)
    requires ListsKeys(s, t, t.Keys)
    ensures Enumerates(s, t)
  {
    assert |t| == |t.Keys|;
  }

  /** `ORDER BY created_at DESC`: no row is older than a later one. */
  ghost predicate NewestFirst(s: seq<Student>) {
    forall i, j :: 0 <= i < j < |s| ==> s[i].createdAt >= s[j].createdAt
  }

  /** Validated writes keep every stored row well formed. */
  lemma CreatePreservesConsistency(t: Table, p: Payload, id: string, now: nat, isEmail: string -> bool)
    requires Consistent(t, isEmail)
    ensures Consistent(Create(t, p, id, now, isEmail).table, isEmail)
  {
    CreateSpec(t, p, id, now, isEmail);
    if Validate(p, isEmail).Accepted? {
      AcceptedIsWellFormed(p, isEmail);
    }
  }

  lemma UpdatePreservesConsistency(t: Table, id: string, p: Payload, isEmail: string -> bool)
    requires Consistent(t, isEmail)
    ensures Consistent(Update(t, id, p, isEmail).table, isEmail)
  {
    var o := Update(t, id, p, isEmail);
    if o.reply.Found? {
      AcceptedIsWellFormed(p, isEmail);
      var row := o.reply.student;
      assert WellFormedFields(row.fields, isEmail);
      forall k | k in o.table
        ensures o.table[k].id == k && WellFormedFields(o.table[k].fields, isEmail)
      {
        if k == id {
          assert o.table[k] == row;
        } else {
          assert o.table[k] == t[k];
        }
      }
    }
  }

  lemma DeletePreservesConsistency(t: Table, id: string, isEmail: string -> bool)
    requires Consistent(t, isEmail)
    ensures Consistent(Delete(t, id).table, isEmail)
  {
  }

  /** The sample row bypasses the validator but satisfies it, provided the
      email check accepts its address. */
  lemma SeedPreservesConsistency(t: Table, now: nat, isEmail: string -> bool)
    requires Consistent(t, isEmail)
    requires isEmail("example@example.com")
    ensures Consistent(Seed(t, now), isEmail)
  {
    var f := Sample(now).fields;
    assert Unpadded(f.name);
    TrimOfTrimmed(f.name);
    assert PhonePattern(f.phone);
  }

  /** Running the start-up step again changes nothing. */
  lemma SeedIdempotent(t: Table, first: nat, later: nat)
    ensures Seed(Seed(t, first), later) == Seed(t, first)
  {
  }

  /** A create is visible to a following get, with every column as created. */
  lemma CreateThenGet(t: Table, p: Payload, id: string, now: nat, isEmail: string -> bool)
    requires Validate(p, isEmail).Accepted? && id !in t
    ensures Get(Create(t, p, id, now, isEmail).table, id) == Found(Student(id, Normalize(p), now))
  {
  }

  /** Deleting twice: the first succeeds, the second finds nothing. */
  lemma DeleteTwice(t: Table, id: string)
    requires id in t
    ensures Delete(t, id).reply == Deleted
    ensures Delete(Delete(t, id).table, id).reply == NotFound
  {
  }

  /** Update replaces the whole row: a property left out of the payload clears
      the column, whatever it held before. */
  lemma UpdateClearsOmitted(t: Table, id: string, p: Payload, isEmail: string -> bool)
    requires id in t && Validate(p, isEmail).Accepted?
    requires p.address == Missing
    ensures Update(t, id, p, isEmail).table[id].fields.address == ""
  {
  }
}
