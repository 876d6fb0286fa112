/** The client's form and bulk import. Submitting the modal trims every input
    and sends a PUT when the hidden id is set, a POST otherwise. Importing a
    file maps each array element to a create payload and posts the elements
    one after another; a null element aborts the remaining ones. */
module Client {
  import opened JsText
  import opened Validation
  import opened Records
  import opened StudentStore

  /** The modal's inputs: the hidden `student-id` and the six text fields. */
  datatype Form = Form(
    studentId: string, name: string, address: string, city: string,
    state: string, email: string, phone: string)

  /** `showModal('add')`: every input empty. */
  const BlankForm := Form("", "", "", "", "", "", "")

  /** A line feed or a carriage return. */
  predicate IsLineBreak(c: char) {
    c == '\n' || c == '\r'
  }

  /** A value a single-line input can hold unchanged. */
  predicate SingleLine(s: string) {
    forall i :: 0 <= i < |s| ==> !IsLineBreak(s[i])
  }

  /** Assigning to the `value` of a single-line input: the browser's value
      sanitisation removes every line feed and carriage return. */
  function StripLineBreaks(s: string): (r: string)
    ensures |r| <= |s|
  {
    if s == [] then []
    else (if IsLineBreak(s[0]) then [] else [s[0]]) + StripLineBreaks(s[1..])
  }

  /** The stripped value holds no line break, and it is the value itself
      exactly when the value held none. */
  lemma {:induction false} StripLineBreaksSpec(s: string)
    ensures SingleLine(StripLineBreaks(s))
    ensures StripLineBreaks(s) == s <==> SingleLine(s)
  {
    if s != [] {
      StripLineBreaksSpec(s[1..]);
      var t := StripLineBreaks(s[1..]);
      var r := StripLineBreaks(s);
      if IsLineBreak(s[0]) {
        assert r == t && |r| < |s|;
      } else {
        assert r == [s[0]] + t;
        forall i | 0 <= i < |r|
          ensures !IsLineBreak(r[i])
        {
          if i > 0 {
            assert r[i] == t[i - 1];
          }
        }
        if SingleLine(s) {
          forall i | 0 <= i < |s[1..]|
            ensures !IsLineBreak(s[1..][i])
          {
            assert s[1..][i] == s[i + 1];
          }
          assert s == [s[0]] + s[1..];
        }
        if r == s {
          assert t == s[1..];
        }
      }
    }
  }

  /** `showModal('edit', stud)`: the hidden id holds the row's key as is;
      each of the six text inputs holds its column with the line breaks
      removed. */
  function EditForm(row: Student): Form {
    Form(row.id, StripLineBreaks(row.fields.name), StripLineBreaks(row.fields.address),
         StripLineBreaks(row.fields.city), StripLineBreaks(row.fields.state),
         StripLineBreaks(row.fields.email), StripLineBreaks(row.fields.phone))
  }

  /** The edit form shows a column unchanged exactly when the column has no
      line break; what it shows never has one. */
  lemma EditFormDropsLineBreaks(row: Student)
    ensures var f := EditForm(row);
      && f.studentId == row.id
      && (f.name == row.fields.name <==> SingleLine(row.fields.name))
      && (f.address == row.fields.address <==> SingleLine(row.fields.address))
      && (f.city == row.fields.city <==> SingleLine(row.fields.city))
      && (f.state == row.fields.state <==> SingleLine(row.fields.state))
      && (f.email == row.fields.email <==> SingleLine(row.fields.email))
      && (f.phone == row.fields.phone <==> SingleLine(row.fields.phone))
      && SingleLine(f.name) && SingleLine(f.address) && SingleLine(f.city)
      && SingleLine(f.state) && SingleLine(f.email) && SingleLine(f.phone)
  {
    StripLineBreaksSpec(row.fields.name);
    StripLineBreaksSpec(row.fields.address);
    StripLineBreaksSpec(row.fields.city);
    StripLineBreaksSpec(row.fields.state);
    StripLineBreaksSpec(row.fields.email);
    StripLineBreaksSpec(row.fields.phone);
  }

  /** The request body built on submit: every input trimmed. */
  function SubmitPayload(f: Form): Payload {
    Payload(Str(Trim(f.name)), Str(Trim(f.address)), Str(Trim(f.city)),
            Str(Trim(f.state)), Str(Trim(f.email)), Str(Trim(f.phone)))
  }

  /** The two requests a submit can send. */
  datatype Request = Post(body: Payload) | Put(id: string, body: Payload)

  /** A set id selects `PUT /api/students/:id`, an empty one `POST /api/students`. */
  function Submit(f: Form): Request {
    if f.studentId != "" then Put(f.studentId, SubmitPayload(f)) else Post(SubmitPayload(f))
  }

  /** The server's reading of a submitted request. */
  function Serve(t: Table, r: Request, id: string, now: nat, isEmail: string -> bool): Outcome {
    match r
    case Post(p) => Create(t, p, id, now, isEmail)
    case Put(key, p) => Update(t, key, p, isEmail)
  }

  /** Every property of a submitted body is present and has no whitespace at
      either end, so the server's own trim of the name changes nothing. */
  lemma SubmitIsTrimmed(f: Form)
    ensures var p := SubmitPayload(f);
      && p.name.Str? && p.address.Str? && p.city.Str? && p.state.Str? && p.email.Str? && p.phone.Str?
      && Trim(p.name.value) == p.name.value && Trim(p.address.value) == p.address.value
      && Trim(p.city.value) == p.city.value && Trim(p.state.value) == p.state.value
      && Trim(p.email.value) == p.email.value && Trim(p.phone.value) == p.phone.value
      && SanitizedName(p) == p.name.value
  {
    TrimIdempotent(f.name);
    TrimIdempotent(f.address);
    TrimIdempotent(f.city);
    TrimIdempotent(f.state);
    TrimIdempotent(f.email);
    TrimIdempotent(f.phone);
  }

  /** The add form posts; a form opened on a row puts to that row's id. */
  lemma SubmitTargets(row: Student)
    requires row.id != ""
    ensures Submit(BlankForm).Post?
    ensures Submit(EditForm(row)).Put? && Submit(EditForm(row)).id == row.id
  {
  }

  /** A column with no line break and no whitespace at either end. */
  predicate UnpaddedLine(s: string) {
    SingleLine(s) && Unpadded(s)
  }

  /** An unpadded column shown in a text input and trimmed on submit comes
      back as it was. */
  lemma ColumnRoundTrip(s: string)
    requires UnpaddedLine(s)
    ensures Trim(StripLineBreaks(s)) == s
  {
    StripLineBreaksSpec(s);
    TrimOfTrimmed(s);
  }

  /** Submitting an untouched edit form of a row with unpadded columns sends
      those columns back unchanged. */
  lemma ResubmitPayload(row: Student)
    requires UnpaddedLine(row.fields.name) && UnpaddedLine(row.fields.address) && UnpaddedLine(row.fields.city)
    requires UnpaddedLine(row.fields.state) && UnpaddedLine(row.fields.email) && UnpaddedLine(row.fields.phone)
    ensures Submit(EditForm(row)) == (if row.id != "" then Put(row.id, AsPayload(row.fields)) else Post(AsPayload(row.fields)))
  {
    ColumnRoundTrip(row.fields.name);
    ColumnRoundTrip(row.fields.address);
    ColumnRoundTrip(row.fields.city);
    ColumnRoundTrip(row.fields.state);
    ColumnRoundTrip(row.fields.email);
    ColumnRoundTrip(row.fields.phone);
  }

  /** Saving an edit form without touching it leaves the table as it was,
      provided the row is well formed and every column is unpadded (a padded
      column would come back trimmed, one with a line break without it). */
  lemma ResubmitUnchanged(t: Table, row: Student, isEmail: string -> bool, id: string, now: nat)
    requires KeyedById(t) && row.id in t && t[row.id] == row && row.id != ""
    requires WellFormedFields(row.fields, isEmail)
    requires UnpaddedLine(row.fields.name) && UnpaddedLine(row.fields.address) && UnpaddedLine(row.fields.city)
    requires UnpaddedLine(row.fields.state) && UnpaddedLine(row.fields.email) && UnpaddedLine(row.fields.phone)
    ensures Serve(t, Submit(EditForm(row)), id, now, isEmail) == Outcome(Found(row), t)
  {
    var body := AsPayload(row.fields);
    assert Submit(EditForm(row)) == Put(row.id, body) by {
      ResubmitPayload(row);
    }
    assert Serve(t, Put(row.id, body), id, now, isEmail) == Outcome(Found(row), t) by {
      UpdateUnchanged(t, row, isEmail);
    }
  }

  /** An element of the uploaded array: `null`/`undefined`, or an object
      whose properties are read (a missing one reads as `undefined`). */
  datatype ImportItem = ImportItem(
    name: MaybeString, fullName: MaybeString, address: MaybeString, city: MaybeString,
    state: MaybeString, email: MaybeString, phone: MaybeString)

  datatype Entry = Null | Object(item: ImportItem)

  /** The body posted for one element. */
  function ImportPayload(s: ImportItem): Payload {
    Payload(Str(Or(s.name, Or(s.fullName, "Unknown"))),
            Str(Or(s.address, "")), Str(Or(s.city, "")), Str(Or(s.state, "")),
            Str(Or(s.email, "")), Str(Or(s.phone, "")))
  }

  /** The name posted is the element's `name` when truthy, else its
      `fullName` when truthy, else "Unknown"; every other property is the
      element's when truthy and '' otherwise. */
  lemma ImportMapping(s: ImportItem)
    ensures var p := ImportPayload(s);
      && Truthy(p.name)
      && (Truthy(s.name) ==> p.name == s.name)
      && (!Truthy(s.name) && Truthy(s.fullName) ==> p.name == s.fullName)
      && (!Truthy(s.name) && !Truthy(s.fullName) ==> p.name == Str("Unknown"))
      && (if Truthy(s.address) then p.address == s.address else p.address == Str(""))
      && (if Truthy(s.city) then p.city == s.city else p.city == Str(""))
      && (if Truthy(s.state) then p.state == s.state else p.state == Str(""))
      && (if Truthy(s.email) then p.email == s.email else p.email == Str(""))
      && (if Truthy(s.phone) then p.phone == s.phone else p.phone == Str(""))
  {
  }

  /** An element without email and phone is accepted exactly when its
      name, or failing that its full name, trims to three characters;
      an element with neither posts "Unknown", which is accepted. */
  lemma ImportNameDecides(s: ImportItem, isEmail: string -> bool)
    requires !Truthy(s.email) && !Truthy(s.phone)
    ensures Validate(ImportPayload(s), isEmail).Accepted? <==>
      |Trim(Or(s.name, Or(s.fullName, "Unknown")))| >= NameMinLength
    ensures !Truthy(s.name) && !Truthy(s.fullName) ==> Validate(ImportPayload(s), isEmail).Accepted?
  {
    var p := ImportPayload(s);
    var name := Or(s.name, Or(s.fullName, "Unknown"));
    assert p.name == Str(name) && !Truthy(p.email) && !Truthy(p.phone);
    NameAloneDecides(p, isEmail);
    assert SanitizedName(p) == Trim(name);
    if !Truthy(s.name) && !Truthy(s.fullName) {
      assert name == "Unknown";
      TrimOfTrimmed("Unknown");
    }
  }

  /** How the server answers one POST of the import: from the table, the
      body, and the key and timestamp it assigns, the reply and the table it
      leaves. The client reaches the server only through `fetch`. */
  type Server = (Table, Payload, string, nat) -> Outcome

  /** The server of server.js: its create handler. */
  function CreateServer(isEmail: string -> bool): Server {
    (t: Table, p: Payload, id: string, now: nat) => Create(t, p, id, now, isEmail)
  }

  /** What an import leaves: the reply to each request sent, the table, and
      whether the loop ran to the end. */
  datatype ImportResult = ImportResult(replies: seq<Reply>, table: Table, completed: bool)

  /** Replies already collected, put in front of a later result. */
  function After(replies: seq<Reply>, r: ImportResult): ImportResult {
    ImportResult(replies + r.replies, r.table, r.completed)
  }

  /** The import loop, one POST per element in array order. `ids[i]` and
      `times[i]` are the key and timestamp the server assigns to the i-th
      request. Reading a property of a null element throws, which ends the
      loop; a rejected element does not. */
  function ImportRun(post: Server, t: Table, entries: seq<Entry>, ids: seq<string>, times: seq<nat>): ImportResult
    requires |ids| == |entries| && |times| == |entries|
    decreases |entries|
  {
    if entries == [] then ImportResult([], t, true)
    else match entries[0]
      case Null => ImportResult([], t, false)
      case Object(item) =>
        var o := post(t, ImportPayload(item), ids[0], times[0]);
        After([o.reply], ImportRun(post, o.table, entries[1..], ids[1..], times[1..]))
  }

  /** No element before position `n` is null. */
  predicate NoNullBefore(entries: seq<Entry>, n: int) {
    forall i :: 0 <= i < n && i < |entries| ==> entries[i].Object?
  }

  /** One reply per element before the first null; the loop completes
      exactly when there is no null. */
  lemma {:induction false} ImportRunLength(post: Server, t: Table, entries: seq<Entry>, ids: seq<string>,
                                           times: seq<nat>)
    requires |ids| == |entries| && |times| == |entries|
    decreases |entries|
    ensures var r := ImportRun(post, t, entries, ids, times);
      && |r.replies| <= |entries|
      && NoNullBefore(entries, |r.replies|)
      && (r.completed <==> |r.replies| == |entries|)
      && (!r.completed ==> entries[|r.replies|] == Null)
  {
    if entries != [] && entries[0].Object? {
      var o := post(t, ImportPayload(entries[0].item), ids[0], times[0]);
      var rest := ImportRun(post, o.table, entries[1..], ids[1..], times[1..]);
      ImportRunLength(post, o.table, entries[1..], ids[1..], times[1..]);
      var r := ImportRun(post, t, entries, ids, times);
      assert r == After([o.reply], rest);
      forall i | 0 < i < |r.replies| && i < |entries| ensures entries[i].Object? {
        assert entries[i] == entries[1..][i - 1];
      }
      if !r.completed {
        assert entries[|r.replies|] == entries[1..][|rest.replies|];
      }
    }
  }

  /** A server that never changes a row already stored. */
  ghost predicate KeepsRows(post: Server) {
    forall t: Table, p: Payload, id: string, now: nat, k: string :: k in t ==>
      k in post(t, p, id, now).table && post(t, p, id, now).table[k] == t[k]
  }

  /** The create handler never changes a row already stored. */
  lemma CreateKeepsRows(isEmail: string -> bool)
    ensures KeepsRows(CreateServer(isEmail))
  {
    forall t: Table, p: Payload, id: string, now: nat {
      CreateSpec(t, p, id, now, isEmail);
    }
  }

  /** Rows already in the table are never changed by an import to a server
      that keeps them, as the create handler does. */
  lemma {:induction false} ImportKeepsExisting(post: Server, t: Table, entries: seq<Entry>, ids: seq<string>,
                                              times: seq<nat>)
    requires |ids| == |entries| && |times| == |entries|
    requires KeepsRows(post)
    decreases |entries|
    ensures forall k :: k in t ==>
      k in ImportRun(post, t, entries, ids, times).table && ImportRun(post, t, entries, ids, times).table[k] == t[k]
  {
    if entries != [] && entries[0].Object? {
      var o := post(t, ImportPayload(entries[0].item), ids[0], times[0]);
      ImportKeepsExisting(post, o.table, entries[1..], ids[1..], times[1..]);
    }
  }

  /** Pairwise distinct keys none of which is in the table. */
  predicate FreshIds(t: Table, ids: seq<string>) {
    && (forall i :: 0 <= i < |ids| ==> ids[i] !in t)
    && (forall i, j :: 0 <= i < j < |ids| ==> ids[i] != ids[j])
  }

  /** A server that, given a key not yet stored, creates the row exactly when
      the body validates, answers with the validation errors otherwise, and
      adds no key but that one. */
  ghost predicate CreatesOnFreshKey(post: Server, isEmail: string -> bool) {
    forall t: Table, p: Payload, id: string, now: nat :: id !in t ==>
      var o := post(t, p, id, now);
      var v := Validate(p, isEmail);
      && o.table.Keys <= t.Keys + {id}
      && (o.reply.Created? <==> v.Accepted?)
      && (o.reply.Created? ==> o.reply.student == Student(id, v.fields, now))
      && (v.Rejected? ==> o.reply == Invalid(v.errors))
  }

  /** The create handler behaves so on a fresh key. */
  lemma CreateOnFreshKey(isEmail: string -> bool)
    ensures CreatesOnFreshKey(CreateServer(isEmail), isEmail)
  {
    forall t: Table, p: Payload, id: string, now: nat {
      CreateSpec(t, p, id, now, isEmail);
    }
  }

  /** With fresh keys, each element sent is created when its payload passes
      validation and answered with the validation errors otherwise, whatever
      happened to the elements before it. */
  lemma {:induction false} ImportEachItem(post: Server, t: Table, entries: seq<Entry>, ids: seq<string>,
                                         times: seq<nat>, isEmail: string -> bool)
    requires |ids| == |entries| && |times| == |entries|
    requires CreatesOnFreshKey(post, isEmail)
    requires FreshIds(t, ids)
    decreases |entries|
    ensures var r := ImportRun(post, t, entries, ids, times);
      forall i :: 0 <= i < |r.replies| && i < |entries| && entries[i].Object? ==>
        var v := Validate(ImportPayload(entries[i].item), isEmail);
        && (r.replies[i].Created? <==> v.Accepted?)
        && (r.replies[i].Created? ==> r.replies[i].student == Student(ids[i], v.fields, times[i]))
        && (v.Rejected? ==> r.replies[i] == Invalid(v.errors))
  {
    if entries != [] && entries[0].Object? {
      var o := post(t, ImportPayload(entries[0].item), ids[0], times[0]);
      assert FreshIds(o.table, ids[1..]) by {
        forall i | 0 <= i < |ids[1..]| ensures ids[1..][i] !in o.table {
          assert ids[1..][i] == ids[i + 1];
        }
      }
      ImportEachItem(post, o.table, entries[1..], ids[1..], times[1..], isEmail);
      var rest := ImportRun(post, o.table, entries[1..], ids[1..], times[1..]);
      var r := ImportRun(post, t, entries, ids, times);
      assert r.replies == [o.reply] + rest.replies;
      forall i | 0 < i < |r.replies| && i < |entries| && entries[i].Object?
        ensures var v := Validate(ImportPayload(entries[i].item), isEmail);
          && (r.replies[i].Created? <==> v.Accepted?)
          && (r.replies[i].Created? ==> r.replies[i].student == Student(ids[i], v.fields, times[i]))
          && (v.Rejected? ==> r.replies[i] == Invalid(v.errors))
      {
        assert r.replies[i] == rest.replies[i - 1];
        assert entries[1..][i - 1] == entries[i];
        assert ids[1..][i - 1] == ids[i] && times[1..][i - 1] == times[i];
      }
    }
  }

  /** A server that keeps every stored row well formed. */
  ghost predicate KeepsConsistent(post: Server, isEmail: string -> bool) {
    forall t: Table, p: Payload, id: string, now: nat ::
      Consistent(t, isEmail) ==> Consistent(post(t, p, id, now).table, isEmail)
  }

  /** The create handler keeps every stored row well formed. */
  lemma CreateKeepsConsistent(isEmail: string -> bool)
    ensures KeepsConsistent(CreateServer(isEmail), isEmail)
  {
    forall t: Table, p: Payload, id: string, now: nat | Consistent(t, isEmail) {
      CreatePreservesConsistency(t, p, id, now, isEmail);
    }
  }

  /** An import keeps every stored row well formed. */
  lemma {:induction false} ImportPreservesConsistency(post: Server, t: Table, entries: seq<Entry>,
                                                     ids: seq<string>, times: seq<nat>, isEmail: string -> bool)
    requires |ids| == |entries| && |times| == |entries|
    requires KeepsConsistent(post, isEmail)
    requires Consistent(t, isEmail)
    decreases |entries|
    ensures Consistent(ImportRun(post, t, entries, ids, times).table, isEmail)
  {
    if entries != [] && entries[0].Object? {
      var o := post(t, ImportPayload(entries[0].item), ids[0], times[0]);
      ImportPreservesConsistency(post, o.table, entries[1..], ids[1..], times[1..], isEmail);
    }
  }

  /** One more element sent: the replies so far and the run from `i` on equal
      the replies with the new one and the run from `i + 1` on the table the
      server left. */
  lemma ImportRunStep(post: Server, t: Table, entries: seq<Entry>, ids: seq<string>, times: seq<nat>,
                      i: nat, replies: seq<Reply>, r: Reply, t': Table)
    requires |ids| == |entries| && |times| == |entries|
    requires i < |entries| && entries[i].Object?
    requires Outcome(r, t') == post(t, ImportPayload(entries[i].item), ids[i], times[i])
    ensures After(replies, ImportRun(post, t, entries[i..], ids[i..], times[i..]))
      == After(replies + [r], ImportRun(post, t', entries[i + 1..], ids[i + 1..], times[i + 1..]))
  {
    assert entries[i..][1..] == entries[i + 1..];
    assert ids[i..][1..] == ids[i + 1..] && times[i..][1..] == times[i + 1..];
    var rest := ImportRun(post, t', entries[i + 1..], ids[i + 1..], times[i + 1..]);
    assert ImportRun(post, t, entries[i..], ids[i..], times[i..]) == After([r], rest);
    assert replies + ([r] + rest.replies) == (replies + [r]) + rest.replies;
  }

  /** The `for ... of` loop of the import handler: one POST per element, in
      order, each awaited before the next; a null element ends the loop. */
  method ImportAll(table: StudentTable, entries: seq<Entry>, ids: seq<string>, times: seq<nat>,
                   isEmail: string -> bool)
    returns (replies: seq<Reply>, completed: bool)
    requires table.Valid()
    requires |ids| == |entries| && |times| == |entries|
    modifies table
    ensures table.Valid()
    ensures ImportRun(CreateServer(isEmail), old(table.rows), entries, ids, times)
      == ImportResult(replies, table.rows, completed)
  {
    replies := [];
    var i := 0;
    while i < |entries|
      invariant 0 <= i <= |entries|
      invariant table.Valid()
      invariant ImportRun(CreateServer(isEmail), old(table.rows), entries, ids, times)
        == After(replies, ImportRun(CreateServer(isEmail), table.rows, entries[i..], ids[i..], times[i..]))
    {
      if entries[i].Null? {
        return replies, false;
      }
      ghost var before := table.rows;
      var r := table.CreateStudent(ImportPayload(entries[i].item), ids[i], times[i], isEmail);
      ImportRunStep(CreateServer(isEmail), before, entries, ids, times, i, replies, r, table.rows);
      replies := replies + [r];
      i := i + 1;
    }
    completed := true;
  }
}
