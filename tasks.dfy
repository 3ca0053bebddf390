/** The task routes: a task table in which every task belongs to the user who created it,
    and every read, update and delete is looked up by the pair (task id, owner). */
module Tasks {
  import opened Http
  import opened Validation

  type TaskId = nat

  /** A stored task document; `owner` is the document's `user` field. */
  datatype Task = Task(id: TaskId, owner: UserId, title: string, description: Option<string>,
                       completed: bool, createdAt: int)

  /** The body of POST /. `user` is whatever owner the client tried to supply; it is ignored. */
  datatype CreateBody = CreateBody(title: Option<Json>, description: Option<Json>, user: Option<Json>)

  /** The body of PUT /:id; every field may be left out. `user` is ignored. */
  datatype UpdateBody = UpdateBody(title: Option<Json>, description: Option<Json>,
                                   completed: Option<Json>, user: Option<Json>)

  const NotFoundMessage := "Not found"
  const DeletedMessage := "Deleted"

  // ---------------------------------------------------------------------------
  // Validation rules of the routes
  // ---------------------------------------------------------------------------

  /** POST /: the trimmed title must be non-empty and at least 2 characters long;
      a description, when given, must be a string. */
  function CreateChains(body: CreateBody): seq<Chain> {
    var title := Trim(Text(body.title));
    [ Chain("title", [Check(title != "", "Title is required"),
                      Check(|title| >= 2, "Title must be at least 2 characters")]),
      Chain("description", Optional(body.description, [Check(IsString(body.description), "Description must be a string")])) ]
  }

  /** PUT /:id: each field is checked only when present; the title is not trimmed here. */
  function UpdateChains(body: UpdateBody): seq<Chain> {
    [ Chain("title", Optional(body.title, [Check(IsString(body.title), DefaultMessage),
                                           Check(|Text(body.title)| >= 2, "Title must be at least 2 characters")])),
      Chain("description", Optional(body.description, [Check(IsString(body.description), "Description must be a string")])),
      Chain("completed", Optional(body.completed, [Check(IsBooleanText(Text(body.completed)), "Completed must be boolean")])) ]
  }

  /** A create body that passes validation has a title of at least 2 characters after
      trimming, and a description that is absent or a string. */
  lemma CreateAccepted(body: CreateBody, policy: ErrorPolicy)
    requires RunChains(CreateChains(body), policy) == []
    ensures |Trim(Text(body.title))| >= 2
    ensures body.description.None? || body.description.value.JStr?
  {
    var chains := CreateChains(body);
    assert !AnyFails(chains[0].checks);
    assert chains[0].checks[1].passes;
    assert !AnyFails(chains[1].checks);
    if body.description.Some? {
      assert chains[1].checks[0].passes;
    }
  }

  /** An update body that passes validation supplies only a string title of at least 2
      characters, a string description and a completed flag spelled as a boolean. */
  lemma UpdateAccepted(body: UpdateBody, policy: ErrorPolicy)
    requires RunChains(UpdateChains(body), policy) == []
    ensures body.title.Some? ==> body.title.value.JStr? && |body.title.value.s| >= 2
    ensures body.description.Some? ==> body.description.value.JStr?
    ensures body.completed.Some? ==> IsBooleanText(Text(body.completed))
  {
    var chains := UpdateChains(body);
    assert !AnyFails(chains[0].checks) && !AnyFails(chains[1].checks) && !AnyFails(chains[2].checks);
    if body.title.Some? {
      assert chains[0].checks[0].passes && chains[0].checks[1].passes;
    }
    if body.description.Some? {
      assert chains[1].checks[0].passes;
    }
    if body.completed.Some? {
      assert chains[2].checks[0].passes;
    }
  }

  /** Conversely, a title of at least 2 characters after trimming and a description that
      is absent or a string pass create validation. */
  lemma CreateRulesSuffice(body: CreateBody, policy: ErrorPolicy)
    requires |Trim(Text(body.title))| >= 2
    requires body.description.None? || body.description.value.JStr?
    ensures RunChains(CreateChains(body), policy) == []
  {
    var chains := CreateChains(body);
    assert !AnyFails(chains[0].checks) && !AnyFails(chains[1].checks);
    assert AllPass(chains);
  }

  /** `optional()`: a field left out of the body never gets an error, whatever the other
      fields hold; on create only the description is optional. */
  lemma AbsentFieldsNotReported(create: CreateBody, update: UpdateBody, policy: ErrorPolicy)
    ensures create.description.None? ==>
              forall e :: e in RunChains(CreateChains(create), policy) ==> e.param != "description"
    ensures update.title.None? ==>
              forall e :: e in RunChains(UpdateChains(update), policy) ==> e.param != "title"
    ensures update.description.None? ==>
              forall e :: e in RunChains(UpdateChains(update), policy) ==> e.param != "description"
    ensures update.completed.None? ==>
              forall e :: e in RunChains(UpdateChains(update), policy) ==> e.param != "completed"
  {
    var cc, uc := CreateChains(create), UpdateChains(update);
    if create.description.None? {
      assert cc[1].checks == [];
      PassingFieldNotReported(cc, policy, "description");
    }
    if update.title.None? {
      assert uc[0].checks == [];
      PassingFieldNotReported(uc, policy, "title");
    }
    if update.description.None? {
      assert uc[1].checks == [];
      PassingFieldNotReported(uc, policy, "description");
    }
    if update.completed.None? {
      assert uc[2].checks == [];
      PassingFieldNotReported(uc, policy, "completed");
    }
  }

  /** Conversely, an update body whose present fields keep those rules passes validation. */
  lemma UpdateRulesSuffice(body: UpdateBody, policy: ErrorPolicy)
    requires body.title.Some? ==> body.title.value.JStr? && |body.title.value.s| >= 2
    requires body.description.Some? ==> body.description.value.JStr?
    requires body.completed.Some? ==> IsBooleanText(Text(body.completed))
    ensures RunChains(UpdateChains(body), policy) == []
  {
    var chains := UpdateChains(body);
    assert !AnyFails(chains[0].checks) && !AnyFails(chains[1].checks) && !AnyFails(chains[2].checks);
    assert AllPass(chains);
  }

  /** A failing validator makes the body rejected: a blank or one-character title on create. */
  lemma CreateRejectsShortTitle(body: CreateBody, policy: ErrorPolicy)
    requires |Trim(Text(body.title))| < 2
    ensures RunChains(CreateChains(body), policy) != []
    ensures exists e :: e in RunChains(CreateChains(body), policy) && e.param == "title"
  {
    var chains := CreateChains(body);
    assert !chains[0].checks[1].passes;
    RunChainsComplete(chains, policy, 0);
  }

  /** ... and a present title shorter than 2 characters, or a completed flag that is not a
      boolean, on update. */
  lemma UpdateRejects(body: UpdateBody, policy: ErrorPolicy)
    requires (body.title.Some? && |Text(body.title)| < 2)
             || (body.completed.Some? && !IsBooleanText(Text(body.completed)))
    ensures RunChains(UpdateChains(body), policy) != []
  {
    var chains := UpdateChains(body);
    if body.title.Some? && |Text(body.title)| < 2 {
      assert !chains[0].checks[1].passes;
      RunChainsComplete(chains, policy, 0);
    } else {
      assert !chains[2].checks[0].passes;
      RunChainsComplete(chains, policy, 2);
    }
  }

  // ---------------------------------------------------------------------------
  // What the store keeps
  // ---------------------------------------------------------------------------

  /** The stored form of a description: the string it was given as. */
  function StoredDescription(v: Option<Json>): Option<string> {
    if v.None? then None else Some(Text(v))
  }

  /** The stored form of a completed flag spelled as a boolean. */
  function StoredCompleted(v: Option<Json>): bool {
    Text(v) == "true" || Text(v) == "1"
  }

  /** The task POST / stores: owned by the caller, with the trimmed title, not completed. */
  function NewTask(id: TaskId, caller: UserId, body: CreateBody, now: int): Task {
    Task(id, caller, Trim(Text(body.title)), StoredDescription(body.description), false, now)
  }

  /** The partial update of PUT /:id: every field present in the body replaces the stored
      one, every absent field keeps its value, and id, owner and creation time never change. */
  function Patch(t: Task, body: UpdateBody): (r: Task)
    ensures r.id == t.id && r.owner == t.owner && r.createdAt == t.createdAt
  {
    t.(title := if body.title.Some? then Text(body.title) else t.title,
       description := if body.description.Some? then StoredDescription(body.description) else t.description,
       completed := if body.completed.Some? then StoredCompleted(body.completed) else t.completed)
  }

  /** An update that passed validation keeps a stored title of at least 2 characters. */
  lemma PatchKeepsTitleLength(t: Task, body: UpdateBody, policy: ErrorPolicy)
    requires RunChains(UpdateChains(body), policy) == [] && |t.title| >= 2
    ensures |Patch(t, body).title| >= 2
  {
    UpdateAccepted(body, policy);
  }

  /** A body holding only `completed` leaves title and description as they were. */
  lemma PatchCompletedOnly(t: Task, c: Json, user: Option<Json>)
    ensures var r := Patch(t, UpdateBody(None, None, Some(c), user));
            r.title == t.title && r.description == t.description && r.owner == t.owner
            && r.completed == StoredCompleted(Some(c))
  {
  }

  /** A body with no recognised field changes nothing, and applying one body twice is
      applying it once. */
  lemma PatchNeutralAndIdempotent(t: Task, body: UpdateBody)
    ensures Patch(t, UpdateBody(None, None, None, body.user)) == t
    ensures Patch(Patch(t, body), body) == Patch(t, body)
  {
  }

  // ---------------------------------------------------------------------------
  // The ownership filter
  // ---------------------------------------------------------------------------

  /** The part of the table a user may see: the tasks whose owner is that user. */
  function OwnedBy(tasks: map<TaskId, Task>, owner: UserId): map<TaskId, Task> {
    map id | id in tasks && tasks[id].owner == owner :: tasks[id]
  }

  /** `findOne({_id: id, user: owner})`. */
  function FindOne(tasks: map<TaskId, Task>, id: TaskId, owner: UserId): Option<Task> {
    if id in tasks && tasks[id].owner == owner then Some(tasks[id]) else None
  }

  /** Every user other than the caller owns exactly the tasks they owned before. */
  ghost predicate OthersUnchanged(before: map<TaskId, Task>, after: map<TaskId, Task>, caller: UserId) {
    forall u :: u != caller ==> OwnedBy(after, u) == OwnedBy(before, u)
  }

  /** A task owned by someone else is invisible to the caller: the caller's part of the
      table is the same as if that task did not exist, and looking it up finds nothing,
      exactly as for an id that was never used. */
  lemma ForeignLooksMissing(tasks: map<TaskId, Task>, id: TaskId, caller: UserId)
    requires id in tasks && tasks[id].owner != caller
    ensures OwnedBy(tasks, caller) == OwnedBy(tasks - {id}, caller)
    ensures FindOne(tasks, id, caller) == FindOne(tasks - {id}, id, caller) == None
  {
  }

  /** What a lookup answers depends only on the caller's own tasks. */
  lemma FindOneSeesOnlyOwn(a: map<TaskId, Task>, b: map<TaskId, Task>, id: TaskId, caller: UserId)
    requires OwnedBy(a, caller) == OwnedBy(b, caller)
    ensures FindOne(a, id, caller) == FindOne(b, id, caller)
  {
    assert id in OwnedBy(a, caller) <==> id in OwnedBy(b, caller);
  }

  /** Storing a task of the caller under an id that is free or already the caller's
      changes no other user's tasks. */
  lemma {:induction false} PutOwnKeepsOthers(tasks: map<TaskId, Task>, id: TaskId, t: Task, caller: UserId)
    requires t.owner == caller
    requires id in tasks ==> tasks[id].owner == caller
    ensures OthersUnchanged(tasks, tasks[id := t], caller)
  {
    forall u | u != caller ensures OwnedBy(tasks[id := t], u) == OwnedBy(tasks, u) {
      var a, b := OwnedBy(tasks[id := t], u), OwnedBy(tasks, u);
      assert a.Keys == b.Keys;
      forall k | k in a ensures a[k] == b[k] {
        assert k != id;
      }
    }
  }

  /** Removing one of the caller's tasks changes no other user's tasks. */
  lemma {:induction false} RemoveOwnKeepsOthers(tasks: map<TaskId, Task>, id: TaskId, caller: UserId)
    requires id in tasks && tasks[id].owner == caller
    ensures OthersUnchanged(tasks, tasks - {id}, caller)
  {
    forall u | u != caller ensures OwnedBy(tasks - {id}, u) == OwnedBy(tasks, u) {
      var a, b := OwnedBy(tasks - {id}, u), OwnedBy(tasks, u);
      assert a.Keys == b.Keys;
    }
  }

  // ---------------------------------------------------------------------------
  // Search and ordering of GET /
  // ---------------------------------------------------------------------------

  function LowerChar(c: char): char {
    if 'A' <= c <= 'Z' then (c as int + 32) as char else c
  }

  function Lower(s: string): string {
    seq(|s|, i requires 0 <= i < |s| => LowerChar(s[i]))
  }

  /** `q` occurs in `title` when letter case is ignored. */
  predicate ContainsCI(title: string, q: string) {
    exists i | 0 <= i <= |title| :: SliceAt(Lower(title), i, Lower(q))
  }

  /** A query that occurs literally in a title matches it. */
  lemma SubstringMatches(title: string, i: nat, q: string)
    requires i + |q| <= |title| && title[i..i + |q|] == q
    ensures ContainsCI(title, q)
  {
    var lt := Lower(title);
    assert lt[i..i + |q|] == Lower(q) by {
      forall k | 0 <= k < |q| ensures lt[i..i + |q|][k] == Lower(q)[k] {
        assert title[i + k] == q[k];
      }
    }
    assert SliceAt(lt, i, Lower(q));
  }

  /** The query document GET / builds: the owner, and a title pattern when `q` is given. */
  datatype Filter = Filter(user: UserId, title: Option<string>)

  predicate Selects(f: Filter, t: Task) {
    t.owner == f.user && (f.title.Some? ==> ContainsCI(t.title, f.title.value))
  }

  /** With `q || ''` defaulting to the empty query, adding the title pattern only for a
      non-empty `q` selects the same tasks as adding it always would. */
  lemma EmptyQuerySelectsAll(user: UserId, t: Task)
    ensures Selects(Filter(user, Some("")), t) == Selects(Filter(user, None), t)
  {
    assert SliceAt(Lower(t.title), 0, Lower(""));
  }

  /** The tasks GET /?q= must return: stored tasks of the caller and, when `q` is not empty,
      only those whose title contains `q` ignoring case. */
  predicate Listed(tasks: map<TaskId, Task>, caller: UserId, q: string, t: Task) {
    t.id in tasks && tasks[t.id] == t && t.owner == caller && (q != "" ==> ContainsCI(t.title, q))
  }

  /** Whether a task is listed depends only on the caller's own tasks. */
  lemma ListedSeesOnlyOwn(a: map<TaskId, Task>, b: map<TaskId, Task>, caller: UserId, q: string, t: Task)
    requires OwnedBy(a, caller) == OwnedBy(b, caller)
    ensures Listed(a, caller, q, t) == Listed(b, caller, q, t)
  {
    assert t.id in OwnedBy(a, caller) <==> t.id in OwnedBy(b, caller);
  }

  /** `sort({createdAt: -1})`: newest first. */
  predicate NewestFirst(s: seq<Task>) {
    forall i, j :: 0 <= i < j < |s| ==> s[i].createdAt >= s[j].createdAt
  }

  predicate DistinctIds(s: seq<Task>) {
    forall i, j :: 0 <= i < j < |s| ==> s[i].id != s[j].id
  }

  /** A task no older than any task of a newest-first list can go in front of it. */
  lemma NewestFirstCons(h: Task, s: seq<Task>)
    requires NewestFirst(s)
    requires forall x :: x in s ==> x.createdAt <= h.createdAt
    ensures NewestFirst([h] + s)
  {
    var r := [h] + s;
    forall i, j | 0 <= i < j < |r| ensures r[i].createdAt >= r[j].createdAt {
      assert r[j] == s[j - 1];
      if i > 0 { assert r[i] == s[i - 1]; }
    }
  }

  /** The head of a non-empty list is no older than, and has another id than, the rest. */
  lemma HeadOfNewestFirst(s: seq<Task>)
    requires s != [] && NewestFirst(s)
    ensures NewestFirst(s[1..])
    ensures forall x :: x in s[1..] ==> x.createdAt <= s[0].createdAt
    ensures DistinctIds(s) ==> DistinctIds(s[1..]) && forall x :: x in s[1..] ==> x.id != s[0].id
  {
    forall i, j | 0 <= i < j < |s[1..]|
      ensures s[1..][i].createdAt >= s[1..][j].createdAt && (DistinctIds(s) ==> s[1..][i].id != s[1..][j].id)
    {
      assert s[1..][i] == s[i + 1] && s[1..][j] == s[j + 1];
    }
    forall x | x in s[1..] ensures x.createdAt <= s[0].createdAt && (DistinctIds(s) ==> x.id != s[0].id) {
      var j :| 0 <= j < |s[1..]| && s[1..][j] == x;
      assert s[j + 1] == x;
    }
  }

  /** Inserts `t` into a list in front of the first task that is no newer than it. */
  function InsertNewestFirst(s: seq<Task>, t: Task): seq<Task> {
    if s == [] || s[0].createdAt <= t.createdAt then [t] + s
    else [s[0]] + InsertNewestFirst(s[1..], t)
  }

  /** Insertion adds exactly `t`. */
  lemma {:induction false} InsertAddsOne(s: seq<Task>, t: Task)
    ensures multiset(InsertNewestFirst(s, t)) == multiset(s) + multiset{t}
    ensures forall x :: x in InsertNewestFirst(s, t) <==> x in s || x == t
  {
    var r := InsertNewestFirst(s, t);
    if !(s == [] || s[0].createdAt <= t.createdAt) {
      InsertAddsOne(s[1..], t);
      assert s == [s[0]] + s[1..];
    }
    forall x ensures x in r <==> x in s || x == t {
      assert x in r <==> x in multiset(r);
      assert x in s <==> x in multiset(s);
    }
  }

  /** Insertion into a newest-first list keeps it newest first. */
  lemma {:induction false} InsertSorts(s: seq<Task>, t: Task)
    requires NewestFirst(s)
    ensures NewestFirst(InsertNewestFirst(s, t))
  {
    if s == [] || s[0].createdAt <= t.createdAt {
      NewestFirstCons(t, s);
    } else {
      HeadOfNewestFirst(s);
      InsertSorts(s[1..], t);
      InsertAddsOne(s[1..], t);
      NewestFirstCons(s[0], InsertNewestFirst(s[1..], t));
    }
  }

  /** Inserting a task whose id is new keeps the ids of a list distinct. */
  lemma {:induction false} InsertKeepsIdsDistinct(s: seq<Task>, t: Task)
    requires NewestFirst(s) && DistinctIds(s)
    requires forall x :: x in s ==> x.id != t.id
    ensures DistinctIds(InsertNewestFirst(s, t))
  {
    if s == [] || s[0].createdAt <= t.createdAt {
    } else {
      HeadOfNewestFirst(s);
      var rest := InsertNewestFirst(s[1..], t);
      InsertKeepsIdsDistinct(s[1..], t);
      InsertAddsOne(s[1..], t);
      var r := [s[0]] + rest;
      forall i, j | 0 <= i < j < |r| ensures r[i].id != r[j].id {
        if i == 0 {
          assert r[j] == rest[j - 1];
          assert rest[j - 1] in rest;
        } else {
          assert r[i] == rest[i - 1] && r[j] == rest[j - 1];
        }
      }
    }
  }

  // ---------------------------------------------------------------------------
  // The task table
  // ---------------------------------------------------------------------------

  class TaskStore {
    /** The task collection, by task id. */
    var tasks: map<TaskId, Task>
    /** The next id the store hands out. */
    var nextId: TaskId
    /** How the validation library reports several failures of one field. */
    const policy: ErrorPolicy

    /** Each task is stored under its own id, every id was handed out, and every stored
        title is at least 2 characters long. */
    ghost predicate Valid()
      reads this
    {
      forall id :: id in tasks ==> tasks[id].id == id && id < nextId && |tasks[id].title| >= 2
    }

    constructor (policy: ErrorPolicy)
      ensures Valid() && tasks == map[] && this.policy == policy
    {
      tasks := map[];
      nextId := 0;
      this.policy := policy;
    }

    /** POST /: the new task is owned by the caller, whatever owner the body names. A body that
        fails validation is answered with the error list and stores nothing. */
    method Create(caller: UserId, body: CreateBody, now: int) returns (r: Response<Task>)
      requires Valid()
      modifies this
      ensures Valid()
      ensures var errs := RunChains(CreateChains(body), policy);
              if errs != [] then
                r == Errors(FormatValidationErrors(errs)) && tasks == old(tasks) && nextId == old(nextId)
              else
                var t := NewTask(old(nextId), caller, body, now);
                && old(nextId) !in old(tasks)
                && r == Ok(t) && t.owner == caller && !t.completed
                && tasks == old(tasks)[old(nextId) := t] && nextId == old(nextId) + 1
      ensures OthersUnchanged(old(tasks), tasks, caller)
    {
      var errs := RunChains(CreateChains(body), policy);
      if errs != [] {
        return Errors(FormatValidationErrors(errs));
      }
      CreateAccepted(body, policy);
      var task := NewTask(nextId, caller, body, now);
      PutOwnKeepsOthers(tasks, nextId, task, caller);
      tasks := tasks[nextId := task];
      nextId := nextId + 1;
      r := Ok(task);
    }

    /** GET /?q=: exactly the caller's tasks, narrowed by `q` when it is not empty, each once,
        newest first. */
    method List(caller: UserId, q: string) returns (r: seq<Task>)
      requires Valid()
      ensures NewestFirst(r) && DistinctIds(r)
      ensures forall t :: t in r <==> Listed(tasks, caller, q, t)
    {
      var filter := Filter(caller, None);
      if q != "" {
        filter := filter.(title := Some(q));
      }
      assert forall t :: Selects(filter, t) <==> t.owner == caller && (q != "" ==> ContainsCI(t.title, q));
      r := [];
      var pending := tasks.Keys;
      while pending != {}
        invariant pending <= tasks.Keys
        invariant forall t :: Selects(filter, t) <==> t.owner == caller && (q != "" ==> ContainsCI(t.title, q))
        invariant NewestFirst(r) && DistinctIds(r)
        invariant forall t :: t in r <==> Listed(tasks, caller, q, t) && t.id !in pending
        decreases pending
      {
        var id :| id in pending;
        var t := tasks[id];
        if Selects(filter, t) {
          InsertKeepsIdsDistinct(r, t);
          InsertSorts(r, t);
          InsertAddsOne(r, t);
          r := InsertNewestFirst(r, t);
        }
        pending := pending - {id};
      }
    }

    /** GET /:id: the caller's task with that id; any other id, whether it is unused or
        another user's, is answered with the same 404. */
    method Get(caller: UserId, id: TaskId) returns (r: Response<Task>)
      ensures r.Ok? <==> id in tasks && tasks[id].owner == caller
      ensures r.Ok? ==> r.value == tasks[id]
      ensures !r.Ok? ==> r == NotFound(NotFoundMessage)
    {
      var found := FindOne(tasks, id, caller);
      if found.None? {
        return NotFound(NotFoundMessage);
      }
      r := Ok(found.value);
    }

    /** PUT /:id: validates the body first, then looks the task up by id and owner and applies
        the partial update. Nothing changes on a validation error or a 404. */
    method Update(caller: UserId, id: TaskId, body: UpdateBody) returns (r: Response<Task>)
      requires Valid()
      modifies this
      ensures Valid() && nextId == old(nextId)
      ensures var errs := RunChains(UpdateChains(body), policy);
              if errs != [] then
                r == Errors(FormatValidationErrors(errs)) && tasks == old(tasks)
              else if FindOne(old(tasks), id, caller).None? then
                r == NotFound(NotFoundMessage) && tasks == old(tasks)
              else
                var t := Patch(old(tasks)[id], body);
                r == Ok(t) && tasks == old(tasks)[id := t]
      ensures OthersUnchanged(old(tasks), tasks, caller)
    {
      var errs := RunChains(UpdateChains(body), policy);
      if errs != [] {
        return Errors(FormatValidationErrors(errs));
      }
      var found := FindOne(tasks, id, caller);
      if found.None? {
        return NotFound(NotFoundMessage);
      }
      PatchKeepsTitleLength(found.value, body, policy);
      var task := found.value;
      if body.title.Some? {
        task := task.(title := Text(body.title));
      }
      if body.description.Some? {
        task := task.(description := StoredDescription(body.description));
      }
      if body.completed.Some? {
        task := task.(completed := StoredCompleted(body.completed));
      }
      assert task == Patch(found.value, body);
      PutOwnKeepsOthers(tasks, id, task, caller);
      tasks := tasks[id := task];
      r := Ok(task);
    }

    /** DELETE /:id: removes exactly the caller's task with that id; any other id is
        answered with the same 404 and nothing changes. */
    method Delete(caller: UserId, id: TaskId) returns (r: Response<string>)
      requires Valid()
      modifies this
      ensures Valid() && nextId == old(nextId)
      ensures FindOne(old(tasks), id, caller).Some? ==>
                r == Ok(DeletedMessage) && tasks == old(tasks) - {id}
      ensures FindOne(old(tasks), id, caller).None? ==>
                r == NotFound(NotFoundMessage) && tasks == old(tasks)
      ensures OthersUnchanged(old(tasks), tasks, caller)
    {
      var found := FindOne(tasks, id, caller);
      if found.None? {
        return NotFound(NotFoundMessage);
      }
      RemoveOwnKeepsOthers(tasks, id, caller);
      tasks := tasks - {id};
      r := Ok(DeletedMessage);
    }
  }
}
