/** A client of the two tables: the register, login, create, search, delete and get
    walkthrough, checked against the contracts of the routes alone. */
module Scenario {
  import opened Http
  import opened Validation
  import Tasks
  import Auth

  /** A registration that keeps every rule, followed by a login with the same email and
      password, logs the new user in under the id registration gave it. */
  method RegisterAndLogin(crypto: Auth.Crypto, isEmail: string -> bool, policy: ErrorPolicy,
                          body: Auth.RegisterBody)
    requires Auth.Sound(crypto)
    requires |Trim(TextOf(body.name))| >= 3
    requires Trim(TextOf(body.email)) != "" && isEmail(Trim(TextOf(body.email)))
    requires |TextOf(body.password)| >= 6 && body.passwordConfirm == body.password
  {
    var registry := new Auth.UserRegistry(crypto, isEmail, policy);
    Auth.RegisterRulesSuffice(body, isEmail, policy);
    var registered := registry.Register(body);
    assert registered.Ok?;
    var id := registered.value.user.id;

    Auth.RegisterThenLogin(map[], id, body, crypto, isEmail, policy);
    var loggedIn := registry.Login(Auth.LoginBody(body.email, body.password));
    assert loggedIn.Ok? && loggedIn.value.user.id == id;
    assert crypto.verify(loggedIn.value.token) == Some(Auth.Claims(id, registered.value.user.email));

    var again := registry.Register(body);
    assert again == Errors([FieldError("email", Auth.EmailRegisteredMessage)]);
  }

  /** A task is found by a search on part of its title and is not completed; once deleted,
      getting it is a 404, and another user never sees it. */
  method CreateSearchDelete(policy: ErrorPolicy, owner: UserId, other: UserId,
                            title: string, i: nat, q: string, now: int)
    requires owner != other
    requires |Trim(title)| >= 2 && q != "" && i + |q| <= |Trim(title)| && Trim(title)[i..i + |q|] == q
  {
    var store := new Tasks.TaskStore(policy);
    var body := Tasks.CreateBody(Some(JStr(title)), None, Some(JNum(other)));
    Tasks.CreateRulesSuffice(body, policy);
    var created := store.Create(owner, body, now);
    assert created.Ok? && !created.value.completed && created.value.owner == owner;
    var task := created.value;

    var found := store.List(owner, q);
    Tasks.SubstringMatches(task.title, i, q);
    assert Tasks.Listed(store.tasks, owner, q, task);
    assert task in found;

    var snooped := store.Get(other, task.id);
    assert snooped == NotFound(Tasks.NotFoundMessage);
    var foreign := store.List(other, "");
    assert task !in foreign;

    var deleted := store.Delete(owner, task.id);
    assert deleted == Ok(Tasks.DeletedMessage);
    var afterwards := store.Get(owner, task.id);
    assert afterwards == NotFound(Tasks.NotFoundMessage);
  }
}
