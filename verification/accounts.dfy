/** The account store and session of app/page.js: register and login (`handleAuth`), the demo
    login, logout and restoring the session on load. Storage is the explicit state; `btoa` is
    kept abstract as an injective encoding that is undefined beyond Latin-1. */
module Accounts {
  import opened JsSemantics

  /** The base64 text `btoa` produces, represented by the Latin-1 string it encodes. */
  datatype Hash = Base64Of(latin1: string)

  datatype Account = Account(email: string, passwordHash: Hash, credits: int)

  /** The message shown under the form; `NoMessage` is the empty message. */
  datatype Message = NoMessage | InvalidInput | AccountExists | Registered | InvalidCredentials

  datatype Action = Register | Login

  /** The stored accounts by email, the stored session email, the signed-in account and the
      form message. */
  datatype AuthState = AuthState(store: map<string, Account>, session: Option<string>,
                                 user: Option<Account>, message: Message)

  const MinPasswordLength: nat := 6
  const DemoEmail: string := "demo@emissionavi.app"
  const DemoPassword: string := "demo123"

  /** `btoa`: defined exactly on strings of Latin-1 characters, where it throws otherwise. */
  function Btoa(plain: string): (h: Option<Hash>)
    ensures h.Some? <==> forall i :: 0 <= i < |plain| ==> plain[i] as int <= 0xFF
    ensures h.Some? ==> h.value == Base64Of(plain)
  {
    if forall i :: 0 <= i < |plain| ==> plain[i] as int <= 0xFF then Some(Base64Of(plain)) else None
  }

  /** Equal hashes come from equal passwords. */
  lemma BtoaInjective(a: string, b: string)
    requires Btoa(a).Some? && Btoa(a) == Btoa(b)
    ensures a == b
  {
  }

  ghost predicate ValidInput(email: string, password: string) {
    email != "" && |password| >= MinPasswordLength
  }

  /** `handleAuth`. Invalid input only sets the message. Register adds a new account with no
      credits and refuses an existing email; login signs in when the stored hash matches. A
      password `btoa` cannot encode aborts the handler with nothing changed. */
  function HandleAuth(s: AuthState, action: Action, email: string, password: string): (r: AuthState)
    ensures forall k :: k in s.store ==> k in r.store && r.store[k] == s.store[k]
    ensures forall k :: k in r.store && k !in s.store ==> k == email && action == Register
    ensures r.session != s.session || r.user != s.user ==>
      action == Login && r.session == Some(email) && email in s.store && r.user == Some(s.store[email])
  {
    if email == "" || |password| < MinPasswordLength then s.(message := InvalidInput)
    else match action
      case Register =>
        if email in s.store then s.(message := AccountExists)
        else (match Btoa(password)
          case None => s
          case Some(h) => s.(store := s.store[email := Account(email, h, 0)], message := Registered))
      case Login =>
        if email !in s.store then s.(message := InvalidCredentials)
        else (match Btoa(password)
          case None => s
          case Some(h) =>
            if s.store[email].passwordHash != h then s.(message := InvalidCredentials)
            else s.(session := Some(email), user := Some(s.store[email]), message := NoMessage))
  }

  /** A blank email or a short password changes nothing but the message. */
  lemma InvalidInputChangesNothing(s: AuthState, action: Action, email: string, password: string)
    requires !ValidInput(email, password)
    ensures HandleAuth(s, action, email, password) == s.(message := InvalidInput)
  {
  }

  /** Registering a taken email changes nothing but the message. */
  lemma RegisterExistingChangesNothing(s: AuthState, email: string, password: string)
    requires ValidInput(email, password) && email in s.store
    ensures HandleAuth(s, Register, email, password) == s.(message := AccountExists)
  {
  }

  /** Registering a new email adds exactly that account, with no credits, and signs nobody in. */
  lemma RegisterAddsAccount(s: AuthState, email: string, password: string)
    requires ValidInput(email, password) && email !in s.store && Btoa(password).Some?
    ensures var r := HandleAuth(s, Register, email, password);
      && r.store == s.store[email := Account(email, Btoa(password).value, 0)]
      && r.session == s.session && r.user == s.user && r.message == Registered
  {
  }

  /** Login signs in exactly when the account exists and its stored hash is the password's. */
  lemma LoginSucceedsIff(s: AuthState, email: string, password: string)
    requires ValidInput(email, password) && Btoa(password).Some?
    ensures var r := HandleAuth(s, Login, email, password);
      (r.session == Some(email) && r.message == NoMessage && email in s.store && r.user == Some(s.store[email]))
      <==> (email in s.store && s.store[email].passwordHash == Btoa(password).value)
    ensures HandleAuth(s, Login, email, password).store == s.store
  {
  }

  /** A fresh registration can log in with its password and with no other. */
  lemma RegisterThenLogin(s: AuthState, email: string, password: string, other: string)
    requires ValidInput(email, password) && email !in s.store && Btoa(password).Some?
    requires |other| >= MinPasswordLength && other != password
    ensures var r := HandleAuth(HandleAuth(s, Register, email, password), Login, email, password);
      r.session == Some(email) && r.user == Some(Account(email, Btoa(password).value, 0))
    ensures HandleAuth(HandleAuth(s, Register, email, password), Login, email, other).session == s.session
  {
    var registered := HandleAuth(s, Register, email, password);
    assert registered.store[email].passwordHash == Base64Of(password);
    if Btoa(other).Some? {
      assert Btoa(other).value != Base64Of(password);
    }
  }

  /** `demoLogin`: store the demo account with the given credits and sign it in. */
  function DemoLogin(s: AuthState, credits: int): (r: AuthState)
    ensures DemoEmail in r.store && r.store[DemoEmail].credits == credits
    ensures forall k :: k != DemoEmail ==> (k in r.store <==> k in s.store)
    ensures forall k :: k != DemoEmail && k in s.store ==> r.store[k] == s.store[k]
    ensures r.session == Some(DemoEmail) && r.user == Some(r.store[DemoEmail])
    ensures r.message == s.message
  {
    var account := Account(DemoEmail, Base64Of(DemoPassword), credits);
    s.(store := s.store[DemoEmail := account], session := Some(DemoEmail), user := Some(account))
  }

  /** The demo account's password is "demo123": logging in with it after the demo login works. */
  lemma DemoPasswordLogsIn(s: AuthState, credits: int)
    ensures var r := HandleAuth(DemoLogin(s, credits), Login, DemoEmail, DemoPassword);
      r.session == Some(DemoEmail) && r.message == NoMessage
  {
    assert Btoa(DemoPassword) == Some(Base64Of(DemoPassword));
  }

  /** `logout`: forget the session; the accounts stay. */
  function Logout(s: AuthState): (r: AuthState)
    ensures r.session.None? && r.user.None?
    ensures r.store == s.store && r.message == s.message
  {
    s.(session := None, user := None)
  }

  /** On load: the stored session's account when the session is non-empty and still stored. */
  function RestoreSession(store: map<string, Account>, current: Option<string>): (user: Option<Account>)
    ensures user.Some? <==> current.Some? && current.value != "" && current.value in store
    ensures user.Some? ==> user == Some(store[current.value])
  {
    if current.Some? && current.value != "" && current.value in store then Some(store[current.value]) else None
  }

  /** The signed-in account is the stored account of a non-empty session email. */
  ghost predicate SessionConsistent(s: AuthState) {
    match s.session
    case None => s.user.None?
    case Some(email) => email != "" && email in s.store && s.user == Some(s.store[email])
  }

  /** Every transition keeps the session consistent with the store, so reloading restores
      exactly the signed-in account. */
  lemma TransitionsKeepSessionConsistent(s: AuthState, action: Action, email: string, password: string, credits: int)
    requires SessionConsistent(s)
    ensures SessionConsistent(HandleAuth(s, action, email, password))
    ensures SessionConsistent(DemoLogin(s, credits))
    ensures SessionConsistent(Logout(s))
    ensures RestoreSession(s.store, s.session) == s.user
  {
  }
}
