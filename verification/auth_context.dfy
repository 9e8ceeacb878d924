/** The auth provider's session state `(user, isLoading)` and its transitions:
    refresh, login, logout and the auth-state-change handler. Every backend
    answer is an input of the transition that consumes it. */
module AuthContext {
  import opened Wrappers

  /** A row of the users table. */
  datatype UserRow = UserRow(
    id: string,
    name: string,
    email: string,
    role: string,
    institution_id: string,
    profile_image: Option<string>
  )

  /** The session's user, built from a users row. */
  datatype User = User(
    id: string,
    name: string,
    email: string,
    role: string,
    institutionId: string,
    profileImage: Option<string>
  )

  datatype AuthState = AuthState(user: Option<User>, isLoading: bool)

  /** Before anything has been fetched: no user, still loading. */
  const Initial: AuthState := AuthState(None, true)

  /** What the backend's current-identity call gave back. */
  datatype CurrentIdentity = Anonymous | Authenticated(id: string) | IdentityFails

  /** What the users-table lookup saw: the table's rows, or a failure of the query itself. */
  datatype UsersLookup = Table(rows: seq<UserRow>) | LookupFails

  /** Copies a row into a user, renaming `institution_id` and `profile_image`. */
  function FromRow(row: UserRow): (u: User)
    ensures u.id == row.id && u.name == row.name && u.email == row.email && u.role == row.role
    ensures u.institutionId == row.institution_id && u.profileImage == row.profile_image
  {
    User(row.id, row.name, row.email, row.role, row.institution_id, row.profile_image)
  }

  /** The inverse renaming, from a user back to the row it came from. */
  function ToRow(u: User): UserRow {
    UserRow(u.id, u.name, u.email, u.role, u.institutionId, u.profileImage)
  }

  /** The row-to-user mapping loses nothing. */
  lemma FromRowRoundTrip(row: UserRow, u: User)
    ensures ToRow(FromRow(row)) == row
    ensures FromRow(ToRow(u)) == u
  {
  }

  /** Indices of the rows whose id is `id`. */
  function MatchingIndices(rows: seq<UserRow>, id: string): (ix: seq<nat>)
    ensures forall k :: 0 <= k < |ix| ==> ix[k] < |rows| && rows[ix[k]].id == id
    ensures forall i :: 0 <= i < |rows| && rows[i].id == id ==> i in ix
    ensures forall k, l :: 0 <= k < l < |ix| ==> ix[k] < ix[l]
  {
    if |rows| == 0 then []
    else
      var front := MatchingIndices(rows[..|rows| - 1], id);
      if rows[|rows| - 1].id == id then front + [|rows| - 1] else front
  }

  /** The `eq('id', id).single()` query: the row when exactly one row has that id, an error otherwise. */
  function SelectSingle(rows: seq<UserRow>, id: string): (r: Option<UserRow>)
    ensures r.Some? ==> r.value in rows && r.value.id == id
    ensures r.Some? <==> exists i :: 0 <= i < |rows| && rows[i].id == id && OnlyMatch(rows, id, i)
  {
    var ix := MatchingIndices(rows, id);
    if |ix| == 1 then
      assert OnlyMatch(rows, id, ix[0]);
      Some(rows[ix[0]])
    else
      NoOnlyMatch(rows, id, ix);
      None
  }

  /** Unless exactly one index matches, no row is the only match. */
  lemma NoOnlyMatch(rows: seq<UserRow>, id: string, ix: seq<nat>)
    requires ix == MatchingIndices(rows, id)
    requires |ix| != 1
    ensures forall i :: 0 <= i < |rows| && rows[i].id == id ==> !OnlyMatch(rows, id, i)
  {
    forall i | 0 <= i < |rows| && rows[i].id == id
      ensures !OnlyMatch(rows, id, i)
    {
      assert i in ix;
      if ix[0] != i {
        assert rows[ix[0]].id == id;
      } else {
        assert rows[ix[1]].id == id;
      }
    }
  }

  /** Row `i` has the id and no other row does. */
  predicate OnlyMatch(rows: seq<UserRow>, id: string, i: nat)
    requires i < |rows|
  {
    forall j :: 0 <= j < |rows| && j != i ==> rows[j].id != id
  }

  /** The refresh: look up the current identity's row. No identity, a lookup that
      fails, or anything thrown all leave no user; a stale user is never kept. */
  function Refresh(s: AuthState, ident: CurrentIdentity, lookup: UsersLookup): (t: AuthState)
    ensures t.isLoading == s.isLoading
    ensures !ident.Authenticated? ==> t.user == None
    ensures lookup.LookupFails? ==> t.user == None
    ensures t.user.Some? ==>
              && ident.Authenticated? && lookup.Table?
              && t.user.value.id == ident.id
              && ToRow(t.user.value) in lookup.rows
    ensures ident.Authenticated? && lookup.Table? && SelectSingle(lookup.rows, ident.id).Some? ==>
              t.user == Some(FromRow(SelectSingle(lookup.rows, ident.id).value))
    ensures t.user.Some? ==> ident.Authenticated? && lookup.Table? && SelectSingle(lookup.rows, ident.id).Some?
  {
    match ident
    case Anonymous => s.(user := None)
    case IdentityFails => s.(user := None)
    case Authenticated(id) =>
      match lookup
      case LookupFails => s.(user := None)
      case Table(rows) =>
        match SelectSingle(rows, id)
        case None => s.(user := None)
        case Some(row) =>
          FromRowRoundTrip(row, FromRow(row));
          s.(user := Some(FromRow(row)))
  }

  /** Two rows sharing the authenticated id make `.single()` fail, so no user results. */
  lemma DuplicateRowsLeaveNoUser(s: AuthState, id: string, a: UserRow, b: UserRow)
    requires a.id == id && b.id == id
    ensures Refresh(s, Authenticated(id), Table([a, b])).user == None
  {
    assert !OnlyMatch([a, b], id, 0) && !OnlyMatch([a, b], id, 1) by {
      assert [a, b][1].id == id;
      assert [a, b][0].id == id;
    }
  }

  /** The start-up effect: refresh, then stop loading. */
  function InitializeAuth(s: AuthState, ident: CurrentIdentity, lookup: UsersLookup): (t: AuthState)
    ensures !t.isLoading
    ensures t.user == Refresh(s, ident, lookup).user
  {
    Refresh(s, ident, lookup).(isLoading := false)
  }

  /** What the sign-in call did: reported an error, threw, or succeeded with or without `data.user`. */
  datatype SignInOutcome = SignInError | SignInThrows | SignInOk(hasUser: bool)

  datatype LoginResult = LoginResult(state: AuthState, succeeded: bool)

  /** Login: true exactly when sign-in neither errs nor throws, whatever the refresh
      then finds; loading is off again on every path. */
  function Login(s: AuthState, signIn: SignInOutcome, ident: CurrentIdentity, lookup: UsersLookup): (r: LoginResult)
    ensures !r.state.isLoading
    ensures r.succeeded <==> signIn.SignInOk?
    ensures signIn != SignInOk(true) ==> r.state.user == s.user
    ensures signIn == SignInOk(true) ==> r.state.user == Refresh(s, ident, lookup).user
  {
    var loading := s.(isLoading := true);
    match signIn
    case SignInError => LoginResult(loading.(isLoading := false), false)
    case SignInThrows => LoginResult(loading.(isLoading := false), false)
    case SignInOk(hasUser) =>
      var after := if hasUser then Refresh(loading, ident, lookup) else loading;
      LoginResult(after.(isLoading := false), true)
  }

  /** Login can report success while the session stays empty. */
  lemma LoginSucceedsWithoutSession()
    ensures var r := Login(Initial, SignInOk(true), Authenticated("u1"), Table([]));
            r.succeeded && r.state.user == None
    ensures var r := Login(Initial, SignInOk(false), Anonymous, LookupFails);
            r.succeeded && r.state.user == None
  {
  }

  datatype LogoutResult = LogoutResult(state: AuthState, rejected: bool)

  /** Logout: clear the user once sign-out has returned; a rejected sign-out skips the clear. */
  function Logout(s: AuthState, signOutRejects: bool): (r: LogoutResult)
    ensures r.rejected == signOutRejects
    ensures r.state.isLoading == s.isLoading
    ensures !signOutRejects ==> r.state.user == None
    ensures signOutRejects ==> r.state == s
  {
    if signOutRejects then LogoutResult(s, true) else LogoutResult(s.(user := None), false)
  }

  /** SIGNED_IN, SIGNED_OUT, or any other event name the backend emits. */
  datatype AuthEvent = SignedIn | SignedOut | OtherEvent

  /** The auth-state-change listener: a sign-in with a session refreshes, a sign-out
      clears the user, anything else changes nothing. */
  function OnAuthStateChange(s: AuthState, event: AuthEvent, hasSession: bool,
                             ident: CurrentIdentity, lookup: UsersLookup): (t: AuthState)
    ensures t.isLoading == s.isLoading
    ensures event.SignedOut? ==> t.user == None
    ensures event.SignedIn? && hasSession ==> t == Refresh(s, ident, lookup)
    ensures event.OtherEvent? || (event.SignedIn? && !hasSession) ==> t == s
  {
    if event.SignedIn? && hasSession then Refresh(s, ident, lookup)
    else if event.SignedOut? then s.(user := None)
    else s
  }

  /** One thing that can happen to the provider, with the backend answers it meets. */
  datatype Step =
    | InitStep(ident: CurrentIdentity, lookup: UsersLookup)
    | RefreshStep(ident: CurrentIdentity, lookup: UsersLookup)
    | LoginStep(signIn: SignInOutcome, ident: CurrentIdentity, lookup: UsersLookup)
    | LogoutStep(signOutRejects: bool)
    | EventStep(event: AuthEvent, hasSession: bool, ident: CurrentIdentity, lookup: UsersLookup)

  function Apply(s: AuthState, st: Step): AuthState {
    match st
    case InitStep(ident, lookup) => InitializeAuth(s, ident, lookup)
    case RefreshStep(ident, lookup) => Refresh(s, ident, lookup)
    case LoginStep(signIn, ident, lookup) => Login(s, signIn, ident, lookup).state
    case LogoutStep(rejects) => Logout(s, rejects).state
    case EventStep(event, hasSession, ident, lookup) => OnAuthStateChange(s, event, hasSession, ident, lookup)
  }

  /** The state after a history of steps, starting from the initial state. */
  function Run(steps: seq<Step>): AuthState {
    if |steps| == 0 then Initial else Apply(Run(steps[..|steps| - 1]), steps[|steps| - 1])
  }

  /** The step met an authenticated identity `u.id` and a users table holding `u`'s row. */
  predicate Vouches(st: Step, u: User) {
    && !st.LogoutStep?
    && st.ident.Authenticated? && st.ident.id == u.id
    && st.lookup.Table? && ToRow(u) in st.lookup.rows
  }

  /** A single step either keeps the user, clears it, or installs one the step vouches for. */
  lemma StepUser(s: AuthState, st: Step)
    ensures var t := Apply(s, st);
            t.user == s.user || t.user == None || Vouches(st, t.user.value)
  {
  }

  /** The UI never fabricates a session: a user present after any history was read,
      by some step, from the users table under the identity then authenticated. */
  lemma {:induction false} SessionIsVouched(steps: seq<Step>)
    ensures Run(steps).user.Some? ==>
              exists i :: 0 <= i < |steps| && Vouches(steps[i], Run(steps).user.value)
  {
    if |steps| > 0 {
      var front := steps[..|steps| - 1];
      var last := steps[|steps| - 1];
      StepUser(Run(front), last);
      SessionIsVouched(front);
      if Run(steps).user.Some? {
        var u := Run(steps).user.value;
        if Vouches(last, u) {
          assert Vouches(steps[|steps| - 1], u);
        } else {
          assert Run(front).user == Some(u);
          var i :| 0 <= i < |front| && Vouches(front[i], u);
          assert steps[i] == front[i];
        }
      }
    }
  }

  predicate StopsLoading(st: Step) {
    st.InitStep? || st.LoginStep?
  }

  /** Loading is on exactly until the start-up refresh or some login has finished. */
  lemma {:induction false} LoadingUntilFirstCompletion(steps: seq<Step>)
    ensures Run(steps).isLoading <==> forall i :: 0 <= i < |steps| ==> !StopsLoading(steps[i])
  {
    if |steps| > 0 {
      var front := steps[..|steps| - 1];
      LoadingUntilFirstCompletion(front);
      assert forall i :: 0 <= i < |front| ==> steps[i] == front[i];
    }
  }

  /** Start-up alone gives a settled state holding exactly what the lookup found. */
  lemma StartupSettles(ident: CurrentIdentity, lookup: UsersLookup)
    ensures var s := Run([InitStep(ident, lookup)]);
            !s.isLoading && s.user == Refresh(Initial, ident, lookup).user
  {
  }
}
