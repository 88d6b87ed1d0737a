/** The user controller: e-mail validation, registration, and the
    access/refresh token lifecycle over a user table in which every user
    has a single refresh-token slot; plus password change and account update. */
module Users {
  import opened Common
  import opened JsString

  // ---------------------------------------------------------------- e-mail

  /** A character of the class `[^\s@]`. */
  predicate Plain(c: char)
  {
    !IsWhitespace(c) && c != '@'
  }

  /** Every character of `s[lo..hi]` is of the class `[^\s@]`. */
  predicate AllPlain(s: string, lo: nat, hi: nat)
  {
    forall k :: lo <= k < hi && k < |s| ==> Plain(s[k])
  }

  /** `isValidEmail`: the regular expression `^[^\s@]+@[^\s@]+\.[^\s@]+$`
      matches the whole of `s`, splitting it at an `@` (position `i`) and a
      later `.` (position `j`). */
  predicate IsValidEmail(s: string)
  {
    exists i | 0 < i < |s| :: exists j | i + 1 < j < |s| - 1 ::
      && s[i] == '@' && s[j] == '.'
      && AllPlain(s, 0, i) && AllPlain(s, i + 1, j) && AllPlain(s, j + 1, |s|)
  }

  function Occurrences(s: string, c: char): nat
  {
    if s == [] then 0 else (if s[0] == c then 1 else 0) + Occurrences(s[1..], c)
  }

  /** The shape of an address in plain words: no whitespace, exactly one
      `@`, something before it, and after it a `.` that is neither the
      first nor the last character of the part after the `@`. */
  predicate HasEmailShape(s: string)
  {
    && (forall k :: 0 <= k < |s| ==> !IsWhitespace(s[k]))
    && Occurrences(s, '@') == 1
    && exists i | 0 < i < |s| :: s[i] == '@' && exists j | i + 1 < j < |s| - 1 :: s[j] == '.'
  }

  lemma {:induction false} OccurrencesAppend(a: string, b: string, c: char)
    ensures Occurrences(a + b, c) == Occurrences(a, c) + Occurrences(b, c)
  {
    if a == [] {
      assert a + b == b;
    } else {
      assert (a + b)[1..] == a[1..] + b;
      OccurrencesAppend(a[1..], b, c);
    }
  }

  lemma {:induction false} OccurrencesZero(t: string, c: char)
    ensures Occurrences(t, c) == 0 <==> forall k :: 0 <= k < |t| ==> t[k] != c
  {
    if t != [] {
      OccurrencesZero(t[1..], c);
      assert forall k :: 1 <= k < |t| ==> t[k] == t[1..][k - 1];
    }
  }

  /** Splits the count of `c` in `s` at position `i`. */
  lemma OccurrencesAround(s: string, i: nat, c: char)
    requires i < |s|
    ensures Occurrences(s, c) == Occurrences(s[..i], c) + (if s[i] == c then 1 else 0) + Occurrences(s[i + 1..], c)
  {
    assert s == s[..i] + ([s[i]] + s[i + 1..]);
    OccurrencesAppend(s[..i], [s[i]] + s[i + 1..], c);
    assert ([s[i]] + s[i + 1..])[1..] == s[i + 1..];
  }

  lemma ValidEmailHasShape(s: string)
    requires IsValidEmail(s)
    ensures HasEmailShape(s)
  {
    var i :| 0 < i < |s| && exists j | i + 1 < j < |s| - 1 ::
      && s[i] == '@' && s[j] == '.'
      && AllPlain(s, 0, i) && AllPlain(s, i + 1, j) && AllPlain(s, j + 1, |s|);
    var j :| i + 1 < j < |s| - 1 && s[i] == '@' && s[j] == '.'
      && AllPlain(s, 0, i) && AllPlain(s, i + 1, j) && AllPlain(s, j + 1, |s|);
    PlainAround(s, i, j);
    OccurrencesAround(s, i, '@');
    AbsentBefore(s, i, '@');
    AbsentAfter(s, i + 1, '@');
  }

  lemma AbsentBefore(s: string, i: nat, c: char)
    requires i <= |s|
    requires forall k :: 0 <= k < i ==> s[k] != c
    ensures Occurrences(s[..i], c) == 0
  {
    var t := s[..i];
    assert forall k :: 0 <= k < |t| ==> t[k] == s[k];
    OccurrencesZero(t, c);
  }

  lemma AbsentAfter(s: string, i: nat, c: char)
    requires i <= |s|
    requires forall k :: i <= k < |s| ==> s[k] != c
    ensures Occurrences(s[i..], c) == 0
  {
    var t := s[i..];
    assert forall k :: 0 <= k < |t| ==> t[k] == s[i + k];
    OccurrencesZero(t, c);
  }

  /** The characters of the three plain parts are plain; `@` and `.` are not whitespace. */
  lemma PlainAround(s: string, i: nat, j: nat)
    requires 0 < i && i + 1 < j < |s| - 1 && s[i] == '@' && s[j] == '.'
    requires AllPlain(s, 0, i) && AllPlain(s, i + 1, j) && AllPlain(s, j + 1, |s|)
    ensures forall k :: 0 <= k < |s| ==> !IsWhitespace(s[k])
    ensures forall k :: 0 <= k < |s| && k != i ==> s[k] != '@'
  {

  }

  lemma ShapeIsValidEmail(s: string)
    requires HasEmailShape(s)
    ensures IsValidEmail(s)
  {
    var i :| 0 < i < |s| && s[i] == '@' && exists j | i + 1 < j < |s| - 1 :: s[j] == '.';
    var j :| i + 1 < j < |s| - 1 && s[j] == '.';
    OccurrencesAround(s, i, '@');
    OccurrencesZero(s[..i], '@');
    OccurrencesZero(s[i + 1..], '@');
    forall k | i < k < |s| ensures s[k] != '@' {
      assert s[k] == s[i + 1..][k - i - 1];
    }
    forall k | 0 <= k < |s| && k != i ensures Plain(s[k]) {
      if k < i { assert s[k] == s[..i][k]; }
    }
  }

  /** The regular expression accepts exactly the strings of that shape. */
  lemma EmailValidIffShape(s: string)
    ensures IsValidEmail(s) <==> HasEmailShape(s)
  {
    if IsValidEmail(s) { ValidEmailHasShape(s); }
    if HasEmailShape(s) { ShapeIsValidEmail(s); }
  }

  /** An absent e-mail, tested as the text "undefined", is rejected. */
  lemma UndefinedIsNoEmail()
    ensures !IsValidEmail("undefined")
  {

  }

  // ---------------------------------------------------------------- records

  /** A refresh token: the user it names (the `_id` claim) and a serial
      number that stands for what makes each signed token distinct. */
  datatype RefreshToken = RefreshToken(subject: Id, serial: nat)
  datatype AccessToken = AccessToken(subject: Id, serial: nat)
  datatype TokenPair = TokenPair(access: AccessToken, refresh: RefreshToken)

  /** A user document. `password` stands for the stored hash; `fullName` and
      `password` are stored as the request gave them, absent included. */
  datatype User = User(username: string, email: string, fullName: Option<string>,
                       password: Option<string>, avatar: string, coverImage: string,
                       refreshToken: Option<RefreshToken>)

  /** A user as `select("-password -refreshToken")` returns it. */
  datatype UserView = UserView(id: Id, username: string, email: string,
                               fullName: Option<string>, avatar: string, coverImage: string)

  /** A user as `select("-password")` returns it: the refresh token stays. */
  datatype AccountView = AccountView(user: UserView, refreshToken: Option<RefreshToken>)

  /** What a successful login answers with. */
  datatype Session = Session(user: UserView, tokens: TokenPair)

  /** A user as `select("-password -refreshToken")` returns it. */
  function ViewOf(id: Id, u: User): UserView
  {
    UserView(id, u.username, u.email, u.fullName, u.avatar, u.coverImage)
  }

  /** A refresh slot is empty or holds a token for that user, issued before
      serial `bound` was handed out. */
  predicate SlotIssuedBefore(slot: Option<RefreshToken>, id: Id, bound: nat)
  {
    slot.None? || (slot.value.subject == id && slot.value.serial < bound)
  }

  /** The filter `{$or: [{username}, {email}]}`. An absent field yields
      `{field: undefined}`, which matches no user that has the field. */
  predicate MatchesEither(u: User, username: Option<string>, email: Option<string>)
  {
    (username.Some? && u.username == username.value) || (email.Some? && u.email == email.value)
  }

  predicate Found(users: map<Id, User>, username: Option<string>, email: Option<string>)
  {
    exists id :: id in users && MatchesEither(users[id], username, email)
  }

  // ---------------------------------------------------------------- registration

  datatype Registration = Registration(fullName: Option<string>, email: Option<string>,
                                       username: Option<string>, password: Option<string>)

  /** `field?.trim() === ""`: only a present field can be blank. */
  predicate BlankField(f: Option<string>)
  {
    f.Some? && Trim(f.value) == ""
  }

  /** The two 400 checks of registration. An absent e-mail reaches the
      regular expression as the text "undefined". */
  predicate RegistrationRejected(form: Registration)
  {
    || BlankField(form.fullName) || BlankField(form.email)
    || BlankField(form.username) || BlankField(form.password)
    || !IsValidEmail(if form.email.Some? then form.email.value else "undefined")
  }

  predicate HasText(f: Option<string>)
  {
    f.None? || !AllWhitespace(f.value)
  }

  /** Registration passes its 400 checks exactly when every present field
      has a non-whitespace character and the e-mail is present and has the
      shape of an address. Absent fields other than the e-mail pass. */
  lemma RegistrationAccepted(form: Registration)
    ensures !RegistrationRejected(form) <==>
      && HasText(form.fullName) && HasText(form.username) && HasText(form.password)
      && form.email.Some? && HasEmailShape(form.email.value)
  {
    NotBlankIffHasText(form.fullName);
    NotBlankIffHasText(form.username);
    NotBlankIffHasText(form.password);
    EmailCheckMeaning(form.email);
  }

  lemma NotBlankIffHasText(f: Option<string>)
    ensures !BlankField(f) <==> HasText(f)
  {
    if f.Some? { TrimEmptyIffAllWhitespace(f.value); }
  }

  /** The e-mail passes both of its checks exactly when it is present and
      has the shape of an address. */
  lemma EmailCheckMeaning(email: Option<string>)
    ensures (!BlankField(email) && IsValidEmail(if email.Some? then email.value else "undefined"))
            <==> email.Some? && HasEmailShape(email.value)
  {
    if email.Some? {
      var e := email.value;
      TrimEmptyIffAllWhitespace(e);
      EmailValidIffShape(e);
      if HasEmailShape(e) { assert !IsWhitespace(e[0]); }
    } else {
      UndefinedIsNoEmail();
    }
  }

  /** `coverImage?.url || ""`. */
  function CoverUrl(cover: Option<Upload>): string
  {
    if cover.Some? && cover.value.url != "" then cover.value.url else ""
  }

  /** The document `User.create` stores: the username lower-cased, the
      avatar's URL, the cover's URL or `""`, and no refresh token yet. */
  function NewUser(form: Registration, avatar: Upload, cover: Option<Upload>): (u: User)
    requires form.username.Some?
    ensures u.username == ToLowerCase(form.username.value) && u.refreshToken.None?
    ensures u.email == (if form.email.Some? then form.email.value else "")
  {
    User(ToLowerCase(form.username.value), if form.email.Some? then form.email.value else "",
         form.fullName, form.password, avatar.url, CoverUrl(cover), None)
  }

  // ---------------------------------------------------------------- the store

  class UserStore {
    var users: map<Id, User>
    var nextId: Id
    /** The fresh-value supply for tokens. */
    var nextSerial: nat
    /** `isPasswordCorrect`: the hash comparison, left abstract. */
    const passwordMatches: (Option<string>, Option<string>) -> bool

    ghost predicate Valid()
      reads this
    {
      forall id :: id in users ==> id < nextId && SlotIssuedBefore(users[id].refreshToken, id, nextSerial)
    }

    constructor (passwordMatches: (Option<string>, Option<string>) -> bool)
      ensures Valid() && users == map[] && this.passwordMatches == passwordMatches
    {
      users := map[];
      nextId := 0;
      nextSerial := 0;
      this.passwordMatches := passwordMatches;
    }

    /** `registerUser`: the 400 field checks, 409 when a user already has the
        username or the e-mail, 400 without an avatar file or when its
        upload failed; then one new user, username lower-cased. */
    method RegisterUser(form: Registration, avatarPath: Option<string>,
                        avatarUpload: Option<Upload>, coverUpload: Option<Upload>)
      returns (r: Result<UserView>)
      requires Valid()
      modifies this
      ensures Valid() && nextSerial == old(nextSerial)
      ensures RegistrationRejected(form) ==> r == Err(BadRequest)
      ensures !RegistrationRejected(form) && Found(old(users), form.username, form.email) ==> r == Err(Conflict)
      ensures !RegistrationRejected(form) && !Found(old(users), form.username, form.email) ==>
                if !Truthy(avatarPath) || avatarUpload.None? then r == Err(BadRequest)
                else if form.username.None? then r == Err(Unhandled)
                else r.Ok?
      ensures r.Err? ==> users == old(users) && nextId == old(nextId)
      ensures r.Ok? ==>
                && old(nextId) !in old(users)
                && form.username.Some? && avatarUpload.Some?
                && users == old(users)[old(nextId) := NewUser(form, avatarUpload.value, coverUpload)]
                && r.value == ViewOf(old(nextId), users[old(nextId)])
    {
      if RegistrationRejected(form) {
        return Err(BadRequest);
      }
      if Found(users, form.username, form.email) {
        return Err(Conflict);
      }
      if !Truthy(avatarPath) || avatarUpload.None? {
        return Err(BadRequest);
      }
      if form.username.None? {
        return Err(Unhandled);
      }
      var u := NewUser(form, avatarUpload.value, coverUpload);
      var id := nextId;
      users := users[id := u];
      nextId := nextId + 1;
      r := Ok(ViewOf(id, u));
    }

    /** `generateAccessAndRefreshTokens`: a fresh pair for the user, whose
        refresh slot now holds the new refresh token; no other user changes.
        500 when the user is missing. */
    method GenerateAccessAndRefreshTokens(id: Id) returns (r: Result<TokenPair>)
      requires Valid()
      modifies this
      ensures Valid() && nextId == old(nextId)
      ensures id !in old(users) ==> r == Err(ServerError) && users == old(users) && nextSerial == old(nextSerial)
      ensures id in old(users) ==>
                && r == Ok(TokenPair(AccessToken(id, old(nextSerial)), RefreshToken(id, old(nextSerial))))
                && nextSerial == old(nextSerial) + 1
                && users == old(users)[id := old(users)[id].(refreshToken := Some(RefreshToken(id, old(nextSerial))))]
    {
      if id !in users {
        return Err(ServerError);
      }
      var pair := TokenPair(AccessToken(id, nextSerial), RefreshToken(id, nextSerial));
      nextSerial := nextSerial + 1;
      users := users[id := users[id].(refreshToken := Some(pair.refresh))];
      r := Ok(pair);
    }

    /** `loginUser`: 400 with neither username nor e-mail, 404 when no user
        matches, 401 on a wrong password; otherwise a new token pair, whose
        refresh token overwrites the user's slot. Failures change nothing. */
    method LoginUser(username: Option<string>, email: Option<string>, password: Option<string>)
      returns (r: Result<Session>)
      requires Valid()
      modifies this
      ensures Valid() && nextId == old(nextId)
      ensures !Truthy(username) && !Truthy(email) ==> r == Err(BadRequest)
      ensures (Truthy(username) || Truthy(email)) && !Found(old(users), username, email) ==> r == Err(NotFound)
      ensures && (Truthy(username) || Truthy(email))
              && Found(old(users), username, email)
              && (forall id :: id in old(users) && MatchesEither(old(users)[id], username, email) ==>
                                 !passwordMatches(old(users)[id].password, password))
              ==> r == Err(Unauthorized)
      ensures && (Truthy(username) || Truthy(email))
              && Found(old(users), username, email)
              && (forall id :: id in old(users) && MatchesEither(old(users)[id], username, email) ==>
                                 passwordMatches(old(users)[id].password, password))
              ==> r.Ok?
      ensures r.Err? ==> users == old(users) && nextSerial == old(nextSerial)
      ensures r.Ok? ==>
                var id := r.value.user.id;
                && (Truthy(username) || Truthy(email))
                && id in old(users)
                && MatchesEither(old(users)[id], username, email)
                && passwordMatches(old(users)[id].password, password)
                && r.value.tokens == TokenPair(AccessToken(id, old(nextSerial)), RefreshToken(id, old(nextSerial)))
                && nextSerial == old(nextSerial) + 1
                && users == old(users)[id := old(users)[id].(refreshToken := Some(r.value.tokens.refresh))]
                && r.value.user == ViewOf(id, users[id])
    {
      if !Truthy(username) && !Truthy(email) {
        return Err(BadRequest);
      }
      if !Found(users, username, email) {
        return Err(NotFound);
      }
      var id :| id in users && MatchesEither(users[id], username, email);
      if !passwordMatches(users[id].password, password) {
        return Err(Unauthorized);
      }
      var pair := GenerateAccessAndRefreshTokens(id);
      r := Ok(Session(ViewOf(id, users[id]), pair.value));
    }

    /** `logoutUser`: `$unset` of the caller's refresh slot. */
    method LogoutUser(caller: Id)
      requires Valid()
      modifies this
      ensures Valid() && nextId == old(nextId) && nextSerial == old(nextSerial)
      ensures users == if caller in old(users)
                       then old(users)[caller := old(users)[caller].(refreshToken := None)]
                       else old(users)
    {
      if caller in users {
        users := users[caller := users[caller].(refreshToken := None)];
      }
    }

    /** `refreshAccessToken` for a token from the cookie or the body
        (`presented`) whose signature and expiry checked out or not
        (`verified`). Every failure is 401 and changes nothing; success
        needs the presented token to be the one in its user's slot, and
        rotates that slot to a fresh token. */
    method RefreshAccessToken(presented: Option<RefreshToken>, verified: bool)
      returns (r: Result<AccessToken>)
      requires Valid()
      modifies this
      ensures Valid() && nextId == old(nextId)
      ensures r.Err? ==> r.error == Unauthorized && users == old(users) && nextSerial == old(nextSerial)
      ensures r.Ok? <==> presented.Some? && verified && presented.value.subject in old(users)
                         && old(users)[presented.value.subject].refreshToken == presented
      ensures r.Ok? ==>
                var id := presented.value.subject;
                && r.value == AccessToken(id, old(nextSerial))
                && nextSerial == old(nextSerial) + 1
                && users == old(users)[id := old(users)[id].(refreshToken := Some(RefreshToken(id, old(nextSerial))))]
    {
      if presented.None? || !verified {
        return Err(Unauthorized);
      }
      var id := presented.value.subject;
      if id !in users || users[id].refreshToken != presented {
        return Err(Unauthorized);
      }
      var pair := GenerateAccessAndRefreshTokens(id);
      if pair.Err? {
        return Err(Unauthorized);
      }
      r := Ok(pair.value.access);
    }

    /** `changeCurrentPassword`: 400 when the old password does not match;
        otherwise the new password is stored and the refresh slot is kept. */
    method ChangeCurrentPassword(caller: Id, oldPassword: Option<string>, newPassword: Option<string>)
      returns (r: Result<()>)
      requires Valid()
      modifies this
      ensures Valid() && nextId == old(nextId) && nextSerial == old(nextSerial)
      ensures caller !in old(users) ==> r == Err(Unhandled)
      ensures caller in old(users) && !passwordMatches(old(users)[caller].password, oldPassword) ==> r == Err(BadRequest)
      ensures r.Err? ==> users == old(users)
      ensures r.Ok? <==> caller in old(users) && passwordMatches(old(users)[caller].password, oldPassword)
      ensures r.Ok? ==> users == old(users)[caller := old(users)[caller].(password := newPassword)]
    {
      if caller !in users {
        return Err(Unhandled);
      }
      if !passwordMatches(users[caller].password, oldPassword) {
        return Err(BadRequest);
      }
      users := users[caller := users[caller].(password := newPassword)];
      r := Ok(());
    }

    /** `updateAccountDetails`: 400 unless both full name and e-mail are
        given; then both are set, with no format or uniqueness check of the
        e-mail. A missing caller yields a null document. */
    method UpdateAccountDetails(caller: Id, fullName: Option<string>, email: Option<string>)
      returns (r: Result<Option<AccountView>>)
      requires Valid()
      modifies this
      ensures Valid() && nextId == old(nextId) && nextSerial == old(nextSerial)
      ensures !Truthy(fullName) || !Truthy(email) ==> r == Err(BadRequest) && users == old(users)
      ensures Truthy(fullName) && Truthy(email) && caller !in old(users) ==> r == Ok(None) && users == old(users)
      ensures Truthy(fullName) && Truthy(email) && caller in old(users) ==>
                && users == old(users)[caller := old(users)[caller].(fullName := fullName, email := email.value)]
                && r == Ok(Some(AccountView(ViewOf(caller, users[caller]), users[caller].refreshToken)))
    {
      if !Truthy(fullName) || !Truthy(email) {
        return Err(BadRequest);
      }
      if caller !in users {
        return Ok(None);
      }
      users := users[caller := users[caller].(fullName := fullName, email := email.value)];
      r := Ok(Some(AccountView(ViewOf(caller, users[caller]), users[caller].refreshToken)));
    }
  }

  // ---------------------------------------------------------------- sessions

  /** A refresh token works once: after it rotated the slot, presenting it
      again fails with 401. */
  method RefreshTwice(store: UserStore, t: RefreshToken, firstVerified: bool, secondVerified: bool)
    returns (first: Result<AccessToken>, second: Result<AccessToken>)
    requires store.Valid()
    modifies store
    ensures store.Valid()
    ensures first.Ok? ==> second == Err(Unauthorized)
  {
    ghost var before := store.nextSerial;
    ghost var slotHeld := t.subject in store.users && store.users[t.subject].refreshToken == Some(t);
    first := store.RefreshAccessToken(Some(t), firstVerified);
    if first.Ok? {
      assert slotHeld;
      assert store.users[t.subject].refreshToken == Some(RefreshToken(t.subject, before));
    }
    second := store.RefreshAccessToken(Some(t), secondVerified);
  }

  /** After logout no refresh token of that user is accepted. */
  method LogoutThenRefresh(store: UserStore, caller: Id, t: RefreshToken, verified: bool)
    returns (r: Result<AccessToken>)
    requires store.Valid() && t.subject == caller
    modifies store
    ensures store.Valid()
    ensures r == Err(Unauthorized)
  {
    store.LogoutUser(caller);
    r := store.RefreshAccessToken(Some(t), verified);
  }

  /** A login leaves exactly one refresh token valid for that user: the one
      it just issued. Any earlier session's token is rejected. */
  method LoginThenRefresh(store: UserStore, username: Option<string>, email: Option<string>,
                          password: Option<string>, t: RefreshToken, verified: bool)
    returns (login: Result<Session>, refreshed: Result<AccessToken>)
    requires store.Valid()
    modifies store
    ensures store.Valid()
    ensures login.Ok? && t.subject == login.value.user.id ==>
              (refreshed.Ok? <==> verified && t == login.value.tokens.refresh)
  {
    login := store.LoginUser(username, email, password);
    refreshed := store.RefreshAccessToken(Some(t), verified);
  }
}
