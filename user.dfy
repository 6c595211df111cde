/** User identifiers and users, built only through the validating factories
    `createUserId` and `createUser` (src/domain/model/user.ts). */
module UserModel {
  import opened Common
  import opened Strings

  datatype UserId = UserId(value: string)

  datatype User = User(id: UserId, email: string, name: string)

  const IdEmptyMessage := "User ID cannot be empty"
  const InvalidEmailMessage := "Invalid email address"
  const NameEmptyMessage := "Name cannot be empty"

  /** `createUserId`: fails exactly when the value is empty or all
      whitespace; otherwise the id is the trimmed value, which is not empty. */
  function CreateUserId(value: string): (r: Result<UserId>)
    ensures r.Err? <==> AllWhitespace(value)
    ensures r.Err? ==> r.message == IdEmptyMessage
    ensures r.Ok? ==> r.value.value == Trim(value) && r.value.value != ""
  {
    if value == "" || |Trim(value)| == 0 then Err(IdEmptyMessage)
    else Ok(UserId(Trim(value)))
  }

  /** Re-creating an id from the value of a created id gives that same id. */
  lemma CreateUserIdIdempotent(value: string)
    requires CreateUserId(value).Ok?
    ensures CreateUserId(CreateUserId(value).value.value) == CreateUserId(value)
  {
    TrimIdempotent(value);
  }

  /** A well-formed user: what `createUser` guarantees of every user it returns. */
  predicate ValidUser(u: User) {
    && u.id.value != ""
    && '@' in u.email
    && u.email == ToLower(u.email) && u.email == Trim(u.email)
    && u.name != "" && u.name == Trim(u.name)
  }

  /** `createUser`: the email is checked first (it must contain '@', so it
      is not empty), then the name (it must not be empty or all whitespace);
      on success the id is kept, the email is trimmed then lower-cased, and
      the name is trimmed. */
  function CreateUser(id: UserId, email: string, name: string): (r: Result<User>)
    ensures '@' !in email ==> r == Err(InvalidEmailMessage)
    ensures '@' in email && AllWhitespace(name) ==> r == Err(NameEmptyMessage)
    ensures '@' in email && !AllWhitespace(name) ==>
      r == Ok(User(id, ToLower(Trim(email)), Trim(name)))
  {
    if email == "" || '@' !in email then Err(InvalidEmailMessage)
    else if name == "" || |Trim(name)| == 0 then Err(NameEmptyMessage)
    else Ok(User(id, ToLower(Trim(email)), Trim(name)))
  }

  /** A created user still has an '@' in its email and a non-empty name, and
      normalising its fields again changes nothing. */
  lemma CreatedUserIsValid(id: UserId, email: string, name: string)
    requires id.value != ""
    requires CreateUser(id, email, name).Ok?
    ensures ValidUser(CreateUser(id, email, name).value)
  {
    var u := CreateUser(id, email, name).value;
    var k :| 0 <= k < |email| && email[k] == '@';
    TrimKeeps(email, k);
    ToLowerKeeps(Trim(email), '@');
    ToLowerIdempotent(Trim(email));
    TrimIdempotent(name);
    LowerTrimCommute(Trim(email));
  }

  /** Every user built from an id that `createUserId` accepts and fields
      that `createUser` accepts is valid. */
  lemma FactoryUserIsValid(value: string, email: string, name: string)
    requires CreateUserId(value).Ok?
    requires CreateUser(CreateUserId(value).value, email, name).Ok?
    ensures ValidUser(CreateUser(CreateUserId(value).value, email, name).value)
  {
    CreatedUserIsValid(CreateUserId(value).value, email, name);
  }

  /** Folding case keeps a trimmed string trimmed. */
  lemma LowerTrimCommute(t: string)
    requires Trim(t) == t
    ensures Trim(ToLower(t)) == ToLower(t)
  {
    var l := ToLower(t);
    if t != [] {
      LowerKeepsNonWhitespace(t[0]);
      LowerKeepsNonWhitespace(t[|t| - 1]);
    }
    TrimUnchanged(l);
  }

  lemma LowerKeepsNonWhitespace(c: char)
    requires !IsWhitespace(c)
    ensures !IsWhitespace(LowerChar(c))
  {
  }
}
