/** AuthController.registerUser: sign-up with a duplicate-username guard and
    a role taken from the request. The password encoder is a parameter. */
module AuthController {
  import opened Domain
  import opened Repositories

  const UsernameTakenMessage: string := "Error: Username is already taken!"
  const RegisteredMessage: string := "User registered successfully!"

  /** registerUser: a taken username is answered with 400 and stores nothing;
      otherwise exactly one user is appended, with the request's username and
      email, the encoded password, and the role ADMIN exactly when the
      request names a role set that contains "admin" (EMPLOYEE otherwise).
      Afterwards the username is taken, so repeating the request is refused,
      and a sale by that username finds this user. */
  method RegisterUser(db: Database, request: RegisterRequest, encode: string -> string) returns (resp: Response)
    requires db.Valid()
    modifies db
    ensures db.Valid()
    ensures db.products == old(db.products) && db.categories == old(db.categories)
    ensures db.sales == old(db.sales) && db.nextProductId == old(db.nextProductId)
    ensures resp.BadRequest? <==> UsernameExists(old(db.users), request.username)
    ensures resp.BadRequest? ==> resp.body == UsernameTakenMessage && db.users == old(db.users)
    ensures resp.Success? ==>
              && resp.body == RegisteredMessage
              && |db.users| == |old(db.users)| + 1
              && db.users[..|old(db.users)|] == old(db.users)
              && var u := db.users[|old(db.users)|];
                 && u.username == request.username
                 && u.email == request.email
                 && u.password == encode(request.password)
                 && (u.role == Admin <==> request.role.Some? && "admin" in request.role.value)
                 && FindUser(db.users, request.username) == Some(u)
    ensures UsernameExists(db.users, request.username)
  {
    if UsernameExists(db.users, request.username) {
      return BadRequest(UsernameTakenMessage);
    }

    var userRole := Employee;
    if request.role.Some? && "admin" in request.role.value {
      userRole := Admin;
    }

    var user := User(|db.users| + 1, request.username, request.email, encode(request.password), userRole);
    AppendedUserIsFound(db.users, user);
    db.users := db.users + [user];

    resp := Success(RegisteredMessage);
  }
}
