/**
 * Registration: the request body is checked against the registration
 * schema, then the username and email must be free, then both images must
 * be present and uploaded, and only then is the account created. When the
 * creation fails, both uploaded images are deleted again.
 */
module UserController {
  import opened Tables
  import opened Records
  import opened Store

  /** The fields of the registration body; a field that is absent or not a string is None. */
  datatype Registration = Registration(username: Option<string>, email: Option<string>, password: Option<string>, fullname: Option<string>)

  /** A field of the registration schema. */
  datatype Field = Username | Email | Password | Fullname

  const MinUsernameLength := 3
  const MinPasswordLength := 6
  const MinFullnameLength := 3

  /** A string field that is present and at least `min` characters long. */
  predicate AtLeast(s: Option<string>, min: nat)
  {
    s.Some? && |s.value| >= min
  }

  /**
   * The fields registerSchema rejects: a username shorter than 3, an email
   * the email format refuses, a password shorter than 6, a full name
   * shorter than 3, and any field that is missing.
   */
  function SchemaErrors(body: Registration, isEmail: string -> bool): (errs: set<Field>)
    ensures Username in errs <==> !AtLeast(body.username, MinUsernameLength)
    ensures Email in errs <==> body.email.None? || !isEmail(body.email.value)
    ensures Password in errs <==> !AtLeast(body.password, MinPasswordLength)
    ensures Fullname in errs <==> !AtLeast(body.fullname, MinFullnameLength)
  {
    (if AtLeast(body.username, MinUsernameLength) then {} else {Username})
    + (if body.email.Some? && isEmail(body.email.value) then {} else {Email})
    + (if AtLeast(body.password, MinPasswordLength) then {} else {Password})
    + (if AtLeast(body.fullname, MinFullnameLength) then {} else {Fullname})
  }

  /** The body passes the schema exactly when every field is present and long enough and the email is well formed. */
  lemma SchemaAccepts(body: Registration, isEmail: string -> bool)
    ensures SchemaErrors(body, isEmail) == {} <==>
      && AtLeast(body.username, MinUsernameLength) && AtLeast(body.password, MinPasswordLength)
      && AtLeast(body.fullname, MinFullnameLength) && body.email.Some? && isEmail(body.email.value)
  {
    if SchemaErrors(body, isEmail) == {} {
      assert Username !in SchemaErrors(body, isEmail);
      assert Email !in SchemaErrors(body, isEmail);
      assert Password !in SchemaErrors(body, isEmail);
      assert Fullname !in SchemaErrors(body, isEmail);
    }
  }

  /** `User.findOne({ $or: [{ username }, { email }] })` found someone. */
  function Taken(users: Table<User>, username: string, email: string): (b: bool)
    ensures b <==> exists k :: 0 <= k < |users| && (users[k].doc.username == username || users[k].doc.email == email)
  {
    if |users| == 0 then false
    else if users[0].doc.username == username || users[0].doc.email == email then true
    else
      assert forall k :: 1 <= k < |users| ==> users[k] == users[1..][k - 1];
      Taken(users[1..], username, email)
  }

  /**
   * Once registered, a username or email is taken: the same registration
   * made again is refused.
   */
  lemma RegisteredIsTaken(users: Table<User>, clock: nat, u: User)
    ensures Taken(users + [Row(clock, clock, u)], u.username, u.email)
  {
    assert (users + [Row(clock, clock, u)])[|users|].doc == u;
  }

  /** Adding an account whose username and email are free keeps every account unique. */
  lemma FreshAccountUnique(users: Table<User>, clock: nat, u: User)
    requires AccountsUnique(users) && !Taken(users, u.username, u.email)
    ensures AccountsUnique(users + [Row(clock, clock, u)])
  {
    var t := users + [Row(clock, clock, u)];
    forall i, j | 0 <= i < j < |t|
      ensures t[i].doc.username != t[j].doc.username && t[i].doc.email != t[j].doc.email
    {
      assert t[i] == users[i];
      if j < |users| {
        assert t[j] == users[j];
      }
    }
  }

  /** A call to the media service. */
  datatype MediaCall = UploadFile(path: string) | DeleteFile(publicId: string)

  /**
   * registerUser, step by step: the schema (400 with the failing fields),
   * a taken username or email (410), both image paths (409), the avatar
   * upload, then the banner upload (409 each, the banner is not attempted
   * when the avatar fails), then the creation. A failed creation
   * (`createOk` false) deletes both uploaded images before replying 408.
   * `media` lists the calls made to the media service, in order.
   */
  method RegisterUser(db: Db, body: Registration, isEmail: string -> bool,
                      avatarPath: Option<string>, bannerPath: Option<string>,
                      avatarUpload: Upload, bannerUpload: Upload, createOk: bool)
    returns (r: Response<PublicUser>, fieldErrors: set<Field>, media: seq<MediaCall>)
    requires db.Valid()
    modifies db`users, db`clock
    ensures db.Valid()
    ensures fieldErrors == SchemaErrors(body, isEmail)
    ensures fieldErrors != {} ==> r == Err(400, "Validation failed") && media == []
    ensures fieldErrors == {} && Taken(old(db.users), body.username.value, body.email.value) ==>
      r == Err(410, "User already exists") && media == []
    ensures fieldErrors == {} && !Taken(old(db.users), body.username.value, body.email.value) ==>
      && (!Given(avatarPath) || !Given(bannerPath) ==> r == Err(409, "Avatar and banner are required") && media == [])
      && (Given(avatarPath) && Given(bannerPath) && avatarUpload.UploadFailed? ==>
            r == Err(409, "Error uploading avatar") && media == [UploadFile(avatarPath.value)])
      && (Given(avatarPath) && Given(bannerPath) && avatarUpload.Uploaded? && bannerUpload.UploadFailed? ==>
            r == Err(409, "Error uploading banner") && media == [UploadFile(avatarPath.value), UploadFile(bannerPath.value)])
      && (Given(avatarPath) && Given(bannerPath) && avatarUpload.Uploaded? && bannerUpload.Uploaded? && !createOk ==>
            && r == Err(408, "Error creating user")
            && media == [UploadFile(avatarPath.value), UploadFile(bannerPath.value),
                         DeleteFile(avatarUpload.asset.publicId), DeleteFile(bannerUpload.asset.publicId)])
    ensures r.Ok? <==>
      && fieldErrors == {} && !Taken(old(db.users), body.username.value, body.email.value)
      && Given(avatarPath) && Given(bannerPath) && avatarUpload.Uploaded? && bannerUpload.Uploaded? && createOk
    ensures !r.Ok? ==> db.users == old(db.users) && db.clock == old(db.clock)
    ensures r.Ok? ==>
      var row := Row(old(db.clock), old(db.clock),
                     User(body.username.value, body.email.value, body.fullname.value, body.password.value,
                          avatarUpload.asset.url, bannerUpload.asset.url, "", []));
      && db.users == old(db.users) + [row]
      && db.clock == old(db.clock) + 1
      && r == Ok(Public(row))
      && media == [UploadFile(avatarPath.value), UploadFile(bannerPath.value)]
  {
    media := [];
    fieldErrors := SchemaErrors(body, isEmail);
    if fieldErrors != {} {
      return Err(400, "Validation failed"), fieldErrors, media;
    }
    SchemaAccepts(body, isEmail);
    var username, email, password, fullname := body.username.value, body.email.value, body.password.value, body.fullname.value;
    if Taken(db.users, username, email) {
      return Err(410, "User already exists"), fieldErrors, media;
    }
    if !Given(avatarPath) || !Given(bannerPath) {
      return Err(409, "Avatar and banner are required"), fieldErrors, media;
    }
    media := media + [UploadFile(avatarPath.value)];
    if avatarUpload.UploadFailed? {
      return Err(409, "Error uploading avatar"), fieldErrors, media;
    }
    media := media + [UploadFile(bannerPath.value)];
    if bannerUpload.UploadFailed? {
      return Err(409, "Error uploading banner"), fieldErrors, media;
    }
    if !createOk {
      media := media + [DeleteFile(avatarUpload.asset.publicId), DeleteFile(bannerUpload.asset.publicId)];
      return Err(408, "Error creating user"), fieldErrors, media;
    }
    var u := User(username, email, fullname, password, avatarUpload.asset.url, bannerUpload.asset.url, "", []);
    InsertWellFormed(db.users, db.clock, u);
    FreshAccountUnique(db.users, db.clock, u);
    db.users := Insert(db.users, db.clock, u);
    r := Ok(Public(db.users[|db.users| - 1]));
    db.clock := db.clock + 1;
  }
}
