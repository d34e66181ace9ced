/** lib/atm/users.ts: turning a Supabase auth user into the application's `User`, and the
    branches around the Supabase admin calls (whose responses are inputs here). */
module Users {
  import opened Wrappers
  import opened Types

  /** The fields of a Supabase auth user that this code reads. */
  datatype SupabaseUser = SupabaseUser(id: string, email: Option<string>, userMetadata: map<string, Json>)

  /** An error object returned by the Supabase client. */
  datatype ServiceError = ServiceError(message: string, status: Option<int>)

  /** `{ error, data: { user } }` as returned by `auth.admin.getUserById`. */
  datatype UserResponse = UserResponse(error: Option<ServiceError>, user: Option<SupabaseUser>)

  datatype UserError =
    | ServiceFailed(cause: ServiceError)
    | UserNotFound(userId: string)
    | MetadataInvalid(schemaError: SchemaError)

  /** `transformSupabaseUserToUser`: id and email from the auth user, names from its metadata
      (the schema's parse throws on a malformed name). */
  function TransformSupabaseUserToUser(su: SupabaseUser): (r: Result<User, SchemaError>)
    ensures r.Success? <==> ParseUserMetadata(su.userMetadata).Success?
    ensures r.Success? ==> r.value.id == su.id && r.value.email == su.email
    ensures r.Success? ==>
      r.value.firstName == ParseUserMetadata(su.userMetadata).value.firstName &&
      r.value.lastName == ParseUserMetadata(su.userMetadata).value.lastName
  {
    match ParseUserMetadata(su.userMetadata)
    case Failure(e) => Failure(e)
    case Success(metadata) => Success(User(su.id, su.email, metadata.firstName, metadata.lastName))
  }

  /** The names of a transformed user are those stored under `firstName` and `lastName`, null
      when a key is absent or null; any other stored value makes the transform fail. */
  lemma TransformNames(su: SupabaseUser)
    ensures TransformSupabaseUserToUser(su).Success? <==>
      (forall k :: k in {"firstName", "lastName"} && k in su.userMetadata ==>
         su.userMetadata[k].JNull? || su.userMetadata[k].JString?)
    ensures TransformSupabaseUserToUser(su).Success? ==>
      var u := TransformSupabaseUserToUser(su).value;
      (u.firstName.Some? <==> "firstName" in su.userMetadata && su.userMetadata["firstName"].JString?) &&
      (u.firstName.Some? ==> su.userMetadata["firstName"] == JString(u.firstName.value)) &&
      (u.lastName.Some? <==> "lastName" in su.userMetadata && su.userMetadata["lastName"].JString?) &&
      (u.lastName.Some? ==> su.userMetadata["lastName"] == JString(u.lastName.value))
  {
    var m := su.userMetadata;
    if TransformSupabaseUserToUser(su).Success? {
      assert ParseNullableString(m, "firstName").Success?;
      assert ParseNullableString(m, "lastName").Success?;
    } else if ParseNullableString(m, "firstName").Failure? {
      assert "firstName" in {"firstName", "lastName"};
    } else {
      assert "lastName" in {"firstName", "lastName"};
    }
  }

  /** `getUserById`: a service error is rethrown, a missing user is `UserNotFoundError`. */
  function GetUserById(userId: string, response: UserResponse): (r: Result<User, UserError>)
    ensures response.error.Some? ==> r == Failure(ServiceFailed(response.error.value))
    ensures response.error.None? && response.user.None? ==> r == Failure(UserNotFound(userId))
    ensures r.Success? <==>
      response.error.None? && response.user.Some? &&
      TransformSupabaseUserToUser(response.user.value).Success?
    ensures r.Success? ==> r.value == TransformSupabaseUserToUser(response.user.value).value
  {
    if response.error.Some? then Failure(ServiceFailed(response.error.value))
    else if response.user.None? then Failure(UserNotFound(userId))
    else match TransformSupabaseUserToUser(response.user.value)
      case Failure(e) => Failure(MetadataInvalid(e))
      case Success(u) => Success(u)
  }

  /** `Partial<Omit<User, "id">>`: each key may be absent (`None`); a name may be null. */
  datatype UserPatch = UserPatch(email: Option<string>, firstName: Option<Option<string>>, lastName: Option<Option<string>>)

  /** The attributes sent to `auth.admin.updateUserById`. */
  datatype UserAttributes = UserAttributes(email: Option<string>, userMetadata: map<string, Json>)

  function NameJson(name: Option<string>): Json {
    if name.Some? then JString(name.value) else JNull
  }

  /** `updateUserById`: `email` goes apart; every other key present in the patch goes into
      `user_metadata`, as the object rest `...userMetadata` copies it. */
  function UpdateUserById(patch: UserPatch): (r: UserAttributes)
    ensures r.email == patch.email
    ensures r.userMetadata.Keys <= {"firstName", "lastName"}
    ensures "firstName" in r.userMetadata <==> patch.firstName.Some?
    ensures "lastName" in r.userMetadata <==> patch.lastName.Some?
  {
    var first := if patch.firstName.Some? then map["firstName" := NameJson(patch.firstName.value)] else map[];
    var last := if patch.lastName.Some? then map["lastName" := NameJson(patch.lastName.value)] else map[];
    UserAttributes(patch.email, first + last)
  }

  /** The metadata sent by `updateUserById` satisfies the metadata schema and parses back to
      the patch's names (an omitted name reads as null). */
  lemma UpdatedMetadataParses(patch: UserPatch)
    ensures ParseUserMetadata(UpdateUserById(patch).userMetadata) ==
      Success(SupabaseUserMetadata(patch.firstName.GetOr(None), patch.lastName.GetOr(None)))
  {
    var m := UpdateUserById(patch).userMetadata;
    assert ParseNullableString(m, "firstName") == Success(patch.firstName.GetOr(None));
    assert ParseNullableString(m, "lastName") == Success(patch.lastName.GetOr(None));
  }
}
