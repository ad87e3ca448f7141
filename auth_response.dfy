/** The stored account record and the response bodies built from it. */
module Entities {
  import opened Uuids

  /** An instant, as the seconds of its Unix timestamp. */
  type Timestamp = int

  /** A row of the `users` table. */
  datatype User = User(
    id: Uuid,
    email: string,
    username: string,
    passwordHash: string,
    createdAt: Timestamp,
    updatedAt: Timestamp)

  /** What the service hands to the repository's `create`. */
  datatype NewUser = NewUser(email: string, username: string, passwordHash: string)
}

module AuthResponse {
  import opened Uuids
  import opened Entities

  datatype RegisterResponse = RegisterResponse(id: Uuid, email: string, username: string, createdAt: Timestamp)

  datatype UserInfo = UserInfo(id: Uuid, email: string, username: string)

  datatype LoginResponse = LoginResponse(accessToken: string, tokenType: string, expiresIn: int, user: UserInfo)

  /** `RegisterResponse::from(user)`: copies id, email, username and creation time. */
  function RegisterResponseFrom(user: User): (r: RegisterResponse)
    ensures r.id == user.id && r.email == user.email && r.username == user.username
    ensures r.createdAt == user.createdAt
  {
    RegisterResponse(user.id, user.email, user.username, user.createdAt)
  }

  /** `UserInfo::from(user)`: copies id, email and username. */
  function UserInfoFrom(user: User): (r: UserInfo)
    ensures r.id == user.id && r.email == user.email && r.username == user.username
  {
    UserInfo(user.id, user.email, user.username)
  }

  /** Neither projection depends on the password hash (nor on the update time): two records
      that differ there give equal responses, so no response carries the hash. */
  lemma ProjectionsIgnoreHash(user: User, otherHash: string, otherUpdate: Timestamp)
    ensures RegisterResponseFrom(user.(passwordHash := otherHash, updatedAt := otherUpdate)) == RegisterResponseFrom(user)
    ensures UserInfoFrom(user.(passwordHash := otherHash, updatedAt := otherUpdate)) == UserInfoFrom(user)
  {
  }

  /** A login response is its token fields plus a `UserInfo`; it too is the same for two
      records that differ only in their hash. */
  lemma LoginResponseIgnoresHash(token: string, tokenType: string, expiresIn: int, user: User, otherHash: string)
    ensures LoginResponse(token, tokenType, expiresIn, UserInfoFrom(user.(passwordHash := otherHash)))
         == LoginResponse(token, tokenType, expiresIn, UserInfoFrom(user))
  {
  }

  /** The projections keep the identity: two records with the same projection agree on id,
      email and username. */
  lemma ProjectionsKeepIdentity(a: User, b: User)
    requires UserInfoFrom(a) == UserInfoFrom(b)
    ensures a.id == b.id && a.email == b.email && a.username == b.username
    ensures RegisterResponseFrom(a).id == RegisterResponseFrom(b).id
  {
  }
}
