/** Conversions between a user and its transfer object. */
module UserMapper {
  import opened Model

  function ToDto(u: User): (d: UserDto)
    ensures d.id == u.id && d.name == u.name && d.email == u.email
  {
    UserDto(u.id, u.name, u.email)
  }

  function ToUser(d: UserDto): (u: User)
    ensures u.id == d.id && u.name == d.name && u.email == d.email
  {
    User(d.id, d.name, d.email)
  }

  /** Converting a user to a DTO and back loses nothing. */
  lemma UserRoundTrip(u: User)
    ensures ToUser(ToDto(u)) == u
  {
  }

  /** Converting a DTO to a user and back loses nothing. */
  lemma DtoRoundTrip(d: UserDto)
    ensures ToDto(ToUser(d)) == d
  {
  }
}
