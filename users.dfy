/** The user entity of the layered package (user/model/AppUser and Role are not
    part of this model; their fields are the ones AuthService reads and writes). */
module Users {

  datatype Role = USER | ADMIN

  /** Role.name(). */
  function RoleName(r: Role): string
  {
    match r
    case USER => "USER"
    case ADMIN => "ADMIN"
  }

  /** A persisted account: generated id, normalised e-mail and an encoded password. */
  datatype AppUser = AppUser(id: int, fullName: string, email: string, passwordHash: string, role: Role)
}
