/** The two persisted records, the defaults a new record receives, and the uniqueness
    constraints of their tables. */
module Models {
  import opened Wrappers

  /** A UTC instant, in seconds; the clock itself is outside the model. */
  type Instant = int

  const TitleMaxLength := 255

  /** A row of the `urls` table. */
  datatype Url = Url(
    id: string,
    originalUrl: string,
    shortCode: string,
    userId: string,
    title: Option<string>,
    clicks: nat,
    isActive: bool,
    createdAt: Instant,
    updatedAt: Instant)

  /** A row of the `users` table. */
  datatype User = User(
    id: string,
    email: string,
    hashedPassword: string,
    isActive: bool,
    createdAt: Instant,
    updatedAt: Instant)

  /** `URL(original_url=…, short_code=…, user_id=…, title=…)`: the generated `id` and the
      creation instant `now` are supplied by the caller; all other columns take their defaults. */
  function NewUrl(id: string, originalUrl: string, shortCode: string, userId: string,
                  title: Option<string>, now: Instant): (u: Url)
    ensures u.id == id && u.originalUrl == originalUrl && u.shortCode == shortCode
    ensures u.userId == userId && u.title == title
    ensures u.clicks == 0 && u.isActive
    ensures u.createdAt == now && u.updatedAt == now
  {
    Url(id, originalUrl, shortCode, userId, title, 0, true, now, now)
  }

  /** `User(email=…, hashed_password=…)` with a generated `id` and creation instant `now`. */
  function NewUser(id: string, email: string, hashedPassword: string, now: Instant): (u: User)
    ensures u.id == id && u.email == email && u.hashedPassword == hashedPassword
    ensures u.isActive
    ensures u.createdAt == now && u.updatedAt == now
  {
    User(id, email, hashedPassword, true, now, now)
  }

  /** The primary-key and unique-index constraints of `urls`. */
  ghost predicate UrlTableConstraints(rows: seq<Url>) {
    && (forall i, j :: 0 <= i < |rows| && 0 <= j < |rows| && rows[i].id == rows[j].id ==> i == j)
    && (forall i, j :: 0 <= i < |rows| && 0 <= j < |rows| && rows[i].shortCode == rows[j].shortCode ==> i == j)
  }

  /** The primary-key and unique-index constraints of `users`. */
  ghost predicate UserTableConstraints(users: seq<User>) {
    && (forall i, j :: 0 <= i < |users| && 0 <= j < |users| && users[i].id == users[j].id ==> i == j)
    && (forall i, j :: 0 <= i < |users| && 0 <= j < |users| && users[i].email == users[j].email ==> i == j)
  }
}
