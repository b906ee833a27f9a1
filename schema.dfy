/** The five record types the store keeps, and the payloads their `create*`
    operations accept. Field types and nullability follow the table
    declarations: `None` is SQL null (or an omitted optional field). */
module Schema {
  import opened Base

  datatype User = User(
    id: string,
    username: string,
    email: string,
    password: string,
    profile: Json,
    createdAt: int)

  datatype InsertUser = InsertUser(
    username: string,
    email: string,
    password: string,
    profile: Option<Json>)

  /** `Partial<User>`: each present field overrides the stored one. */
  datatype UserPatch = UserPatch(
    id: Option<string>,
    username: Option<string>,
    email: Option<string>,
    password: Option<string>,
    profile: Option<Json>,
    createdAt: Option<int>)

  datatype QuizResult = QuizResult(
    id: string,
    userId: Option<string>,
    answers: Json,
    results: Json,
    createdAt: int)

  datatype InsertQuizResult = InsertQuizResult(
    userId: Option<string>,
    answers: Json,
    results: Json)

  /** A college's `streams` column is untyped JSON: either an array of stream
      names or anything else. */
  datatype Streams = StreamList(names: seq<string>) | Malformed

  datatype College = College(
    id: string,
    name: string,
    location: string,
    state: string,
    kind: string,
    streams: Streams,
    facilities: Json,
    cutoffs: Json,
    isActive: bool)

  datatype InsertCollege = InsertCollege(
    name: string,
    location: string,
    state: string,
    kind: string,
    streams: Streams,
    facilities: Option<Json>,
    cutoffs: Option<Json>)

  /** A deadline is a point in time, in milliseconds. */
  datatype Timeline = Timeline(
    id: string,
    title: string,
    description: Option<string>,
    kind: string,
    deadline: int,
    streams: Json,
    isActive: bool)

  datatype InsertTimeline = InsertTimeline(
    title: string,
    description: Option<string>,
    kind: string,
    deadline: int,
    streams: Option<Json>)

  datatype SavedItem = SavedItem(
    id: string,
    userId: Option<string>,
    itemType: string,
    itemId: string,
    createdAt: int)

  datatype InsertSavedItem = InsertSavedItem(
    userId: Option<string>,
    itemType: string,
    itemId: string)

  /** `{ ...user, ...updates }`: every field present in the patch wins. */
  function MergeUser(u: User, p: UserPatch): (r: User)
    ensures p == UserPatch(None, None, None, None, None, None) ==> r == u
    ensures p.id.Some? ==> r.id == p.id.value
    ensures p.id.None? ==> r.id == u.id
    ensures p.username.Some? ==> r.username == p.username.value
    ensures p.username.None? ==> r.username == u.username
    ensures p.email.Some? ==> r.email == p.email.value
    ensures p.email.None? ==> r.email == u.email
    ensures p.password.Some? ==> r.password == p.password.value
    ensures p.password.None? ==> r.password == u.password
    ensures p.profile.Some? ==> r.profile == p.profile.value
    ensures p.profile.None? ==> r.profile == u.profile
    ensures p.createdAt.Some? ==> r.createdAt == p.createdAt.value
    ensures p.createdAt.None? ==> r.createdAt == u.createdAt
  {
    User(
      p.id.GetOr(u.id),
      p.username.GetOr(u.username),
      p.email.GetOr(u.email),
      p.password.GetOr(u.password),
      p.profile.GetOr(u.profile),
      p.createdAt.GetOr(u.createdAt))
  }
}
