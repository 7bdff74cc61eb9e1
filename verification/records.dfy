/** The records of the two persisted collections, the outcomes of the
    handlers, and the shape of one handler step: a result together with the
    collection it leaves behind.
 */
module Records {

  /** The role every registered user receives. */
  const DefaultRole: string := "user"

  /** The role that may delete any post. */
  const AdminRole: string := "admin"

  /** One element of the users collection. `password` holds the salted hash, never the plaintext. */
  datatype User = User(
    id: string,
    username: string,
    email: string,
    password: string,
    mobile: string,
    role: string,
    followers: seq<string>,
    following: seq<string>)

  /** One comment of a post; `replies` is reserved and always empty when created. */
  datatype Comment = Comment(id: string, userId: string, text: string, replies: seq<Comment>)

  /** One element of the posts collection. `userId` is the owner. `isPublic` is read by
      the listing but no handler sets it, so a created post has it false (absent). */
  datatype Post = Post(
    id: string,
    userId: string,
    title: string,
    description: string,
    comments: seq<Comment>,
    likes: seq<string>,
    isPublic: bool)

  /** The failure responses the handlers send: 400, 401, 404 and 403. */
  datatype Error = DuplicateUser | InvalidCredentials | PostNotFound | PermissionDenied

  datatype Result<+T> = Ok(value: T) | Err(error: Error)

  /** A handler's response together with the collection it writes back (the one it read, when it writes nothing). */
  datatype Step<+T, +R> = Step(result: Result<T>, records: seq<R>)
}
