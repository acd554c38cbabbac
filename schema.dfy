/**
 * The record types the server stores and answers with.
 *
 * `Activity` has the columns of the `activities` table; a `User` is whatever
 * object the register handler passed to `createUser`, with `id` added by the
 * store.  JSON fields other than `username`, `password` and `id` are kept in
 * `extras`, so that a handler that copies the whole request body can be told
 * apart from one that copies only the two named fields.
 */
module Schema {

  datatype Activity = Activity(
    id: int,
    name: string,
    description: string,
    category: string,
    imageUrl: string,
    originalPrice: int,
    discountPercentage: int,
    isActive: bool)

  /** The argument of `createUser`: a user record before the store gives it an id. */
  datatype InsertUser = InsertUser(username: string, password: string, extras: map<string, string>)

  datatype User = User(id: int, username: string, password: string, extras: map<string, string>)

  /** The category names the client offers. */
  const Categories: seq<string> :=
    ["Sports", "Education", "Entertainment", "Dining", "Wellness", "Adventure", "Arts", "Travel"]
}
