/** The records of `lib/types.ts`. */
module Types {
  import opened Wrappers

  /** One saved link; every field is a string, as the data store returns it. */
  datatype Bookmark = Bookmark(id: string, user_id: string, title: string, url: string, created_at: string)

  /** The identity provider's profile fields that the header reads. */
  datatype Metadata = Metadata(full_name: Option<string>, avatar_url: Option<string>, name: Option<string>)

  /** The signed-in user; `email` and `user_metadata` may be absent. */
  datatype User = User(id: string, email: Option<string>, user_metadata: Option<Metadata>)
}
