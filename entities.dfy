/** The domain records the modelled operations read and write. Timestamps are milliseconds. */
module Entities {
  import opened Wrappers

  datatype Post = Post(id: string, content: string, authorId: string, createdAt: nat)

  /** What `createPost` hands to the use case. */
  datatype CreatePostData = CreatePostData(content: string, authorId: string)

  /** One page of the feed and the cursor of the next page, if there is one. */
  datatype PostPage = PostPage(posts: seq<Post>, nextCursor: Option<string>)

  datatype User = User(
    id: string,
    email: string,
    username: string,
    password: string,
    name: Option<string>,
    bio: Option<string>,
    createdAt: nat)

  /** A user as returned to clients: every field but the password. */
  datatype PublicUser = PublicUser(
    id: string,
    email: string,
    username: string,
    name: Option<string>,
    bio: Option<string>,
    createdAt: nat)

  datatype CreateUserData = CreateUserData(email: string, username: string, password: string, name: Option<string>)

  datatype Follow = Follow(id: string, followerId: string, followingId: string, createdAt: nat)
}
