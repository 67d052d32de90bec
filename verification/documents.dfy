/** The three collections of the blog's document store and the invariants
    the handlers are meant to keep over them. */
module Documents {
  import opened Common

  /** A stored user; `password` holds the bcrypt digest, never the plaintext. */
  datatype User = User(name: string, email: string, password: string)

  /** A user as `select('-password')` and `populate('author', 'name email')`
      hand it out: everything but the password digest. */
  datatype PublicUser = PublicUser(id: Id, name: string, email: string)

  /** A post. `likes` is the array of liker ids, in the order they liked. */
  datatype Post = Post(title: string, content: string, author: Id, likes: seq<Id>)

  /** A comment on the post `post`. The controller stores the body's
      `content` as it came, so it may be absent. */
  datatype Comment = Comment(content: Field, author: Id, post: Id, createdAt: int)

  /** The three collections, and the id the next created document will
      receive: ids come from one counter shared by all collections. */
  datatype Store = Store(users: map<Id, User>, posts: map<Id, Post>, comments: map<Id, Comment>, nextId: Id)

  /** The user record without its password digest. */
  function Public(id: Id, u: User): PublicUser {
    PublicUser(id, u.name, u.email)
  }

  /** The author as `populate` joins it in; a dangling reference joins to null. */
  function Populate(users: map<Id, User>, id: Id): Option<PublicUser> {
    if id in users then Some(Public(id, users[id])) else None
  }

  /** No two users share an email address. */
  ghost predicate UniqueEmails(users: map<Id, User>) {
    forall a, b :: a in users && b in users && users[a].email == users[b].email ==> a == b
  }

  /** No post is liked twice by the same user. */
  ghost predicate LikersDistinct(posts: map<Id, Post>) {
    forall id :: id in posts ==> NoDup(posts[id].likes)
  }

  /** Every post and comment was written by a registered user. */
  ghost predicate AuthorsRegistered(s: Store) {
    && (forall id :: id in s.posts ==> s.posts[id].author in s.users)
    && (forall id :: id in s.comments ==> s.comments[id].author in s.users)
  }

  /** Every id in use, as a key or as the post a comment belongs to, was
      issued before `nextId`; so `nextId` is unused everywhere. */
  ghost predicate IdsIssued(s: Store) {
    && (forall id :: id in s.users ==> id < s.nextId)
    && (forall id :: id in s.posts ==> id < s.nextId)
    && (forall id :: id in s.comments ==> id < s.nextId && s.comments[id].post < s.nextId)
  }

  /** The store invariant. Comments are deliberately not required to point
      at an existing post: deleting a post leaves its comments behind. */
  ghost predicate Valid(s: Store) {
    UniqueEmails(s.users) && LikersDistinct(s.posts) && AuthorsRegistered(s) && IdsIssued(s)
  }
}
