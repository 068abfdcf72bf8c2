/** The records the routes read and write, and the store that holds one table of each. */
module Store {
  import opened Common
  import opened Tables

  /** `users` */
  datatype User = User(
    username: string,
    email: string,
    passwordHash: string,
    role: string,
    isActive: bool,
    emailVerified: bool,
    lastLogin: Option<int>)

  /** `profiles`: one per user, keyed by `userId`. */
  datatype Profile = Profile(
    userId: nat,
    fullName: Option<string>,
    bio: Option<string>,
    location: Option<string>,
    website: Option<string>,
    gender: Option<string>,
    phone: Option<string>,
    birthday: Option<string>,
    avatarUrl: Option<string>,
    coverUrl: Option<string>,
    privacy: string)

  /** `user_settings`: one per user, keyed by `userId`. */
  datatype Settings = Settings(
    userId: nat,
    emailNotifications: bool,
    pushNotifications: bool,
    profileVisibility: string,
    postVisibility: string,
    theme: string,
    language: string,
    timezone: string)

  /** `messages` */
  datatype Message = Message(senderId: nat, receiverId: nat, content: string, isRead: bool, createdAt: int)

  /** `groups` */
  datatype Group = Group(
    name: string,
    description: Option<string>,
    coverUrl: Option<string>,
    privacy: string,
    createdBy: nat,
    memberCount: int,
    postCount: int)

  const OwnerRole := "owner"
  const AdminRole := "admin"
  const MemberRole := "member"

  /** `group_memberships`: the role is the text the routes compare against. */
  datatype Membership = Membership(groupId: nat, userId: nat, role: string)

  datatype FriendStatus = Pending | Accepted | Blocked

  /** `friendships`: a directed row from `userId` to `friendId`. */
  datatype Friendship = Friendship(userId: nat, friendId: nat, status: FriendStatus, acceptedAt: Option<int>)

  /** `posts` */
  datatype Post = Post(
    userId: nat,
    content: Option<string>,
    groupId: Option<nat>,
    privacy: string,
    mediaUrl: Option<string>,
    likesCount: int,
    commentsCount: int,
    sharesCount: int,
    createdAt: int)

  /** `likes` */
  datatype Like = Like(userId: nat, postId: nat)

  /** `comments` */
  datatype Comment = Comment(postId: nat, userId: nat, content: string, likesCount: int, createdAt: int)

  /** `events`; dates are instants in milliseconds. */
  datatype Event = Event(
    title: string,
    description: Option<string>,
    location: Option<string>,
    startDate: int,
    endDate: Option<int>,
    createdBy: nat,
    groupId: Option<nat>,
    privacy: string,
    maxAttendees: Option<int>,
    coverUrl: Option<string>)

  /** `event_attendees`: the RSVP status is the text the client sent. */
  datatype Attendee = Attendee(eventId: nat, userId: nat, status: string)

  datatype MediaType = Album | Photo

  /** `media`: albums and photos share one table, told apart by `mediaType`. */
  datatype Media = Media(
    userId: nat,
    mediaType: MediaType,
    albumId: Option<nat>,
    title: Option<string>,
    description: Option<string>,
    coverUrl: Option<string>,
    fileUrl: Option<string>,
    fileType: Option<string>,
    fileSize: int,
    privacy: Option<string>,
    createdAt: int,
    updatedAt: Option<int>)

  /** `notifications` */
  datatype Notification = Notification(
    recipientId: nat,
    senderId: nat,
    kind: string,
    content: string,
    relatedId: Option<nat>,
    isRead: bool,
    createdAt: int)

  function EmptyTable<T>(): (t: Table<T>)
    ensures t.Valid() && t.rows == []
  {
    Table([], 1)
  }

  /** The record store: one table per collection the routes use. */
  class Db {
    var users: Table<User>
    var profiles: Table<Profile>
    var settings: Table<Settings>
    var messages: Table<Message>
    var groups: Table<Group>
    var memberships: Table<Membership>
    var friendships: Table<Friendship>
    var posts: Table<Post>
    var likes: Table<Like>
    var comments: Table<Comment>
    var events: Table<Event>
    var attendees: Table<Attendee>
    var media: Table<Media>
    var notifications: Table<Notification>

    ghost predicate Valid()
      reads this
    {
      && users.Valid() && profiles.Valid() && settings.Valid() && messages.Valid()
      && groups.Valid() && memberships.Valid() && friendships.Valid() && posts.Valid()
      && likes.Valid() && comments.Valid() && events.Valid() && attendees.Valid()
      && media.Valid() && notifications.Valid()
    }

    /** An empty store. */
    constructor ()
      ensures Valid()
      ensures users.rows == [] && profiles.rows == [] && settings.rows == [] && messages.rows == []
      ensures groups.rows == [] && memberships.rows == [] && friendships.rows == [] && posts.rows == []
      ensures likes.rows == [] && comments.rows == [] && events.rows == [] && attendees.rows == []
      ensures media.rows == [] && notifications.rows == []
    {
      users := EmptyTable();
      profiles := EmptyTable();
      settings := EmptyTable();
      messages := EmptyTable();
      groups := EmptyTable();
      memberships := EmptyTable();
      friendships := EmptyTable();
      posts := EmptyTable();
      likes := EmptyTable();
      comments := EmptyTable();
      events := EmptyTable();
      attendees := EmptyTable();
      media := EmptyTable();
      notifications := EmptyTable();
    }
  }
}
