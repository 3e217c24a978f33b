/** The records the read path works on, the collaborators whose code is not
    part of this model, and the abstract document store. */
module Model {
  import opened Outcomes

  /** The viewer's identity. It is opaque to the read path: every decision
      about it goes through the injected capability checks of `Env`. */
  datatype Ident = Ident(session: string)

  /** An image attached to a post. Stored posts without an image have no
      `src` field, which this model writes as an empty `src`. */
  datatype Image = Image(src: string, fileType: nat, spoiler: bool)

  /** Go's zero `Image{}`. */
  const NoImage := Image("", 0, false)

  /** The store-side test `HasFields("src")`. */
  predicate HasImage(p: Post) {
    p.image.src != ""
  }

  /** One entry of a post's moderation log. */
  datatype ModEntry = ModEntry(action: nat, moderator: string)

  /** A post record. `op` is the id of the thread it belongs to; `ip` is the
      author's address and must never leave the read path. */
  datatype Post = Post(
    id: nat,
    op: nat,
    time: int,
    body: string,
    ip: string,
    image: Image,
    deleted: bool,
    imgDeleted: bool,
    mod: seq<ModEntry>,
    mnemonic: string)

  /** Go's zero `Post{}`: the "nothing here" sentinel. */
  const ZeroPost := Post(0, 0, 0, "", "", NoImage, false, false, [], "")

  /** Thread metadata; the counters are derived at read time. */
  datatype Thread = Thread(id: nat, board: string, postCtr: int, imageCtr: int, deleted: bool)

  /** Go's zero `Thread{}`. */
  const ZeroThread := Thread(0, "", 0, 0, false)

  /** The client-side thread: the OP, the metadata and the replies keyed by
      stringified id. */
  datatype ThreadContainer = ThreadContainer(post: Post, thread: Thread, posts: map<string, Post>)

  /** Go's zero `ThreadContainer{}`: the sentinel for a missing or forbidden thread. */
  const EmptyContainer := ThreadContainer(ZeroPost, ZeroThread, map[])

  /** A board listing: a counter and the threads, replies omitted. */
  datatype Board = Board(ctr: int, threads: seq<ThreadContainer>)

  /** One row of an equality join of a thread with its OP. */
  datatype JoinedThread = JoinedThread(left: Thread, right: Post)

  /** Go's `int`: 64 bits wide on the platforms the server is built for. */
  newtype GoInt = x: int | -0x8000_0000_0000_0000 <= x < 0x8000_0000_0000_0000

  /** The document store: the "posts" and "threads" tables, each in the order
      the store hands its rows out. */
  datatype Store = Store(posts: seq<Post>, threads: seq<Thread>)

  /** Collaborators outside this model, injected as uninterpreted functions:
      the capability and access checks, the id formatter, the mnemonic
      generator (which may fail), the board counters and the name of the
      staff board from the configuration. */
  datatype Env = Env(
    checkAuth: (string, Ident) -> bool,
    validateOP: (nat, string) -> bool,
    canAccessThread: (nat, string, Ident) -> bool,
    canAccessBoard: (string, Ident) -> bool,
    idToString: nat -> string,
    mnemonic: string -> Outcome<string>,
    boardCounter: string -> int,
    postCounter: int,
    staffBoard: string)
}
