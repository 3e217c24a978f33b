/** The store queries of the read path, stated as functions over the
    abstract store: lookup by primary key, the "op" and "board" secondary
    indexes, the one-index slice, the derived thread counters and the
    equality join of a thread with its OP. */
module Queries {
  import opened Outcomes
  import opened Model

  function Min(a: int, b: int): int { if a <= b then a else b }

  // ---------------------------------------------------------------------
  // Lookup by primary key

  /** `getPost(id)`: the post whose id is `id`, the first such row if the
      table holds several. */
  function GetPostRecord(posts: seq<Post>, id: nat): (r: Option<Post>)
    ensures r.Some? ==> r.value in posts && r.value.id == id
    ensures r.None? <==> forall p :: p in posts ==> p.id != id
  {
    if posts == [] then None
    else if posts[0].id == id then Some(posts[0])
    else GetPostRecord(posts[1..], id)
  }

  /** `getThread(id)`: the thread whose id is `id`. */
  function GetThreadRecord(threads: seq<Thread>, id: nat): (r: Option<Thread>)
    ensures r.Some? ==> r.value in threads && r.value.id == id
    ensures r.None? <==> forall t :: t in threads ==> t.id != id
  {
    if threads == [] then None
    else if threads[0].id == id then Some(threads[0])
    else GetThreadRecord(threads[1..], id)
  }

  // ---------------------------------------------------------------------
  // The "op" index

  /** `GetAllByIndex("op", id)`: every post of thread `id`, OP included, in
      store order. */
  function PostsOf(posts: seq<Post>, id: nat): (r: seq<Post>)
    ensures |r| <= |posts|
    ensures forall p :: p in r <==> p in posts && p.op == id
  {
    if posts == [] then []
    else (if posts[0].op == id then [posts[0]] else []) + PostsOf(posts[1..], id)
  }

  /** The same index filtered by `id != threadID`: the replies of thread
      `id`, in store order. */
  function RepliesOf(posts: seq<Post>, id: nat): (r: seq<Post>)
    ensures |r| <= |posts|
    ensures forall p :: p in r <==> p in posts && p.op == id && p.id != id
  {
    if posts == [] then []
    else (if posts[0].op == id && posts[0].id != id then [posts[0]] else []) + RepliesOf(posts[1..], id)
  }

  /** The rows of thread `id` that are its OP (one in a well-formed store). */
  function OPRecordsOf(posts: seq<Post>, id: nat): (r: seq<Post>)
    ensures forall p :: p in r <==> p in posts && p.op == id && p.id == id
  {
    if posts == [] then []
    else (if posts[0].op == id && posts[0].id == id then [posts[0]] else []) + OPRecordsOf(posts[1..], id)
  }

  /** `HasFields("src")`: the posts that carry an image, in order. */
  function WithImage(posts: seq<Post>): (r: seq<Post>)
    ensures |r| <= |posts|
    ensures forall p :: p in r <==> p in posts && HasImage(p)
  {
    if posts == [] then []
    else (if HasImage(posts[0]) then [posts[0]] else []) + WithImage(posts[1..])
  }

  /** The posts of a thread split into its replies and its OP rows. */
  lemma {:induction false} PostsOfSplit(posts: seq<Post>, id: nat)
    ensures |PostsOf(posts, id)| == |RepliesOf(posts, id)| + |OPRecordsOf(posts, id)|
    ensures |WithImage(PostsOf(posts, id))|
         == |WithImage(RepliesOf(posts, id))| + |WithImage(OPRecordsOf(posts, id))|
  {
    if posts != [] {
      PostsOfSplit(posts[1..], id);
      var h := if posts[0].op == id then [posts[0]] else [];
      WithImageAppend(h, PostsOf(posts[1..], id));
      var hr := if posts[0].op == id && posts[0].id != id then [posts[0]] else [];
      WithImageAppend(hr, RepliesOf(posts[1..], id));
      var ho := if posts[0].op == id && posts[0].id == id then [posts[0]] else [];
      WithImageAppend(ho, OPRecordsOf(posts[1..], id));
    }
  }

  /** The image filter distributes over concatenation. */
  lemma {:induction false} WithImageAppend(a: seq<Post>, b: seq<Post>)
    ensures WithImage(a + b) == WithImage(a) + WithImage(b)
  {
    if a != [] {
      assert (a + b)[0] == a[0] && (a + b)[1..] == a[1..] + b;
      WithImageAppend(a[1..], b);
      var h := if HasImage(a[0]) then [a[0]] else [];
      assert WithImage(a + b) == h + (WithImage(a[1..]) + WithImage(b));
    } else {
      assert a + b == b;
    }
  }

  // ---------------------------------------------------------------------
  // Derived counters

  /** `Merge(getThreadMeta())`: overwrite the thread's counters with
      (posts of the thread) - 1 and (posts of the thread with an image) - 1,
      both counted over the whole "op" index, OP included. */
  function WithCounters(posts: seq<Post>, t: Thread): (r: Thread)
    ensures r.id == t.id && r.board == t.board && r.deleted == t.deleted
    ensures -1 <= r.imageCtr <= r.postCtr
  {
    var all := PostsOf(posts, t.id);
    t.(postCtr := |all| - 1, imageCtr := |WithImage(all)| - 1)
  }

  /** In a store holding exactly one OP row for the thread, `postCtr` is the
      number of replies and `imageCtr` the number of replies with an image,
      less one when the OP has no image: the `- 1` is applied whether or not
      the OP carries an image. */
  lemma CountersOfThread(posts: seq<Post>, t: Thread)
    requires |OPRecordsOf(posts, t.id)| == 1
    ensures WithCounters(posts, t).postCtr == |RepliesOf(posts, t.id)|
    ensures WithCounters(posts, t).imageCtr
         == |WithImage(RepliesOf(posts, t.id))| - (if HasImage(OPRecordsOf(posts, t.id)[0]) then 0 else 1)
  {
    PostsOfSplit(posts, t.id);
    var ops := OPRecordsOf(posts, t.id);
    assert ops == [ops[0]];
    assert WithImage(ops) == (if HasImage(ops[0]) then [ops[0]] else []) + WithImage([]);
  }

  /** A thread whose OP has no image and whose replies have none either
      reports an image counter of -1. */
  lemma ImageCounterCanBeNegative(op: Post, t: Thread)
    requires op.id == t.id && op.op == t.id && !HasImage(op)
    ensures WithCounters([op], t).imageCtr == -1
    ensures WithCounters([op], t).postCtr == 0
  {
    assert PostsOf([op], t.id) == [op] + PostsOf([], t.id);
    assert WithImage([op]) == [] + WithImage([]);
  }

  // ---------------------------------------------------------------------
  // The "last N" window

  /** The store's one-index `Slice(start)`: a non-negative start drops that
      many leading rows, a negative one keeps that many trailing rows (all of
      them when there are fewer). */
  function SliceFrom(s: seq<Post>, start: int): (r: seq<Post>)
    ensures |r| <= |s| && r == s[|s| - |r|..]
    ensures start >= 0 ==> |r| == if start <= |s| then |s| - start else 0
    ensures start < 0 ==> |r| == Min(-start, |s|)
  {
    if start >= 0 then (if start <= |s| then s[start..] else [])
    else if -start <= |s| then s[|s| + start..]
    else s
  }

  /** Go's two's-complement arithmetic on `int`: the value in range that is
      congruent to `x` modulo 2^64. */
  function WrapGoInt(x: int): (r: GoInt)
    ensures -0x8000_0000_0000_0000 <= x < 0x8000_0000_0000_0000 ==> r as int == x
    ensures (x - r as int) % 0x1_0000_0000_0000_0000 == 0
  {
    ((x + 0x8000_0000_0000_0000) % 0x1_0000_0000_0000_0000 - 0x8000_0000_0000_0000) as GoInt
  }

  /** The replies `GetThread` fetches: all replies of thread `id`, cut to
      `Slice(-lastN + 1)` when `lastN` is not zero, the start computed in
      Go's wrapping `int` arithmetic. */
  function ReplyWindow(posts: seq<Post>, id: nat, lastN: GoInt): seq<Post>
  {
    var replies := RepliesOf(posts, id);
    if lastN != 0 then SliceFrom(replies, WrapGoInt(-(lastN as int) + 1) as int) else replies
  }

  /** The window is a suffix of the thread's replies, so it never holds the
      OP nor a post of another thread. */
  lemma WindowOfReplies(posts: seq<Post>, id: nat, lastN: GoInt)
    ensures ReplyWindow(posts, id, lastN) == RepliesOf(posts, id)[|RepliesOf(posts, id)| - |ReplyWindow(posts, id, lastN)|..]
    ensures forall p :: p in ReplyWindow(posts, id, lastN) ==> p in posts && p.op == id && p.id != id
  {
    var q := RepliesOf(posts, id);
    var w := ReplyWindow(posts, id, lastN);
    var start := |q| - |w|;
    assert w == q[start..];
    forall p | p in w
      ensures p in q
    {
      var k :| 0 <= k < |w| && w[k] == p;
      assert q[start + k] == p;
    }
  }

  /** How many replies the window keeps: `lastN` of 0 or 1 keeps every
      reply, `lastN >= 2` the trailing `lastN - 1` (or all, when fewer), and
      a negative `lastN` drops the first `1 - lastN`, except at the two
      smallest values of `int`, where `-lastN + 1` wraps round to a negative
      start and the window keeps the trailing `lastN - 1 + 2^64` replies. */
  lemma WindowLength(posts: seq<Post>, id: nat, lastN: GoInt)
    ensures lastN == 0 || lastN == 1 ==> ReplyWindow(posts, id, lastN) == RepliesOf(posts, id)
    ensures lastN >= 2 ==> |ReplyWindow(posts, id, lastN)| == Min(lastN as int - 1, |RepliesOf(posts, id)|)
    ensures -0x7FFF_FFFF_FFFF_FFFF < lastN < 0 ==>
      |ReplyWindow(posts, id, lastN)|
      == if 1 - lastN as int <= |RepliesOf(posts, id)| then |RepliesOf(posts, id)| - (1 - lastN as int) else 0
    ensures lastN <= -0x7FFF_FFFF_FFFF_FFFF ==>
      |ReplyWindow(posts, id, lastN)| == Min(lastN as int - 1 + 0x1_0000_0000_0000_0000, |RepliesOf(posts, id)|)
  {
    var q := RepliesOf(posts, id);
    if lastN == 1 {
      assert WrapGoInt(0) == 0;
      assert SliceFrom(q, 0) == q[0..] == q;
    } else if lastN == -0x8000_0000_0000_0000 {
      assert WrapGoInt(0x8000_0000_0000_0001) == -0x7FFF_FFFF_FFFF_FFFF;
    } else if lastN == -0x7FFF_FFFF_FFFF_FFFF {
      assert WrapGoInt(0x8000_0000_0000_0000) == -0x8000_0000_0000_0000;
    } else if lastN != 0 {
      assert WrapGoInt(-(lastN as int) + 1) as int == -(lastN as int) + 1;
    }
  }

  // ---------------------------------------------------------------------
  // Joins

  /** `getJoinedThread(id)`: the thread with its counters merged in, next to
      its OP read without the `op` field; a missing half is the zero record. */
  function JoinThread(store: Store, id: nat): (r: JoinedThread)
    ensures r.left.id != 0 ==>
      r.left.id == id && exists t :: t in store.threads && r.left == WithCounters(store.posts, t)
    ensures r.right.id != 0 ==>
      r.right.id == id && exists p :: p in store.posts && r.right == p.(op := 0)
    ensures r.left.id == 0 <==> id == 0 || forall t :: t in store.threads ==> t.id != id
    ensures r.right.id == 0 <==> id == 0 || forall p :: p in store.posts ==> p.id != id
  {
    var left := match GetThreadRecord(store.threads, id)
      case Some(t) => WithCounters(store.posts, t)
      case None => ZeroThread;
    var right := match GetPostRecord(store.posts, id)
      case Some(p) => p.(op := 0)
      case None => ZeroPost;
    JoinedThread(left, right)
  }

  /** `GetAllByIndex("board", board)` on the threads table. */
  function ThreadsOnBoard(threads: seq<Thread>, board: string): (r: seq<Thread>)
    ensures |r| <= |threads|
    ensures forall t :: t in r <==> t in threads && t.board == board
  {
    if threads == [] then []
    else (if threads[0].board == board then [threads[0]] else []) + ThreadsOnBoard(threads[1..], board)
  }

  /** `Filter(board != excluded)` on the threads table. */
  function ThreadsNotOnBoard(threads: seq<Thread>, excluded: string): (r: seq<Thread>)
    ensures |r| <= |threads|
    ensures forall t :: t in r <==> t in threads && t.board != excluded
  {
    if threads == [] then []
    else (if threads[0].board != excluded then [threads[0]] else []) + ThreadsNotOnBoard(threads[1..], excluded)
  }

  /** `EqJoin("id", posts)`, `Merge(getThreadMeta())` and
      `Without({"right": "op"})`: each thread that has an OP row, in order,
      with its counters and its OP; threads without one are dropped. */
  function JoinThreads(store: Store, threads: seq<Thread>): (r: seq<JoinedThread>)
    ensures |r| <= |threads|
    ensures forall j :: j in r ==> j.right.id == j.left.id
  {
    if threads == [] then [] else JoinRow(store, threads[0]) + JoinThreads(store, threads[1..])
  }

  /** The joined row of one thread: none when no post has its id. */
  function JoinRow(store: Store, t: Thread): seq<JoinedThread> {
    match GetPostRecord(store.posts, t.id)
    case Some(p) => [JoinedThread(WithCounters(store.posts, t), p.(op := 0))]
    case None => []
  }

  /** Each joined row pairs one of the threads, with its counters, with a
      stored post of the same id read without its `op` field; every thread
      that has a post of its id is joined with it. */
  lemma {:induction false} JoinThreadsMembers(store: Store, threads: seq<Thread>)
    ensures forall j :: j in JoinThreads(store, threads) ==>
      && (exists t :: t in threads && j.left == WithCounters(store.posts, t))
      && (exists p :: p in store.posts && p.id == j.left.id && j.right == p.(op := 0))
    ensures forall t :: t in threads && GetPostRecord(store.posts, t.id).Some? ==>
      JoinedThread(WithCounters(store.posts, t), GetPostRecord(store.posts, t.id).value.(op := 0))
        in JoinThreads(store, threads)
    decreases |threads|
  {
    if threads != [] {
      var rest := threads[1..];
      JoinThreadsMembers(store, rest);
      var row := JoinRow(store, threads[0]);
      assert JoinThreads(store, threads) == row + JoinThreads(store, rest);
      forall j | j in JoinThreads(store, threads)
        ensures && (exists t :: t in threads && j.left == WithCounters(store.posts, t))
                && (exists p :: p in store.posts && p.id == j.left.id && j.right == p.(op := 0))
      {
        if j in row {
          var p := GetPostRecord(store.posts, threads[0].id).value;
          assert threads[0] in threads && j.left == WithCounters(store.posts, threads[0]);
          assert p in store.posts && p.id == j.left.id && j.right == p.(op := 0);
        } else {
          assert j in JoinThreads(store, rest);
          var t :| t in rest && j.left == WithCounters(store.posts, t);
          assert t in threads;
        }
      }
      forall t | t in threads && GetPostRecord(store.posts, t.id).Some?
        ensures JoinedThread(WithCounters(store.posts, t), GetPostRecord(store.posts, t.id).value.(op := 0))
          in JoinThreads(store, threads)
      {
        if t != threads[0] {
          assert t in rest;
        }
      }
    }
  }

  /** The join keeps the order of its input: it distributes over
      concatenation. */
  lemma {:induction false} JoinThreadsAppend(store: Store, a: seq<Thread>, b: seq<Thread>)
    ensures JoinThreads(store, a + b) == JoinThreads(store, a) + JoinThreads(store, b)
  {
    if a == [] {
      assert a + b == b;
    } else {
      assert (a + b)[0] == a[0] && (a + b)[1..] == a[1..] + b;
      JoinThreadsAppend(store, a[1..], b);
      assert JoinThreads(store, a + b) == JoinRow(store, a[0]) + (JoinThreads(store, a[1..]) + JoinThreads(store, b));
    }
  }
}
