/** The viewer-specific read path: a `Reader` bound to a board and a viewer
    redacts single posts, assembles whole threads and filters board
    listings. */
module Server {
  import opened Outcomes
  import opened Model
  import opened Queries

  /** A reader for one board and one viewer, with the viewer's two
      capabilities resolved once at construction. */
  datatype Reader = Reader(board: string, ident: Ident, canSeeMnemonics: bool, canSeeModeration: bool)

  /** `NewReader`: the capabilities are whatever `checkAuth` grants the
      viewer for "seeMnemonics" and "seeModeration". */
  function NewReader(env: Env, board: string, ident: Ident): (rd: Reader)
    ensures rd.board == board && rd.ident == ident
    ensures rd.canSeeMnemonics <==> env.checkAuth("seeMnemonics", ident)
    ensures rd.canSeeModeration <==> env.checkAuth("seeModeration", ident)
  {
    Reader(board, ident, env.checkAuth("seeMnemonics", ident), env.checkAuth("seeModeration", ident))
  }

  /** What a post handed to the viewer may show: never an IP, and for a
      viewer without moderation rights no deletion mark, no deleted image and
      no moderation log. */
  predicate Redacted(rd: Reader, q: Post) {
    && q.ip == ""
    && (!rd.canSeeModeration ==> !q.deleted && !q.imgDeleted && q.mod == [])
  }

  // ---------------------------------------------------------------------
  // PostFilter

  /** `parsePost`: redact a post for the reader's viewer. A deleted post is
      suppressed to the zero post for a viewer without moderation rights; for
      such a viewer a deleted image is dropped and the moderation log cleared;
      a viewer with mnemonic rights gets the mnemonic of the author's IP, and
      a failing mnemonic aborts; the IP is always blanked. */
  function ParsePost(rd: Reader, env: Env, p: Post): (r: Outcome<Post>)
    ensures r.Ok? ==> Redacted(rd, r.value)
    ensures !rd.canSeeModeration && p.deleted ==> r == Ok(ZeroPost)
    ensures r.Abort? <==>
      rd.canSeeMnemonics && (rd.canSeeModeration || !p.deleted) && env.mnemonic(p.ip).Abort?
    ensures r.Abort? ==> r.error == env.mnemonic(p.ip).error
    ensures r.Ok? && (rd.canSeeModeration || !p.deleted) ==>
      var q := r.value;
      && q.id == p.id && q.op == p.op && q.time == p.time && q.body == p.body
      && q.deleted == p.deleted
      && q.mod == (if rd.canSeeModeration then p.mod else [])
      && (!rd.canSeeModeration && p.imgDeleted ==> q.image == NoImage)
      && (rd.canSeeModeration || !p.imgDeleted ==> q.image == p.image && q.imgDeleted == p.imgDeleted)
      && q.mnemonic == (if rd.canSeeMnemonics then env.mnemonic(p.ip).value else p.mnemonic)
  {
    if !rd.canSeeModeration && p.deleted then Ok(ZeroPost)
    else
      var cleared :=
        if rd.canSeeModeration then p
        else if p.imgDeleted then p.(image := NoImage, imgDeleted := false, mod := [])
        else p.(mod := []);
      if rd.canSeeMnemonics then
        match env.mnemonic(p.ip)
        case Abort(e) => Abort(e)
        case Ok(m) => Ok(cleared.(mnemonic := m, ip := ""))
      else Ok(cleared.(ip := ""))
  }

  /** Two posts by the same author address, both visible to the viewer, get
      the same mnemonic. */
  lemma MnemonicIsDeterministic(rd: Reader, env: Env, p1: Post, p2: Post)
    requires rd.canSeeMnemonics && p1.ip == p2.ip
    requires (rd.canSeeModeration || !p1.deleted) && (rd.canSeeModeration || !p2.deleted)
    requires ParsePost(rd, env, p1).Ok?
    ensures ParsePost(rd, env, p2).Ok?
    ensures ParsePost(rd, env, p1).value.mnemonic == ParsePost(rd, env, p2).value.mnemonic
  {
  }

  /** `GetPost`: a missing post and a post suppressed for this viewer both
      come back as the zero post; a stored post the viewer may see comes back
      redacted. */
  function GetPost(rd: Reader, env: Env, store: Store, id: nat): (r: Outcome<Post>)
    ensures r.Ok? ==> Redacted(rd, r.value)
    ensures r.Ok? && r.value.id == 0 ==> r.value == ZeroPost
    ensures id == 0 ==> r == Ok(ZeroPost)
    ensures r.Ok? && r.value.id != 0 ==>
      r.value.id == id && exists p :: p in store.posts && p.id == id && ParsePost(rd, env, p) == r
    ensures (forall p :: p in store.posts ==> p.id != id) ==> r == Ok(ZeroPost)
    ensures
      (!rd.canSeeModeration && GetPostRecord(store.posts, id).Some? && GetPostRecord(store.posts, id).value.deleted)
      ==> r == Ok(ZeroPost)
    ensures
      (id != 0 && GetPostRecord(store.posts, id).Some?
       && (rd.canSeeModeration || !GetPostRecord(store.posts, id).value.deleted))
      ==> r == ParsePost(rd, env, GetPostRecord(store.posts, id).value)
    ensures r.Abort? ==>
      && rd.canSeeMnemonics
      && GetPostRecord(store.posts, id).Some?
      && r == ParsePost(rd, env, GetPostRecord(store.posts, id).value)
  {
    match GetPostRecord(store.posts, id)
    case None => Ok(ZeroPost)
    case Some(p) =>
      if p.id == 0 then Ok(ZeroPost)
      else
        match ParsePost(rd, env, p)
        case Abort(e) => Abort(e)
        case Ok(q) => if q.id == 0 then Ok(ZeroPost) else Ok(q)
  }

  // ---------------------------------------------------------------------
  // ThreadAssembler

  /** The reply map key of a post as this viewer sees it, or nothing when the
      post is suppressed or its mnemonic fails. */
  function ParsedKey(rd: Reader, env: Env, p: Post): Option<string> {
    match ParsePost(rd, env, p)
    case Ok(q) => if q.id != 0 then Some(env.idToString(q.id)) else None
    case Abort(_) => None
  }

  /** The reply map `GetThread` builds from the fetched replies, in fetch
      order: each reply is redacted, a suppressed one is skipped, a survivor
      is stored under its stringified id (a later one replacing an earlier
      one with the same key), and the first failing mnemonic aborts. */
  function IndexReplies(rd: Reader, env: Env, posts: seq<Post>): (r: Outcome<map<string, Post>>)
    ensures r.Ok? ==> |r.value| <= |posts|
    ensures r.Ok? ==> forall k :: k in r.value ==>
      Redacted(rd, r.value[k]) && r.value[k].id != 0 && k == env.idToString(r.value[k].id)
    ensures r.Abort? ==> rd.canSeeMnemonics
    decreases |posts|
  {
    if posts == [] then Ok(map[])
    else
      match IndexReplies(rd, env, posts[..|posts| - 1])
      case Abort(e) => Abort(e)
      case Ok(m) =>
        match ParsePost(rd, env, posts[|posts| - 1])
        case Abort(e) => Abort(e)
        case Ok(q) => Ok(if q.id != 0 then m[env.idToString(q.id) := q] else m)
  }

  /** Building the map aborts exactly when some fetched reply's redaction
      aborts. */
  lemma {:induction false} IndexRepliesAborts(rd: Reader, env: Env, posts: seq<Post>)
    ensures IndexReplies(rd, env, posts).Abort? <==>
      exists j :: 0 <= j < |posts| && ParsePost(rd, env, posts[j]).Abort?
    decreases |posts|
  {
    if posts != [] {
      var init := posts[..|posts| - 1];
      var last := posts[|posts| - 1];
      IndexRepliesAborts(rd, env, init);
      if IndexReplies(rd, env, init).Abort? {
        var j :| 0 <= j < |init| && ParsePost(rd, env, init[j]).Abort?;
        assert posts[j] == init[j];
      } else if ParsePost(rd, env, last).Abort? {
        assert ParsePost(rd, env, posts[|posts| - 1]).Abort?;
      } else {
        forall j | 0 <= j < |posts|
          ensures !ParsePost(rd, env, posts[j]).Abort?
        {
          if j < |init| {
            assert posts[j] == init[j];
          }
        }
      }
    }
  }

  /** An aborted read carries the error of the first fetched reply whose
      redaction aborts: every reply before it was redacted. */
  lemma {:induction false} IndexRepliesFirstAbort(rd: Reader, env: Env, posts: seq<Post>) returns (j: nat)
    requires IndexReplies(rd, env, posts).Abort?
    ensures j < |posts| && ParsePost(rd, env, posts[j]) == Abort(IndexReplies(rd, env, posts).error)
    ensures forall i :: 0 <= i < j ==> ParsePost(rd, env, posts[i]).Ok?
    decreases |posts|
  {
    var init := posts[..|posts| - 1];
    if IndexReplies(rd, env, init).Abort? {
      j := IndexRepliesFirstAbort(rd, env, init);
      forall i | 0 <= i <= j
        ensures init[i] == posts[i]
      {
      }
    } else {
      j := |posts| - 1;
      IndexRepliesAborts(rd, env, init);
      forall i | 0 <= i < j
        ensures ParsePost(rd, env, posts[i]).Ok?
      {
        assert init[i] == posts[i];
      }
    }
  }

  /** Reading one more reply extends the map by that reply's redaction. */
  lemma IndexRepliesStep(rd: Reader, env: Env, posts: seq<Post>, i: nat)
    requires i < |posts|
    ensures IndexReplies(rd, env, posts[..i + 1]) ==
      match IndexReplies(rd, env, posts[..i])
      case Abort(e) => Abort(e)
      case Ok(m) =>
        match ParsePost(rd, env, posts[i])
        case Abort(e) => Abort(e)
        case Ok(q) => Ok(if q.id != 0 then m[env.idToString(q.id) := q] else m)
  {
    assert posts[..i + 1][..i] == posts[..i];
  }

  /** Once the prefix read so far has aborted, the whole map aborts with the
      same error. */
  lemma {:induction false} AbortPersists(rd: Reader, env: Env, posts: seq<Post>, i: nat, e: string)
    requires i <= |posts|
    requires IndexReplies(rd, env, posts[..i]) == Abort(e)
    ensures IndexReplies(rd, env, posts) == Abort(e)
    decreases |posts| - i
  {
    if i < |posts| {
      var next := posts[..i + 1];
      assert next[..|next| - 1] == posts[..i];
      AbortPersists(rd, env, posts, i + 1, e);
    } else {
      assert posts[..i] == posts;
    }
  }

  /** The map holds a key exactly when some fetched reply survives
      redaction under that key. */
  lemma IndexRepliesKeys(rd: Reader, env: Env, posts: seq<Post>)
    requires IndexReplies(rd, env, posts).Ok?
    ensures forall k :: k in IndexReplies(rd, env, posts).value <==>
      exists j :: 0 <= j < |posts| && ParsedKey(rd, env, posts[j]) == Some(k)
  {
    forall k | k in IndexReplies(rd, env, posts).value
      ensures exists j :: 0 <= j < |posts| && ParsedKey(rd, env, posts[j]) == Some(k)
    {
      var j := KeySource(rd, env, posts, k);
    }
    forall j | 0 <= j < |posts| && ParsedKey(rd, env, posts[j]).Some?
      ensures ParsedKey(rd, env, posts[j]).value in IndexReplies(rd, env, posts).value
    {
      SurvivorKeyed(rd, env, posts, j);
    }
  }

  /** Every key of the map comes from a surviving reply. */
  lemma {:induction false} KeySource(rd: Reader, env: Env, posts: seq<Post>, k: string) returns (j: nat)
    requires IndexReplies(rd, env, posts).Ok? && k in IndexReplies(rd, env, posts).value
    ensures j < |posts| && ParsedKey(rd, env, posts[j]) == Some(k)
    decreases |posts|
  {
    IndexRepliesLast(rd, env, posts);
    var init := posts[..|posts| - 1];
    var q := ParsePost(rd, env, posts[|posts| - 1]).value;
    if q.id != 0 && k == env.idToString(q.id) {
      j := |posts| - 1;
    } else {
      j := KeySource(rd, env, init, k);
      assert init[j] == posts[j];
    }
  }

  /** Every surviving reply has its key in the map. */
  lemma {:induction false} SurvivorKeyed(rd: Reader, env: Env, posts: seq<Post>, j: nat)
    requires IndexReplies(rd, env, posts).Ok?
    requires j < |posts| && ParsedKey(rd, env, posts[j]).Some?
    ensures ParsedKey(rd, env, posts[j]).value in IndexReplies(rd, env, posts).value
    decreases |posts|
  {
    IndexRepliesLast(rd, env, posts);
    var init := posts[..|posts| - 1];
    if j < |init| {
      assert init[j] == posts[j];
      SurvivorKeyed(rd, env, init, j);
    }
  }

  /** The last step of `IndexReplies` on a read that did not abort: the map
      of all but the last reply, updated with the last reply if it survives. */
  lemma IndexRepliesLast(rd: Reader, env: Env, posts: seq<Post>)
    requires posts != [] && IndexReplies(rd, env, posts).Ok?
    ensures IndexReplies(rd, env, posts[..|posts| - 1]).Ok?
    ensures ParsePost(rd, env, posts[|posts| - 1]).Ok?
    ensures var m, q := IndexReplies(rd, env, posts[..|posts| - 1]).value, ParsePost(rd, env, posts[|posts| - 1]).value;
      IndexReplies(rd, env, posts).value == if q.id != 0 then m[env.idToString(q.id) := q] else m
  {
  }

  /** Every value in the map is the redaction of some fetched reply. */
  lemma {:induction false} IndexRepliesValues(rd: Reader, env: Env, posts: seq<Post>)
    requires IndexReplies(rd, env, posts).Ok?
    ensures var m := IndexReplies(rd, env, posts).value;
      forall k :: k in m ==> exists j :: 0 <= j < |posts| && ParsePost(rd, env, posts[j]) == Ok(m[k])
    decreases |posts|
  {
    if posts != [] {
      var init := posts[..|posts| - 1];
      IndexRepliesLast(rd, env, posts);
      IndexRepliesValues(rd, env, init);
      var m := IndexReplies(rd, env, init).value;
      var m' := IndexReplies(rd, env, posts).value;
      var q := ParsePost(rd, env, posts[|posts| - 1]).value;
      forall k | k in m'
        ensures exists j :: 0 <= j < |posts| && ParsePost(rd, env, posts[j]) == Ok(m'[k])
      {
        if q.id != 0 && k == env.idToString(q.id) {
          assert ParsePost(rd, env, posts[|posts| - 1]) == Ok(m'[k]);
        } else {
          var j :| 0 <= j < |init| && ParsePost(rd, env, init[j]) == Ok(m[k]);
          assert posts[j] == init[j];
        }
      }
    }
  }

  /** With distinct reply ids and an injective id formatter, every surviving
      reply sits in the map under its own key, unchanged. */
  lemma IndexRepliesComplete(rd: Reader, env: Env, posts: seq<Post>)
    requires IndexReplies(rd, env, posts).Ok?
    requires forall a: nat, b: nat :: env.idToString(a) == env.idToString(b) ==> a == b
    requires forall i, j :: 0 <= i < j < |posts| ==> posts[i].id != posts[j].id
    ensures var m := IndexReplies(rd, env, posts).value;
      forall j :: 0 <= j < |posts| && ParsedKey(rd, env, posts[j]).Some? ==>
        var q := ParsePost(rd, env, posts[j]).value;
        env.idToString(q.id) in m && m[env.idToString(q.id)] == q
  {
    forall j | 0 <= j < |posts| && ParsedKey(rd, env, posts[j]).Some?
      ensures var q := ParsePost(rd, env, posts[j]).value;
        env.idToString(q.id) in IndexReplies(rd, env, posts).value
        && IndexReplies(rd, env, posts).value[env.idToString(q.id)] == q
    {
      SurvivorStored(rd, env, posts, j);
    }
  }

  /** A surviving reply keeps its entry when no later reply has the same
      key: the map is written in fetch order, so a later one would replace it. */
  lemma {:induction false} SurvivorStored(rd: Reader, env: Env, posts: seq<Post>, j: nat)
    requires IndexReplies(rd, env, posts).Ok?
    requires j < |posts| && ParsedKey(rd, env, posts[j]).Some?
    requires forall i :: j < i < |posts| ==> env.idToString(posts[i].id) != env.idToString(posts[j].id)
    ensures var q, m := ParsePost(rd, env, posts[j]).value, IndexReplies(rd, env, posts).value;
      env.idToString(q.id) in m && m[env.idToString(q.id)] == q
    decreases |posts|
  {
    IndexRepliesLast(rd, env, posts);
    var init := posts[..|posts| - 1];
    var q := ParsePost(rd, env, posts[j]).value;
    assert q.id == posts[j].id;
    if j < |init| {
      assert init[j] == posts[j];
      forall i | j < i < |init|
        ensures env.idToString(init[i].id) != env.idToString(init[j].id)
      {
        assert init[i] == posts[i];
      }
      SurvivorStored(rd, env, init, j);
      var last := ParsePost(rd, env, posts[|posts| - 1]).value;
      if last.id != 0 {
        assert last.id == posts[|posts| - 1].id;
      }
    }
  }

  /** `GetThread`, as a function of the store: the empty container when the
      thread fails validation or access, or when its thread/OP join is
      incomplete; otherwise the joined metadata, the redacted OP and the map
      of the redacted reply window. */
  function ThreadView(rd: Reader, env: Env, store: Store, id: nat, lastN: GoInt): Outcome<ThreadContainer>
  {
    if !env.validateOP(id, rd.board) || !env.canAccessThread(id, rd.board, rd.ident) then
      Ok(EmptyContainer)
    else
      var thread := JoinThread(store, id);
      if thread.left.id == 0 || thread.right.id == 0 then Ok(EmptyContainer)
      else
        match IndexReplies(rd, env, ReplyWindow(store.posts, id, lastN))
        case Abort(e) => Abort(e)
        case Ok(replies) =>
          match ParsePost(rd, env, thread.right)
          case Abort(e) => Abort(e)
          case Ok(op) => Ok(ThreadContainer(op, thread.left, replies))
  }

  /** The loop of `GetThread` over the fetched replies: redact each one,
      skip the suppressed ones, store the rest by stringified id, and abort on
      the first failing mnemonic. */
  method FilterReplies(rd: Reader, env: Env, posts: seq<Post>) returns (r: Outcome<map<string, Post>>)
    ensures r == IndexReplies(rd, env, posts)
  {
    var filtered: map<string, Post> := map[];
    var i := 0;
    while i < |posts|
      invariant i <= |posts|
      invariant IndexReplies(rd, env, posts[..i]) == Ok(filtered)
    {
      var parsed := ParsePost(rd, env, posts[i]);
      IndexRepliesStep(rd, env, posts, i);
      if parsed.Abort? {
        AbortPersists(rd, env, posts, i + 1, parsed.error);
        return Abort(parsed.error);
      }
      if parsed.value.id != 0 {
        filtered := filtered[env.idToString(parsed.value.id) := parsed.value];
      }
      i := i + 1;
    }
    assert posts[..i] == posts;
    return Ok(filtered);
  }

  /** `GetThread`: read thread `id` with its last `lastN` posts (all of them
      when `lastN` is 0). */
  method GetThread(rd: Reader, env: Env, store: Store, id: nat, lastN: GoInt)
    returns (r: Outcome<ThreadContainer>)
    ensures r == ThreadView(rd, env, store, id, lastN)
  {
    if !env.validateOP(id, rd.board) || !env.canAccessThread(id, rd.board, rd.ident) {
      return Ok(EmptyContainer);
    }
    var thread := JoinThread(store, id);
    if thread.left.id == 0 || thread.right.id == 0 {
      return Ok(EmptyContainer);
    }

    var posts := ReplyWindow(store.posts, id, lastN);
    var filtered := FilterReplies(rd, env, posts);
    if filtered.Abort? {
      return Abort(filtered.error);
    }

    var op := ParsePost(rd, env, thread.right);
    if op.Abort? {
      return Abort(op.error);
    }
    return Ok(ThreadContainer(op.value, thread.left, filtered.value));
  }

  /** The empty container comes back exactly when the thread fails
      validation or access, or its thread/OP join is incomplete: a missing
      thread and a forbidden one look the same. */
  lemma ThreadViewEmpty(rd: Reader, env: Env, store: Store, id: nat, lastN: GoInt)
    ensures var join := JoinThread(store, id);
      ThreadView(rd, env, store, id, lastN) == Ok(EmptyContainer) <==>
        || !env.validateOP(id, rd.board)
        || !env.canAccessThread(id, rd.board, rd.ident)
        || join.left.id == 0
        || join.right.id == 0
    ensures ThreadView(rd, env, store, id, lastN) == Ok(EmptyContainer) <==>
      || !env.validateOP(id, rd.board)
      || !env.canAccessThread(id, rd.board, rd.ident)
      || id == 0
      || (forall t :: t in store.threads ==> t.id != id)
      || (forall p :: p in store.posts ==> p.id != id)
  {
  }

  /** A thread the viewer receives never shows an IP, nor, to a viewer
      without moderation rights, a deleted reply, a deleted image or a
      moderation log. */
  lemma ThreadViewRedacted(rd: Reader, env: Env, store: Store, id: nat, lastN: GoInt)
    requires ThreadView(rd, env, store, id, lastN).Ok?
    ensures var c := ThreadView(rd, env, store, id, lastN).value;
      Redacted(rd, c.post) && forall k :: k in c.posts ==> Redacted(rd, c.posts[k])
  {
  }

  /** A non-empty thread is assembled from a complete join, the redacted
      OP and the reply map of the window. */
  lemma ThreadViewShape(rd: Reader, env: Env, store: Store, id: nat, lastN: GoInt)
    requires ThreadView(rd, env, store, id, lastN).Ok?
    requires ThreadView(rd, env, store, id, lastN) != Ok(EmptyContainer)
    ensures var join, w := JoinThread(store, id), ReplyWindow(store.posts, id, lastN);
      && join.left.id != 0 && join.right.id != 0
      && IndexReplies(rd, env, w).Ok?
      && ParsePost(rd, env, join.right).Ok?
      && ThreadView(rd, env, store, id, lastN).value
         == ThreadContainer(ParsePost(rd, env, join.right).value, join.left, IndexReplies(rd, env, w).value)
  {
  }

  /** A non-empty thread carries the joined metadata of thread `id` with its
      counters, the redaction of its OP, and at most one map entry per
      fetched reply, each the redaction of a reply of that thread (never the
      OP), keyed by its stringified id. */
  lemma ThreadViewContents(rd: Reader, env: Env, store: Store, id: nat, lastN: GoInt)
    requires ThreadView(rd, env, store, id, lastN).Ok?
    requires ThreadView(rd, env, store, id, lastN) != Ok(EmptyContainer)
    ensures var c, w := ThreadView(rd, env, store, id, lastN).value, ReplyWindow(store.posts, id, lastN);
      && c.thread == JoinThread(store, id).left
      && c.thread.id == id
      && Ok(c.post) == ParsePost(rd, env, JoinThread(store, id).right)
      && |c.posts| <= |w|
      && forall k :: k in c.posts ==>
           && c.posts[k].op == id && c.posts[k].id != id
           && k == env.idToString(c.posts[k].id)
           && exists p :: p in w && ParsePost(rd, env, p) == Ok(c.posts[k])
  {
    ThreadViewShape(rd, env, store, id, lastN);
    var w := ReplyWindow(store.posts, id, lastN);
    var m := IndexReplies(rd, env, w).value;
    WindowOfReplies(store.posts, id, lastN);
    IndexRepliesValues(rd, env, w);
    forall k | k in m
      ensures m[k].op == id && m[k].id != id
      ensures exists p :: p in w && ParsePost(rd, env, p) == Ok(m[k])
    {
      var j :| 0 <= j < |w| && ParsePost(rd, env, w[j]) == Ok(m[k]);
      assert w[j] in w;
      SurvivorKeepsThread(rd, env, w[j], id);
    }
  }

  /** A reply that survives redaction keeps its id and thread. */
  lemma SurvivorKeepsThread(rd: Reader, env: Env, p: Post, id: nat)
    requires p.op == id && p.id != id
    requires ParsePost(rd, env, p).Ok? && ParsePost(rd, env, p).value.id != 0
    ensures ParsePost(rd, env, p).value.op == id && ParsePost(rd, env, p).value.id != id
  {
  }

  /** A thread read aborts only for a viewer with mnemonic rights, and then
      exactly when the OP's or some fetched reply's mnemonic fails. */
  lemma ThreadViewAborts(rd: Reader, env: Env, store: Store, id: nat, lastN: GoInt)
    requires ThreadView(rd, env, store, id, lastN).Abort?
    ensures rd.canSeeMnemonics
    ensures ParsePost(rd, env, JoinThread(store, id).right).Abort? ||
      exists p :: p in ReplyWindow(store.posts, id, lastN) && ParsePost(rd, env, p).Abort?
    ensures var w, e := ReplyWindow(store.posts, id, lastN), ThreadView(rd, env, store, id, lastN).error;
      if IndexReplies(rd, env, w).Abort? then e == IndexReplies(rd, env, w).error
      else ParsePost(rd, env, JoinThread(store, id).right) == Abort(e)
  {
    var w := ReplyWindow(store.posts, id, lastN);
    IndexRepliesAborts(rd, env, w);
    if IndexReplies(rd, env, w).Abort? {
      var j :| 0 <= j < |w| && ParsePost(rd, env, w[j]).Abort?;
      assert w[j] in w;
    }
  }

  // ---------------------------------------------------------------------
  // BoardAggregator

  /** The `parseThreads` test: a deleted thread is dropped for a viewer
      without moderation rights. */
  predicate KeepThread(rd: Reader, j: JoinedThread) {
    !(j.left.deleted && !rd.canSeeModeration)
  }

  /** The catalog entry of a joined row: its metadata and its OP as read,
      with no replies. */
  function ContainerOf(j: JoinedThread): ThreadContainer {
    ThreadContainer(j.right, j.left, map[])
  }

  /** The catalog `parseThreads` builds: the kept rows, in order, as
      catalog entries. */
  function Catalog(rd: Reader, threads: seq<JoinedThread>): (r: seq<ThreadContainer>)
    ensures |r| <= |threads|
    decreases |threads|
  {
    if threads == [] then []
    else
      var last := threads[|threads| - 1];
      Catalog(rd, threads[..|threads| - 1]) + (if KeepThread(rd, last) then [ContainerOf(last)] else [])
  }

  /** `parseThreads`: filter and shape the joined rows of a board read. */
  method ParseThreads(rd: Reader, threads: seq<JoinedThread>) returns (filtered: seq<ThreadContainer>)
    ensures filtered == Catalog(rd, threads)
  {
    filtered := [];
    for i := 0 to |threads|
      invariant filtered == Catalog(rd, threads[..i])
    {
      assert threads[..i + 1][..i] == threads[..i];
      var thread := threads[i];
      if thread.left.deleted && !rd.canSeeModeration {
        continue;
      }
      filtered := filtered + [ContainerOf(thread)];
    }
    assert threads[..|threads|] == threads;
  }

  /** The catalog keeps relative order: it distributes over concatenation. */
  lemma {:induction false} CatalogAppend(rd: Reader, a: seq<JoinedThread>, b: seq<JoinedThread>)
    ensures Catalog(rd, a + b) == Catalog(rd, a) + Catalog(rd, b)
    decreases |b|
  {
    if b == [] {
      assert a + b == a;
    } else {
      var init := b[..|b| - 1];
      CatalogAppend(rd, a, init);
      assert (a + b)[..|a + b| - 1] == a + init;
      assert (a + b)[|a + b| - 1] == b[|b| - 1];
    }
  }

  /** An entry is in the catalog exactly when it is the catalog entry of a
      kept row: a deleted thread never reaches a viewer without moderation
      rights, and the OP is passed through as read, IP included. */
  lemma {:induction false} CatalogMembers(rd: Reader, threads: seq<JoinedThread>)
    ensures forall c :: c in Catalog(rd, threads) <==>
      exists j :: j in threads && KeepThread(rd, j) && c == ContainerOf(j)
    decreases |threads|
  {
    if threads != [] {
      var init := threads[..|threads| - 1];
      var last := threads[|threads| - 1];
      CatalogMembers(rd, init);
      assert threads == init + [last];
      forall c | c in Catalog(rd, threads)
        ensures exists j :: j in threads && KeepThread(rd, j) && c == ContainerOf(j)
      {
        if c !in Catalog(rd, init) {
          assert last in threads;
        } else {
          var j :| j in init && KeepThread(rd, j) && c == ContainerOf(j);
          assert j in threads;
        }
      }
      forall j | j in threads && KeepThread(rd, j)
        ensures ContainerOf(j) in Catalog(rd, threads)
      {
        if j != last {
          assert j in init;
        }
      }
    }
  }

  /** For a viewer with moderation rights the catalog is the identity
      mapping: one entry per row, position by position. */
  lemma {:induction false} CatalogForModerators(rd: Reader, threads: seq<JoinedThread>)
    requires rd.canSeeModeration
    ensures |Catalog(rd, threads)| == |threads|
    ensures forall i :: 0 <= i < |threads| ==> Catalog(rd, threads)[i] == ContainerOf(threads[i])
    decreases |threads|
  {
    if threads != [] {
      var init := threads[..|threads| - 1];
      CatalogForModerators(rd, init);
      forall i | 0 <= i < |threads|
        ensures Catalog(rd, threads)[i] == ContainerOf(threads[i])
      {
        if i < |init| {
          assert init[i] == threads[i];
        }
      }
    }
  }

  /** A listing built from thread rows: every entry is the metadata of one
      of those threads with its counters, next to a stored OP of the same id
      as read, IP included, with no replies; every thread that has an OP row
      and is not hidden from the viewer has its entry. */
  lemma ListingMembers(rd: Reader, store: Store, threads: seq<Thread>)
    ensures forall c :: c in Catalog(rd, JoinThreads(store, threads)) ==>
      && c.posts == map[]
      && (!rd.canSeeModeration ==> !c.thread.deleted)
      && (exists t :: t in threads && c.thread == WithCounters(store.posts, t))
      && (exists p :: p in store.posts && p.id == c.thread.id && c.post == p.(op := 0))
    ensures forall t :: t in threads && GetPostRecord(store.posts, t.id).Some? && (rd.canSeeModeration || !t.deleted) ==>
      ThreadContainer(GetPostRecord(store.posts, t.id).value.(op := 0), WithCounters(store.posts, t), map[])
        in Catalog(rd, JoinThreads(store, threads))
  {
    var joined := JoinThreads(store, threads);
    CatalogMembers(rd, joined);
    JoinThreadsMembers(store, threads);
    forall c | c in Catalog(rd, joined)
      ensures && c.posts == map[]
              && (!rd.canSeeModeration ==> !c.thread.deleted)
              && (exists t :: t in threads && c.thread == WithCounters(store.posts, t))
              && (exists p :: p in store.posts && p.id == c.thread.id && c.post == p.(op := 0))
    {
      var j :| j in joined && KeepThread(rd, j) && c == ContainerOf(j);
      var p :| p in store.posts && p.id == j.left.id && j.right == p.(op := 0);
    }
    forall t | t in threads && GetPostRecord(store.posts, t.id).Some? && (rd.canSeeModeration || !t.deleted)
      ensures ThreadContainer(GetPostRecord(store.posts, t.id).value.(op := 0), WithCounters(store.posts, t), map[])
        in Catalog(rd, joined)
    {
      var j := JoinedThread(WithCounters(store.posts, t), GetPostRecord(store.posts, t.id).value.(op := 0));
      assert j in joined && KeepThread(rd, j);
    }
  }

  /** `GetBoard`: the threads of the reader's board that have an OP, with
      their counters, filtered by `parseThreads`, and the board's counter.
      No board access check is made here. */
  method GetBoard(rd: Reader, env: Env, store: Store) returns (board: Board)
    ensures board.ctr == env.boardCounter(rd.board)
    ensures board.threads == Catalog(rd, JoinThreads(store, ThreadsOnBoard(store.threads, rd.board)))
    ensures forall c :: c in board.threads ==>
      && c.thread.board == rd.board
      && c.posts == map[]
      && (!rd.canSeeModeration ==> !c.thread.deleted)
      && (exists p :: p in store.posts && p.id == c.thread.id && c.post == p.(op := 0))
    ensures forall t ::
      && t in store.threads && t.board == rd.board
      && GetPostRecord(store.posts, t.id).Some?
      && (rd.canSeeModeration || !t.deleted)
      ==> ThreadContainer(GetPostRecord(store.posts, t.id).value.(op := 0), WithCounters(store.posts, t), map[])
            in board.threads
  {
    var threads := JoinThreads(store, ThreadsOnBoard(store.threads, rd.board));
    ListingMembers(rd, store, ThreadsOnBoard(store.threads, rd.board));
    var parsed := ParseThreads(rd, threads);
    board := Board(env.boardCounter(rd.board), parsed);
  }

  /** The threads the "/all/" query reads: every thread, less those of the
      staff board when the viewer cannot access it. */
  function AllBoardThreads(rd: Reader, env: Env, threads: seq<Thread>): seq<Thread> {
    if !env.canAccessBoard(env.staffBoard, rd.ident) then ThreadsNotOnBoard(threads, env.staffBoard)
    else threads
  }

  /** `GetAllBoard`: every thread with an OP across all boards, the staff
      board's left out of the query for a viewer who cannot access it,
      filtered by `parseThreads`, with the global post counter. */
  method GetAllBoard(rd: Reader, env: Env, store: Store) returns (board: Board)
    ensures board.ctr == env.postCounter
    ensures board.threads == Catalog(rd, JoinThreads(store, AllBoardThreads(rd, env, store.threads)))
    ensures !env.canAccessBoard(env.staffBoard, rd.ident) ==>
      forall c :: c in board.threads ==> c.thread.board != env.staffBoard
    ensures forall c :: c in board.threads ==>
      && c.posts == map[]
      && (!rd.canSeeModeration ==> !c.thread.deleted)
      && (exists p :: p in store.posts && p.id == c.thread.id && c.post == p.(op := 0))
    ensures forall t ::
      && t in store.threads
      && (env.canAccessBoard(env.staffBoard, rd.ident) || t.board != env.staffBoard)
      && GetPostRecord(store.posts, t.id).Some?
      && (rd.canSeeModeration || !t.deleted)
      ==> ThreadContainer(GetPostRecord(store.posts, t.id).value.(op := 0), WithCounters(store.posts, t), map[])
            in board.threads
  {
    var query := store.threads;
    if !env.canAccessBoard(env.staffBoard, rd.ident) {
      query := ThreadsNotOnBoard(query, env.staffBoard);
    }
    var threads := JoinThreads(store, query);
    ListingMembers(rd, store, query);
    var parsed := ParseThreads(rd, threads);
    board := Board(env.postCounter, parsed);
  }
}
