/** Sockets and the multiplexers they share (CUDTUnited): the reference count of a multiplexer is exactly the number of
    registered sockets that name it plus the references lost by failed connections, so a multiplexer in use is never
    erased; the maps of open and of closed sockets are disjoint; and it is known when a listener queues an open socket. */
module MultiplexerModule {
  import opened Collections

  const NO_MUX: int := -1

  /** The number of accepted connections past which accept refuses. */
  const ACCEPT_LIMIT: nat := 99999

  datatype Status = INIT | OPENED | LISTENING | CONNECTED | CLOSED

  /** A listener's connections: those not accepted yet, and those accepted. */
  datatype Backlog = NoBacklog | Backlog(queued: set<int>, accepted: set<int>)

  datatype Sock = Sock(status: Status, listenSocket: int, muxID: int, backlog: Backlog, broken: bool)

  datatype Mux = Mux(refCount: int, version: int, mss: int, reusable: bool, port: int)

  /** A socket just made. */
  const UNBOUND: Sock := Sock(INIT, 0, NO_MUX, NoBacklog, false)

  lemma {:induction false} HasLeast(s: set<int>)
    requires s != {}
    ensures exists k :: k in s && forall j | j in s :: k <= j
    decreases |s|
  {
    Inhabited(s);
    var k :| k in s;
    var rest := s - {k};
    var least := k;
    if rest != {} {
      HasLeast(rest);
      var m :| m in rest && forall j | j in rest :: m <= j;
      least := if k < m then k else m;
    }
    forall j | j in s ensures least <= j {
      assert j == k || j in rest;
    }
    assert least in s;
  }

  // ----- what every operation keeps -----

  /** The sockets of all that name multiplexer mid. */
  ghost function Users(all: map<int, Sock>, mid: int): set<int> {
    set k | k in all && all[k].muxID == mid
  }

  /** Every multiplexer named by a socket exists, and counts exactly the sockets that name it and the references lost. */
  ghost predicate Counted(all: map<int, Sock>, muxes: map<int, Mux>, leaked: map<int, nat>) {
    && (forall k | k in all && all[k].muxID != NO_MUX :: all[k].muxID in muxes)
    && leaked.Keys == muxes.Keys
    && (forall m | m in muxes :: 1 <= muxes[m].refCount == |Users(all, m)| + leaked[m])
  }

  /** Numbers run downwards from lastId; a socket that was never bound has no multiplexer, and none has its number. */
  ghost predicate Numbered(all: map<int, Sock>, muxes: map<int, Mux>, lastId: int) {
    && 0 < lastId
    && (forall k | k in all :: lastId <= k && (all[k].listenSocket == 0 || lastId <= all[k].listenSocket))
    && (forall m | m in muxes :: lastId <= m)
    && (forall k | k in all && all[k].status == INIT :: all[k].muxID == NO_MUX && k !in muxes)
  }

  /** A listener has a backlog, and so does every registered socket that others name as their listener. */
  ghost predicate Backlogged(all: map<int, Sock>) {
    && (forall k | k in all && all[k].status == LISTENING :: all[k].backlog.Backlog?)
    && (forall k | k in all && all[k].listenSocket in all :: all[all[k].listenSocket].backlog.Backlog?)
  }

  /** The connections not accepted yet. */
  function Waiting(b: Backlog): set<int> {
    if b.Backlog? then b.queued else {}
  }

  /** A registered socket waits at most in the queue of its own listener. */
  ghost predicate Owned(all: map<int, Sock>, lastId: int) {
    forall l | l in all :: OwnQueue(all, lastId, l, Waiting(all[l].backlog))
  }

  ghost predicate OwnQueue(all: map<int, Sock>, lastId: int, l: int, queue: set<int>) {
    forall k | k in queue :: lastId <= k && (k in all ==> all[k].listenSocket == l)
  }

  ghost predicate Kept(all: map<int, Sock>, muxes: map<int, Mux>, leaked: map<int, nat>, lastId: int) {
    Counted(all, muxes, leaked) && Numbered(all, muxes, lastId) && Backlogged(all) && Owned(all, lastId)
  }

  /** Listener l queues only open sockets. */
  ghost predicate QueueOpen(sockets: map<int, Sock>, closed: map<int, Sock>, l: int)
    requires l in sockets + closed
  {
    Waiting((sockets + closed)[l].backlog) <= sockets.Keys
  }

  ghost predicate QueuesOpen(sockets: map<int, Sock>, closed: map<int, Sock>) {
    forall l | l in sockets + closed :: QueueOpen(sockets, closed, l)
  }

  /** Some listener has u waiting in its queue. */
  ghost predicate InQueue(all: map<int, Sock>, u: int) {
    exists l :: l in all && u in Waiting(all[l].backlog)
  }

  predicate Shareable(mux: Mux, version: int, mss: int, port: int) {
    mux.version == version && mux.mss == mss && mux.reusable && mux.port == port
  }

  /** Socket k changes to s. */
  lemma UsersSet(all: map<int, Sock>, k: int, s: Sock, mid: int)
    ensures Users(all[k := s], mid) == Users(all, mid) - {k} + (if s.muxID == mid then {k} else {})
  {
    var all' := all[k := s];
    forall j | j in Users(all, mid) && j != k ensures j in Users(all', mid) {
      assert j in all' && all'[j] == all[j];
    }
    assert k in all' && all'[k] == s;
  }

  lemma UsersDrop(all: map<int, Sock>, k: int, mid: int)
    requires k in all
    ensures Users(all - {k}, mid) == Users(all, mid) - {k}
    ensures k in Users(all, mid) <==> all[k].muxID == mid
  {
  }

  /** A socket that keeps its multiplexer changes no count. */
  lemma CountedSet(all: map<int, Sock>, muxes: map<int, Mux>, leaked: map<int, nat>, k: int, s: Sock)
    requires Counted(all, muxes, leaked) && (if k in all then s.muxID == all[k].muxID else s.muxID == NO_MUX)
    requires NO_MUX !in muxes
    ensures Counted(all[k := s], muxes, leaked)
  {
    hide Users;
    forall m | m in muxes ensures Users(all[k := s], m) == Users(all, m) {
      UsersSet(all, k, s, m);
      UsersAre(all, k, m);
    }
  }

  lemma UsersAre(all: map<int, Sock>, k: int, mid: int)
    ensures k in Users(all, mid) <==> k in all && all[k].muxID == mid
  {
  }

  function Grab(muxes: map<int, Mux>, mid: int): map<int, Mux>
    requires mid in muxes
  {
    muxes[mid := muxes[mid].(refCount := muxes[mid].refCount + 1)]
  }

  /** The multiplexers after a reference to mid was given back: the last one takes it along. */
  function Released(muxes: map<int, Mux>, mid: int): map<int, Mux> {
    if mid !in muxes then muxes
    else if muxes[mid].refCount == 1 then muxes - {mid}
    else muxes[mid := muxes[mid].(refCount := muxes[mid].refCount - 1)]
  }

  /** One more reference for one more user. */
  lemma CountedAdd(all: map<int, Sock>, muxes: map<int, Mux>, leaked: map<int, nat>, k: int, s: Sock)
    requires Counted(all, muxes, leaked) && k !in all && s.muxID in muxes
    ensures Counted(all[k := s], Grab(muxes, s.muxID), leaked)
  {
    hide Users;
    forall m | m in muxes ensures |Users(all[k := s], m)| == |Users(all, m)| + (if m == s.muxID then 1 else 0) {
      UsersSet(all, k, s, m);
      UsersAre(all, k, m);
    }
  }

  /** A user gone takes its reference along, and the multiplexer goes exactly with its last reference: then no socket
      names it, and no reference was lost. */
  lemma CountedDrop(all: map<int, Sock>, muxes: map<int, Mux>, leaked: map<int, nat>, k: int)
    requires Counted(all, muxes, leaked) && k in all && NO_MUX !in muxes
    ensures
      var muxes' := Released(muxes, all[k].muxID);
      Counted(all - {k}, muxes', leaked - (muxes.Keys - muxes'.Keys))
    ensures
      var mid := all[k].muxID;
      mid in muxes && mid !in Released(muxes, mid) <==> mid in muxes && Users(all, mid) == {k} && leaked[mid] == 0
  {
    hide Users;
    var mid := all[k].muxID;
    forall m | m in muxes
      ensures |Users(all - {k}, m)| == |Users(all, m)| - (if m == mid then 1 else 0)
    {
      UsersDrop(all, k, m);
    }
    if mid in muxes {
      UsersDrop(all, k, mid);
      if muxes[mid].refCount == 1 {
        assert Users(all, mid) - {k} == {};
        forall j | j in all - {k} ensures all[j].muxID != mid {
          UsersAre(all - {k}, j, mid);
        }
      }
    }
  }

  /** A socket's first multiplexer. */
  lemma CountedBind(all: map<int, Sock>, muxes: map<int, Mux>, leaked: map<int, nat>, k: int, s: Sock, mux: Mux)
    requires Counted(all, muxes, leaked) && k in all && all[k].muxID == NO_MUX && NO_MUX !in muxes
    requires s.muxID != NO_MUX && mux.refCount == (if s.muxID in muxes then muxes[s.muxID].refCount else 0) + 1
    ensures
      var mid := s.muxID;
      Counted(all[k := s], muxes[mid := mux], leaked[mid := if mid in muxes then leaked[mid] else 0])
  {
    hide Users;
    var mid := s.muxID;
    forall m | m in muxes || m == mid
      ensures |Users(all[k := s], m)| == |Users(all, m)| + (if m == mid then 1 else 0)
    {
      UsersSet(all, k, s, m);
      UsersAre(all, k, m);
    }
    if mid !in muxes {
      NoUsers(all, muxes, leaked, mid);
    }
  }

  lemma NoUsers(all: map<int, Sock>, muxes: map<int, Mux>, leaked: map<int, nat>, mid: int)
    requires Counted(all, muxes, leaked) && mid != NO_MUX && mid !in muxes
    ensures Users(all, mid) == {}
  {
    assert forall k | k in all :: all[k].muxID != mid;
  }

  lemma OwnedAt(all: map<int, Sock>, lastId: int, l: int, k: int)
    requires Owned(all, lastId) && l in all && k in Waiting(all[l].backlog)
    ensures lastId <= k && (k in all ==> all[k].listenSocket == l)
  {
  }

  lemma OwnedSet(all: map<int, Sock>, lastId: int, u: int, s: Sock)
    requires Owned(all, lastId) && u in all && s.listenSocket == all[u].listenSocket && forall k | k in all :: lastId <= k
    requires forall k | k in Waiting(s.backlog) :: k in Waiting(all[u].backlog) || (k in all && all[k].listenSocket == u)
    ensures Owned(all[u := s], lastId)
  {
    hide Waiting;
    var all' := all[u := s];
    forall l | l in all' ensures OwnQueue(all', lastId, l, Waiting(all'[l].backlog)) {
      if l == u {
        forall k | k in Waiting(s.backlog) ensures lastId <= k && (k in all' ==> all'[k].listenSocket == u) {
          assert k in Waiting(all[u].backlog) || (k in all && all[k].listenSocket == u);
        }
      }
    }
  }

  lemma BackloggedSet(all: map<int, Sock>, u: int, s: Sock)
    requires Backlogged(all) && u in all && s.listenSocket == all[u].listenSocket
    requires all[u].backlog.Backlog? || s.status == LISTENING ==> s.backlog.Backlog?
    ensures Backlogged(all[u := s])
  {
  }

  /** Socket u changes to s without touching its multiplexer or its listener; what it queues anew names it. */
  lemma KeptSet(all: map<int, Sock>, muxes: map<int, Mux>, leaked: map<int, nat>, lastId: int, u: int, s: Sock)
    requires Kept(all, muxes, leaked, lastId) && u in all && Changes(all[u], s)
    requires forall k | k in Waiting(s.backlog) :: k in Waiting(all[u].backlog) || (k in all && all[k].listenSocket == u)
    ensures Kept(all[u := s], muxes, leaked, lastId)
  {
    CountedSet(all, muxes, leaked, u, s);
    OwnedSet(all, lastId, u, s);
    BackloggedSet(all, u, s);
  }

  /** What an operation may not change about a socket: its multiplexer, its listener, that it has a backlog. */
  predicate Changes(s: Sock, s': Sock) {
    && s'.muxID == s.muxID && s'.listenSocket == s.listenSocket
    && (s'.status == INIT ==> s.status == INIT)
    && (s.backlog.Backlog? || s'.status == LISTENING ==> s'.backlog.Backlog?)
  }

  /** A socket with a new number. */
  lemma KeptNew(all: map<int, Sock>, muxes: map<int, Mux>, leaked: map<int, nat>, lastId: int, id: int, s: Sock)
    requires Kept(all, muxes, leaked, lastId) && 0 < id < lastId && s.backlog == NoBacklog && s.status != LISTENING
    requires s.listenSocket == 0 || (s.listenSocket in all && all[s.listenSocket].backlog.Backlog?)
    requires s.muxID == NO_MUX || (s.muxID in muxes && s.status != INIT)
    ensures Kept(all[id := s], if s.muxID == NO_MUX then muxes else Grab(muxes, s.muxID), leaked, id)
  {
    assert id !in all;
    if s.muxID == NO_MUX {
      CountedSet(all, muxes, leaked, id, s);
    } else {
      CountedAdd(all, muxes, leaked, id, s);
    }
    hide Counted;
    var all' := all[id := s];
    assert forall l | l in all' :: OwnQueue(all', id, l, Waiting(all'[l].backlog)) by {
      assert forall l | l in all' && l in all :: OwnQueue(all, lastId, l, Waiting(all[l].backlog));
    }
    NumberedNew(all, muxes, lastId, id, s);
  }

  lemma NumberedNew(all: map<int, Sock>, muxes: map<int, Mux>, lastId: int, id: int, s: Sock)
    requires Numbered(all, muxes, lastId) && Backlogged(all) && 0 < id < lastId
    requires s.backlog == NoBacklog && s.status != LISTENING && (s.muxID == NO_MUX || s.status != INIT)
    requires s.listenSocket == 0 || (s.listenSocket in all && all[s.listenSocket].backlog.Backlog?)
    ensures Numbered(all[id := s], muxes, id) && Backlogged(all[id := s])
  {
    assert id !in all && id !in muxes;
  }

  /** Socket u is forgotten. */
  lemma KeptDrop(all: map<int, Sock>, muxes: map<int, Mux>, leaked: map<int, nat>, lastId: int, u: int)
    requires Kept(all, muxes, leaked, lastId) && u in all
    ensures
      var muxes' := Released(muxes, all[u].muxID);
      Kept(all - {u}, muxes', leaked - (muxes.Keys - muxes'.Keys), lastId)
  {
    CountedDrop(all, muxes, leaked, u);
    hide Counted;
    var all' := all - {u};
    assert forall l | l in all' :: OwnQueue(all', lastId, l, Waiting(all'[l].backlog)) by {
      assert forall l | l in all' && l in all :: OwnQueue(all, lastId, l, Waiting(all[l].backlog));
    }
  }

  /** Socket u is the only one that names mid, and no reference to mid was lost. */
  ghost predicate LastUser(all: map<int, Sock>, leaked: map<int, nat>, u: int, mid: int) {
    Users(all, mid) == {u} && mid in leaked && leaked[mid] == 0
  }

  lemma LastDrop(all: map<int, Sock>, muxes: map<int, Mux>, leaked: map<int, nat>, lastId: int, u: int)
    requires Kept(all, muxes, leaked, lastId) && u in all
    ensures
      var mid := all[u].muxID;
      mid in muxes && mid !in Released(muxes, mid) <==> mid in muxes && LastUser(all, leaked, u, mid)
  {
    CountedDrop(all, muxes, leaked, u);
  }

  lemma LastUserIs(all: map<int, Sock>, all': map<int, Sock>, leaked: map<int, nat>, u: int, mid: int)
    requires Users(all, mid) == Users(all', mid)
    ensures LastUser(all, leaked, u, mid) <==> LastUser(all', leaked, u, mid)
  {
  }

  /** A multiplexer that lost a reference stays, and so does the loss. */
  ghost predicate StillLost(leaked: map<int, nat>, muxes': map<int, Mux>, leaked': map<int, nat>) {
    forall m | m in leaked && leaked[m] > 0 :: m in muxes' && m in leaked' && leaked'[m] == leaked[m]
  }

  lemma LostStart(muxes: map<int, Mux>, leaked: map<int, nat>)
    requires leaked.Keys == muxes.Keys
    ensures StillLost(leaked, muxes, leaked)
  {
    forall m | m in leaked ensures m in muxes {
      assert m in leaked.Keys;
    }
  }

  lemma LostThen(a: map<int, nat>, muxes: map<int, Mux>, b: map<int, nat>, muxes': map<int, Mux>, c: map<int, nat>)
    requires StillLost(a, muxes, b) && StillLost(b, muxes', c)
    ensures StillLost(a, muxes', c)
  {
  }

  /** A multiplexer that lost a reference is never erased. */
  lemma LossStays(all: map<int, Sock>, muxes: map<int, Mux>, muxes': map<int, Mux>, leaked: map<int, nat>, u: int)
    requires leaked.Keys == muxes.Keys
    requires forall m | m in muxes && m !in muxes' :: LastUser(all, leaked, u, m)
    ensures StillLost(leaked, muxes', leaked - (muxes.Keys - muxes'.Keys))
  {
    forall m | m in leaked && leaked[m] > 0 ensures m in muxes' {
      assert m in muxes.Keys;
    }
  }

  lemma NothingLost(muxes: map<int, Mux>, leaked: map<int, nat>)
    ensures leaked - (muxes.Keys - muxes.Keys) == leaked
    ensures leaked.Keys == muxes.Keys ==> StillLost(leaked, muxes, leaked)
  {
    if leaked.Keys == muxes.Keys {
      LostStart(muxes, leaked);
    }
  }

  /** Socket u gets its first multiplexer, mux. */
  lemma KeptBind(all: map<int, Sock>, muxes: map<int, Mux>, leaked: map<int, nat>, lastId: int, u: int, s: Sock, mux: Mux)
    requires Kept(all, muxes, leaked, lastId) && u in all && all[u].status == INIT
    requires s == all[u].(muxID := s.muxID, status := OPENED) && (s.muxID in muxes || s.muxID == u)
    requires mux.refCount == (if s.muxID in muxes then muxes[s.muxID].refCount else 0) + 1
    ensures
      var mid := s.muxID;
      && (mid in muxes ==> mid in leaked)
      && Kept(all[u := s], muxes[mid := mux], leaked[mid := if mid in muxes then leaked[mid] else 0], lastId)
  {
    CountedBind(all, muxes, leaked, u, s, mux);
    OwnedSet(all, lastId, u, s);
    BackloggedSet(all, u, s);
  }

  /** An open socket u, new or changed to s, leaves queues of open sockets open if it only queues open ones anew. */
  lemma SameQueues(sockets: map<int, Sock>, closed: map<int, Sock>, u: int, s: Sock)
    requires u !in closed
    requires forall k | k in Waiting(s.backlog) :: k in sockets || (u in sockets && k in Waiting(sockets[u].backlog))
    ensures QueuesOpen(sockets, closed) ==> QueuesOpen(sockets[u := s], closed)
  {
    var sockets' := sockets[u := s];
    if QueuesOpen(sockets, closed) {
      forall l | l in sockets' + closed ensures QueueOpen(sockets', closed, l) {
        if l in sockets + closed {
          assert QueueOpen(sockets, closed, l);
        }
        var q := Waiting((sockets' + closed)[l].backlog);
        if u in sockets {
          assert QueueOpen(sockets, closed, u) && (sockets + closed)[u] == sockets[u];
        }
        forall k | k in q ensures k in sockets'.Keys {
          assert l == u ==> k in sockets;
        }
      }
    }
  }

  /** Moving u to the closed sockets, with its backlog, opens or spoils the queue of the others exactly as u was open. */
  lemma RetiredQueue(sockets: map<int, Sock>, closed: map<int, Sock>, u: int, s: Sock, l: int)
    requires u in sockets && u !in closed && s.backlog == sockets[u].backlog && l in sockets + closed
    ensures l in (sockets - {u}) + closed[u := s]
    ensures QueueOpen(sockets - {u}, closed[u := s], l) <==>
      QueueOpen(sockets, closed, l) && u !in Waiting((sockets + closed)[l].backlog)
  {
    var all, all' := sockets + closed, (sockets - {u}) + closed[u := s];
    assert all' == all[u := s];
  }

  /** Closing a socket takes it out from under its listener exactly if it was queued. */
  lemma RetiredQueues(sockets: map<int, Sock>, closed: map<int, Sock>, u: int, s: Sock)
    requires u in sockets && u !in closed && s.backlog == sockets[u].backlog
    ensures QueuesOpen(sockets - {u}, closed[u := s]) <==>
      QueuesOpen(sockets, closed) && !InQueue(sockets + closed, u)
  {
    hide QueueOpen;
    var all, all' := sockets + closed, (sockets - {u}) + closed[u := s];
    assert all'.Keys == all.Keys;
    forall l | l in all
      ensures QueueOpen(sockets - {u}, closed[u := s], l) <==>
        QueueOpen(sockets, closed, l) && u !in Waiting(all[l].backlog)
    {
      RetiredQueue(sockets, closed, u, s, l);
    }
  }

  /** Forgetting u, with the connections of its queue closed, leaves the queues of the others as open as they were. */
  lemma RemovedQueue(sockets: map<int, Sock>, closed: map<int, Sock>, sockets': map<int, Sock>, closed': map<int, Sock>,
                     lastId: int, u: int, l: int)
    requires Owned(sockets + closed, lastId) && u in sockets + closed && l in sockets + closed && l != u
    requires sockets'.Keys == sockets.Keys - Waiting((sockets + closed)[u].backlog)
    requires l in sockets' + closed' && (sockets' + closed')[l].backlog == (sockets + closed)[l].backlog
    ensures QueueOpen(sockets', closed', l) <==> QueueOpen(sockets, closed, l)
  {
    var all := sockets + closed;
    forall k | k in Waiting(all[l].backlog) ensures k in sockets' <==> k in sockets {
      if k in sockets {
        OwnedAt(all, lastId, l, k);
        assert OwnQueue(all, lastId, u, Waiting(all[u].backlog));
        assert k !in Waiting(all[u].backlog);
      }
    }
    var q := Waiting(all[l].backlog);
    if q <= sockets.Keys {
      assert forall k | k in q :: k in sockets.Keys && k in sockets';
    }
    if q <= sockets'.Keys {
      assert forall k | k in q :: k in sockets'.Keys && k in sockets;
    }
  }

  /** A listener's sets without i. */
  function Less(b: Backlog, i: int): Backlog {
    if b.Backlog? then Backlog(b.queued - {i}, b.accepted - {i}) else b
  }

  /** The backlog of l after its connection i, if it is one, left its sets. */
  function LeftBacklog(all: map<int, Sock>, i: int, l: int): Backlog
    requires i in all && l in all
  {
    if l == all[i].listenSocket then Less(all[l].backlog, i) else all[l].backlog
  }

  /** A broken socket i closes: it leaves its listener's sets on the way, so every queue is as open as before. */
  lemma LeftQueue(sockets: map<int, Sock>, closed: map<int, Sock>, sockets': map<int, Sock>, closed': map<int, Sock>,
                  lastId: int, i: int, l: int)
    requires Owned(sockets + closed, lastId) && sockets.Keys !! closed.Keys
    requires i in sockets && l in sockets + closed
    requires sockets'.Keys == sockets.Keys - {i} && l in sockets' + closed'
    requires (sockets' + closed')[l].backlog == LeftBacklog(sockets + closed, i, l)
    ensures QueueOpen(sockets', closed', l) <==> QueueOpen(sockets, closed, l)
  {
    var all, all' := sockets + closed, sockets' + closed';
    assert i !in closed.Keys;
    assert all[i] == sockets[i];
    assert OwnQueue(all, lastId, l, Waiting(all[l].backlog));
    assert i in Waiting(all[l].backlog) ==> l == sockets[i].listenSocket;
    assert Waiting(all'[l].backlog) == Waiting(all[l].backlog) - {i};
    LessOne(Waiting(all[l].backlog), sockets.Keys, i);
  }

  lemma LessOne(q: set<int>, keys: set<int>, i: int)
    requires i in keys
    ensures q - {i} <= keys - {i} <==> q <= keys
  {
    if q - {i} <= keys - {i} {
      forall k | k in q ensures k in keys {
        assert k == i || k in q - {i};
      }
    }
  }

  // ----- a round of the garbage collector -----

  /** A listener's sets without the connections gone. */
  function LessAll(b: Backlog, gone: set<int>): Backlog {
    if b.Backlog? then Backlog(b.queued - gone, b.accepted - gone) else b
  }

  /** The connections of listener l among rs. */
  ghost function Own(all: map<int, Sock>, rs: set<int>, l: int): set<int> {
    set r | r in rs && r in all && all[r].listenSocket == l
  }

  /** The sockets rs count as closed and left their listeners' sets; nothing else changed. */
  ghost predicate Retired(all: map<int, Sock>, all': map<int, Sock>, rs: set<int>) {
    && all'.Keys == all.Keys
    && forall i | i in all' :: i in all && all'[i] == After(all, rs, i)
  }

  ghost function After(all: map<int, Sock>, rs: set<int>, i: int): Sock
    requires i in all
  {
    all[i].(backlog := LessAll(all[i].backlog, Own(all, rs, i)), status := if i in rs then CLOSED else all[i].status)
  }

  lemma RetiredStart(all: map<int, Sock>)
    ensures Retired(all, all, {})
  {
    forall i | i in all ensures all[i] == After(all, {}, i) {
      assert Own(all, {}, i) == {};
      LessNone(all[i].backlog);
    }
  }

  lemma LessNone(b: Backlog)
    ensures LessAll(b, {}) == b
  {
    if b.Backlog? {
      assert b.queued - {} == b.queued && b.accepted - {} == b.accepted;
    }
  }

  lemma LessTwice(b: Backlog, x: set<int>, y: set<int>)
    ensures LessAll(LessAll(b, x), y) == LessAll(b, x + y)
  {
    if b.Backlog? {
      assert b.queued - x - y == b.queued - (x + y) && b.accepted - x - y == b.accepted - (x + y);
    }
  }

  lemma RetiredThen(a: map<int, Sock>, b: map<int, Sock>, c: map<int, Sock>, rs: set<int>, j: int)
    requires Retired(a, b, rs) && Retired(b, c, {j}) && j in a
    ensures Retired(a, c, rs + {j})
  {
    forall i | i in c ensures i in a && c[i] == After(a, rs + {j}, i) {
      assert i in b && b[i] == After(a, rs, i) && b[j] == After(a, rs, j);
      assert Own(a, rs + {j}, i) == Own(a, rs, i) + Own(b, {j}, i);
      LessTwice(a[i].backlog, Own(a, rs, i), Own(b, {j}, i));
    }
  }

  lemma RetiredOne(all: map<int, Sock>, left: map<int, Sock>, all': map<int, Sock>, j: int)
    requires j in all && left == LeftBy(all, j) && all' == left[j := left[j].(status := CLOSED)]
    ensures Retired(all, all', {j})
  {
    forall i | i in all' ensures i in all && all'[i] == After(all, {j}, i) {
      assert Own(all, {j}, i) == if all[j].listenSocket == i then {j} else {};
      LessNone(all[i].backlog);
    }
    assert all'.Keys == all.Keys;
  }

  lemma LeftBacklogs(all: map<int, Sock>, left: map<int, Sock>, all': map<int, Sock>, j: int)
    requires j in all && left == LeftBy(all, j) && all' == left[j := left[j].(status := CLOSED)]
    ensures all'.Keys == all.Keys && forall l | l in all' :: l in all && all'[l].backlog == LeftBacklog(all, j, l)
  {
    assert all'.Keys == all.Keys;
  }

  /** The sockets after j left the sets of its listener, if that is registered. */
  function LeftBy(all: map<int, Sock>, j: int): map<int, Sock>
    requires j in all
    ensures LeftBy(all, j).Keys == all.Keys
  {
    var l := all[j].listenSocket;
    if l in all then all[l := all[l].(backlog := Less(all[l].backlog, j))] else all
  }

  /** One of the closed listeners ds queues i. */
  ghost predicate QueuedBy(closed: map<int, Sock>, ds: set<int>, i: int) {
    exists l :: l in ds && l in closed && i in Waiting(closed[l].backlog)
  }

  /** The closed listeners ds were forgotten and the connections they queued closed; nothing else changed. */
  ghost predicate Forgotten(open: map<int, Sock>, gone: map<int, Sock>, sockets: map<int, Sock>, closed: map<int, Sock>,
                            ds: set<int>)
  {
    && (forall i | i in sockets :: i in open && sockets[i] == open[i])
    && (forall i | i in open :: i in sockets <==> !QueuedBy(gone, ds, i))
    && (forall i | i in closed :: if i in gone then i !in ds && closed[i] == gone[i]
                                  else i in open && closed[i] == open[i].(status := CLOSED, broken := true))
  }

  /** No multiplexer is new, and each keeps everything but its count. */
  ghost predicate SameMuxes(mx: map<int, Mux>, lk: map<int, nat>, muxes: map<int, Mux>, leaked: map<int, nat>) {
    forall m | m in muxes ::
      && m in mx && muxes[m] == mx[m].(refCount := muxes[m].refCount)
      && m in lk && m in leaked && leaked[m] == lk[m]
  }

  lemma SameMuxesStart(muxes: map<int, Mux>, leaked: map<int, nat>)
    requires leaked.Keys == muxes.Keys
    ensures SameMuxes(muxes, leaked, muxes, leaked)
  {
    forall m | m in muxes ensures m in leaked {
      assert m in muxes.Keys;
    }
  }

  lemma SameMuxesThen(mx: map<int, Mux>, lk: map<int, nat>, a: map<int, Mux>, la: map<int, nat>,
                      b: map<int, Mux>, lb: map<int, nat>)
    requires SameMuxes(mx, lk, a, la) && forall m | m in b :: m in a && b[m] == a[m].(refCount := b[m].refCount)
    requires lb == la - (a.Keys - b.Keys)
    ensures SameMuxes(mx, lk, b, lb)
  {
  }

  lemma ForgottenStart(open: map<int, Sock>, gone: map<int, Sock>)
    ensures Forgotten(open, gone, open, gone, {})
  {
  }

  lemma ForgottenThen(open: map<int, Sock>, gone: map<int, Sock>, s: map<int, Sock>, c: map<int, Sock>,
                      s': map<int, Sock>, c': map<int, Sock>, ds: set<int>, l: int)
    requires Forgotten(open, gone, s, c, ds) && l in c && l in gone && s.Keys !! c.Keys
    requires s'.Keys == s.Keys - Waiting(c[l].backlog) && forall k | k in s' :: k in s && s'[k] == s[k]
    requires l !in c' && forall k | k in c' ::
               if k in c then c'[k] == c[k] else k in s && c'[k] == s[k].(status := CLOSED, broken := true)
    requires open.Keys !! gone.Keys
    ensures Forgotten(open, gone, s', c', ds + {l})
  {
    hide Waiting;
    assert c[l] == gone[l];
    forall i | i in open ensures i in s' <==> !QueuedBy(gone, ds + {l}, i) {
      assert i in s' <==> i in s'.Keys;
      assert i in s <==> i in s.Keys;
      assert QueuedBy(gone, ds + {l}, i) <==> QueuedBy(gone, ds, i) || i in Waiting(gone[l].backlog);
    }
    forall i | i in c' && i in gone ensures i !in ds + {l} && c'[i] == gone[i] {
      assert i in gone.Keys;
      assert i !in open.Keys;
      assert i in c;
    }
  }

  /** The listener's sets lost the connections gone, and nothing else. */
  ghost predicate LosesOnly(b: Backlog, b': Backlog, gone: set<int>) {
    && (b.Backlog? <==> b'.Backlog?)
    && (b.Backlog? ==>
          forall k :: && (k in b'.queued <==> k in b.queued && k !in gone)
                      && (k in b'.accepted <==> k in b.accepted && k !in gone))
  }

  /** What a round did, from its two halves: first the broken sockets closed, then the listeners ds were forgotten. */
  lemma Swept(s0: map<int, Sock>, c0: map<int, Sock>, s1: map<int, Sock>, c1: map<int, Sock>,
              s2: map<int, Sock>, c2: map<int, Sock>, wait: set<int>, ds: set<int>)
    requires s0.Keys !! c0.Keys && s1.Keys !! c1.Keys && ds <= c0.Keys
    requires
      var rs := set i | i in s0 && s0[i].broken && i !in wait;
      Retired(s0 + c0, s1 + c1, rs) && s1.Keys == s0.Keys - rs && c1.Keys == c0.Keys + rs
    requires Forgotten(s1, c1, s2, c2, ds)
    ensures forall i | i in s0 ::
              i in s2 <==>
                && (!s0[i].broken || i in wait)
                && !exists l :: l in c0 && l in ds && i in Waiting(c0[l].backlog)
    ensures forall i | i in s2 ::
              && i in s0 && s2[i] == s0[i].(backlog := s2[i].backlog)
              && LosesOnly(s0[i].backlog, s2[i].backlog,
                           set k | k in s0 && s0[k].broken && k !in wait && s0[k].listenSocket == i)
    ensures forall i | i in c2 ::
              if i in c0 then i !in ds && c2[i] == c0[i].(backlog := c2[i].backlog)
              else i in s0 && c2[i] == s0[i].(status := CLOSED, broken := true, backlog := c2[i].backlog)
    ensures forall i | i in c2 ::
              && (i in c0 || i in s0)
              && LosesOnly((if i in c0 then c0[i] else s0[i]).backlog, c2[i].backlog,
                           set k | k in s0 && s0[k].broken && k !in wait && s0[k].listenSocket == i)
  {
    hide Retired, LosesOnly;
    var rs := set i | i in s0 && s0[i].broken && i !in wait;
    forall i | i in s0
      ensures i in s2 <==>
        && (!s0[i].broken || i in wait)
        && !exists l :: l in c0 && l in ds && i in Waiting(c0[l].backlog)
    {
      SweptOpen(s0, c0, s1, c1, s2, c2, rs, ds, i);
    }
    forall i | i in s2
      ensures i in s0 && s2[i] == s0[i].(backlog := s2[i].backlog)
      ensures LosesOnly(s0[i].backlog, s2[i].backlog,
                        set k | k in s0 && s0[k].broken && k !in wait && s0[k].listenSocket == i)
    {
      assert i in s1.Keys;
      RetiredAt(s0, c0, s1, c1, rs, i);
      OwnIs(s0, c0, wait, i);
      Lost(s0[i].backlog, Own(s0 + c0, rs, i));
    }
    forall i | i in c2
      ensures (i in c0 || i in s0)
      ensures LosesOnly((if i in c0 then c0[i] else s0[i]).backlog, c2[i].backlog,
                        set k | k in s0 && s0[k].broken && k !in wait && s0[k].listenSocket == i)
      ensures if i in c0 then i !in ds && c2[i] == c0[i].(backlog := c2[i].backlog)
              else i in s0 && c2[i] == s0[i].(status := CLOSED, broken := true, backlog := c2[i].backlog)
    {
      OwnIs(s0, c0, wait, i);
      if i in c1 {
        assert i in c1.Keys;
        RetiredAt(s0, c0, s1, c1, rs, i);
        assert i in c0.Keys || i in rs;
      } else {
        assert i in s1.Keys;
        RetiredAt(s0, c0, s1, c1, rs, i);
        assert i !in c0.Keys;
      }
      Lost((if i in c0 then c0[i] else s0[i]).backlog, Own(s0 + c0, rs, i));
    }
  }

  lemma OwnIs(s0: map<int, Sock>, c0: map<int, Sock>, wait: set<int>, i: int)
    requires s0.Keys !! c0.Keys
    ensures
      var rs := set k | k in s0 && s0[k].broken && k !in wait;
      Own(s0 + c0, rs, i) == set k | k in s0 && s0[k].broken && k !in wait && s0[k].listenSocket == i
  {
    var rs := set k | k in s0 && s0[k].broken && k !in wait;
    forall k | k in rs ensures (s0 + c0)[k] == s0[k] {
      assert k in s0.Keys && k !in c0.Keys;
    }
  }

  lemma Lost(b: Backlog, gone: set<int>)
    ensures LosesOnly(b, LessAll(b, gone), gone)
  {
  }

  /** One socket after the broken ones closed. */
  lemma RetiredAt(s0: map<int, Sock>, c0: map<int, Sock>, s1: map<int, Sock>, c1: map<int, Sock>, rs: set<int>, i: int)
    requires s0.Keys !! c0.Keys && s1.Keys !! c1.Keys && i in s1.Keys + c1.Keys && rs <= s0.Keys
    requires Retired(s0 + c0, s1 + c1, rs) && s1.Keys == s0.Keys - rs && c1.Keys == c0.Keys + rs
    ensures
      var was := if i in c0 then c0[i] else if i in s0 then s0[i] else UNBOUND;
      && (i in c0 <==> i !in s0)
      && (if i in c1 then c1[i] else s1[i]) ==
         was.(backlog := LessAll(was.backlog, Own(s0 + c0, rs, i)), status := if i in rs then CLOSED else was.status)
  {
    assert i in s1 + c1 && (s1 + c1)[i] == After(s0 + c0, rs, i);
    assert i in s0.Keys + c0.Keys;
    assert i in c0 ==> i !in s0.Keys;
  }

  lemma SweptOpen(s0: map<int, Sock>, c0: map<int, Sock>, s1: map<int, Sock>, c1: map<int, Sock>,
                  s2: map<int, Sock>, c2: map<int, Sock>, rs: set<int>, ds: set<int>, i: int)
    requires s0.Keys !! c0.Keys && s1.Keys !! c1.Keys && ds <= c0.Keys && i in s0 && rs <= s0.Keys
    requires Retired(s0 + c0, s1 + c1, rs) && s1.Keys == s0.Keys - rs && c1.Keys == c0.Keys + rs
    requires Forgotten(s1, c1, s2, c2, ds)
    ensures i in s2 <==> i !in rs && !exists l :: l in c0 && l in ds && i in Waiting(c0[l].backlog)
  {
    hide Retired;
    if i in rs {
      assert i !in s1.Keys;
    } else {
      assert i in s1.Keys;
      assert QueuedBy(c1, ds, i) <==> exists l :: l in c0 && l in ds && i in Waiting(c0[l].backlog) by {
        forall l | l in ds ensures l in c1 && l in c0 && (i in Waiting(c1[l].backlog) <==> i in Waiting(c0[l].backlog)) {
          assert l in c0.Keys && l in c1.Keys;
          RetiredAt(s0, c0, s1, c1, rs, l);
          assert i !in Own(s0 + c0, rs, l);
        }
      }
    }
  }

  /** The multiplexers after a round. */
  lemma SweptMuxes(s0: map<int, Sock>, c0: map<int, Sock>, s2: map<int, Sock>, c2: map<int, Sock>, due: set<int>,
                   mx: map<int, Mux>, lk: map<int, nat>, muxes: map<int, Mux>, leaked: map<int, nat>)
    requires Counted(s0 + c0, mx, lk) && Counted(s2 + c2, muxes, leaked) && NO_MUX !in mx
    requires s0.Keys !! c0.Keys && s2.Keys !! c2.Keys && s2.Keys + c2.Keys == s0.Keys + c0.Keys - due * c0.Keys
    requires forall i | i in s2 :: i in s0 && s2[i].muxID == s0[i].muxID
    requires forall i | i in c2 ::
               if i in c0 then c2[i].muxID == c0[i].muxID else i in s0 && c2[i].muxID == s0[i].muxID
    requires StillLost(lk, muxes, leaked) && SameMuxes(mx, lk, muxes, leaked)
    ensures muxes.Keys <= mx.Keys
    ensures forall m | m in mx ::
              var n := |set l | l in c0 && l in due && c0[l].muxID == m|;
              && (m in muxes <==> mx[m].refCount != n)
              && (m in muxes ==> muxes[m] == mx[m].(refCount := mx[m].refCount - n))
  {
    hide Counted, Users;
    forall m | m in muxes ensures m in mx {
    }
    forall m | m in mx
      ensures
        var n := |set l | l in c0 && l in due && c0[l].muxID == m|;
        && (m in muxes <==> mx[m].refCount != n)
        && (m in muxes ==> muxes[m] == mx[m].(refCount := mx[m].refCount - n))
    {
      UsersLeft(s0, c0, s2, c2, due * c0.Keys, m);
      assert (set l | l in c0 && l in due && c0[l].muxID == m)
          == set l | l in c0 && l in due * c0.Keys && c0[l].muxID == m;
      CountAt(s0 + c0, mx, lk, m);
      CountLeft(s2 + c2, muxes, leaked, m);
    }
  }

  lemma CountAt(all: map<int, Sock>, muxes: map<int, Mux>, leaked: map<int, nat>, m: int)
    requires Counted(all, muxes, leaked) && m in muxes
    ensures m in leaked && 1 <= muxes[m].refCount == |Users(all, m)| + leaked[m]
  {
    hide Users;
    assert m in muxes.Keys;
  }

  lemma CountLeft(all: map<int, Sock>, muxes: map<int, Mux>, leaked: map<int, nat>, m: int)
    requires Counted(all, muxes, leaked) && m != NO_MUX
    ensures if m in muxes then m in leaked && 1 <= muxes[m].refCount == |Users(all, m)| + leaked[m] else |Users(all, m)| == 0
  {
    if m in muxes {
      CountAt(all, muxes, leaked, m);
    } else {
      NoUsers(all, muxes, leaked, m);
    }
  }

  lemma UsersLeft(s0: map<int, Sock>, c0: map<int, Sock>, s2: map<int, Sock>, c2: map<int, Sock>, ds: set<int>, m: int)
    requires s0.Keys !! c0.Keys && s2.Keys !! c2.Keys && ds <= c0.Keys && s2.Keys + c2.Keys == s0.Keys + c0.Keys - ds
    requires forall i | i in s2 :: i in s0 && s2[i].muxID == s0[i].muxID
    requires forall i | i in c2 ::
               if i in c0 then c2[i].muxID == c0[i].muxID else i in s0 && c2[i].muxID == s0[i].muxID
    ensures |Users(s2 + c2, m)| == |Users(s0 + c0, m)| - |set l | l in c0 && l in ds && c0[l].muxID == m|
  {
    var ls := set l | l in c0 && l in ds && c0[l].muxID == m;
    var all, all' := s0 + c0, s2 + c2;
    forall i | i in all' ensures i in all && all'[i].muxID == all[i].muxID {
      UnionAt(s0, c0, s2, c2, i);
    }
    assert all'.Keys == all.Keys - ds;
    forall l ensures l in ls <==> l in ds && l in all && all[l].muxID == m {
      assert l in ds ==> l in c0.Keys;
    }
    UsersLess(all, all', ds, ls, m);
  }

  lemma UnionAt(s0: map<int, Sock>, c0: map<int, Sock>, s2: map<int, Sock>, c2: map<int, Sock>, i: int)
    requires s0.Keys !! c0.Keys && i in s2 + c2
    requires forall i | i in s2 :: i in s0 && s2[i].muxID == s0[i].muxID
    requires forall i | i in c2 ::
               if i in c0 then c2[i].muxID == c0[i].muxID else i in s0 && c2[i].muxID == s0[i].muxID
    ensures i in s0 + c0 && (s2 + c2)[i].muxID == (s0 + c0)[i].muxID
  {
    assert i in s0.Keys ==> i !in c0.Keys;
  }

  lemma UsersLess(all: map<int, Sock>, all': map<int, Sock>, ds: set<int>, ls: set<int>, m: int)
    requires all'.Keys == all.Keys - ds && forall i | i in all' :: i in all && all'[i].muxID == all[i].muxID
    requires forall l :: l in ls <==> l in ds && l in all && all[l].muxID == m
    ensures |Users(all', m)| == |Users(all, m)| - |ls|
  {
    forall i ensures i in Users(all', m) <==> i in Users(all, m) - ls {
      assert i in all' <==> i in all'.Keys;
      assert i in all <==> i in all.Keys;
    }
    assert Users(all', m) == Users(all, m) - ls;
    forall l | l in ls ensures l in Users(all, m) {
      UsersAre(all, l, m);
    }
  }

  /** Changing an open socket, or adding one, in the union of both maps. */
  lemma JoinSet(sockets: map<int, Sock>, closed: map<int, Sock>, u: int, s: Sock)
    requires sockets.Keys !! closed.Keys && u !in closed
    ensures sockets[u := s].Keys !! closed.Keys && sockets[u := s] + closed == (sockets + closed)[u := s]
  {
  }

  class United {
    var sockets: map<int, Sock>
    var closed: map<int, Sock>
    var muxes: map<int, Mux>
    var lastId: int
    // how many references to each multiplexer were lost
    ghost var leaked: map<int, nat>

    ghost function All(): map<int, Sock>
      reads this
    {
      sockets + closed
    }

    ghost predicate Valid()
      reads this
    {
      sockets.Keys !! closed.Keys && Kept(All(), muxes, leaked, lastId)
    }

    constructor (first: int)
      requires first > 0
      ensures Valid() && QueuesOpen(sockets, closed) && All() == map[] && muxes == map[] && lastId == first
    {
      sockets, closed, muxes, lastId, leaked := map[], map[], map[], first, map[];
    }

    /** newSocket. Socket numbers must not have run out. */
    method NewSocket() returns (id: int)
      requires Valid() && lastId > 1
      modifies this`sockets, this`lastId
      ensures Valid() && id !in old(All()) && sockets == old(sockets)[id := UNBOUND]
      ensures id == lastId == old(lastId) - 1
      ensures old(QueuesOpen(sockets, closed)) ==> QueuesOpen(sockets, closed)
    {
      hide Kept;
      ghost var all := All();
      New(lastId - 1);
      lastId := lastId - 1;
      id := lastId;
      KeptNew(all, muxes, leaked, old(lastId), id, UNBOUND);
      sockets := sockets[id := UNBOUND];
      assert All() == all[id := UNBOUND];
    }

    /** A number below all is new. */
    lemma New(id: int)
      requires Valid() && id < lastId
      ensures id !in All() && id !in sockets && id !in closed && id !in muxes
    {
      hide Counted, Owned, Backlogged;
      assert id in sockets || id in closed ==> id in All();
    }

    /** The socket that locate finds: registered as open and not marked closed. */
    predicate Located(u: int)
      reads this
    {
      u in sockets && sockets[u].status != CLOSED
    }

    /** Some multiplexer may be shared by a socket bound to port. */
    ghost predicate SomeShareable(version: int, mss: int, port: int)
      reads this
    {
      exists m :: m in muxes && Shareable(muxes[m], version, mss, port)
    }

    /** A multiplexer that a socket bound to port may share. */
    method FindMux(version: int, mss: int, port: int) returns (found: bool, mid: int)
      ensures found <==> SomeShareable(version, mss, port)
      ensures found ==>
        && mid in muxes && muxes[mid].version == version && muxes[mid].mss == mss && muxes[mid].reusable
        && muxes[mid].port == port && Shareable(muxes[mid], version, mss, port)
      ensures !found ==> forall m | m in muxes ::
                !(muxes[m].version == version && muxes[m].mss == mss && muxes[m].reusable && muxes[m].port == port)
    {
      var todo := muxes.Keys;
      while todo != {}
        invariant todo <= muxes.Keys
        invariant forall m | m in muxes && m !in todo :: !Shareable(muxes[m], version, mss, port)
        decreases |todo|
      {
        Inhabited(todo);
        mid :| mid in todo;
        if Shareable(muxes[mid], version, mss, port) {
          return true, mid;
        }
        todo := todo - {mid};
      }
      return false, NO_MUX;
    }

    /** bind (and connect or punchhole on a socket not bound yet, with reuse off): shares a multiplexer when the socket
        may, else opens a new one, numbered like the socket.
        named: whether the address has the length of its family, or could be read off the
        given channel; canOpen: whether a channel could be opened, on newPort. */
    method Bind(u: int, named: bool, reuse: bool, reusable: bool, version: int, mss: int, port: int,
                canOpen: bool, newPort: int)
      returns (ok: bool)
      requires Valid()
      modifies this`sockets, this`muxes, this`leaked
      ensures Valid()
      ensures ok <==> && u in old(sockets) && old(sockets)[u].status == INIT && named
                      && ((reuse && old(SomeShareable(version, mss, port))) || canOpen)
      ensures !ok ==> sockets == old(sockets) && muxes == old(muxes) && leaked == old(leaked)
      ensures ok ==>
        && u in sockets && sockets == old(sockets)[u := old(sockets)[u].(muxID := sockets[u].muxID, status := OPENED)]
        && var mid := sockets[u].muxID;
        if reuse && old(SomeShareable(version, mss, port)) then
          && mid in old(muxes) && Shareable(old(muxes)[mid], version, mss, port) && muxes == Grab(old(muxes), mid)
          && leaked == old(leaked)
        else mid == u && muxes == old(muxes)[u := Mux(1, version, mss, reusable, newPort)]
             && leaked == old(leaked)[u := 0]
      ensures forall m | m in old(muxes) :: m in muxes && muxes[m] == old(muxes)[m].(refCount := muxes[m].refCount)
      ensures ok && sockets[u].muxID in old(muxes) ==>
        var mux := old(muxes)[sockets[u].muxID];
        reuse && mux.version == version && mux.mss == mss && mux.reusable && mux.port == port
      ensures ok && sockets[u].muxID !in old(muxes) && reuse ==> forall m | m in old(muxes) ::
        var mux := old(muxes)[m];
        !(mux.version == version && mux.mss == mss && mux.reusable && mux.port == port)
      ensures old(QueuesOpen(sockets, closed)) ==> QueuesOpen(sockets, closed)
    {
      hide Valid, QueuesOpen, Kept;
      if !Located(u) || sockets[u].status != INIT || !named {
        return false;
      }
      if reuse {
        var found, mid := FindMux(version, mss, port);
        if found {
          Attach(u, mid, muxes[mid].(refCount := muxes[mid].refCount + 1));
          LeakKept(old(leaked), leaked, mid);
          return true;
        }
      }
      if !canOpen {
        return false;
      }
      Unbound(u);
      Attach(u, u, Mux(1, version, mss, reusable, newPort));
      ok := true;
    }

    lemma LeakKept(was: map<int, nat>, now: map<int, nat>, mid: int)
      requires mid in was && now == was[mid := was[mid]]
      ensures now == was
    {
    }

    /** A socket not bound yet has no multiplexer, and no multiplexer has its number. */
    lemma Unbound(u: int)
      requires Valid() && u in sockets && sockets[u].status == INIT
      ensures u !in muxes
    {
      hide Counted, Owned, Backlogged;
      assert u !in closed.Keys;
      assert All()[u] == sockets[u];
    }

    /** Socket u, not bound yet, now uses mux. */
    method Attach(u: int, mid: int, mux: Mux)
      requires Valid() && u in sockets && sockets[u].status == INIT
      requires mux.refCount == (if mid in muxes then muxes[mid].refCount else 0) + 1
      requires mid in muxes || mid == u
      modifies this`sockets, this`muxes, this`leaked
      ensures Valid()
      ensures sockets == old(sockets)[u := old(sockets)[u].(muxID := mid, status := OPENED)]
      ensures muxes == old(muxes)[mid := mux] && (mid in old(muxes) ==> mid in old(leaked))
      ensures leaked == old(leaked)[mid := if mid in old(muxes) then old(leaked)[mid] else 0]
      ensures old(QueuesOpen(sockets, closed)) ==> QueuesOpen(sockets, closed)
    {
      hide QueuesOpen, Kept;
      ghost var all := All();
      var s := sockets[u].(muxID := mid, status := OPENED);
      OpenOne(u);
      KeptBind(all, muxes, leaked, lastId, u, s, mux);
      SameQueues(sockets, closed, u, s);
      JoinSet(sockets, closed, u, s);
      leaked := leaked[mid := if mid in muxes then leaked[mid] else 0];
      sockets := sockets[u := s];
      muxes := muxes[mid := mux];
    }

    /** An open socket is not among the closed ones. */
    lemma OpenOne(u: int)
      requires sockets.Keys !! closed.Keys && u in sockets
      ensures u !in closed && u in All() && All()[u] == sockets[u]
    {
      assert u !in closed.Keys;
    }

    lemma ClosedOne(u: int)
      requires sockets.Keys !! closed.Keys && u in closed
      ensures u !in sockets && u in All() && All()[u] == closed[u]
    {
      assert u !in sockets.Keys;
    }

    /** listen. rendezvous: whether the socket is set up to meet a peer that connects at the same time. */
    method Listen(u: int, backlog: int, rendezvous: bool) returns (ok: bool)
      requires Valid()
      modifies this`sockets
      ensures Valid()
      ensures ok <==> u in old(sockets) && (|| old(sockets)[u].status == LISTENING
                                            || (old(sockets)[u].status == OPENED && !rendezvous && backlog > 0))
      ensures sockets ==
        if ok && old(sockets)[u].status == OPENED
        then old(sockets)[u := old(sockets)[u].(status := LISTENING, backlog := Backlog({}, {}))] else old(sockets)
      ensures ok ==> u in sockets && sockets[u].status == LISTENING && sockets[u].backlog.Backlog?
      ensures old(QueuesOpen(sockets, closed)) ==> QueuesOpen(sockets, closed)
    {
      hide QueuesOpen, Counted, Numbered, Owned;
      if !Located(u) || (sockets[u].status != OPENED && sockets[u].status != LISTENING) {
        return false;
      }
      OpenOne(u);
      if sockets[u].status == OPENED {
        if rendezvous || backlog <= 0 {
          return false;
        }
        SetSocket(u, sockets[u].(status := LISTENING, backlog := Backlog({}, {})));
      }
      ok := true;
    }

    /** Changes an open socket without touching its multiplexer or its listener. */
    method SetSocket(u: int, s: Sock)
      requires Valid() && u in sockets && Changes(sockets[u], s)
      requires forall k | k in Waiting(s.backlog) ::
                 k in Waiting(sockets[u].backlog) || (k in sockets && sockets[k].listenSocket == u)
      modifies this`sockets
      ensures Valid() && sockets == old(sockets)[u := s]
      ensures old(QueuesOpen(sockets, closed)) ==> QueuesOpen(sockets, closed)
    {
      hide Kept, QueuesOpen;
      ghost var all := All();
      OpenOne(u);
      forall k | k in Waiting(s.backlog)
        ensures k in Waiting(all[u].backlog) || (k in all && all[k].listenSocket == u)
      {
        if k !in Waiting(sockets[u].backlog) {
          OpenOne(k);
        }
      }
      KeptSet(all, muxes, leaked, lastId, u, s);
      SameQueues(sockets, closed, u, s);
      JoinSet(sockets, closed, u, s);
      sockets := sockets[u := s];
    }

    /** The sockets after listener l heard again from the peer of the broken connection known: that one counts as closed,
        and the listener forgets it. */
    static ghost function Dismissed(sockets: map<int, Sock>, l: int, known: int): map<int, Sock>
      requires l in sockets && known in sockets
    {
      sockets[known := sockets[known].(status := CLOSED)][l := sockets[l].(backlog := Less(sockets[l].backlog, known))]
    }

    /** The sockets after the new connection id joined listener l. */
    static ghost function Joined(sockets: map<int, Sock>, l: int, id: int): map<int, Sock>
      requires l in sockets && sockets[l].backlog.Backlog?
    {
      var b := sockets[l].backlog;
      sockets[id := Sock(CONNECTED, l, sockets[l].muxID, NoBacklog, false)]
             [l := sockets[l].(backlog := Backlog(b.queued + {id}, b.accepted))]
    }

    /** A handshake from a peer whose connection is known, or 0, gets past all of the listener's checks. */
    ghost predicate Admits(l: int, known: int, backlog: int)
      reads this
    {
      && Located(l) && sockets[l].backlog.Backlog? && sockets[l].muxID in muxes
      && (known != 0 ==> known in sockets && sockets[known].broken)
      && |sockets[l].backlog.queued - (if known == 0 then {} else {known})| < backlog
    }

    /** A handshake reaches listener l (newConnection). known: the socket its peer already has, or 0; connects: whether
        the new connection could be set up. Returns -1, 0 or 1 like the code: a connection that gets past the checks is
        entered if it connects, and loses a reference to its listener's multiplexer for good if it does not. */
    method NewConnection(l: int, known: int, backlog: int, connects: bool) returns (res: int, id: int)
      requires Valid() && lastId > 1 && (l in sockets && sockets[l].status != CLOSED ==> sockets[l].status == LISTENING)
      requires known != 0 ==> known in sockets && sockets[known].status != LISTENING
      modifies this`sockets, this`muxes, this`lastId, this`leaked
      ensures Valid() && (old(QueuesOpen(sockets, closed)) ==> QueuesOpen(sockets, closed))
      ensures res == 0 <==> old(Located(l)) && known != 0 && !old(sockets)[known].broken
      ensures res == 1 <==> old(Admits(l, known, backlog)) && connects
      ensures res == 0 || res == 1 || res == -1
      ensures sockets ==
        (var was := if old(Located(l)) && known != 0 && old(sockets)[known].broken
                    then Dismissed(old(sockets), l, known) else old(sockets);
        if res == 1 then Joined(was, l, id) else was)
      ensures res == 1 <==>
        && connects && l in old(sockets) && old(sockets)[l].status != CLOSED && old(sockets)[l].backlog.Backlog?
        && old(sockets)[l].muxID in old(muxes) && (known == 0 || old(sockets)[known].broken)
        && |if known == 0 then old(sockets)[l].backlog.queued else old(sockets)[l].backlog.queued - {known}| < backlog
      ensures res == 1 ==>
        && l in sockets && id in sockets && sockets[id] == Sock(CONNECTED, l, old(sockets)[l].muxID, NoBacklog, false)
        && var b := old(sockets)[l].backlog;
        && sockets[l] == old(sockets)[l].(backlog := if known == 0 then Backlog(b.queued + {id}, b.accepted)
                                                     else Backlog(b.queued - {known} + {id}, b.accepted - {known}))
        && (forall k | k in old(sockets) && k != l && k != known :: k in sockets && sockets[k] == old(sockets)[k])
        && (known != 0 ==> known in sockets && sockets[known] == old(sockets)[known].(status := CLOSED))
      ensures res == 1 ==> id !in old(All()) && id == lastId == old(lastId) - 1
      ensures muxes == if old(Admits(l, known, backlog)) then Grab(old(muxes), old(sockets)[l].muxID) else old(muxes)
      ensures muxes.Keys == old(muxes).Keys
      ensures forall m | m in muxes :: m in old(muxes) && muxes[m] == old(muxes)[m].(refCount := muxes[m].refCount)
      ensures old(Admits(l, known, backlog)) ==> old(sockets)[l].muxID in old(leaked)
      ensures leaked ==
        if old(Admits(l, known, backlog)) && !connects
        then old(leaked)[old(sockets)[l].muxID := old(leaked)[old(sockets)[l].muxID] + 1] else old(leaked)
    {
      hide Valid, QueuesOpen, Kept;
      id := 0;
      if !Located(l) {
        return -1, id;
      }
      ListenerFacts(l);
      if known != 0 {
        if sockets[known].broken {
          ForgetKnown(l, known);
        } else {
          return 0, id;
        }
      }
      if |sockets[l].backlog.queued| >= backlog {
        return -1, id;
      }
      if sockets[l].muxID !in muxes {
        Lower();
        return -1, id;
      }
      if !connects {
        Lower();
        LeakReference(sockets[l].muxID);
        return -1, id;
      }
      id := lastId - 1;
      Register(l, id);
      res := 1;
    }

    lemma ListenerFacts(l: int)
      requires Valid() && l in sockets && sockets[l].status == LISTENING
      ensures sockets[l].backlog.Backlog? && leaked.Keys == muxes.Keys
    {
      OpenOne(l);
    }

    /** A socket number is used up. */
    method Lower()
      requires Valid() && lastId > 1
      modifies this`lastId
      ensures Valid() && lastId == old(lastId) - 1
    {
      hide Counted, Users;
      lastId := lastId - 1;
    }

    /** The peer's old connection is broken: it counts as closed and leaves the listener's sets. */
    method ForgetKnown(l: int, known: int)
      requires Valid() && l in sockets && sockets[l].status == LISTENING && sockets[l].backlog.Backlog?
      requires known in sockets && known != l
      modifies this`sockets
      ensures Valid() && (old(QueuesOpen(sockets, closed)) ==> QueuesOpen(sockets, closed))
      ensures sockets == Dismissed(old(sockets), l, known)
    {
      hide Valid, QueuesOpen;
      SetSocket(known, sockets[known].(status := CLOSED));
      var b := sockets[l].backlog;
      SetSocket(l, sockets[l].(backlog := Backlog(b.queued - {known}, b.accepted - {known})));
    }

    /** A connection that fails after it was given its listener's multiplexer never releases it. */
    method LeakReference(mid: int)
      requires Valid() && mid in muxes
      modifies this`muxes, this`leaked
      ensures Valid() && muxes == Grab(old(muxes), mid)
      ensures mid in old(leaked) && leaked == old(leaked)[mid := old(leaked)[mid] + 1]
    {
      hide Users, Owned, Backlogged;
      muxes := muxes[mid := muxes[mid].(refCount := muxes[mid].refCount + 1)];
      leaked := leaked[mid := leaked[mid] + 1];
    }

    /** The new connection shares the listener's multiplexer and waits in its queue. */
    method Register(l: int, id: int)
      requires Valid() && 0 < id < lastId
      requires l in sockets && sockets[l].status == LISTENING && sockets[l].muxID in muxes && sockets[l].backlog.Backlog?
      modifies this`sockets, this`muxes, this`lastId
      ensures Valid() && (old(QueuesOpen(sockets, closed)) ==> QueuesOpen(sockets, closed))
      ensures id !in old(All()) && lastId == id
      ensures sockets == Joined(old(sockets), l, id) && muxes == Grab(old(muxes), old(sockets)[l].muxID)
    {
      hide Valid, Kept, QueuesOpen, Waiting;
      New(id);
      Enter(id, Sock(CONNECTED, l, sockets[l].muxID, NoBacklog, false));
      var b := sockets[l].backlog;
      OnlyNew(b, id);
      SetSocket(l, sockets[l].(backlog := Backlog(b.queued + {id}, b.accepted)));
    }

    lemma OnlyNew(b: Backlog, id: int)
      requires b.Backlog?
      ensures forall k | k in Waiting(Backlog(b.queued + {id}, b.accepted)) :: k in Waiting(b) || k == id
    {
    }

    /** A connection with a new number is open and shares a multiplexer. */
    method Enter(id: int, s: Sock)
      requires Valid() && 0 < id < lastId && s.status == CONNECTED && s.backlog == NoBacklog && s.muxID in muxes
      requires s.listenSocket in sockets && sockets[s.listenSocket].backlog.Backlog?
      modifies this`sockets, this`muxes, this`lastId
      ensures Valid() && (old(QueuesOpen(sockets, closed)) ==> QueuesOpen(sockets, closed))
      ensures sockets == old(sockets)[id := s] && muxes == Grab(old(muxes), s.muxID) && lastId == id
    {
      hide QueuesOpen, Kept;
      ghost var all := All();
      New(id);
      OpenOne(s.listenSocket);
      Bound(s.muxID);
      KeptNew(all, muxes, leaked, lastId, id, s);
      SameQueues(sockets, closed, id, s);
      JoinSet(sockets, closed, id, s);
      muxes := muxes[s.muxID := muxes[s.muxID].(refCount := muxes[s.muxID].refCount + 1)];
      sockets := sockets[id := s];
      lastId := id;
    }

    lemma Bound(mid: int)
      requires Valid() && mid in muxes
      ensures mid != NO_MUX
    {
      hide Counted, Owned, Backlogged;
    }

    /** accept: hands out the queued connection with the smallest number, if any, which is the newest. Past the limit
        the connection moves to the accepted ones all the same, but the caller gets an error. */
    method Accept(l: int) returns (u: int)
      requires Valid() && (l in sockets && sockets[l].status != CLOSED ==> sockets[l].status == LISTENING)
      modifies this`sockets
      ensures Valid() && (old(QueuesOpen(sockets, closed)) ==> QueuesOpen(sockets, closed))
      ensures !(old(Located(l)) && !old(sockets)[l].broken && Waiting(old(sockets)[l].backlog) != {}) ==>
        u == 0 && sockets == old(sockets)
      ensures old(Located(l)) && !old(sockets)[l].broken && Waiting(old(sockets)[l].backlog) != {} ==>
        exists k :: && k in Waiting(old(sockets)[l].backlog) && (forall j | j in Waiting(old(sockets)[l].backlog) :: k <= j)
                    && var b := Backlog(old(sockets)[l].backlog.queued - {k}, old(sockets)[l].backlog.accepted + {k});
                    && sockets == old(sockets)[l := old(sockets)[l].(backlog := b)]
                    && u == (if |b.accepted| > ACCEPT_LIMIT then 0 else k)
                    && (k in old(All()) ==> old(All())[k].listenSocket == l)
    {
      hide Valid, QueuesOpen, Kept;
      u := 0;
      if !Located(l) || sockets[l].broken {
        return;
      }
      ListenerFacts(l);
      var b := sockets[l].backlog;
      if b.queued != {} {
        HasLeast(b.queued);
        var k :| k in b.queued && forall j | j in b.queued :: k <= j;
        QueuedHere(l, k);
        SetSocket(l, sockets[l].(backlog := Backlog(b.queued - {k}, b.accepted + {k})));
        if |b.accepted + {k}| <= ACCEPT_LIMIT {
          u := k;
        }
      }
    }

    lemma QueuedHere(l: int, k: int)
      requires Valid() && l in sockets && k in Waiting(sockets[l].backlog)
      ensures k in All() ==> All()[k].listenSocket == l
    {
      hide Counted, Numbered, Backlogged;
      OpenOne(l);
    }

    /** The protocol found the connection broken. */
    method Break(u: int)
      requires Valid() && u in sockets
      modifies this`sockets
      ensures Valid() && sockets == old(sockets)[u := old(sockets)[u].(broken := true)]
      ensures old(QueuesOpen(sockets, closed)) ==> QueuesOpen(sockets, closed)
    {
      hide Valid, QueuesOpen, Kept;
      ListeningHere(u);
      SetSocket(u, sockets[u].(broken := true));
    }

    lemma ListeningHere(u: int)
      requires Valid() && u in sockets
      ensures sockets[u].status == LISTENING ==> sockets[u].backlog.Backlog?
    {
      hide Counted, Numbered, Owned;
      OpenOne(u);
    }

    /** Moves an open socket to the closed ones, as s. */
    method Retire(u: int, s: Sock)
      requires Valid() && u in sockets && Changes(sockets[u], s) && s.backlog == sockets[u].backlog
      modifies this`sockets, this`closed
      ensures Valid() && sockets == old(sockets) - {u} && closed == old(closed)[u := s] && u !in old(closed)
      ensures All() == old(All())[u := s]
    {
      hide Kept;
      ghost var all := All();
      OpenOne(u);
      KeptSet(all, muxes, leaked, lastId, u, s);
      sockets := sockets - {u};
      closed := closed[u := s];
      assert All() == all[u := s];
    }

    /** close. A listener only starts its wait; any other socket moves to the closed ones. The listener queues keep to
        open sockets exactly if they did and the closed one was not waiting in a queue. */
    method Close(u: int)
      requires Valid()
      modifies this`sockets, this`closed
      ensures Valid()
      ensures u !in old(sockets) || old(sockets)[u].status == CLOSED ==> sockets == old(sockets) && closed == old(closed)
      ensures old(Located(u)) <==> u in old(sockets) && old(sockets)[u].status != CLOSED
      ensures old(Located(u)) && old(sockets)[u].status == LISTENING ==>
        sockets == old(sockets)[u := old(sockets)[u].(broken := true)] && closed == old(closed)
      ensures old(Located(u)) && old(sockets)[u].status != LISTENING ==>
        && sockets == old(sockets) - {u} && closed == old(closed)[u := old(sockets)[u].(status := CLOSED)]
      ensures old(QueuesOpen(sockets, closed)) ==>
        (QueuesOpen(sockets, closed) <==>
          !(old(Located(u)) && old(sockets)[u].status != LISTENING && InQueue(old(All()), u)))
    {
      hide Valid, QueuesOpen, InQueue, Kept;
      if !Located(u) {
        return;
      }
      if sockets[u].status == LISTENING {
        if sockets[u].broken {
          AlreadyBroken(u);
          return;
        }
        Break(u);
        return;
      }
      Retire(u, sockets[u].(status := CLOSED));
      RetiredQueues(old(sockets), old(closed), u, old(sockets)[u].(status := CLOSED));
    }

    lemma AlreadyBroken(u: int)
      requires u in sockets && sockets[u].broken
      ensures sockets[u := sockets[u].(broken := true)] == sockets
    {
      assert sockets[u].(broken := true) == sockets[u];
    }

    /** removeSocket: the connections a listener still queues are closed in turn, then u is forgotten and its
        multiplexer loses a reference. A queued connection that is not open any more makes the code follow a null
        pointer (ok is false); that happens exactly if u's own queue does not keep to open sockets. */
    method RemoveSocket(u: int) returns (ok: bool)
      requires Valid()
      modifies this`sockets, this`closed, this`muxes, this`leaked
      ensures Valid()
      ensures ok <==> (u in old(closed) ==> Waiting(old(closed)[u].backlog) <= old(sockets).Keys)
      ensures u !in old(closed) ==> sockets == old(sockets) && closed == old(closed) && muxes == old(muxes)
      ensures u in old(closed) && ok ==>
        var q := Waiting(old(closed)[u].backlog);
        && u !in sockets && u !in closed
        && sockets.Keys == old(sockets).Keys - q && closed.Keys == old(closed).Keys + q - {u}
        && (forall k | k in sockets :: k in old(sockets) && sockets[k] == old(sockets)[k])
        && (forall k | k in closed :: if k in old(closed) then closed[k] == old(closed)[k]
                                      else k in old(sockets) && closed[k] == old(sockets)[k].(status := CLOSED, broken := true))
        && (forall m | m in muxes :: m in old(muxes) && muxes[m] == old(muxes)[m].(refCount := muxes[m].refCount))
        && muxes == Released(old(muxes), old(closed)[u].muxID)
      ensures forall m | m in old(muxes) ::
                m !in muxes <==> ok && u in old(closed) && m == old(closed)[u].muxID && LastUser(old(All()), old(leaked), u, m)
      ensures leaked == old(leaked) - (old(muxes).Keys - muxes.Keys)
      ensures StillLost(old(leaked), muxes, leaked)
      ensures ok ==> SameOpen(old(sockets), old(closed), sockets, closed)
      ensures old(QueuesOpen(sockets, closed)) ==> ok && QueuesOpen(sockets, closed)
    {
      hide Valid, QueuesOpen, SameOpen, Waiting, LastUser, StillLost;
      if u in closed {
        ok := RemoveClosed(u);
      } else {
        SameOpenStart(sockets, closed);
        NothingLost(muxes, leaked);
        LeakedKeys();
        ok := true;
      }
    }

    method RemoveClosed(u: int) returns (ok: bool)
      requires Valid() && u in closed
      modifies this`sockets, this`closed, this`muxes, this`leaked
      ensures Valid()
      ensures ok <==> Waiting(old(closed)[u].backlog) <= old(sockets).Keys
      ensures ok ==>
        var q := Waiting(old(closed)[u].backlog);
        && u !in sockets && u !in closed
        && sockets.Keys == old(sockets).Keys - q && closed.Keys == old(closed).Keys + q - {u}
        && (forall k | k in sockets :: k in old(sockets) && sockets[k] == old(sockets)[k])
        && (forall k | k in closed :: if k in old(closed) then closed[k] == old(closed)[k]
                                      else k in old(sockets) && closed[k] == old(sockets)[k].(status := CLOSED, broken := true))
        && (forall m | m in muxes :: m in old(muxes) && muxes[m] == old(muxes)[m].(refCount := muxes[m].refCount))
        && muxes == Released(old(muxes), old(closed)[u].muxID)
      ensures forall m | m in old(muxes) ::
                m !in muxes <==> ok && m == old(closed)[u].muxID && LastUser(old(All()), old(leaked), u, m)
      ensures leaked == old(leaked) - (old(muxes).Keys - muxes.Keys)
      ensures StillLost(old(leaked), muxes, leaked)
      ensures ok ==> SameOpen(old(sockets), old(closed), sockets, closed)
      ensures old(QueuesOpen(sockets, closed)) ==> ok && QueuesOpen(sockets, closed)
    {
      hide Valid, QueueOpen, SameOpen, Waiting, Kept, Alike, LastUser, StillLost, QueuesOpen, Released, Owned;
      NothingLost(muxes, leaked);
      LeakedKeys();
      Facts(u);
      var mid := closed[u].muxID;
      OpenMeans(sockets, closed, u);
      OpenAll(sockets, closed, u);
      ghost var last := lastId;
      ok := CloseQueue(u);
      if !ok {
        return;
      }
      Facts(u);
      ghost var all := All();
      Release(u, mid);
      AlikeUsers(old(All()), all, mid);
      LastUserIs(old(All()), all, old(leaked), u, mid);
      LossStays(old(All()), old(muxes), muxes, old(leaked), u);
      assert All() == all - {u};
      RemovedAll(old(sockets), old(closed), sockets, closed, all, last, u);
      SameOpenKeeps(old(sockets), old(closed), sockets, closed);
    }

    /** What is known of a closed socket. */
    lemma Facts(u: int)
      requires Valid() && u in closed
      ensures u !in sockets && u in All() && All()[u] == closed[u] && sockets.Keys !! closed.Keys && Owned(All(), lastId)
    {
      hide Counted, Numbered, Backlogged, Owned;
      ClosedOne(u);
    }

    /** Socket u is forgotten, and its multiplexer loses a reference. */
    method Release(u: int, mid: int)
      requires Valid() && u in closed && mid == closed[u].muxID
      modifies this`closed, this`muxes, this`leaked
      ensures Valid() && closed == old(closed) - {u} && muxes == Released(old(muxes), mid)
      ensures forall m | m in muxes :: m in old(muxes) && muxes[m] == old(muxes)[m].(refCount := muxes[m].refCount)
      ensures leaked == old(leaked) - (old(muxes).Keys - muxes.Keys)
      ensures forall m | m in old(muxes) :: m !in muxes <==> m == mid && LastUser(old(All()), old(leaked), u, mid)
    {
      hide Kept;
      ghost var all := All();
      ClosedOne(u);
      KeptDrop(all, muxes, leaked, lastId, u);
      LastDrop(all, muxes, leaked, lastId, u);
      closed := closed - {u};
      assert All() == all - {u};
      ghost var was := muxes;
      if mid in muxes {
        var n := muxes[mid].refCount - 1;
        muxes := if n == 0 then muxes - {mid} else muxes[mid := muxes[mid].(refCount := n)];
      }
      leaked := leaked - (was.Keys - muxes.Keys);
    }

    /** Closes the connections that listener u still queues, up to one that is not open. */
    method CloseQueue(u: int) returns (ok: bool)
      requires Valid() && u in closed
      modifies this`sockets, this`closed
      ensures Valid() && u in closed && closed[u] == old(closed)[u]
      ensures ok <==> Waiting(old(closed)[u].backlog) <= old(sockets).Keys
      ensures ok ==>
        && sockets.Keys == old(sockets).Keys - Waiting(old(closed)[u].backlog)
        && closed.Keys == old(closed).Keys + Waiting(old(closed)[u].backlog)
        && (forall k | k in closed :: if k in old(closed) then closed[k] == old(closed)[k]
                                      else k in old(sockets) && closed[k] == old(sockets)[k].(status := CLOSED, broken := true))
        && (forall k | k in sockets :: k in old(sockets) && sockets[k] == old(sockets)[k])
        && Alike(old(sockets + closed), sockets + closed)
    {
      hide Valid, Alike;
      var queue := Waiting(closed[u].backlog);
      var todo := queue;
      AlikeStart(sockets + closed);
      while todo != {}
        invariant Valid() && u in closed && closed[u] == old(closed)[u]
        invariant todo <= queue && queue - todo <= old(sockets).Keys
        invariant sockets.Keys == old(sockets).Keys - (queue - todo)
        invariant closed.Keys == old(closed).Keys + (queue - todo)
        invariant forall k | k in sockets :: k in old(sockets) && sockets[k] == old(sockets)[k]
        invariant forall k | k in closed :: if k in old(closed) then closed[k] == old(closed)[k]
                    else k in old(sockets) && closed[k] == old(sockets)[k].(status := CLOSED, broken := true)
        invariant Alike(old(sockets + closed), sockets + closed)
        decreases |todo|
      {
        Inhabited(todo);
        var k :| k in todo;
        if k !in sockets {
          assert k in queue && k !in old(sockets).Keys;
          return false;
        }
        ghost var all := sockets + closed;
        CloseOne(u, k);
        AlikeThen(old(sockets + closed), all, sockets + closed);
        todo := todo - {k};
      }
      ok := true;
    }

    method CloseOne(u: int, k: int)
      requires Valid() && u in closed && k in sockets
      modifies this`sockets, this`closed
      ensures Valid() && u in closed && closed[u] == old(closed)[u]
      ensures sockets == old(sockets) - {k} && k !in old(closed)
      ensures closed == old(closed)[k := old(sockets)[k].(status := CLOSED, broken := true)]
      ensures Alike(old(sockets + closed), sockets + closed)
    {
      hide Valid, Alike, Kept;
      ghost var all := sockets + closed;
      Facts(u);
      OpenFacts(k);
      var s := sockets[k].(status := CLOSED, broken := true);
      Retire(k, s);
      assert sockets + closed == all[k := s];
      Moved(all, sockets + closed, k);
    }

    /** The garbage collector's round (checkBrokenSockets). wait: the broken sockets that stay a little longer; due: the
        closed ones whose time is over. Each broken socket leaves its listener's sets on the way out. The round ends
        well exactly if no listener that is due still queues a socket that is not open. Then exactly the broken sockets
        that need not wait and those queued by a listener that is forgotten are closed; every socket keeps the rest of
        what it was, a listener loses exactly the connections that broke, and every multiplexer loses one reference for
        each of its users that is forgotten, and goes if that was its last. */
    method CheckBroken(wait: set<int>, due: set<int>) returns (ok: bool)
      requires Valid()
      modifies this`sockets, this`closed, this`muxes, this`leaked
      ensures Valid()
      ensures ok <==> forall l | l in old(closed) && l in due :: Waiting(old(closed)[l].backlog) <= old(sockets).Keys
      ensures ok ==> forall i | i in old(sockets) && old(sockets)[i].broken && i !in wait :: i !in sockets
      ensures ok ==> sockets.Keys + closed.Keys == old(sockets).Keys + old(closed).Keys - old(closed).Keys * due
      ensures ok ==> forall i | i in old(sockets) ::
                i in sockets <==>
                  && (!old(sockets)[i].broken || i in wait)
                  && !exists l :: l in old(closed) && l in due && i in Waiting(old(closed)[l].backlog)
      ensures ok ==> forall i | i in sockets ::
                && i in old(sockets) && sockets[i] == old(sockets)[i].(backlog := sockets[i].backlog)
                && LosesOnly(old(sockets)[i].backlog, sockets[i].backlog,
                     set k | k in old(sockets) && old(sockets)[k].broken && k !in wait && old(sockets)[k].listenSocket == i)
      ensures ok ==> forall i | i in closed ::
                if i in old(closed) then i !in due && closed[i] == old(closed)[i].(backlog := closed[i].backlog)
                else i in old(sockets) &&
                     closed[i] == old(sockets)[i].(status := CLOSED, broken := true, backlog := closed[i].backlog)
      ensures ok ==> forall i | i in closed ::
                && (i in old(closed) || i in old(sockets))
                && LosesOnly((if i in old(closed) then old(closed)[i] else old(sockets)[i]).backlog, closed[i].backlog,
                     set k | k in old(sockets) && old(sockets)[k].broken && k !in wait && old(sockets)[k].listenSocket == i)
      ensures ok ==> forall m | m in old(muxes) ::
                var n := |set l | l in old(closed) && l in due && old(closed)[l].muxID == m|;
                && (m in muxes <==> old(muxes)[m].refCount != n)
                && (m in muxes ==> muxes[m] == old(muxes)[m].(refCount := old(muxes)[m].refCount - n))
      ensures ok ==> muxes.Keys <= old(muxes).Keys
      ensures ok ==> SameOpen(old(sockets), old(closed), sockets, closed)
      ensures StillLost(old(leaked), muxes, leaked)
      ensures old(QueuesOpen(sockets, closed)) ==> ok && QueuesOpen(sockets, closed)
    {
      hide Valid, SameOpen, Waiting, QueuesOpen, StillLost, Retired, Forgotten, LosesOnly, SameMuxes, Counted;
      Registered();
      var tbr := due * closed.Keys;
      ghost var open, gone;
      ok, open, gone := Collect(wait, tbr);
      if ok {
        Swept(old(sockets), old(closed), open, gone, sockets, closed, wait, tbr);
        Registered();
        SweptMuxes(old(sockets), old(closed), sockets, closed, due, old(muxes), old(leaked), muxes, leaked);
        DueSame(old(closed), due);
      }
    }

    lemma DueSame(closed: map<int, Sock>, due: set<int>)
      ensures forall l | l in closed :: l in due * closed.Keys <==> l in due
    {
    }

    /** Both halves of the round: open and closed are the sockets in between. */
    method Collect(wait: set<int>, tbr: set<int>) returns (ok: bool, ghost open: map<int, Sock>, ghost gone: map<int, Sock>)
      requires Valid() && tbr <= closed.Keys
      modifies this`sockets, this`closed, this`muxes, this`leaked
      ensures Valid() && StillLost(old(leaked), muxes, leaked)
      ensures ok <==> forall l | l in tbr :: l in old(closed) && Waiting(old(closed)[l].backlog) <= old(sockets).Keys
      ensures
        var rs := set i | i in old(sockets) && old(sockets)[i].broken && i !in wait;
        && Retired(old(All()), open + gone, rs) && open.Keys == old(sockets).Keys - rs && gone.Keys == old(closed).Keys + rs
      ensures ok ==>
        && Forgotten(open, gone, sockets, closed, tbr) && SameMuxes(old(muxes), old(leaked), muxes, leaked)
        && sockets.Keys + closed.Keys == old(sockets).Keys + old(closed).Keys - tbr
        && SameOpen(old(sockets), old(closed), sockets, closed)
      ensures old(QueuesOpen(sockets, closed)) ==> ok && QueuesOpen(sockets, closed)
    {
      hide Valid, QueueOpen, SameOpen, Waiting, QueuesOpen, StillLost, Retired, Forgotten, SameMuxes;
      RetireBroken(wait);
      open, gone := sockets, closed;
      assert forall i | i in tbr :: i in old(closed).Keys && i in closed.Keys;
      DueMeans(old(sockets), old(closed), sockets, closed, tbr);
      ok := RemoveDue(tbr);
      if ok {
        SameOpenThen(old(sockets), old(closed), open, gone, sockets, closed);
      }
      SameOpenKeeps(old(sockets), old(closed), open, gone);
      OpenEach(open, gone);
      if ok {
        SameOpenKeeps(open, gone, sockets, closed);
      }
    }

    lemma Registered()
      requires Valid()
      ensures Counted(All(), muxes, leaked) && NO_MUX !in muxes && sockets.Keys !! closed.Keys
    {
      hide Counted, Owned, Backlogged;
    }

    /** While the closed sockets ds are forgotten one by one, starting from these sockets and multiplexers. */
    ghost predicate InSweep(open: map<int, Sock>, gone: map<int, Sock>, mx: map<int, Mux>, lk: map<int, nat>, ds: set<int>)
      reads this
    {
      && Forgotten(open, gone, sockets, closed, ds) && SameOpen(open, gone, sockets, closed)
      && sockets.Keys + closed.Keys == open.Keys + gone.Keys - ds
      && StillLost(lk, muxes, leaked) && SameMuxes(mx, lk, muxes, leaked)
    }

    lemma SweepStarts()
      requires Valid()
      ensures InSweep(sockets, closed, muxes, leaked, {})
    {
      hide Kept;
      LeakedKeys();
      ForgottenStart(sockets, closed);
      SameOpenStart(sockets, closed);
      LostStart(muxes, leaked);
      SameMuxesStart(muxes, leaked);
    }

    /** Removes the closed sockets tbr in turn, up to one that queues a socket that is not open. */
    method RemoveDue(tbr: set<int>) returns (ok: bool)
      requires Valid() && tbr <= closed.Keys && forall i | i in tbr :: i in closed && i !in sockets
      modifies this`sockets, this`closed, this`muxes, this`leaked
      ensures Valid() && StillLost(old(leaked), muxes, leaked)
      ensures ok <==> forall l | l in tbr :: l in old(sockets + closed) && old(QueueOpen(sockets, closed, l))
      ensures ok ==> InSweep(old(sockets), old(closed), old(muxes), old(leaked), tbr)
    {
      hide Valid, QueueOpen, InSweep;
      ghost var open, gone, mx, lk := sockets, closed, muxes, leaked;
      Apart();
      SweepStarts();
      SweepLost(open, gone, mx, lk, {});
      var todo := tbr;
      assert tbr - todo == {};
      while todo != {}
        invariant Valid() && todo <= tbr && InSweep(open, gone, mx, lk, tbr - todo)
        invariant StillLost(lk, muxes, leaked)
        invariant forall i | i in todo :: i in closed
        invariant forall i | i in tbr && i !in todo :: QueueOpen(open, gone, i)
        decreases |todo|
      {
        Inhabited(todo);
        var l :| l in todo;
        assert l in tbr && l in gone.Keys;
        ok := RemoveNext(l, open, gone, mx, lk, tbr - todo);
        if !ok {
          return;
        }
        assert tbr - todo + {l} == tbr - (todo - {l});
        todo := todo - {l};
      }
      assert tbr - {} == tbr;
      ok := true;
    }

    lemma Apart()
      requires Valid()
      ensures sockets.Keys !! closed.Keys
    {
    }

    lemma SweepLost(open: map<int, Sock>, gone: map<int, Sock>, mx: map<int, Mux>, lk: map<int, nat>, ds: set<int>)
      requires InSweep(open, gone, mx, lk, ds)
      ensures StillLost(lk, muxes, leaked)
    {
    }

    method RemoveNext(l: int, ghost open: map<int, Sock>, ghost gone: map<int, Sock>, ghost mx: map<int, Mux>,
                      ghost lk: map<int, nat>, ghost ds: set<int>) returns (ok: bool)
      requires Valid() && InSweep(open, gone, mx, lk, ds) && l in closed && l in gone && open.Keys !! gone.Keys
      modifies this`sockets, this`closed, this`muxes, this`leaked
      ensures Valid() && StillLost(lk, muxes, leaked)
      ensures ok <==> QueueOpen(open, gone, l)
      ensures ok ==> InSweep(open, gone, mx, lk, ds + {l})
      ensures ok ==> forall k | k in old(closed) && k != l :: k in closed
    {
      hide Valid, QueueOpen, SameOpen, Waiting, Kept, QueuesOpen, LastUser, StillLost, Forgotten, SameMuxes;
      Facts(l);
      OpenMeans(sockets, closed, l);
      SameOpenAt(open, gone, sockets, closed, l);
      ghost var s, c, x, lost := sockets, closed, muxes, leaked;
      ok := RemoveSocket(l);
      LostThen(lk, x, lost, muxes, leaked);
      if ok {
        SameOpenThen(open, gone, s, c, sockets, closed);
        ForgottenThen(open, gone, s, c, sockets, closed, ds, l);
        SameMuxesThen(mx, lk, x, lost, muxes, leaked);
        assert forall k | k in c && k != l :: k in closed.Keys;
      }
    }

    lemma LeakedKeys()
      requires Valid()
      ensures leaked.Keys == muxes.Keys
    {
    }

    /** In the middle of a round that started with these open and closed sockets, rs of which were closed. */
    ghost predicate InRound(was: map<int, Sock>, gone: map<int, Sock>, rs: set<int>)
      reads this
    {
      && rs <= was.Keys && sockets.Keys == was.Keys - rs && closed.Keys == gone.Keys + rs
      && Retired(was + gone, All(), rs) && SameOpen(was, gone, sockets, closed)
    }

    /** Closes every broken socket that need not wait. */
    method RetireBroken(wait: set<int>)
      requires Valid()
      modifies this`sockets, this`closed
      ensures Valid() && SameOpen(old(sockets), old(closed), sockets, closed)
      ensures forall i | i in old(sockets) && old(sockets)[i].broken && i !in wait :: i !in sockets
      ensures forall i | i in old(closed) :: i in closed && i !in sockets
      ensures sockets.Keys + closed.Keys == old(sockets).Keys + old(closed).Keys
      ensures
        var rs := set i | i in old(sockets) && old(sockets)[i].broken && i !in wait;
        Retired(old(All()), All(), rs) && sockets.Keys == old(sockets).Keys - rs && closed.Keys == old(closed).Keys + rs
    {
      hide Valid, InRound;
      ghost var was, gone := sockets, closed;
      ghost var rs := {};
      var todo := sockets.Keys;
      RoundStarts();
      while todo != {}
        invariant Valid() && InRound(was, gone, rs) && todo <= was.Keys && rs !! todo
        invariant forall i | i in was && i !in todo :: i in rs <==> was[i].broken && i !in wait
        decreases |todo|
      {
        Inhabited(todo);
        var i :| i in todo;
        RoundAt(was, gone, rs, i);
        if sockets[i].broken && i !in wait {
          CloseNext(i, was, gone, rs);
          rs := rs + {i};
        }
        todo := todo - {i};
      }
      RoundEnds(was, gone, rs, wait);
      assert forall i | i in rs :: i !in sockets.Keys;
      AllApart(gone.Keys);
    }

    lemma RoundStarts()
      ensures InRound(sockets, closed, {})
    {
      RetiredStart(All());
      SameOpenStart(sockets, closed);
    }

    lemma RoundAt(was: map<int, Sock>, gone: map<int, Sock>, rs: set<int>, i: int)
      requires Valid() && InRound(was, gone, rs) && i in was && i !in rs
      ensures i in sockets && sockets[i].broken == was[i].broken
    {
      hide Kept, SameOpen;
      assert i in sockets.Keys;
      OpenOne(i);
      assert i !in closed.Keys;
      assert (was + gone)[i] == was[i];
    }

    lemma RoundEnds(was: map<int, Sock>, gone: map<int, Sock>, rs: set<int>, wait: set<int>)
      requires InRound(was, gone, rs) && forall i | i in was :: i in rs <==> was[i].broken && i !in wait
      ensures rs == set i | i in was && was[i].broken && i !in wait
      ensures gone.Keys <= closed.Keys && SameOpen(was, gone, sockets, closed) && Retired(was + gone, All(), rs)
      ensures sockets.Keys == was.Keys - rs && closed.Keys == gone.Keys + rs
    {
      hide SameOpen, Retired;
      var qs := set i | i in was && was[i].broken && i !in wait;
      forall i | i in rs ensures i in qs {
        assert i in was.Keys;
      }
      forall i | i in qs ensures i in rs {
      }
      assert rs == qs;
    }

    method CloseNext(i: int, ghost was: map<int, Sock>, ghost gone: map<int, Sock>, ghost rs: set<int>)
      requires Valid() && InRound(was, gone, rs) && i in sockets && i in was
      modifies this`sockets, this`closed
      ensures Valid() && InRound(was, gone, rs + {i})
    {
      hide Valid, SameOpen, Retired;
      ghost var s, c, x := sockets, closed, All();
      CloseBroken(i);
      RetiredThen(was + gone, x, All(), rs, i);
      SameOpenThen(was, gone, s, c, sockets, closed);
    }

    lemma AllApart(gone: set<int>)
      requires Valid() && gone <= closed.Keys
      ensures forall i | i in gone :: i in closed && i !in sockets
    {
      hide Kept;
      assert forall i | i in gone :: i in closed.Keys && i !in sockets.Keys;
    }

    /** A broken socket leaves its listener's sets and moves to the closed ones. */
    method CloseBroken(i: int)
      requires Valid() && i in sockets
      modifies this`sockets, this`closed
      ensures Valid() && SameOpen(old(sockets), old(closed), sockets, closed)
      ensures sockets.Keys == old(sockets).Keys - {i} && closed.Keys == old(closed).Keys + {i}
      ensures Retired(old(All()), All(), {i})
      ensures sockets.Keys + closed.Keys == old(sockets).Keys + old(closed).Keys
      ensures forall k | k in sockets :: k in old(sockets) && sockets[k].broken == old(sockets)[k].broken
    {
      hide Valid, SameOpen, QueueOpen, Kept, Retired, LeftBy;
      ghost var all, last := All(), lastId;
      OpenFacts(i);
      Still(i);
      Leave(i);
      ghost var left := All();
      Still(i);
      Retire(i, sockets[i].(status := CLOSED));
      RetiredOne(all, left, All(), i);
      LeftBacklogs(all, left, All(), i);
      LeftAll(old(sockets), old(closed), sockets, closed, last, i);
    }

    /** i leaves the sets of its listener, if that is registered. */
    method Leave(i: int)
      requires Valid() && i in sockets
      modifies this`sockets, this`closed
      ensures Valid() && i in sockets && i in old(All()) && All() == LeftBy(old(All()), i)
      ensures sockets.Keys == old(sockets).Keys && closed.Keys == old(closed).Keys
      ensures forall k | k in sockets :: k in old(sockets) && sockets[k].broken == old(sockets)[k].broken
    {
      hide Valid, Kept;
      OpenFacts(i);
      Still(i);
      var l := sockets[i].listenSocket;
      if l in sockets {
        LeaveOpen(i, l);
      } else if l in closed {
        LeaveClosed(i, l);
      }
    }

    lemma Still(u: int)
      requires Valid() && u in sockets
      ensures u in All() && All()[u] == sockets[u]
      ensures sockets[u].listenSocket in All() <==> sockets[u].listenSocket in sockets || sockets[u].listenSocket in closed
    {
      hide Kept;
      OpenOne(u);
    }

    lemma OpenFacts(u: int)
      requires Valid() && u in sockets
      ensures u !in closed && sockets.Keys !! closed.Keys && Owned(All(), lastId)
      ensures
        var l := sockets[u].listenSocket;
        && (l in sockets ==> sockets[l].backlog.Backlog?)
        && (l in closed ==> closed[l].backlog.Backlog?)
    {
      hide Counted, Numbered, Owned;
      OpenOne(u);
      var l := sockets[u].listenSocket;
      if l in sockets {
        OpenOne(l);
      } else if l in closed {
        ClosedOne(l);
      }
    }

    /** i leaves the sets of its open listener l. */
    method LeaveOpen(i: int, l: int)
      requires Valid() && l in sockets && sockets[l].backlog.Backlog?
      modifies this`sockets
      ensures Valid()
      ensures sockets == old(sockets)[l := old(sockets)[l].(backlog := Less(old(sockets)[l].backlog, i))]
      ensures l in old(All()) && All() == old(All())[l := old(All())[l].(backlog := Less(old(All())[l].backlog, i))]
    {
      hide Kept;
      OpenOne(l);
      JoinSet(sockets, closed, l, sockets[l].(backlog := Less(sockets[l].backlog, i)));
      var b := sockets[l].backlog;
      SetSocket(l, sockets[l].(backlog := Backlog(b.queued - {i}, b.accepted - {i})));
    }

    /** i leaves the sets of its closed listener l. */
    method LeaveClosed(i: int, l: int)
      requires Valid() && l in closed && closed[l].backlog.Backlog?
      modifies this`closed
      ensures Valid()
      ensures closed == old(closed)[l := old(closed)[l].(backlog := Less(old(closed)[l].backlog, i))]
      ensures l in old(All()) && All() == old(All())[l := old(All())[l].(backlog := Less(old(All())[l].backlog, i))]
    {
      hide Kept;
      var b := closed[l].backlog;
      var s := closed[l].(backlog := Backlog(b.queued - {i}, b.accepted - {i}));
      ghost var all := All();
      ClosedOne(l);
      KeptSet(all, muxes, leaked, lastId, l, s);
      closed := closed[l := s];
      assert All() == all[l := s];
    }
  }

  // ----- how open the queues are, from one state to a later one -----

  /** Every socket still registered has a queue as open as it was. */
  ghost predicate SameOpen(sockets: map<int, Sock>, closed: map<int, Sock>,
                           sockets': map<int, Sock>, closed': map<int, Sock>)
  {
    forall l | l in sockets' + closed' ::
      l in sockets + closed && (QueueOpen(sockets', closed', l) <==> QueueOpen(sockets, closed, l))
  }

  lemma SameOpenStart(sockets: map<int, Sock>, closed: map<int, Sock>)
    ensures SameOpen(sockets, closed, sockets, closed)
  {
  }

  lemma SameOpenAt(sockets: map<int, Sock>, closed: map<int, Sock>,
                   sockets': map<int, Sock>, closed': map<int, Sock>, l: int)
    requires SameOpen(sockets, closed, sockets', closed') && l in sockets' + closed'
    ensures l in sockets + closed && (QueueOpen(sockets', closed', l) <==> QueueOpen(sockets, closed, l))
  {
  }

  lemma SameOpenThen(s0: map<int, Sock>, c0: map<int, Sock>, s1: map<int, Sock>, c1: map<int, Sock>,
                     s2: map<int, Sock>, c2: map<int, Sock>)
    requires SameOpen(s0, c0, s1, c1) && SameOpen(s1, c1, s2, c2)
    ensures SameOpen(s0, c0, s2, c2)
  {
    hide QueueOpen;
  }

  lemma SameOpenKeeps(sockets: map<int, Sock>, closed: map<int, Sock>,
                      sockets': map<int, Sock>, closed': map<int, Sock>)
    requires SameOpen(sockets, closed, sockets', closed')
    ensures QueuesOpen(sockets, closed) ==> QueuesOpen(sockets', closed')
  {
    hide QueueOpen;
  }

  lemma OpenMeans(sockets: map<int, Sock>, closed: map<int, Sock>, l: int)
    requires l in closed
    ensures QueueOpen(sockets, closed, l) <==> Waiting(closed[l].backlog) <= sockets.Keys
  {
    assert (sockets + closed)[l] == closed[l];
  }

  /** The queues of the listeners tbr, closed before, are open after exactly if they were. */
  lemma DueMeans(sockets: map<int, Sock>, closed: map<int, Sock>, sockets': map<int, Sock>, closed': map<int, Sock>,
                 tbr: set<int>)
    requires SameOpen(sockets, closed, sockets', closed') && tbr <= closed.Keys && tbr <= closed'.Keys
    ensures forall l | l in tbr ::
              l in sockets' + closed' && (QueueOpen(sockets', closed', l) <==> Waiting(closed[l].backlog) <= sockets.Keys)
  {
    hide QueueOpen, SameOpen;
    forall l | l in tbr
      ensures l in sockets' + closed' && (QueueOpen(sockets', closed', l) <==> Waiting(closed[l].backlog) <= sockets.Keys)
    {
      assert l in closed.Keys && l in closed'.Keys;
      SameOpenAt(sockets, closed, sockets', closed', l);
      OpenMeans(sockets, closed, l);
    }
  }

  lemma OpenAll(sockets: map<int, Sock>, closed: map<int, Sock>, l: int)
    requires l in sockets + closed
    ensures QueuesOpen(sockets, closed) ==> QueueOpen(sockets, closed, l)
  {
  }

  lemma OpenEach(sockets: map<int, Sock>, closed: map<int, Sock>)
    ensures QueuesOpen(sockets, closed) ==> forall l | l in sockets + closed :: QueueOpen(sockets, closed, l)
  {
  }

  lemma RemovedAll(sockets: map<int, Sock>, closed: map<int, Sock>, sockets': map<int, Sock>, closed': map<int, Sock>,
                   all: map<int, Sock>, lastId: int, u: int)
    requires Owned(sockets + closed, lastId) && u in sockets + closed
    requires sockets'.Keys == sockets.Keys - Waiting((sockets + closed)[u].backlog)
    requires Alike(sockets + closed, all) && sockets' + closed' == all - {u}
    ensures SameOpen(sockets, closed, sockets', closed')
  {
    hide QueueOpen, Owned;
    forall l | l in sockets' + closed'
      ensures l in sockets + closed && (QueueOpen(sockets', closed', l) <==> QueueOpen(sockets, closed, l))
    {
      RemovedQueue(sockets, closed, sockets', closed', lastId, u, l);
    }
  }

  lemma LeftAll(sockets: map<int, Sock>, closed: map<int, Sock>, sockets': map<int, Sock>, closed': map<int, Sock>,
                lastId: int, i: int)
    requires Owned(sockets + closed, lastId) && sockets.Keys !! closed.Keys && i in sockets
    requires sockets'.Keys == sockets.Keys - {i} && (sockets' + closed').Keys <= (sockets + closed).Keys
    requires forall l | l in sockets' + closed' ::
               (sockets' + closed')[l].backlog == LeftBacklog(sockets + closed, i, l)
    ensures SameOpen(sockets, closed, sockets', closed')
  {
    hide QueueOpen, Owned;
    forall l | l in sockets' + closed'
      ensures l in sockets + closed && (QueueOpen(sockets', closed', l) <==> QueueOpen(sockets, closed, l))
    {
      assert l in (sockets + closed).Keys;
      LeftQueue(sockets, closed, sockets', closed', lastId, i, l);
    }
  }

  /** The same sockets are registered, each with the backlog and the multiplexer it had. */
  ghost predicate Alike(all: map<int, Sock>, all': map<int, Sock>) {
    && all'.Keys == all.Keys
    && forall k | k in all' :: k in all && all'[k].backlog == all[k].backlog && all'[k].muxID == all[k].muxID
  }

  lemma AlikeStart(all: map<int, Sock>)
    ensures Alike(all, all)
  {
  }

  lemma AlikeThen(a: map<int, Sock>, b: map<int, Sock>, c: map<int, Sock>)
    requires Alike(a, b) && Alike(b, c)
    ensures Alike(a, c)
  {
  }

  lemma Moved(all: map<int, Sock>, all': map<int, Sock>, k: int)
    requires k in all && all'.Keys == all.Keys && all'[k].backlog == all[k].backlog && all'[k].muxID == all[k].muxID
    requires forall j | j in all' && j != k :: all'[j] == all[j]
    ensures Alike(all, all')
  {
  }

  lemma AlikeUsers(all: map<int, Sock>, all': map<int, Sock>, mid: int)
    requires Alike(all, all')
    ensures Users(all', mid) == Users(all, mid)
  {
    forall k | k in all ensures k in all' && all'[k].muxID == all[k].muxID {
      assert k in all'.Keys;
    }
  }

  // ----- runs that show where the promises end -----

  /** A listener with one connection waiting in its queue. */
  method ListenerWithOne(connects: bool) returns (w: United, l: int, res: int, c: int)
    ensures fresh(w) && w.Valid() && w.closed == map[] && l != 0
    ensures l in w.sockets && w.sockets[l] == Sock(LISTENING, 0, l, w.sockets[l].backlog, false)
    ensures if connects then
              && res == 1 && w.sockets[l].backlog == Backlog({c}, {}) && w.sockets.Keys == {l, c} && l != c && c != 0
              && w.sockets[c] == Sock(CONNECTED, l, l, NoBacklog, false)
            else
              && res == -1 && w.sockets[l].backlog == Backlog({}, {}) && w.sockets.Keys == {l}
              && l in w.muxes && w.muxes[l].refCount == 2 && l in w.leaked && w.leaked[l] == 1
  {
    hide Kept, QueuesOpen;
    w := new United(10);
    l := w.NewSocket();
    var ok := w.Bind(l, true, false, false, 4, 1500, 0, true, 9000);
    ok := w.Listen(l, 10, false);
    assert w.sockets[l] == Sock(LISTENING, 0, l, Backlog({}, {}), false);
    res, c := w.NewConnection(l, 0, 5, connects);
  }

  /** A connection is closed while its listener still queues it; then the listener is closed and removed: the removal
      fails. */
  method ClosedWhileQueued() returns (ok: bool)
    ensures !ok
  {
    hide Kept;
    var w, l, res, c := ListenerWithOne(true);
    w.Close(c);
    assert c in Waiting(w.sockets[l].backlog) && c !in w.sockets;
    assert !QueueOpen(w.sockets, w.closed, l);
    w.Close(l);
    ok := w.CheckBroken({}, {});
    if ok {
      ok := w.CheckBroken({}, {l});
    }
  }

  lemma NothingQueued(sockets: map<int, Sock>, l: int)
    requires sockets.Keys == {l} && l in sockets && Waiting(sockets[l].backlog) == {}
    ensures QueuesOpen(sockets, map[])
  {
  }

  /** A broken listener with nothing queued, the only socket there is, is collected; a multiplexer that lost a reference
      stays. */
  method CollectLast(w: United, l: int)
    requires w.Valid() && w.closed == map[] && w.sockets.Keys == {l} && l in w.sockets
    requires w.sockets[l].broken && Waiting(w.sockets[l].backlog) == {} && l in w.leaked && w.leaked[l] > 0
    modifies w
    ensures w.sockets.Keys + w.closed.Keys == {} && l in w.muxes
  {
    hide United.Valid, LosesOnly, SameOpen, QueuesOpen, QueueOpen, Waiting, Users;
    NothingQueued(w.sockets, l);
    var ok := w.CheckBroken({}, {});
    assert l in w.sockets.Keys + w.closed.Keys;
    ok := w.CheckBroken({}, {l});
  }

  /** A handshake whose connection cannot be set up: after its listener is closed and removed, nobody names the
      multiplexer, and it is still there. */
  method LostForGood() returns (kept: bool, users: nat)
    ensures kept && users == 0
  {
    hide Kept, LosesOnly, SameOpen, QueuesOpen, QueueOpen;
    var w, l, res, c := ListenerWithOne(false);
    w.Close(l);
    CollectLast(w, l);
    kept, users := l in w.muxes, |w.sockets.Keys + w.closed.Keys|;
  }
}
