/**
 The lock-free buffer pool of func_libs/fx_buffer.h, as a state machine.

 Any number of threads run `av_buffer_pool_get`, `av_buffer_ref`,
 `av_buffer_unref` (whose last call releases the buffer to the pool) and
 `av_buffer_pool_uninit`.  Every access to a shared word (the head pointer, a
 `next` link, a counter) is one step, so a run is an arbitrary interleaving of
 those accesses.
 */
module BufferPool {
  // ----- the program state -----

  /** A BufferPoolEntry, named by the order in which it was allocated. */
  type Entry = int

  datatype Ptr = Null | At(entry: Entry)

  /** Where add_to_pool returns to. */
  datatype AfterAdd =
    | ThenKeep(kept: Entry)  // pool_get put the tail of the list back and keeps the first entry
    | ThenFail               // pool_get could not create the buffer
    | ThenRelease            // pool_release_buffer

  /** Where get_pool returns to. */
  datatype AfterTake =
    | FirstTry
    | Spin
    | Append(chain: Entry, end: Entry, after: AfterAdd)  // the retry loop of add_to_pool

  /** The program counter and the local variables of one thread. */
  datatype Local =
    | Idle
    | ReadHead(take: AfterTake)
    | CasTake(take: AfterTake, last: Entry)
    | ReadCount(spinning: bool)
    | ReadAllocated(spinning: bool, count: int)
    | Allocate
    | CountUp(buf: Entry)
    | AllocatedUp(buf: Entry)
    | Split(buf: Entry)
    | Detach(buf: Entry)
    | Wrap(buf: Entry)
    | HandOut(buf: Entry)
    | Walk(chain: Entry, end: Entry, after: AfterAdd)
    | CasInstall(chain: Entry, end: Entry, after: AfterAdd)
    | Link(chain: Entry, end: Entry, rest: Ptr, after: AfterAdd)
    | CountDown
    | FreeEntries

  /** The shared words, with what the callers hold and what the run has freed. */
  datatype Pool = Pool(
    head: Ptr,                // pool->pool
    next: map<Entry, Ptr>,    // the `next` field of every live entry
    refcount: int,            // pool->refcount
    nbAllocated: int,         // pool->nb_allocated
    owner: bool,              // the caller still holds the pool handle
    users: map<Entry, int>,   // handed-out entries, with the number of references to their buffer
    created: int,             // how many entries were ever allocated
    freed: seq<Entry>,        // the calls of an entry's original free callback, in order
    poolFrees: int)           // how often the pool itself was freed

  datatype State = State(pool: Pool, threads: seq<Local>)

  datatype Action =
    | Continue(ok: bool)  // run the thread on; `ok` is the outcome of an allocation, where there is one
    | CallGet
    | CallRef(entry: Entry, ok: bool)
    | CallUnref(entry: Entry)
    | CallUninit

  const NEW_POOL := Pool(Null, map[], 1, 0, true, map[], 0, [], 0)

  ghost predicate Init(s: State) {
    s.pool == NEW_POOL && forall t | 0 <= t < |s.threads| :: s.threads[t] == Idle
  }

  /** The thread is inside av_buffer_pool_get and not covered by the pool count, which counts a new
      entry before it is handed out. */
  predicate Uncovered(l: Local) {
    match l
    case ReadHead(take) => take.Append? ==> !take.after.ThenRelease?
    case CasTake(take, _) => take.Append? ==> !take.after.ThenRelease?
    case Walk(_, _, after) => !after.ThenRelease?
    case CasInstall(_, _, after) => !after.ThenRelease?
    case Link(_, _, _, after) => !after.ThenRelease?
    case Idle => false
    case AllocatedUp(_) => false
    case CountDown => false
    case FreeEntries => false
    case _ => true
  }

  /** What the callers can do: only the holder of the handle gets and uninits, only users copy and
      release references. */
  predicate Possible(s: State, t: nat, a: Action) {
    && t < |s.threads|
    && s.threads[t].Idle? != a.Continue?
    && match a
       case Continue(_) => true
       case CallGet => s.pool.owner
       case CallRef(e, _) => e in s.pool.users
       case CallUnref(e) => e in s.pool.users
       case CallUninit => s.pool.owner
  }

  /** The rule for the callers: nobody uninits while a get is in flight that the count does not cover. */
  predicate Enabled(s: State, t: nat, a: Action) {
    && Possible(s, t, a)
    && (a.CallUninit? ==> forall u | 0 <= u < |s.threads| :: !Uncovered(s.threads[u]))
  }

  // ----- the steps: what a thread at `l` does to the pool, and where it is then -----

  function Next(p: Pool, e: Entry): Ptr {
    if e in p.next then p.next[e] else Null
  }

  function TakeReturns(take: AfterTake, cur: Ptr): Local {
    match take
    case FirstTry => if cur == Null then ReadCount(false) else Split(cur.entry)
    case Spin => if cur == Null then ReadCount(true) else Split(cur.entry)
    case Append(chain, end, after) => Link(chain, end, cur, after)
  }

  function AddReturns(after: AfterAdd): Local {
    match after
    case ThenKeep(kept) => Detach(kept)
    case ThenFail => Idle
    case ThenRelease => CountDown
  }

  function GetPool(p: Pool, l: Local): (Pool, Local)
    requires l.ReadHead? || l.CasTake?
  {
    match p.head
    case Null => (p, TakeReturns(l.take, Null))
    case At(e) =>
      if l.CasTake? && e == l.last then (p.(head := Null), TakeReturns(l.take, At(e)))
      else (p, CasTake(l.take, e))
  }

  function AddToPool(p: Pool, l: Local): (Pool, Local)
    requires l.Walk? || l.CasInstall? || l.Link?
  {
    match l
    case Walk(chain, end, after) =>
      (match Next(p, end)
       case Null => (p, CasInstall(chain, end, after))
       case At(f) => (p, Walk(chain, f, after)))
    case CasInstall(chain, end, after) =>
      if p.head == Null then (p.(head := At(chain)), AddReturns(after))
      else (p, ReadHead(Append(chain, end, after)))
    case Link(chain, end, rest, after) => (p.(next := p.next[end := rest]), Walk(chain, end, after))
  }

  /** pool_get on an empty pool, and pool_alloc_buffer. */
  function CreateBuffer(p: Pool, l: Local, ok: bool): (Pool, Local)
    requires l.ReadCount? || l.ReadAllocated? || l.Allocate? || l.CountUp? || l.AllocatedUp?
  {
    match l
    case ReadCount(spinning) => (p, ReadAllocated(spinning, p.refcount))
    case ReadAllocated(spinning, count) =>
      if count > p.nbAllocated then (p, Allocate)
      else (p, if spinning then ReadHead(Spin) else ReadCount(true))
    case Allocate =>
      if ok then (p.(next := p.next[p.created := Null], created := p.created + 1), CountUp(p.created))
      else (p, Idle)
    case CountUp(buf) => (p.(refcount := p.refcount + 1), AllocatedUp(buf))
    case AllocatedUp(buf) => (p.(nbAllocated := p.nbAllocated + 1, users := p.users[buf := 1]), Idle)
  }

  /** pool_get with a list in hand. */
  function ReuseBuffer(p: Pool, l: Local, ok: bool): (Pool, Local)
    requires l.Split? || l.Detach? || l.Wrap? || l.HandOut?
  {
    match l
    case Split(buf) =>
      (match Next(p, buf)
       case Null => (p, Detach(buf))
       case At(r) => (p, Walk(r, r, ThenKeep(buf))))
    case Detach(buf) => (p.(next := p.next[buf := Null]), Wrap(buf))
    case Wrap(buf) => (p, if ok then HandOut(buf) else Walk(buf, buf, ThenFail))
    case HandOut(buf) => (p.(refcount := p.refcount + 1, users := p.users[buf := 1]), Idle)
  }

  /** The last lines of pool_release_buffer and of av_buffer_pool_uninit. */
  function DropReference(p: Pool): (Pool, Local) {
    (p.(refcount := p.refcount - 1), if p.refcount == 1 then FreeEntries else Idle)
  }

  /** One round of the loop of buffer_pool_free, or what follows the loop. */
  function PoolFree(p: Pool): (Pool, Local) {
    match p.head
    case Null => (p.(poolFrees := p.poolFrees + 1), Idle)
    case At(e) => (p.(head := Next(p, e), next := p.next - {e}, freed := p.freed + [e]), FreeEntries)
  }

  function Run(p: Pool, l: Local, ok: bool): (Pool, Local) {
    if l.Idle? then (p, l)
    else if l.ReadHead? || l.CasTake? then GetPool(p, l)
    else if l.Walk? || l.CasInstall? || l.Link? then AddToPool(p, l)
    else if l.Split? || l.Detach? || l.Wrap? || l.HandOut? then ReuseBuffer(p, l, ok)
    else if l.CountDown? then DropReference(p)
    else if l.FreeEntries? then PoolFree(p)
    else CreateBuffer(p, l, ok)
  }

  /** The steps of the callers. */
  function Call(p: Pool, a: Action): (Pool, Local)
    requires a.CallRef? || a.CallUnref? ==> a.entry in p.users
  {
    match a
    case Continue(_) => (p, Idle)
    case CallGet => (p, ReadHead(FirstTry))
    case CallRef(e, ok) => (if ok then p.(users := p.users[e := p.users[e] + 1]) else p, Idle)
    case CallUnref(e) =>
      if p.users[e] > 1 then (p.(users := p.users[e := p.users[e] - 1]), Idle)
      else (p.(users := p.users - {e}), Walk(e, e, ThenRelease))
    case CallUninit => (p.(owner := false), CountDown)
  }

  function Apply(s: State, t: nat, a: Action): State
    requires Possible(s, t, a)
  {
    var (p, l) := if a.Continue? then Run(s.pool, s.threads[t], a.ok) else Call(s.pool, a);
    State(p, s.threads[t := l])
  }

  ghost predicate Step(s: State, s': State) {
    exists t, a :: Enabled(s, t, a) && s' == Apply(s, t, a)
  }

  ghost predicate Behaviour(run: seq<State>) {
    && |run| > 0 && Init(run[0])
    && forall i | 0 < i < |run| :: Step(run[i - 1], run[i])
  }

  ghost predicate Reachable(s: State) {
    exists run :: Behaviour(run) && run[|run| - 1] == s
  }

  // ----- the invariant -----

  /** Where an entry is: in the shared list, in the hands of one thread, or with the users. */
  datatype Place = InList | Of(thread: nat) | WithUsers

  /** The entries a thread owns: one it keeps aside, its chain, and a list it just took. */
  datatype Hold = Hold(kept: seq<Entry>, chain: seq<Entry>, rest: seq<Entry>)

  /** The witness of the invariant. */
  datatype Layout = Layout(list: seq<Entry>, holds: seq<Hold>, place: map<Entry, Place>)

  const NOTHING := Hold([], [], [])

  function All(h: Hold): seq<Entry> {
    h.kept + h.chain + h.rest
  }

  ghost predicate NoDup(c: seq<Entry>) {
    forall i, j | 0 <= i < j < |c| :: c[i] != c[j]
  }

  /** `p` is the head of a null-terminated list of live entries whose nodes are `c`, in order. */
  ghost predicate Chain(next: map<Entry, Ptr>, p: Ptr, c: seq<Entry>)
    decreases |c|
  {
    if c == [] then p == Null
    else p == At(c[0]) && c[0] in next && Chain(next, next[c[0]], c[1..])
  }

  function KeptBy(after: AfterAdd): seq<Entry> {
    if after.ThenKeep? then [after.kept] else []
  }

  ghost predicate Detached(next: map<Entry, Ptr>, e: Entry, h: Hold) {
    h == Hold([e], [], []) && e in next && next[e] == Null
  }

  /** The chain of a thread in add_to_pool, with `end` somewhere in it. */
  ghost predicate Adding(next: map<Entry, Ptr>, chain: Entry, end: Entry, after: AfterAdd, h: Hold) {
    && h.kept == KeptBy(after) && h.rest == []
    && Chain(next, At(chain), h.chain) && end in h.chain
  }

  ghost predicate AtEnd(next: map<Entry, Ptr>, chain: Entry, end: Entry, after: AfterAdd, h: Hold) {
    Adding(next, chain, end, after, h) && end in next && next[end] == Null
  }

  ghost predicate Taking(next: map<Entry, Ptr>, take: AfterTake, h: Hold) {
    if take.Append? then AtEnd(next, take.chain, take.end, take.after, h) else h == NOTHING
  }

  /** What a thread at program point `l` owns, and how it is linked. */
  ghost predicate Owns(next: map<Entry, Ptr>, l: Local, h: Hold) {
    match l
    case ReadHead(take) => Taking(next, take, h)
    case CasTake(take, _) => Taking(next, take, h)
    case CountUp(buf) => Detached(next, buf, h)
    case AllocatedUp(buf) => Detached(next, buf, h)
    case Wrap(buf) => Detached(next, buf, h)
    case HandOut(buf) => Detached(next, buf, h)
    case Split(buf) => h.kept == [] && h.rest == [] && Chain(next, At(buf), h.chain)
    case Detach(buf) => h == Hold([buf], [], []) && buf in next
    case Walk(chain, end, after) => Adding(next, chain, end, after, h)
    case CasInstall(chain, end, after) => AtEnd(next, chain, end, after, h)
    case Link(chain, end, rest, after) =>
      AtEnd(next, chain, end, after, h.(rest := [])) && Chain(next, rest, h.rest)
    case _ => h == NOTHING
  }

  ghost predicate AllOwn(next: map<Entry, Ptr>, threads: seq<Local>, holds: seq<Hold>) {
    && |holds| == |threads|
    && forall t | 0 <= t < |threads| :: Owns(next, threads[t], holds[t])
  }

  /** `c` lists, without repetition, exactly the entries whose place is `p`. */
  ghost predicate ListsPlace(place: map<Entry, Place>, c: seq<Entry>, p: Place) {
    NoDup(c) && forall e :: e in c <==> e in place && place[e] == p
  }

  ghost predicate HoldsPlaced(place: map<Entry, Place>, holds: seq<Hold>) {
    && (forall t | 0 <= t < |holds| :: ListsPlace(place, All(holds[t]), Of(t)))
    && (forall e | e in place && place[e].Of? :: place[e].thread < |holds|)
  }

  ghost predicate UsersPlaced(place: map<Entry, Place>, users: map<Entry, int>, next: map<Entry, Ptr>) {
    && place.Keys == next.Keys
    && (forall e :: e in users <==> e in place && place[e] == WithUsers)
    && (forall e | e in users :: next[e] == Null && users[e] > 0)
  }

  /** The part of the invariant that concerns thread t, the shared list and the users. */
  ghost predicate Mine(p: Pool, l: Local, t: nat, list: seq<Entry>, h: Hold, place: map<Entry, Place>) {
    && Owns(p.next, l, h) && ListsPlace(place, All(h), Of(t))
    && Chain(p.next, p.head, list) && ListsPlace(place, list, InList)
    && UsersPlaced(place, p.users, p.next)
  }

  /** Every entry is in exactly one place, and linked as the program counters say. */
  ghost predicate Located(s: State, g: Layout) {
    && AllOwn(s.pool.next, s.threads, g.holds) && HoldsPlaced(g.place, g.holds)
    && Chain(s.pool.next, s.pool.head, g.list) && ListsPlace(g.place, g.list, InList)
    && UsersPlaced(g.place, s.pool.users, s.pool.next)
  }

  /** 1 for a thread that the pool count covers although no user holds its buffer. */
  function Counted(l: Local): nat {
    match l
    case ReadHead(take) => if take.Append? && take.after.ThenRelease? then 1 else 0
    case CasTake(take, _) => if take.Append? && take.after.ThenRelease? then 1 else 0
    case Walk(_, _, after) => if after.ThenRelease? then 1 else 0
    case CasInstall(_, _, after) => if after.ThenRelease? then 1 else 0
    case Link(_, _, _, after) => if after.ThenRelease? then 1 else 0
    case AllocatedUp(_) => 1
    case CountDown => 1
    case _ => 0
  }

  function Creating(l: Local): nat {
    if l.CountUp? || l.AllocatedUp? then 1 else 0
  }

  function Freeing(l: Local): nat {
    if l.FreeEntries? then 1 else 0
  }

  function Total(threads: seq<Local>, weight: Local -> nat): nat {
    if threads == [] then 0 else weight(threads[0]) + Total(threads[1..], weight)
  }

  /** The pool count covers the handle, every handed-out buffer and every release under way;
      it is zero exactly while the pool is being freed and afterwards. */
  ghost predicate Balanced(p: Pool, counted: int, creating: int, freeing: int) {
    && p.refcount == (if p.owner then 1 else 0) + |p.users| + counted
    && p.created == p.nbAllocated + creating
    && p.poolFrees + freeing == (if p.refcount == 0 then 1 else 0)
    && p.poolFrees >= 0
  }

  /** Every entry ever created is live or was freed once. */
  ghost predicate Recorded(created: int, live: set<Entry>, freed: seq<Entry>) {
    && NoDup(freed) && created >= 0
    && (forall e :: 0 <= e < created <==> e in live || e in freed)
    && (forall e | e in freed :: e !in live)
  }

  ghost predicate Disciplined(owner: bool, threads: seq<Local>) {
    owner || forall t | 0 <= t < |threads| :: !Uncovered(threads[t])
  }

  /** The part of the invariant that does not depend on the rule for uninit. */
  ghost predicate Counts(s: State) {
    && Balanced(s.pool, Total(s.threads, Counted), Total(s.threads, Creating), Total(s.threads, Freeing))
    && Recorded(s.pool.created, s.pool.next.Keys, s.pool.freed)
    && (s.pool.refcount != 0 ==> s.pool.freed == [])
    && (s.pool.poolFrees > 0 ==> s.pool.head == Null)
  }

  ghost predicate Inv(s: State, g: Layout) {
    Located(s, g) && Counts(s) && Disciplined(s.pool.owner, s.threads)
  }

  // ----- helper lemmas -----

  lemma {:induction false} TotalUpdate(threads: seq<Local>, weight: Local -> nat, t: nat, l: Local)
    requires t < |threads|
    ensures Total(threads[t := l], weight) == Total(threads, weight) - weight(threads[t]) + weight(l)
    ensures Total(threads, weight) >= weight(threads[t])
  {
    if t > 0 {
      TotalUpdate(threads[1..], weight, t - 1, l);
      assert threads[t := l][1..] == threads[1..][t - 1 := l];
    } else {
      assert threads[t := l][1..] == threads[1..];
    }
  }

  lemma {:induction false} TotalZero(threads: seq<Local>, weight: Local -> nat)
    requires forall t | 0 <= t < |threads| :: weight(threads[t]) == 0
    ensures Total(threads, weight) == 0
  {
    if threads != [] {
      TotalZero(threads[1..], weight);
    }
  }

  /** Two threads weigh no more than all of them. */
  lemma {:induction false} TotalPair(threads: seq<Local>, weight: Local -> nat, t: nat, u: nat)
    requires t < u < |threads|
    ensures Total(threads, weight) >= weight(threads[t]) + weight(threads[u])
  {
    if t > 0 {
      TotalPair(threads[1..], weight, t - 1, u - 1);
    } else {
      TotalUpdate(threads[1..], weight, u - 1, threads[u]);
    }
  }

  lemma {:induction false} ChainFrame(next: map<Entry, Ptr>, next': map<Entry, Ptr>, p: Ptr, c: seq<Entry>)
    requires Chain(next, p, c)
    requires forall e | e in c :: e in next' && (e in next ==> next'[e] == next[e])
    ensures Chain(next', p, c)
    decreases |c|
  {
    if c != [] {
      ChainFrame(next, next', next[c[0]], c[1..]);
    }
  }

  lemma {:induction false} ChainMembers(next: map<Entry, Ptr>, p: Ptr, c: seq<Entry>)
    requires Chain(next, p, c)
    ensures forall e | e in c :: e in next && (next[e] == Null || next[e].entry in c)
    ensures p == Null <==> c == []
    ensures p != Null ==> c[0] == p.entry
    decreases |c|
  {
    if c != [] {
      ChainMembers(next, next[c[0]], c[1..]);
    }
  }

  /** The entry with a null link is the last one. */
  lemma {:induction false} ChainLast(next: map<Entry, Ptr>, p: Ptr, c: seq<Entry>, e: Entry)
    requires Chain(next, p, c) && e in c && e in next && next[e] == Null
    ensures c[|c| - 1] == e
    decreases |c|
  {
    if c[0] == e {
      assert c[1..] == [];
    } else {
      ChainLast(next, next[c[0]], c[1..], e);
    }
  }

  /** Writing the link of the last node appends the list it points to. */
  lemma {:induction false} ChainLink(next: map<Entry, Ptr>, p: Ptr, c: seq<Entry>, rest: Ptr, d: seq<Entry>)
    requires Chain(next, p, c) && c != [] && NoDup(c)
    requires Chain(next, rest, d) && c[|c| - 1] !in d
    ensures Chain(next[c[|c| - 1] := rest], p, c + d)
    decreases |c|
  {
    var e := c[|c| - 1];
    if |c| == 1 {
      ChainMembers(next, rest, d);
      ChainFrame(next, next[e := rest], rest, d);
      assert (c + d)[1..] == d;
    } else {
      assert c[1..][|c[1..]| - 1] == e;
      ChainLink(next, next[c[0]], c[1..], rest, d);
      assert (c + d)[1..] == c[1..] + d;
      assert c[0] != e;
    }
  }

  lemma OwnsFrame(next: map<Entry, Ptr>, next': map<Entry, Ptr>, l: Local, h: Hold)
    requires Owns(next, l, h)
    requires forall e | e in All(h) :: e in next' && (e in next ==> next'[e] == next[e])
    ensures Owns(next', l, h)
  {
    assert forall e | e in h.chain :: e in All(h);
    assert forall e | e in h.rest :: e in All(h);
    if l.Split? {
      ChainFrame(next, next', At(l.buf), h.chain);
    } else if l.Walk? || l.CasInstall? {
      ChainFrame(next, next', At(l.chain), h.chain);
    } else if l.Link? {
      ChainFrame(next, next', At(l.chain), h.chain);
      ChainFrame(next, next', l.rest, h.rest);
    } else if (l.ReadHead? || l.CasTake?) && l.take.Append? {
      ChainFrame(next, next', At(l.take.chain), h.chain);
    }
  }

  lemma TotalsUpdate(threads: seq<Local>, t: nat, l: Local)
    requires t < |threads|
    ensures var ts := threads[t := l];
            && Total(ts, Counted) == Total(threads, Counted) - Counted(threads[t]) + Counted(l)
            && Total(ts, Creating) == Total(threads, Creating) - Creating(threads[t]) + Creating(l)
            && Total(ts, Freeing) == Total(threads, Freeing) - Freeing(threads[t]) + Freeing(l)
    ensures Total(threads, Counted) >= Counted(threads[t])
    ensures Total(threads, Creating) >= Creating(threads[t])
    ensures Total(threads, Freeing) >= Freeing(threads[t])
  {
    TotalUpdate(threads, Counted, t, l);
    TotalUpdate(threads, Creating, t, l);
    TotalUpdate(threads, Freeing, t, l);
  }

  /** What the other threads own is left alone. */
  ghost predicate OthersKept(next: map<Entry, Ptr>, place: map<Entry, Place>,
                             next': map<Entry, Ptr>, place': map<Entry, Place>, t: nat) {
    && (forall e | e in place && place[e].Of? && place[e].thread != t ::
          e in place' && place'[e] == place[e] && e in next && e in next' && next'[e] == next[e])
    && (forall e | e in place' && place'[e].Of? && place'[e].thread != t :: e in place && place[e] == place'[e])
  }

  /** A step that is right for its own thread and leaves the others alone is right. */
  lemma StepLocated(s: State, g: Layout, t: nat, p: Pool, l: Local, list: seq<Entry>, h: Hold, place: map<Entry, Place>)
    requires Located(s, g) && t < |s.threads|
    requires Mine(p, l, t, list, h, place) && OthersKept(s.pool.next, g.place, p.next, place, t)
    ensures Located(State(p, s.threads[t := l]), Layout(list, g.holds[t := h], place))
  {
    var threads, holds := s.threads[t := l], g.holds[t := h];
    forall u | 0 <= u < |threads|
      ensures Owns(p.next, threads[u], holds[u]) && ListsPlace(place, All(holds[u]), Of(u))
    {
      if u != t {
        assert ListsPlace(g.place, All(g.holds[u]), Of(u));
        OwnsFrame(s.pool.next, p.next, s.threads[u], g.holds[u]);
      }
    }
  }

  lemma MineOf(s: State, g: Layout, t: nat)
    requires Located(s, g) && t < |s.threads|
    ensures Mine(s.pool, s.threads[t], t, g.list, g.holds[t], g.place)
    ensures forall e | e in g.place :: e in s.pool.next
  {
  }

  lemma Disjoint(place: map<Entry, Place>, a: seq<Entry>, p: Place, b: seq<Entry>, q: Place)
    requires ListsPlace(place, a, p) && ListsPlace(place, b, q) && p != q
    ensures NoDup(a + b) && forall e :: e in a + b <==> e in place && (place[e] == p || place[e] == q)
  {
    var c := a + b;
    forall i, j | 0 <= i < j < |c|
      ensures c[i] != c[j]
    {
      if i < |a| <= j {
        assert c[i] == a[i] && c[j] == b[j - |a|];
        assert a[i] in a && b[j - |a|] in b;
      }
    }
  }

  lemma AppendNoDup(a: seq<Entry>, b: seq<Entry>)
    requires NoDup(a + b)
    ensures NoDup(a) && NoDup(b) && forall e | e in a :: e !in b
  {
    assert forall i | 0 <= i < |a| :: a[i] == (a + b)[i];
    assert forall i | 0 <= i < |b| :: b[i] == (a + b)[|a| + i];
  }

  // ----- every step keeps the places and the links -----

  /** What a step of one thread has to show. */
  ghost predicate Traded(p: Pool, place: map<Entry, Place>, p': Pool, l': Local, t: nat, g': Layout) {
    && |g'.holds| == 1 && Mine(p', l', t, g'.list, g'.holds[0], g'.place)
    && OthersKept(p.next, place, p'.next, g'.place, t)
  }

  lemma TakeOwns(next: map<Entry, Ptr>, take: AfterTake, last: Entry, list: seq<Entry>, h: Hold)
    requires Taking(next, take, h) && Chain(next, At(last), list)
    ensures var h' := if take.Append? then h.(rest := list) else Hold([], list, []);
            Owns(next, TakeReturns(take, At(last)), h') && All(h') == All(h) + list
  {
    assert take.Append? ==> h.(rest := list).(rest := []) == h;
  }

  lemma TakePlaces(place: map<Entry, Place>, t: nat, own: seq<Entry>, list: seq<Entry>, users: map<Entry, int>,
                   next: map<Entry, Ptr>) returns (place': map<Entry, Place>)
    requires ListsPlace(place, own, Of(t)) && ListsPlace(place, list, InList) && UsersPlaced(place, users, next)
    ensures ListsPlace(place', own + list, Of(t)) && ListsPlace(place', [], InList) && UsersPlaced(place', users, next)
    ensures OthersKept(next, place, next, place', t)
  {
    place' := map e | e in place :: if place[e] == InList then Of(t) else place[e];
    Disjoint(place, own, Of(t), list, InList);
  }

  /** get_pool's compare-and-swap succeeds: the whole list becomes the thread's. */
  lemma TakeTrades(p: Pool, l: Local, t: nat, list: seq<Entry>, h: Hold, place: map<Entry, Place>) returns (g: Layout)
    requires Mine(p, l, t, list, h, place) && l.CasTake? && p.head == At(l.last)
    ensures Traded(p, place, p.(head := Null), TakeReturns(l.take, p.head), t, g)
  {
    var h' := if l.take.Append? then h.(rest := list) else Hold([], list, []);
    TakeOwns(p.next, l.take, l.last, list, h);
    var place' := TakePlaces(place, t, All(h), list, p.users, p.next);
    hide ListsPlace, UsersPlaced, OthersKept, Taking, TakeReturns;
    g := Layout([], [h'], place');
  }

  lemma GetPoolTrades(p: Pool, l: Local, t: nat, list: seq<Entry>, h: Hold, place: map<Entry, Place>) returns (g: Layout)
    requires Mine(p, l, t, list, h, place) && (l.ReadHead? || l.CasTake?)
    ensures Traded(p, place, GetPool(p, l).0, GetPool(p, l).1, t, g)
  {
    if l.CasTake? && p.head == At(l.last) {
      g := TakeTrades(p, l, t, list, h, place);
    } else {
      assert h.rest == [] ==> h.(rest := []) == h;
      g := Layout(list, [h], place);
    }
  }

  lemma WalkOwns(next: map<Entry, Ptr>, l: Local, h: Hold)
    requires l.Walk? && Owns(next, l, h)
    ensures l.end in next
    ensures match next[l.end]
            case Null => Owns(next, CasInstall(l.chain, l.end, l.after), h)
            case At(f) => Owns(next, Walk(l.chain, f, l.after), h)
  {
    ChainMembers(next, At(l.chain), h.chain);
  }

  /** The thread's own chain, with the taken list linked behind it. */
  lemma LinkedChain(next: map<Entry, Ptr>, l: Local, h: Hold)
    requires l.Link? && Owns(next, l, h) && NoDup(All(h))
    ensures Owns(next[l.end := l.rest], Walk(l.chain, l.end, l.after), Hold(h.kept, h.chain + h.rest, []))
    ensures l.end in All(h) && l.end in next
  {
    AppendNoDup(h.kept + h.chain, h.rest);
    AppendNoDup(h.kept, h.chain);
    ChainLast(next, At(l.chain), h.chain, l.end);
    ChainLink(next, At(l.chain), h.chain, l.rest, h.rest);
  }

  /** A thread writes the link of an entry it owns. */
  lemma WriteOwn(p: Pool, t: nat, list: seq<Entry>, h: Hold, place: map<Entry, Place>, e: Entry, q: Ptr)
    requires ListsPlace(place, All(h), Of(t)) && e in All(h)
    requires Chain(p.next, p.head, list) && ListsPlace(place, list, InList) && UsersPlaced(place, p.users, p.next)
    ensures var next' := p.next[e := q];
            && Chain(next', p.head, list) && UsersPlaced(place, p.users, next')
            && OthersKept(p.next, place, next', place, t)
  {
    var next' := p.next[e := q];
    ChainMembers(p.next, p.head, list);
    ChainFrame(p.next, next', p.head, list);
    assert next'.Keys == p.next.Keys;
  }

  lemma InstallPlaces(place: map<Entry, Place>, t: nat, kept: seq<Entry>, chain: seq<Entry>, users: map<Entry, int>,
                      next: map<Entry, Ptr>) returns (place': map<Entry, Place>)
    requires ListsPlace(place, kept + chain, Of(t)) && ListsPlace(place, [], InList) && UsersPlaced(place, users, next)
    ensures ListsPlace(place', kept, Of(t)) && ListsPlace(place', chain, InList) && UsersPlaced(place', users, next)
    ensures OthersKept(next, place, next, place', t)
  {
    place' := map e | e in place :: if e in chain then InList else place[e];
    AppendNoDup(kept, chain);
    assert forall e | e in kept :: e in kept + chain;
    assert forall e | e in chain :: e in kept + chain;
  }

  lemma InstallOwns(next: map<Entry, Ptr>, l: Local, h: Hold)
    requires l.CasInstall? && Owns(next, l, h) && forall e | e in All(h) :: e in next
    ensures Owns(next, AddReturns(l.after), Hold(h.kept, [], [])) && Chain(next, At(l.chain), h.chain)
    ensures All(h) == h.kept + h.chain && All(Hold(h.kept, [], [])) == h.kept
  {
    assert l.after.ThenKeep? ==> l.after.kept in All(h);
  }

  lemma InstallTrades(p: Pool, l: Local, t: nat, h: Hold, place: map<Entry, Place>) returns (g: Layout)
    requires Mine(p, l, t, [], h, place) && l.CasInstall? && p.head == Null
    ensures Traded(p, place, AddToPool(p, l).0, AddToPool(p, l).1, t, g)
  {
    assert forall e | e in All(h) :: e in p.next;
    hide Owns, Chain, ListsPlace, UsersPlaced, OthersKept, All;
    InstallOwns(p.next, l, h);
    var place' := InstallPlaces(place, t, h.kept, h.chain, p.users, p.next);
    g := Layout(h.chain, [Hold(h.kept, [], [])], place');
  }

  /** add_to_pool, step by step. */
  lemma AddToPoolTrades(p: Pool, l: Local, t: nat, list: seq<Entry>, h: Hold, place: map<Entry, Place>) returns (g: Layout)
    requires Mine(p, l, t, list, h, place) && (l.Walk? || l.CasInstall? || l.Link?)
    ensures Traded(p, place, AddToPool(p, l).0, AddToPool(p, l).1, t, g)
  {
    g := Layout(list, [h], place);
    if l.Walk? {
      WalkOwns(p.next, l, h);
    } else if l.Link? {
      var h' := Hold(h.kept, h.chain + h.rest, []);
      assert All(h') == All(h);
      LinkedChain(p.next, l, h);
      WriteOwn(p, t, list, h, place, l.end, l.rest);
      g := Layout(list, [h'], place);
    } else if p.head == Null {
      ChainMembers(p.next, p.head, list);
      g := InstallTrades(p, l, t, h, place);
    }
  }

  lemma CreateTrades(p: Pool, l: Local, t: nat, list: seq<Entry>, h: Hold, place: map<Entry, Place>) returns (g: Layout)
    requires Mine(p, l, t, list, h, place) && l.Allocate? && p.created !in p.next
    ensures Traded(p, place, CreateBuffer(p, l, true).0, CreateBuffer(p, l, true).1, t, g)
  {
    var e := p.created;
    var next' := p.next[e := Null];
    var h' := Hold([e], [], []);
    assert All(h') == [e];
    g := Layout(list, [h'], place[e := Of(t)]);
    assert e !in list && e !in p.users;
    ChainFrame(p.next, next', p.head, list) by { ChainMembers(p.next, p.head, list); }
    hide Chain;
  }

  lemma GivePlaces(place: map<Entry, Place>, t: nat, e: Entry, users: map<Entry, int>, next: map<Entry, Ptr>)
    requires ListsPlace(place, [e], Of(t)) && UsersPlaced(place, users, next) && next[e] == Null
    ensures var place' := place[e := WithUsers];
            && ListsPlace(place', [], Of(t)) && UsersPlaced(place', users[e := 1], next)
            && OthersKept(next, place, next, place', t) && e !in users
  {
    assert e in [e];
    forall f | f in place && place[f] == Of(t)
      ensures f == e
    {
      assert f in [e];
    }
  }

  /** A thread in pool_get gives its entry to the users. */
  lemma GiveTrades(p: Pool, l: Local, t: nat, list: seq<Entry>, h: Hold, place: map<Entry, Place>, p': Pool) returns (g: Layout)
    requires Mine(p, l, t, list, h, place) && (l.AllocatedUp? || l.HandOut?)
    requires p'.next == p.next && p'.head == p.head && p'.users == p.users[l.buf := 1]
    ensures Traded(p, place, p', Idle, t, g) && l.buf !in p.users
  {
    assert All(h) == [l.buf];
    GivePlaces(place, t, l.buf, p.users, p.next);
    g := Layout(list, [NOTHING], place[l.buf := WithUsers]);
    assert All(NOTHING) == [];
    assert ListsPlace(g.place, list, InList);
  }

  lemma CreateBufferTrades(p: Pool, l: Local, t: nat, list: seq<Entry>, h: Hold, place: map<Entry, Place>, ok: bool) returns (g: Layout)
    requires Mine(p, l, t, list, h, place) && p.created !in p.next
    requires l.ReadCount? || l.ReadAllocated? || l.Allocate? || l.CountUp? || l.AllocatedUp?
    ensures Traded(p, place, CreateBuffer(p, l, ok).0, CreateBuffer(p, l, ok).1, t, g)
  {
    g := Layout(list, [h], place);
    if l.Allocate? && ok {
      g := CreateTrades(p, l, t, list, h, place);
    } else if l.AllocatedUp? {
      g := GiveTrades(p, l, t, list, h, place, CreateBuffer(p, l, ok).0);
    }
  }

  /** The thread keeps the first entry of its list; the others become a chain to be put back. */
  lemma SplitTrades(p: Pool, l: Local, t: nat, list: seq<Entry>, h: Hold, place: map<Entry, Place>) returns (g: Layout)
    requires Mine(p, l, t, list, h, place) && l.Split?
    ensures Traded(p, place, p, ReuseBuffer(p, l, true).1, t, g)
  {
    var h' := Hold([l.buf], h.chain[1..], []);
    ChainMembers(p.next, p.next[l.buf], h.chain[1..]);
    assert All(h') == All(h);
    g := Layout(list, [h'], place);
  }

  lemma OneChain(next: map<Entry, Ptr>, e: Entry)
    requires e in next && next[e] == Null
    ensures Chain(next, At(e), [e])
  {
  }

  lemma DetachTrades(p: Pool, l: Local, t: nat, list: seq<Entry>, h: Hold, place: map<Entry, Place>) returns (g: Layout)
    requires Mine(p, l, t, list, h, place) && l.Detach?
    ensures Traded(p, place, p.(next := p.next[l.buf := Null]), Wrap(l.buf), t, g)
  {
    assert All(h) == [l.buf];
    WriteOwn(p, t, list, h, place, l.buf, Null);
    g := Layout(list, [h], place);
  }

  lemma WrapTrades(p: Pool, l: Local, t: nat, list: seq<Entry>, h: Hold, place: map<Entry, Place>, ok: bool) returns (g: Layout)
    requires Mine(p, l, t, list, h, place) && l.Wrap?
    ensures Traded(p, place, p, ReuseBuffer(p, l, ok).1, t, g)
  {
    var h' := if ok then h else Hold([], [l.buf], []);
    assert All(h') == All(h) == [l.buf];
    OneChain(p.next, l.buf);
    g := Layout(list, [h'], place);
  }

  lemma ReuseBufferTrades(p: Pool, l: Local, t: nat, list: seq<Entry>, h: Hold, place: map<Entry, Place>, ok: bool) returns (g: Layout)
    requires Mine(p, l, t, list, h, place) && (l.Split? || l.Detach? || l.Wrap? || l.HandOut?)
    ensures Traded(p, place, ReuseBuffer(p, l, ok).0, ReuseBuffer(p, l, ok).1, t, g)
  {
    hide Mine, Traded;
    if l.Split? {
      g := SplitTrades(p, l, t, list, h, place);
    } else if l.Detach? {
      g := DetachTrades(p, l, t, list, h, place);
    } else if l.Wrap? {
      g := WrapTrades(p, l, t, list, h, place, ok);
    } else {
      g := GiveTrades(p, l, t, list, h, place, ReuseBuffer(p, l, ok).0);
    }
  }

  /** buffer_pool_free drops the head of the list. */
  lemma PoolFreeTrades(p: Pool, t: nat, list: seq<Entry>, h: Hold, place: map<Entry, Place>) returns (g: Layout)
    requires Mine(p, FreeEntries, t, list, h, place)
    ensures Traded(p, place, PoolFree(p).0, PoolFree(p).1, t, g)
    ensures p.head.At? ==> p.head.entry in p.next
  {
    g := Layout(list, [h], place);
    if p.head.At? {
      var e := p.head.entry;
      var next', place' := p.next - {e}, place - {e};
      assert e in list;
      assert Chain(next', p.next[e], list[1..]) by {
        ChainMembers(p.next, p.next[e], list[1..]);
        ChainFrame(p.next, next', p.next[e], list[1..]);
      }
      assert ListsPlace(place', list[1..], InList) by {
        assert forall f :: f in list <==> f == e || f in list[1..];
      }
      assert UsersPlaced(place', p.users, next');
      g := Layout(list[1..], [h], place');
    }
  }

  lemma RunTrades(p: Pool, l: Local, t: nat, list: seq<Entry>, h: Hold, place: map<Entry, Place>, ok: bool) returns (g: Layout)
    requires Mine(p, l, t, list, h, place) && p.created !in p.next
    ensures Traded(p, place, Run(p, l, ok).0, Run(p, l, ok).1, t, g)
  {
    hide ListsPlace, Chain, GetPool, AddToPool, ReuseBuffer, PoolFree, CreateBuffer;
    if l.ReadHead? || l.CasTake? {
      g := GetPoolTrades(p, l, t, list, h, place);
    } else if l.Walk? || l.CasInstall? || l.Link? {
      g := AddToPoolTrades(p, l, t, list, h, place);
    } else if l.Split? || l.Detach? || l.Wrap? || l.HandOut? {
      g := ReuseBufferTrades(p, l, t, list, h, place, ok);
    } else if l.FreeEntries? {
      g := PoolFreeTrades(p, t, list, h, place);
    } else if l.Idle? || l.CountDown? {
      g := Layout(list, [h], place);
    } else {
      g := CreateBufferTrades(p, l, t, list, h, place, ok);
    }
  }

  /** The last reference is dropped: the releasing thread has the entry. */
  lemma ReleaseTrades(p: Pool, t: nat, list: seq<Entry>, h: Hold, place: map<Entry, Place>, e: Entry) returns (g: Layout)
    requires Mine(p, Idle, t, list, h, place) && e in p.users
    ensures Traded(p, place, p.(users := p.users - {e}), Walk(e, e, ThenRelease), t, g)
  {
    var h' := Hold([], [e], []);
    assert All(h') == [e] && All(h) == [];
    OneChain(p.next, e);
    hide Chain;
    g := Layout(list, [h'], place[e := Of(t)]);
  }

  /** A caller's step: only the last unref moves an entry, from the users to the releasing thread. */
  lemma CallTrades(p: Pool, t: nat, list: seq<Entry>, h: Hold, place: map<Entry, Place>, a: Action) returns (g: Layout)
    requires Mine(p, Idle, t, list, h, place)
    requires a.CallRef? || a.CallUnref? ==> a.entry in p.users
    ensures Traded(p, place, Call(p, a).0, Call(p, a).1, t, g)
  {
    g := Layout(list, [h], place);
    if a.CallUnref? && p.users[a.entry] == 1 {
      g := ReleaseTrades(p, t, list, h, place, a.entry);
    }
  }

  // ----- every step keeps the counts -----

  /** How a step changes the counters, against the weights of the thread that takes it. */
  ghost predicate Delta(p: Pool, l: Local, p': Pool, l': Local) {
    && p'.owner == p.owner
    && p'.refcount - p.refcount == |p'.users| - |p.users| + Counted(l') - Counted(l)
    && p'.created - p.created == p'.nbAllocated - p.nbAllocated + Creating(l') - Creating(l)
    && (Uncovered(l') ==> Uncovered(l))
  }

  lemma HandOutDelta(p: Pool, l: Local, ok: bool)
    requires (l.AllocatedUp? || l.HandOut?) && l.buf !in p.users
    ensures var (p', l') := Run(p, l, ok); Delta(p, l, p', l')
  {
    OneMore(p.users, l.buf);
  }

  lemma OneMore(users: map<Entry, int>, e: Entry)
    requires e !in users
    ensures |users[e := 1]| == |users| + 1
  {
    assert users[e := 1].Keys == users.Keys + {e};
  }

  /** get_pool and add_to_pool change no counter. */
  lemma TravelDelta(p: Pool, l: Local, ok: bool)
    requires l.ReadHead? || l.CasTake? || l.Walk? || l.CasInstall? || l.Link?
    ensures var (p', l') := Run(p, l, ok); Delta(p, l, p', l')
  {
    hide Next;
  }

  lemma ReuseDelta(p: Pool, l: Local, ok: bool)
    requires l.Split? || l.Detach? || l.Wrap?
    ensures var (p', l') := Run(p, l, ok); Delta(p, l, p', l')
  {
    hide Next;
  }

  lemma CreateDelta(p: Pool, l: Local, ok: bool)
    requires l.ReadCount? || l.ReadAllocated? || l.Allocate? || l.CountUp?
    ensures var (p', l') := Run(p, l, ok); Delta(p, l, p', l')
  {
    assert Run(p, l, ok).0.users == p.users;
  }

  lemma EndsDelta(p: Pool, l: Local, ok: bool)
    requires l.Idle? || l.CountDown? || l.FreeEntries?
    ensures var (p', l') := Run(p, l, ok); Delta(p, l, p', l')
  {
    hide Next;
  }

  lemma RunDelta(p: Pool, l: Local, ok: bool)
    requires l.AllocatedUp? || l.HandOut? ==> l.buf !in p.users
    ensures var (p', l') := Run(p, l, ok); Delta(p, l, p', l')
  {
    hide Delta, Run;
    if l.AllocatedUp? || l.HandOut? {
      HandOutDelta(p, l, ok);
    } else if l.Split? || l.Detach? || l.Wrap? {
      ReuseDelta(p, l, ok);
    } else if l.Idle? || l.CountDown? || l.FreeEntries? {
      EndsDelta(p, l, ok);
    } else if l.ReadCount? || l.ReadAllocated? || l.Allocate? || l.CountUp? {
      CreateDelta(p, l, ok);
    } else {
      TravelDelta(p, l, ok);
    }
  }

  /** When the pool is freed, and what is recorded of it. */
  ghost predicate EndDelta(p: Pool, l: Local, p': Pool, l': Local) {
    && p'.poolFrees - p.poolFrees + Freeing(l') - Freeing(l) == (if l.CountDown? && p.refcount == 1 then 1 else 0)
    && p'.poolFrees >= p.poolFrees
    && (l.CountDown? ==> p'.refcount == p.refcount - 1)
    && (!l.CountDown? ==> p'.refcount >= p.refcount && (p'.refcount > p.refcount ==> Uncovered(l)))
    && (p'.freed != p.freed ==> l.FreeEntries?)
    && (p'.head != Null ==> p.head != Null || Counted(l) > 0 || Uncovered(l))
    && (p'.poolFrees > p.poolFrees ==> p'.head == Null)
  }

  lemma RunEndDelta(p: Pool, l: Local, ok: bool)
    ensures var (p', l') := Run(p, l, ok); EndDelta(p, l, p', l')
  {
  }

  /** No entry is forgotten, and none is freed twice. */
  lemma RunRecords(p: Pool, l: Local, ok: bool)
    requires Recorded(p.created, p.next.Keys, p.freed)
    requires l.FreeEntries? && p.head.At? ==> p.head.entry in p.next
    requires l.Link? ==> l.end in p.next
    requires l.Detach? ==> l.buf in p.next
    ensures var p' := Run(p, l, ok).0; Recorded(p'.created, p'.next.Keys, p'.freed)
  {
    var p' := Run(p, l, ok).0;
    if l.Link? || l.Detach? {
      assert p'.next.Keys == p.next.Keys;
    } else if l.Allocate? && ok {
      assert p'.next.Keys == p.next.Keys + {p.created};
    } else if l.FreeEntries? && p.head.At? {
      assert p'.next.Keys == p.next.Keys - {p.head.entry};
    }
  }

  /** A pool in use has a positive count; while it is being freed, nobody else is active. */
  lemma InUse(s: State, t: nat)
    requires Counts(s) && t < |s.threads|
    ensures s.pool.owner || Counted(s.threads[t]) > 0 ==> s.pool.refcount > 0
    ensures Freeing(s.threads[t]) > 0 ==> s.pool.refcount == 0 && s.pool.poolFrees == 0
    ensures s.pool.refcount >= 0 && s.pool.created >= s.pool.nbAllocated
  {
    TotalsUpdate(s.threads, t, s.threads[t]);
  }

  lemma RunKeepsCounts(s: State, g: Layout, t: nat, ok: bool)
    requires Located(s, g) && Counts(s) && t < |s.threads|
    requires Uncovered(s.threads[t]) ==> s.pool.owner
    ensures var (p, l) := Run(s.pool, s.threads[t], ok);
            && Counts(State(p, s.threads[t := l])) && p.owner == s.pool.owner
            && (Uncovered(l) ==> Uncovered(s.threads[t]))
  {
    var l := s.threads[t];
    PointersAreLive(s, g, t);
    InUse(s, t);
    RunRecords(s.pool, l, ok);
    RunDelta(s.pool, l, ok);
    RunEndDelta(s.pool, l, ok);
    TotalsUpdate(s.threads, t, Run(s.pool, l, ok).1);
  }

  /** The pointers a thread is about to follow lead to live entries, and no user has its entry. */
  lemma PointersAreLive(s: State, g: Layout, t: nat)
    requires Located(s, g) && t < |s.threads|
    ensures var l := s.threads[t];
            && (l.AllocatedUp? || l.HandOut? ==> l.buf !in s.pool.users)
            && (l.FreeEntries? && s.pool.head.At? ==> s.pool.head.entry in s.pool.next)
            && (l.Walk? || l.Link? ==> l.end in s.pool.next)
            && (l.Detach? || l.Split? ==> l.buf in s.pool.next)
  {
    var l, h := s.threads[t], g.holds[t];
    MineOf(s, g, t);
    if l.AllocatedUp? || l.HandOut? {
      assert All(h) == [l.buf];
      assert l.buf in All(h);
    } else if l.Walk? {
      ChainMembers(s.pool.next, At(l.chain), h.chain);
    }
  }

  /** The handle and the users' buffers, all of which the count covers. */
  function Owed(p: Pool): int {
    (if p.owner then 1 else 0) + |p.users|
  }

  lemma CallDelta(p: Pool, a: Action)
    requires !a.Continue? && (a.CallRef? || a.CallUnref? ==> a.entry in p.users)
    requires a.CallUninit? ==> p.owner
    ensures var (p', l') := Call(p, a);
            && Owed(p') + Counted(l') == Owed(p) && Creating(l') == Freeing(l') == 0
            && p' == p.(users := p'.users, owner := p'.owner)
  {
    if a.CallRef? && a.ok {
      assert p.users[a.entry := p.users[a.entry] + 1].Keys == p.users.Keys;
    } else if a.CallUnref? && p.users[a.entry] > 1 {
      assert p.users[a.entry := p.users[a.entry] - 1].Keys == p.users.Keys;
    } else if a.CallUnref? {
      assert (p.users - {a.entry}).Keys == p.users.Keys - {a.entry};
    }
  }

  lemma CallKeepsCounts(s: State, t: nat, a: Action)
    requires Counts(s) && Possible(s, t, a) && !a.Continue?
    ensures Counts(Apply(s, t, a))
  {
    var (p', l') := Call(s.pool, a);
    CallDelta(s.pool, a);
    TotalsUpdate(s.threads, t, l');
    var s' := State(p', s.threads[t := l']);
    assert Balanced(p', Total(s'.threads, Counted), Total(s'.threads, Creating), Total(s'.threads, Freeing)) by {
      assert Balanced(s.pool, Total(s.threads, Counted), Total(s.threads, Creating), Total(s.threads, Freeing));
    }
  }

  lemma CallKeepsDiscipline(s: State, t: nat, a: Action)
    requires Enabled(s, t, a) && !a.Continue? && Disciplined(s.pool.owner, s.threads)
    ensures var s' := Apply(s, t, a); Disciplined(s'.pool.owner, s'.threads)
  {
  }

  /** No step, with or without the rule for uninit, spoils the places and the links. */
  lemma StepKeepsPlaces(s: State, g: Layout, t: nat, a: Action) returns (g': Layout)
    requires Located(s, g) && Counts(s) && Possible(s, t, a)
    ensures Located(Apply(s, t, a), g')
  {
    var d: Layout;
    MineOf(s, g, t);
    if a.Continue? {
      d := RunTrades(s.pool, s.threads[t], t, g.list, g.holds[t], g.place, a.ok);
    } else {
      d := CallTrades(s.pool, t, g.list, g.holds[t], g.place, a);
    }
    var s' := Apply(s, t, a);
    StepLocated(s, g, t, s'.pool, s'.threads[t], d.list, d.holds[0], d.place);
    g' := Layout(d.list, g.holds[t := d.holds[0]], d.place);
  }

  lemma StepKeepsInv(s: State, g: Layout, t: nat, a: Action) returns (g': Layout)
    requires Inv(s, g) && Enabled(s, t, a)
    ensures Inv(Apply(s, t, a), g')
  {
    g' := StepKeepsPlaces(s, g, t, a);
    if a.Continue? {
      RunKeepsCounts(s, g, t, a.ok);
    } else {
      CallKeepsCounts(s, t, a);
      CallKeepsDiscipline(s, t, a);
    }
  }

  lemma InitInv(s: State)
    requires Init(s)
    ensures Inv(s, Layout([], seq(|s.threads|, i => NOTHING), map[]))
  {
    InitLocated(s);
    hide Located;
    TotalZero(s.threads, Counted);
    TotalZero(s.threads, Creating);
    TotalZero(s.threads, Freeing);
    hide Total;
  }

  lemma InitLocated(s: State)
    requires Init(s)
    ensures Located(s, Layout([], seq(|s.threads|, i => NOTHING), map[]))
  {
  }

  lemma {:induction false} BehaviourInv(run: seq<State>) returns (g: Layout)
    requires Behaviour(run)
    ensures Inv(run[|run| - 1], g)
    decreases |run|
  {
    if |run| == 1 {
      InitInv(run[0]);
      g := Layout([], seq(|run[0].threads|, i => NOTHING), map[]);
    } else {
      var before := run[..|run| - 1];
      g := BehaviourInv(before);
      var s, s' := run[|run| - 2], run[|run| - 1];
      assert s == before[|before| - 1];
      assert Step(run[|run| - 1 - 1], run[|run| - 1]);
      var t, a :| Enabled(s, t, a) && s' == Apply(s, t, a);
      g := StepKeepsInv(s, g, t, a);
    }
  }

  lemma ReachableInv(s: State) returns (g: Layout)
    requires Reachable(s)
    ensures Inv(s, g)
  {
    var run :| Behaviour(run) && run[|run| - 1] == s;
    g := BehaviourInv(run);
  }

  // ----- the main results -----

  ghost predicate OnList(p: Pool, e: Entry) {
    exists c :: Chain(p.next, p.head, c) && e in c
  }

  /** The thread owns the entry: it is on a list that starts at one of the thread's pointers. */
  ghost predicate HeldBy(s: State, e: Entry, t: nat) {
    t < |s.threads| && exists h :: Owns(s.pool.next, s.threads[t], h) && e in All(h)
  }

  lemma {:induction false} ChainUnique(next: map<Entry, Ptr>, p: Ptr, c: seq<Entry>, d: seq<Entry>)
    requires Chain(next, p, c) && Chain(next, p, d)
    ensures c == d
    decreases |c|
  {
    if c != [] {
      ChainUnique(next, next[c[0]], c[1..], d[1..]);
      assert c == [c[0]] + c[1..] && d == [d[0]] + d[1..];
    }
  }

  lemma OwnsUnique(next: map<Entry, Ptr>, l: Local, h: Hold, k: Hold)
    requires Owns(next, l, h) && Owns(next, l, k)
    ensures h == k
  {
    if l.Split? {
      ChainUnique(next, At(l.buf), h.chain, k.chain);
    } else if l.Walk? || l.CasInstall? {
      ChainUnique(next, At(l.chain), h.chain, k.chain);
    } else if l.Link? {
      ChainUnique(next, At(l.chain), h.chain, k.chain);
      ChainUnique(next, l.rest, h.rest, k.rest);
    } else if (l.ReadHead? || l.CasTake?) && l.take.Append? {
      ChainUnique(next, At(l.take.chain), h.chain, k.chain);
    }
  }

  lemma WhereItIs(s: State, g: Layout, e: Entry)
    requires Located(s, g)
    ensures OnList(s.pool, e) <==> e in g.place && g.place[e] == InList
    ensures forall t: nat :: HeldBy(s, e, t) <==> e in g.place && g.place[e] == Of(t)
  {
    if OnList(s.pool, e) {
      var c :| Chain(s.pool.next, s.pool.head, c) && e in c;
      ChainUnique(s.pool.next, s.pool.head, c, g.list);
    }
    forall t: nat | t < |s.threads|
      ensures HeldBy(s, e, t) <==> e in g.place && g.place[e] == Of(t)
    {
      MineOf(s, g, t);
      if HeldBy(s, e, t) {
        var h :| Owns(s.pool.next, s.threads[t], h) && e in All(h);
        OwnsUnique(s.pool.next, s.threads[t], h, g.holds[t]);
      }
    }
  }

  /** In every reachable state a live entry is in exactly one place: on the shared list, held by
      exactly one thread, or with the users. */
  lemma OnePlace(s: State, e: Entry)
    requires Reachable(s) && e in s.pool.next
    ensures OnList(s.pool, e) || e in s.pool.users || exists t: nat :: HeldBy(s, e, t)
    ensures !(OnList(s.pool, e) && e in s.pool.users)
    ensures forall t: nat | HeldBy(s, e, t) :: !OnList(s.pool, e) && e !in s.pool.users
    ensures forall t: nat, u: nat | HeldBy(s, e, t) && HeldBy(s, e, u) :: t == u
  {
    var g := ReachableInv(s);
    WhereItIs(s, g, e);
    if g.place[e].Of? {
      assert HeldBy(s, e, g.place[e].thread);
    }
  }

  /** The shared list and the lists in the hands of a thread are null-terminated and visit no entry
      twice. */
  lemma ListsAreAcyclic(s: State)
    requires Reachable(s)
    ensures exists c :: Chain(s.pool.next, s.pool.head, c) && NoDup(c)
    ensures forall t | 0 <= t < |s.threads| ::
              exists h :: Owns(s.pool.next, s.threads[t], h) && NoDup(All(h))
  {
    var g := ReachableInv(s);
    assert Chain(s.pool.next, s.pool.head, g.list) && NoDup(g.list);
    forall t | 0 <= t < |s.threads|
      ensures exists h :: Owns(s.pool.next, s.threads[t], h) && NoDup(All(h))
    {
      assert Owns(s.pool.next, s.threads[t], g.holds[t]) && NoDup(All(g.holds[t]));
    }
  }

  /** Entries are never lost: each one ever created is live, or was freed exactly once. */
  lemma NoneLost(s: State, e: Entry)
    requires Reachable(s)
    ensures 0 <= e < s.pool.created <==> e in s.pool.next || e in s.pool.freed
    ensures e in s.pool.freed ==> e !in s.pool.next
    ensures NoDup(s.pool.freed)
  {
    var g := ReachableInv(s);
  }

  lemma OnlyOneFrees(s: State, g: Layout, t: nat, u: nat)
    requires Inv(s, g) && t < |s.threads| && s.threads[t].FreeEntries? && u < |s.threads| && u != t
    ensures s.threads[u].Idle?
  {
    hide Located, Total, Recorded;
    InUse(s, t);
    InUse(s, u);
    TotalPair(s.threads, Freeing, if t < u then t else u, if t < u then u else t);
  }

  /** No thread follows a pointer into freed memory, and no thread runs once the pool is freed. */
  lemma NoUseAfterFree(s: State, t: nat)
    requires Reachable(s) && t < |s.threads| && !s.threads[t].Idle?
    ensures s.pool.poolFrees == 0
    ensures s.threads[t].Walk? || s.threads[t].Link? ==> s.threads[t].end in s.pool.next
    ensures s.threads[t].Detach? || s.threads[t].Split? ==> s.threads[t].buf in s.pool.next
    ensures s.threads[t].FreeEntries? && s.pool.head.At? ==> s.pool.head.entry in s.pool.next
    ensures s.threads[t].FreeEntries? ==>
              forall u | 0 <= u < |s.threads| && u != t :: s.threads[u].Idle?
  {
    var g := ReachableInv(s);
    hide Located, Total, Reachable, Recorded, Disciplined;
    PointersAreLive(s, g, t);
    InUse(s, t);
    if s.threads[t].FreeEntries? {
      forall u | 0 <= u < |s.threads| && u != t
        ensures s.threads[u].Idle?
      {
        OnlyOneFrees(s, g, t, u);
      }
    }
  }

  /** The users only hold live buffers. */
  lemma HandedOutIsLive(s: State, e: Entry)
    requires Reachable(s) && e in s.pool.users
    ensures e in s.pool.next && e !in s.pool.freed && s.pool.users[e] > 0
  {
    var g := ReachableInv(s);
  }

  /** Freeing starts only after uninit and the return of the last buffer. */
  lemma FreeingComesLast(s: State)
    requires Reachable(s)
    requires s.pool.freed != [] || s.pool.poolFrees > 0 || exists t :: 0 <= t < |s.threads| && s.threads[t].FreeEntries?
    ensures !s.pool.owner && s.pool.users == map[]
  {
    var g := ReachableInv(s);
    hide Located, Reachable, Recorded;
    if t :| 0 <= t < |s.threads| && s.threads[t].FreeEntries? {
      InUse(s, t);
    }
    assert s.pool.refcount == 0;
    assert |s.pool.users| == 0;
  }

  /** The count is exactly the handle, the handed-out buffers and the releases under way, so it can
      only reach zero after the handle and all buffers are back; and then nothing uses the pool. */
  lemma CountCovers(s: State)
    requires Reachable(s)
    ensures s.pool.refcount == (if s.pool.owner then 1 else 0) + |s.pool.users| + Total(s.threads, Counted)
    ensures s.pool.created == s.pool.nbAllocated + Total(s.threads, Creating)
    ensures 0 <= s.pool.poolFrees <= 1
    ensures s.pool.poolFrees == 1 ==> !s.pool.owner && s.pool.users == map[] && s.pool.next == map[]
  {
    var g := ReachableInv(s);
    if s.pool.poolFrees == 1 {
      FreedAll(s, g);
    }
  }

  /** Once the pool is freed no entry is live. */
  lemma FreedAll(s: State, g: Layout)
    requires Inv(s, g) && s.pool.refcount == 0 && s.pool.head == Null
    ensures s.pool.next == map[] && s.pool.users == map[]
  {
    ChainMembers(s.pool.next, s.pool.head, g.list);
    forall e | e in g.place
      ensures false
    {
      if g.place[e].Of? {
        var t := g.place[e].thread;
        MineOf(s, g, t);
        InUse(s, t);
      }
    }
    assert |s.pool.users| == 0;
  }

  /** The pool is freed exactly once: when the handle and all buffers are back and every call has
      returned, buffer_pool_free has run once and has freed every entry once. */
  lemma FreedExactlyOnce(s: State)
    requires Reachable(s)
    requires !s.pool.owner && s.pool.users == map[]
    requires forall t | 0 <= t < |s.threads| :: s.threads[t].Idle?
    ensures s.pool.poolFrees == 1
    ensures NoDup(s.pool.freed) && forall e :: e in s.pool.freed <==> 0 <= e < s.pool.created
  {
    var g := ReachableInv(s);
    TotalZero(s.threads, Counted);
    TotalZero(s.threads, Freeing);
    FreedAll(s, g);
  }

  // ----- the rule for uninit is exact -----

  /** n steps lead from s to s'. */
  ghost predicate Leads(s: State, s': State, n: nat)
    decreases n
  {
    if n == 0 then s' == s else exists m :: Step(s, m) && Leads(m, s', n - 1)
  }

  lemma {:induction false} LeadsOn(s: State, m: State, s': State, k: nat, n: nat)
    requires Leads(s, m, k) && Leads(m, s', n)
    ensures Leads(s, s', k + n)
    decreases k
  {
    if k > 0 {
      var a :| Step(s, a) && Leads(a, m, k - 1);
      LeadsOn(a, m, s', k - 1, n);
    }
  }

  lemma LeadsFirst(s: State, m: State, s': State, n: nat) returns (k: nat)
    requires Step(s, m) && Leads(m, s', n)
    ensures Leads(s, s', k)
  {
    k := n + 1;
  }

  lemma {:induction false} LeadsReachable(s: State, s': State, n: nat)
    requires Reachable(s) && Leads(s, s', n)
    ensures Reachable(s')
    decreases n
  {
    if n > 0 {
      var m :| Step(s, m) && Leads(m, s', n - 1);
      StepReachable(s, m);
      LeadsReachable(m, s', n - 1);
    }
  }

  lemma StepReachable(s: State, m: State)
    requires Reachable(s) && Step(s, m)
    ensures Reachable(m)
  {
    var run :| Behaviour(run) && run[|run| - 1] == s;
    var run' := run + [m];
    forall i | 0 < i < |run'|
      ensures Step(run'[i - 1], run'[i])
    {
      if i < |run| {
        assert Step(run[i - 1], run[i]);
      }
    }
    assert Behaviour(run') && run'[|run'| - 1] == m;
  }

  /** The handle has been given back, perhaps under a running get. */
  ghost predicate Closing(s: State, g: Layout) {
    Located(s, g) && Counts(s) && !s.pool.owner
  }

  lemma StepClosing(s: State, g: Layout, t: nat, a: Action) returns (m: State, h: Layout)
    requires Closing(s, g) && Possible(s, t, a) && !Uncovered(s.threads[t])
    ensures Closing(m, h) && Step(s, m) && m == Apply(s, t, a) && !Uncovered(m.threads[t])
  {
    hide Located, Run;
    m := Apply(s, t, a);
    h := StepKeepsPlaces(s, g, t, a);
    if a.Continue? {
      RunKeepsCounts(s, g, t, a.ok);
    } else {
      CallKeepsCounts(s, t, a);
    }
    assert Enabled(s, t, a);
  }

  /** The thread returns a buffer, drops its count, or frees the pool. */
  predicate Ending(l: Local) {
    l.FreeEntries? || (Counted(l) > 0 && !l.AllocatedUp?)
  }

  /** How far a thread at `l` is from its end, if no other thread runs. */
  function Phase(p: Pool, l: Local): nat {
    match l
    case ReadHead(take) => if take.Append? then Putting(p, take.after) else 8
    case CasTake(take, _) => if take.Append? then Putting(p, take.after) else 8
    case ReadCount(_) => 8
    case ReadAllocated(_, _) => 8
    case Split(_) => 7
    case Walk(_, _, after) => Putting(p, after)
    case CasInstall(_, _, after) => Putting(p, after)
    case Link(_, _, _, after) => Putting(p, after)
    case Detach(_) => 4
    case Wrap(_) => 4
    case Idle => 0
    case FreeEntries => 0
    case _ => 1
  }

  /** ... while it puts a chain back: the shared list may have to be taken first. */
  function Putting(p: Pool, after: AfterAdd): nat {
    (if after.ThenKeep? then 5 else 2) + if p.head == Null then 0 else 1
  }

  function Stage(p: Pool, l: Local): nat {
    match l
    case ReadHead(take) => if p.head != Null then 2 else if take.Append? then 7 else 3
    case CasTake(take, last) => if p.head == At(last) then 0 else if p.head != Null then 1 else if take.Append? then 6 else 3
    case ReadCount(spinning) => if p.head == Null then 2 else if spinning then 4 else 6
    case ReadAllocated(spinning, count) =>
      if p.head == Null then (if count > p.nbAllocated then 1 else 4) else if spinning then 3 else 5
    case Link(_, _, _, _) => 5
    case Walk(_, _, _) => 4
    case CasInstall(_, _, _) => 3
    case Allocate => 3
    case CountUp(_) => 2
    case AllocatedUp(_) => 1
    case HandOut(_) => 1
    case Detach(_) => 1
    case FreeEntries => |p.next|
    case _ => 0
  }

  lemma {:induction false} ChainFrom(next: map<Entry, Ptr>, p: Ptr, c: seq<Entry>, e: Entry) returns (d: seq<Entry>)
    requires Chain(next, p, c) && e in c
    ensures Chain(next, At(e), d)
    decreases |c|
  {
    if c[0] == e {
      d := c;
    } else {
      d := ChainFrom(next, next[c[0]], c[1..], e);
    }
  }

  /** `d` is the way before a walking thread. */
  ghost predicate OnItsWay(next: map<Entry, Ptr>, l: Local, d: seq<Entry>) {
    l.Walk? ==> Chain(next, At(l.end), d)
  }

  /** The rest of the chain that a walking thread has before it. */
  lemma WayOf(s: State, g: Layout, t: nat) returns (d: seq<Entry>)
    requires Located(s, g) && t < |s.threads|
    ensures OnItsWay(s.pool.next, s.threads[t], d)
  {
    d := [];
    if s.threads[t].Walk? {
      d := ChainFrom(s.pool.next, At(s.threads[t].chain), g.holds[t].chain, s.threads[t].end);
    }
  }

  lemma WayLeft(s: State, g: Layout, t: nat) returns (d: seq<Entry>)
    requires Closing(s, g) && t < |s.threads|
    ensures OnItsWay(s.pool.next, s.threads[t], d)
  {
    hide Located;
    d := WayOf(s, g, t);
  }

  /** A step brings a thread nearer to its end, or along its way. */
  ghost predicate Closer(p: Pool, l: Local, d: seq<Entry>, p': Pool, l': Local, d': seq<Entry>) {
    || Phase(p', l') < Phase(p, l)
    || (Phase(p', l') == Phase(p, l) && Stage(p', l') < Stage(p, l))
    || (Phase(p', l') == Phase(p, l) && Stage(p', l') == Stage(p, l) && |d'| < |d|)
  }

  /** The thread looks for a list to take, or for the right to create a buffer. */
  predicate Looking(l: Local) {
    l.ReadCount? || l.ReadAllocated? || ((l.ReadHead? || l.CasTake?) && !l.take.Append?)
  }

  /** Every step of a thread that runs alone brings it nearer to its end, provided that it does not
      spin on an empty list. */
  lemma RunCloser(p: Pool, l: Local, ok: bool, d: seq<Entry>, way: seq<Entry>) returns (d': seq<Entry>)
    requires !l.Idle? && OnItsWay(p.next, l, d)
    requires l.FreeEntries? && p.head.At? ==> p.head.entry in p.next
    requires Looking(l) && p.head == Null ==> p.refcount > p.nbAllocated
    requires !l.Walk? ==> OnItsWay(Run(p, l, ok).0.next, Run(p, l, ok).1, way)
    ensures var (p', l') := Run(p, l, ok);
            OnItsWay(p'.next, l', d') && (l'.Idle? || Closer(p, l, d, p', l', d'))
  {
    d' := way;
    if l.FreeEntries? && p.head.At? {
      assert (p.next - {p.head.entry}).Keys == p.next.Keys - {p.head.entry};
    } else if l.Walk? {
      d' := d[1..];
    }
  }

  lemma RunEnding(p: Pool, l: Local)
    requires Ending(l)
    ensures var (p', l') := Run(p, l, true); p'.users == p.users && (l'.Idle? || Ending(l'))
  {
  }

  lemma Covered(l: Local)
    requires Ending(l)
    ensures !Uncovered(l) && !l.Idle? && !Looking(l)
  {
  }

  lemma EndingStep(s: State, g: Layout, t: nat, d: seq<Entry>) returns (m: State, h: Layout, d': seq<Entry>)
    requires Closing(s, g) && t < |s.threads| && Ending(s.threads[t]) && OnItsWay(s.pool.next, s.threads[t], d)
    ensures Closing(m, h) && Step(s, m) && |m.threads| == |s.threads|
    ensures m.threads == s.threads[t := m.threads[t]] && m.pool.users == s.pool.users
    ensures OnItsWay(m.pool.next, m.threads[t], d')
    ensures m.threads[t].Idle? || (Ending(m.threads[t])
              && Closer(s.pool, s.threads[t], d, m.pool, m.threads[t], d'))
  {
    PointersAreLive(s, g, t);
    hide Located, Counts, Closer, Uncovered;
    Covered(s.threads[t]);
    m, h := StepClosing(s, g, t, Continue(true));
    var way := WayLeft(m, h, t);
    RunEnding(s.pool, s.threads[t]);
    d' := RunCloser(s.pool, s.threads[t], true, d, way);
  }

  /** An ending thread that runs alone ends. */
  lemma {:induction false} Finish(s: State, g: Layout, t: nat, d: seq<Entry>) returns (s': State, g': Layout, n: nat)
    requires Closing(s, g) && t < |s.threads| && Ending(s.threads[t]) && OnItsWay(s.pool.next, s.threads[t], d)
    ensures Closing(s', g') && Leads(s, s', n)
    ensures s'.threads == s.threads[t := Idle] && s'.pool.users == s.pool.users
    decreases Phase(s.pool, s.threads[t]), Stage(s.pool, s.threads[t]), |d|
  {
    hide Closing, Leads, Step, Ending, OnItsWay, Phase, Stage;
    var m, h, way := EndingStep(s, g, t, d);
    if m.threads[t].Idle? {
      s', g', n := m, h, 0;
    } else {
      s', g', n := Finish(m, h, t, way);
    }
    n := LeadsFirst(s, m, s', n);
  }

  // ----- a thread that runs alone -----

  /** n steps of thread t alone, as far as it has them; `ok` is the outcome of an allocation. */
  function Solo(s: State, t: nat, ok: bool, n: nat): State
    requires t < |s.threads|
    decreases n
  {
    if n == 0 || s.threads[t].Idle? then s else Solo(Apply(s, t, Continue(ok)), t, ok, n - 1)
  }

  ghost predicate Alone(s: State, t: nat) {
    t < |s.threads| && forall u | 0 <= u < |s.threads| && u != t :: s.threads[u].Idle?
  }

  ghost function Below(n: nat): (r: set<Entry>)
    ensures |r| == n && forall e :: e in r <==> 0 <= e < n
  {
    if n == 0 then {} else Below(n - 1) + {n - 1}
  }

  lemma RangeSize(keys: set<Entry>, n: nat)
    requires forall e :: e in keys <==> 0 <= e < n
    ensures |keys| == n
  {
    assert keys <= Below(n) && Below(n) <= keys;
    assert keys == Below(n);
  }

  /** While nothing is on the shared list or in other hands, all live entries are with the users. */
  lemma AllWithUsers(s: State, g: Layout, t: nat)
    requires Located(s, g) && Alone(s, t) && Looking(s.threads[t]) && s.pool.head == Null
    ensures forall e :: e in s.pool.users <==> e in s.pool.next
  {
    ChainMembers(s.pool.next, s.pool.head, g.list);
    forall e | e in g.place
      ensures g.place[e] == WithUsers
    {
      assert e !in g.list;
      if g.place[e].Of? {
        var u := g.place[e].thread;
        MineOf(s, g, u);
        assert false;
      }
    }
  }

  /** So a get that finds the list empty does not wait for another thread: it may create a buffer. */
  lemma NoSpin(s: State, g: Layout, t: nat)
    requires Inv(s, g) && Alone(s, t) && Looking(s.threads[t])
    ensures s.pool.head == Null ==> s.pool.refcount > s.pool.nbAllocated
  {
    TotalZero(s.threads, Counted);
    TotalZero(s.threads, Creating);
    if s.pool.head == Null {
      AllWithUsers(s, g, t);
      hide Located;
      RangeSize(s.pool.users.Keys, s.pool.created);
    }
  }

  lemma SoloStep(s: State, g: Layout, t: nat, ok: bool, d: seq<Entry>) returns (m: State, h: Layout, d': seq<Entry>)
    requires Inv(s, g) && Alone(s, t) && !s.threads[t].Idle? && OnItsWay(s.pool.next, s.threads[t], d)
    ensures Inv(m, h) && m == Apply(s, t, Continue(ok)) && Alone(m, t) && m.threads == s.threads[t := m.threads[t]]
    ensures OnItsWay(m.pool.next, m.threads[t], d')
    ensures m.threads[t].Idle? || Closer(s.pool, s.threads[t], d, m.pool, m.threads[t], d')
  {
    m := Apply(s, t, Continue(ok));
    h := StepKeepsInv(s, g, t, Continue(ok));
    var way := WayOf(m, h, t);
    if Looking(s.threads[t]) {
      NoSpin(s, g, t);
    }
    PointersAreLive(s, g, t);
    hide Inv, Closer;
    d' := RunCloser(s.pool, s.threads[t], ok, d, way);
  }

  lemma {:induction false} FinishSolo(s: State, g: Layout, t: nat, ok: bool, d: seq<Entry>) returns (n: nat)
    requires Inv(s, g) && Alone(s, t) && t < |s.threads| && OnItsWay(s.pool.next, s.threads[t], d)
    ensures Solo(s, t, ok, n).threads == s.threads[t := Idle]
    decreases Phase(s.pool, s.threads[t]), Stage(s.pool, s.threads[t]), |d|
  {
    hide Inv, Apply, OnItsWay, Phase, Stage, Alone;
    if s.threads[t].Idle? {
      n := 0;
    } else {
      var m, h, way := SoloStep(s, g, t, ok, d);
      n := 0;
      if !m.threads[t].Idle? {
        n := FinishSolo(m, h, t, ok, way);
      }
      n := n + 1;
    }
  }

  /** A thread that runs while all others are idle comes to the end of its operation, with or without
      memory and wherever it stands: a get does not spin for ever. */
  lemma SoloReturns(s: State, t: nat, ok: bool) returns (n: nat)
    requires Reachable(s) && Alone(s, t)
    ensures Solo(s, t, ok, n).threads == s.threads[t := Idle]
  {
    hide Solo;
    var g := ReachableInv(s);
    var way := WayOf(s, g, t);
    n := FinishSolo(s, g, t, ok, way);
  }

  /** The pool without its list. */
  function Emptied(p: Pool): Pool {
    p.(head := Null)
  }

  /** The pool without its first entry. */
  function Taken(p: Pool, e: Entry): Pool
    requires e in p.next
  {
    p.(head := p.next[e], next := p.next[e := Null])
  }

  function Created(p: Pool): Pool {
    p.(next := p.next[p.created := Null], created := p.created + 1)
  }

  /** What a lone get leaves behind. */
  function GetResult(p: Pool, ok: bool): Pool
    requires p.head.At? ==> p.head.entry in p.next
  {
    if !ok then p
    else
      match p.head
      case At(e) => var q := Taken(p, e); q.(refcount := p.refcount + 1, users := p.users[e := 1])
      case Null =>
        var q := Created(p);
        q.(refcount := p.refcount + 1, nbAllocated := p.nbAllocated + 1, users := p.users[p.created := 1])
  }

  /** The pool `p` under a lone get at `l` that found it as `was`. */
  ghost predicate GetAt(was: Pool, ok: bool, p: Pool, l: Local)
    requires was.head.At? ==> was.head.entry in was.next
  {
    match l
    case Idle => p == GetResult(was, ok)
    case CountUp(buf) => ok && was.head == Null && buf == was.created && p == Created(was)
    case AllocatedUp(buf) =>
      ok && was.head == Null && buf == was.created && p == Created(was).(refcount := was.refcount + 1)
    case Split(buf) => was.head == At(buf) && p == Emptied(was)
    case Detach(buf) => was.head == At(buf) && p == was.(head := was.next[buf])
    case Wrap(buf) => was.head == At(buf) && p == Taken(was, buf)
    case HandOut(buf) => ok && was.head == At(buf) && p == Taken(was, buf)
    case Walk(chain, end, after) => PuttingBack(was, ok, p, chain, end, after)
    case CasInstall(chain, end, after) => PuttingBack(was, ok, p, chain, end, after)
    case Link(chain, end, rest, after) =>
      !ok && after == ThenFail && chain == end && was.head == At(chain) && rest == was.next[chain]
      && p == Emptied(Taken(was, chain))
    case ReadHead(take) => Trying(was, ok, p, take) && (take.Append? ==> was.next[take.chain] != Null)
    case CasTake(take, last) => Trying(was, ok, p, take) && p.head == At(last)
    case CountDown => false
    case FreeEntries => false
    case _ => p == was && was.head == Null
  }

  ghost predicate Trying(was: Pool, ok: bool, p: Pool, take: AfterTake)
    requires was.head.At? ==> was.head.entry in was.next
  {
    match take
    case Append(chain, end, after) =>
      !ok && after == ThenFail && chain == end && was.head == At(chain) && p == Taken(was, chain)
    case _ => p == was
  }

  /** First the rest of the list goes back, and without memory the kept entry too. */
  ghost predicate PuttingBack(was: Pool, ok: bool, p: Pool, chain: Entry, end: Entry, after: AfterAdd)
    requires was.head.At? ==> was.head.entry in was.next
  {
    match after
    case ThenKeep(e) => was.head == At(e) && was.next[e] == At(chain) && p == Emptied(was)
    case ThenFail =>
      && !ok && was.head == At(chain)
      && (p == Emptied(was) || (chain == end && p == Taken(was, chain)))
    case ThenRelease => false
  }

  lemma TravelStep(was: Pool, ok: bool, p: Pool, l: Local)
    requires was.head.At? ==> was.head.entry in was.next
    requires GetAt(was, ok, p, l) && (l.ReadHead? || l.CasTake? || l.Walk? || l.CasInstall? || l.Link?)
    ensures GetAt(was, ok, Run(p, l, ok).0, Run(p, l, ok).1)
  {
    hide CreateBuffer, ReuseBuffer, DropReference, PoolFree;
    if was.head.At? {
      var e := was.head.entry;
      assert was.next[e := Null][e := was.next[e]] == was.next;
      assert was.next[e] == Null ==> was.next[e := Null] == was.next;
    }
  }

  lemma GetStep(was: Pool, ok: bool, p: Pool, l: Local)
    requires was.head.At? ==> was.head.entry in was.next
    requires GetAt(was, ok, p, l) && !l.Idle?
    ensures GetAt(was, ok, Run(p, l, ok).0, Run(p, l, ok).1)
  {
    hide GetPool, AddToPool;
    if l.ReadHead? || l.CasTake? || l.Walk? || l.CasInstall? || l.Link? {
      hide Run, GetAt;
      TravelStep(was, ok, p, l);
    }
  }

  lemma {:induction false} GetSteps(was: Pool, s: State, t: nat, ok: bool, n: nat)
    requires was.head.At? ==> was.head.entry in was.next
    requires t < |s.threads| && GetAt(was, ok, s.pool, s.threads[t])
    ensures var s' := Solo(s, t, ok, n); t < |s'.threads| && GetAt(was, ok, s'.pool, s'.threads[t])
    decreases n
  {
    if n > 0 && !s.threads[t].Idle? {
      GetStep(was, ok, s.pool, s.threads[t]);
      hide GetAt, Run;
      GetSteps(was, Apply(s, t, Continue(ok)), t, ok, n - 1);
    }
  }

  /** The shared list, its first entry and the entry that would be created next. */
  lemma ListOf(s: State, c: seq<Entry>)
    requires Reachable(s) && Chain(s.pool.next, s.pool.head, c)
    ensures NoDup(c) && s.pool.created !in s.pool.next
    ensures forall e | e in s.pool.users :: e in s.pool.next && s.pool.next[e] == Null && s.pool.users[e] > 0
    ensures forall e | e in c :: e in s.pool.next && e !in s.pool.users
  {
    var g := ReachableInv(s);
    ChainUnique(s.pool.next, s.pool.head, c, g.list);
    ChainMembers(s.pool.next, s.pool.head, c);
  }

  /** A get that runs alone to its end. With memory it hands out one buffer with one reference: the
      first entry of the list if there is one, and otherwise a new one; the rest of the list stays.
      Without memory it leaves the pool as it was. */
  lemma GetYields(s: State, t: nat, ok: bool, c: seq<Entry>) returns (n: nat)
    requires Reachable(s) && Possible(s, t, CallGet) && Alone(s, t) && Chain(s.pool.next, s.pool.head, c)
    ensures var s' := Solo(Apply(s, t, CallGet), t, ok, n); var p, p' := s.pool, s'.pool;
            && s'.threads == s.threads
            && (!ok ==> p' == p)
            && (ok ==>
                  var e := if c != [] then c[0] else p.created;
                  && e !in p.users && p'.users == p.users[e := 1] && p'.refcount == p.refcount + 1
                  && p'.created == p.created + (if c != [] then 0 else 1)
                  && p'.nbAllocated == p.nbAllocated + (if c != [] then 0 else 1)
                  && Chain(p'.next, p'.head, if c != [] then c[1..] else [])
                  && p'.next.Keys == p.next.Keys + {e}
                  && p'.owner && p'.freed == p.freed && p'.poolFrees == p.poolFrees)
  {
    var p, m := s.pool, Apply(s, t, CallGet);
    ListOf(s, c);
    n := CallReturns(s, t, CallGet, ok);
    GetSteps(p, m, t, ok, n);
    hide Solo, Apply;
    var p' := GetResult(p, ok);
    if ok && c != [] {
      assert forall e | e in c[1..] :: e in c && e != c[0];
      ChainFrame(p.next, p'.next, p.next[c[0]], c[1..]);
    }
  }

  lemma CallReturns(s: State, t: nat, a: Action, ok: bool) returns (n: nat)
    requires Reachable(s) && Enabled(s, t, a) && Alone(s, t) && !a.Continue?
    ensures var s' := Solo(Apply(s, t, a), t, ok, n); s'.threads == s.threads
  {
    var m := Apply(s, t, a);
    StepReachable(s, m);
    n := SoloReturns(m, t, ok);
    assert s.threads[t := m.threads[t]][t := Idle] == s.threads;
  }

  /** The pool with an entry put before its list. */
  function Returned(p: Pool, e: Entry): Pool {
    p.(head := At(e), next := p.next[e := p.head])
  }

  /** The pool `p` under a lone release of e at `l` that found it as `was`, with the list `c`. */
  ghost predicate ReleaseAt(was: Pool, e: Entry, c: seq<Entry>, p: Pool, l: Local) {
    match l
    case Walk(chain, end, after) => chain == e && after == ThenRelease && Linking(was, e, p, end)
    case CasInstall(chain, end, after) => chain == e && after == ThenRelease && Linking(was, e, p, end)
    case ReadHead(take) => take == Append(e, e, ThenRelease) && p == was && was.head != Null
    case CasTake(take, last) => take == Append(e, e, ThenRelease) && p == was && was.head == At(last)
    case Link(chain, end, rest, after) =>
      chain == end == e && after == ThenRelease && rest == was.head && p == Emptied(was)
    case CountDown => p == Returned(was, e)
    case FreeEntries => was.refcount == 1 && p.users == was.users && p.poolFrees == was.poolFrees
                        && exists d :: Chain(p.next, p.head, d) && NoDup(d) && p.freed + d == was.freed + ([e] + c)
    case Idle =>
      if was.refcount == 1 then
        && p.head == Null && p.users == was.users && p.poolFrees == was.poolFrees + 1
        && p.freed == was.freed + ([e] + c)
      else p == Returned(was, e).(refcount := was.refcount - 1)
    case _ => false
  }

  /** The entry alone, or with the list behind it. */
  predicate Linking(was: Pool, e: Entry, p: Pool, end: Entry) {
    || (end == e && p == was)
    || p == Emptied(Returned(was, e))
  }

  lemma ConsNoDup(e: Entry, c: seq<Entry>)
    requires NoDup(c) && e !in c
    ensures NoDup([e] + c)
  {
  }

  lemma ReturnedList(p: Pool, e: Entry, c: seq<Entry>)
    requires Chain(p.next, p.head, c) && e !in c
    ensures Chain(Returned(p, e).next, Returned(p, e).head, [e] + c)
  {
    ChainMembers(p.next, p.head, c);
    ChainFrame(p.next, Returned(p, e).next, p.head, c);
    assert ([e] + c)[1..] == c;
  }

  /** While a buffer is in use, nothing has been freed. */
  lemma LastUser(s: State, e: Entry)
    requires Reachable(s) && e in s.pool.users
    ensures s.pool.refcount >= 1 && s.pool.freed == []
  {
    var g := ReachableInv(s);
    assert s.pool.users.Keys != {};
  }

  lemma ReleaseStep(was: Pool, e: Entry, c: seq<Entry>, p: Pool, l: Local, ok: bool)
    requires e in was.next && was.next[e] == Null && Chain(was.next, was.head, c) && NoDup(c) && e !in c
    requires ReleaseAt(was, e, c, p, l) && !l.Idle?
    ensures ReleaseAt(was, e, c, Run(p, l, ok).0, Run(p, l, ok).1)
  {
    if l.FreeEntries? {
      var d :| Chain(p.next, p.head, d) && NoDup(d) && p.freed + d == was.freed + ([e] + c);
      FreeStep(p, d, was.freed + ([e] + c));
    } else if l.CountDown? {
      ReturnedList(was, e, c);
      ConsNoDup(e, c);
    } else if was.head == Null {
      assert was.next[e := Null] == was.next;
    }
  }

  /** One round of the freeing loop. */
  lemma FreeStep(p: Pool, d: seq<Entry>, all: seq<Entry>)
    requires Chain(p.next, p.head, d) && NoDup(d) && p.freed + d == all
    ensures var p' := PoolFree(p).0;
            if p.head == Null then p'.freed == all
            else Chain(p'.next, p'.head, d[1..]) && NoDup(d[1..]) && p'.freed + d[1..] == all
  {
    if p.head.At? {
      ChainMembers(p.next, p.head, d);
      var p' := PoolFree(p).0;
      assert forall e | e in d[1..] :: e in d && e != d[0];
      ChainFrame(p.next, p'.next, p.next[d[0]], d[1..]);
      assert d == [d[0]] + d[1..];
    }
  }

  lemma {:induction false} ReleaseSteps(was: Pool, e: Entry, c: seq<Entry>, s: State, t: nat, ok: bool, n: nat)
    requires e in was.next && was.next[e] == Null && Chain(was.next, was.head, c) && NoDup(c) && e !in c
    requires t < |s.threads| && ReleaseAt(was, e, c, s.pool, s.threads[t])
    ensures var s' := Solo(s, t, ok, n); t < |s'.threads| && ReleaseAt(was, e, c, s'.pool, s'.threads[t])
    decreases n
  {
    if n > 0 && !s.threads[t].Idle? {
      ReleaseStep(was, e, c, s.pool, s.threads[t], ok);
      hide ReleaseAt, Run;
      ReleaseSteps(was, e, c, Apply(s, t, Continue(ok)), t, ok, n - 1);
    }
  }

  /** A release that runs alone to its end. The last reference puts the entry before the list, which
      stays behind it in its order; the last count frees all of the list instead, in that order. */
  lemma ReleaseYields(s: State, t: nat, e: Entry, c: seq<Entry>) returns (n: nat)
    requires Reachable(s) && Possible(s, t, CallUnref(e)) && Alone(s, t) && Chain(s.pool.next, s.pool.head, c)
    ensures var s' := Solo(Apply(s, t, CallUnref(e)), t, true, n); var p, p' := s.pool, s'.pool;
            && s'.threads == s.threads
            && (p.users[e] > 1 ==> p' == p.(users := p.users[e := p.users[e] - 1]))
            && (p.users[e] == 1 ==> p'.users == p.users - {e})
            && (p.users[e] == 1 && p.refcount > 1 ==>
                  Chain(p'.next, p'.head, [e] + c)
                  && p' == p.(head := At(e), next := p'.next, refcount := p.refcount - 1, users := p.users - {e}))
            && (p.users[e] == 1 && p.refcount == 1 ==>
                  p'.head == Null && p'.freed == [e] + c && p'.poolFrees == p.poolFrees + 1)
  {
    var p, m := s.pool, Apply(s, t, CallUnref(e));
    ListOf(s, c);
    n := CallReturns(s, t, CallUnref(e), true);
    if p.users[e] == 1 {
      var was := p.(users := p.users - {e});
      LastUser(s, e);
      ReleaseSteps(was, e, c, m, t, true, n);
      hide Solo, Apply;
      ReturnedList(p, e, c);
    }
  }

  /** A copied reference can be dropped again, and the buffer stays with its users. */
  lemma CopyDropped(p: Pool, e: Entry)
    requires e in p.users && p.users[e] > 0
    ensures var (q, _) := Call(p, CallRef(e, true)); Call(q, CallUnref(e)) == (p, Idle)
    ensures Call(p, CallRef(e, false)) == (p, Idle)
  {
    var q := Call(p, CallRef(e, true)).0;
    assert q.users[e := p.users[e]] == p.users;
  }

  // ----- spinning keeps the number of buffers down -----

  /** 1 for a thread that has passed the comparison of the counts and not yet counted its buffer. */
  function Pending(l: Local): nat {
    if l.Allocate? || l.CountUp? || l.AllocatedUp? then 1 else 0
  }

  /** The highest count of references in a run. */
  function Peak(run: seq<State>): int
    requires run != []
  {
    var n := run[|run| - 1].pool.refcount;
    if |run| == 1 || Peak(run[..|run| - 1]) <= n then n else Peak(run[..|run| - 1])
  }

  lemma {:induction false} TotalBelow(threads: seq<Local>)
    ensures Total(threads, Creating) <= Total(threads, Pending) <= |threads|
  {
    if threads != [] {
      TotalBelow(threads[1..]);
    }
  }

  /** No count that a thread has read was above the peak, and no more buffers are allowed than that and
      one for each other thread. */
  ghost predicate Bounded(s: State, peak: int) {
    && (forall t | 0 <= t < |s.threads| && s.threads[t].ReadAllocated? :: s.threads[t].count <= peak)
    && s.pool.nbAllocated + Total(s.threads, Pending) <= peak + |s.threads| - 1
  }

  lemma PendingStep(p: Pool, l: Local, ok: bool)
    ensures var (p', l') := Run(p, l, ok);
            && (l'.ReadAllocated? ==> l'.count == p.refcount)
            && (p'.nbAllocated + Pending(l') <= p.nbAllocated + Pending(l)
                || (l.ReadAllocated? && l.count > p.nbAllocated == p'.nbAllocated))
  {
  }

  lemma StepBounded(s: State, t: nat, a: Action, peak: int)
    requires Possible(s, t, a) && Bounded(s, peak) && s.pool.refcount <= peak
    ensures Bounded(Apply(s, t, a), peak)
  {
    var l := Apply(s, t, a).threads[t];
    TotalUpdate(s.threads, Pending, t, l);
    TotalBelow(s.threads[t := l]);
    if a.Continue? {
      PendingStep(s.pool, s.threads[t], a.ok);
    }
    hide Run, Total;
  }

  lemma {:induction false} RunBounded(run: seq<State>)
    requires Behaviour(run)
    ensures Bounded(run[|run| - 1], Peak(run)) && run[|run| - 1].pool.refcount <= Peak(run)
    decreases |run|
  {
    var s' := run[|run| - 1];
    if |run| == 1 {
      TotalZero(s'.threads, Pending);
    } else {
      var before := run[..|run| - 1];
      var s := before[|before| - 1];
      RunBounded(before);
      assert Step(run[|run| - 1 - 1], run[|run| - 1]);
      var t, a :| Enabled(s, t, a) && s' == Apply(s, t, a);
      hide Apply;
      StepBounded(s, t, a, Peak(before));
    }
  }

  /** The race that the code detects does not lead to too many buffers: in every run there are never
      more of them than the highest count of references so far and one for each other thread. */
  lemma NoOverallocation(run: seq<State>)
    requires Behaviour(run)
    ensures var s := run[|run| - 1]; s.pool.created <= Peak(run) + |s.threads| - 1
  {
    var g := BehaviourInv(run);
    RunBounded(run);
    TotalBelow(run[|run| - 1].threads);
    hide Total, Peak, Behaviour, Located;
  }

  // ----- when uninit is fatal -----

  /** A user drops a reference; the last one starts the return of the buffer. */
  lemma DropOne(s: State, g: Layout, t: nat, e: Entry) returns (m: State, h: Layout)
    requires Closing(s, g) && t < |s.threads| && s.threads[t].Idle? && e in s.pool.users
    ensures Closing(m, h) && Step(s, m)
    ensures s.pool.users[e] > 1 ==>
              m.threads == s.threads && m.pool.users == s.pool.users[e := s.pool.users[e] - 1]
    ensures s.pool.users[e] <= 1 ==>
              m.threads == s.threads[t := Walk(e, e, ThenRelease)] && m.pool.users == s.pool.users - {e}
  {
    hide Closing, Step;
    m, h := StepClosing(s, g, t, CallUnref(e));
  }

  /** A user drops all references to a buffer, and the buffer goes back to the pool. */
  lemma {:induction false} GiveBack(s: State, g: Layout, t: nat, e: Entry) returns (s': State, g': Layout, n: nat)
    requires Closing(s, g) && t < |s.threads| && s.threads[t].Idle? && e in s.pool.users
    ensures Closing(s', g') && Leads(s, s', n)
    ensures s'.threads == s.threads && s'.pool.users == s.pool.users - {e}
    decreases s.pool.users[e]
  {
    hide Closing, Leads, Step, Chain;
    var m, h := DropOne(s, g, t, e);
    if s.pool.users[e] > 1 {
      s', g', n := GiveBack(m, h, t, e);
      assert m.pool.users - {e} == s.pool.users - {e};
    } else {
      var way := WayLeft(m, h, t);
      s', g', n := Finish(m, h, t, way);
    }
    n := LeadsFirst(s, m, s', n);
  }

  /** Some weight is positive when the total is. */
  lemma {:induction false} Heavy(threads: seq<Local>, weight: Local -> nat) returns (v: nat)
    requires Total(threads, weight) > 0
    ensures v < |threads| && weight(threads[v]) > 0
  {
    if weight(threads[0]) > 0 {
      v := 0;
    } else {
      v := Heavy(threads[1..], weight);
      v := v + 1;
    }
  }

  /** The order in which the pool is drained: by count, then by entries being created, then by the
      thread that frees. */
  ghost predicate Nearer(m: State, s: State) {
    || m.pool.refcount < s.pool.refcount
    || (m.pool.refcount == s.pool.refcount && Total(m.threads, Creating) < Total(s.threads, Creating))
    || (m.pool.refcount == s.pool.refcount && Total(m.threads, Creating) == Total(s.threads, Creating)
        && Total(m.threads, Freeing) < Total(s.threads, Freeing))
  }

  /** The gets that the count does not cover stay where they are, and there are no new ones. */
  ghost predicate GetsStay(s: State, m: State) {
    && |m.threads| == |s.threads|
    && forall u | 0 <= u < |s.threads| && (Uncovered(s.threads[u]) || Uncovered(m.threads[u])) ::
         m.threads[u] == s.threads[u]
  }

  lemma DrainEnding(s: State, g: Layout, v: nat) returns (m: State, h: Layout, k: nat)
    requires Closing(s, g) && v < |s.threads| && Ending(s.threads[v])
    ensures Closing(m, h) && Leads(s, m, k) && GetsStay(s, m) && Nearer(m, s)
  {
    hide Located, Leads, Total;
    var way := WayLeft(s, g, v);
    m, h, k := Finish(s, g, v, way);
    TotalsUpdate(s.threads, v, Idle);
  }

  lemma DrainCreated(s: State, g: Layout, v: nat) returns (m: State, h: Layout)
    requires Closing(s, g) && v < |s.threads| && s.threads[v].AllocatedUp?
    ensures Closing(m, h) && Step(s, m) && GetsStay(s, m) && Nearer(m, s)
  {
    hide Located, Total;
    m, h := StepClosing(s, g, v, Continue(true));
    TotalsUpdate(s.threads, v, Idle);
  }

  lemma SomeKey<K>(m: map<K, int>) returns (k: K)
    requires |m| > 0
    ensures k in m
  {
    assert |m.Keys| > 0;
    k :| k in m.Keys;
  }

  lemma DrainUser(s: State, g: Layout, t: nat) returns (m: State, h: Layout, k: nat)
    requires Closing(s, g) && t < |s.threads| && s.threads[t].Idle? && |s.pool.users| > 0
    ensures Closing(m, h) && Leads(s, m, k) && GetsStay(s, m) && Nearer(m, s)
  {
    hide Located, Leads, Total;
    var e := SomeKey(s.pool.users);
    m, h, k := GiveBack(s, g, t, e);
    assert (s.pool.users - {e}).Keys == s.pool.users.Keys - {e};
  }

  /** Until the pool is freed, something keeps its count up, or a thread is freeing it. */
  lemma SomeoneLeft(s: State, g: Layout, t: nat)
    requires Closing(s, g) && t < |s.threads| && !Uncovered(s.threads[t]) && s.pool.poolFrees <= 0
    ensures s.pool.refcount >= 0
    ensures Total(s.threads, Freeing) == 0 && Total(s.threads, Counted) == 0 ==>
              s.threads[t].Idle? && |s.pool.users| > 0
  {
    hide Located, Total;
    InUse(s, t);
    TotalsUpdate(s.threads, t, s.threads[t]);
  }

  lemma DrainOne(s: State, g: Layout, t: nat) returns (m: State, h: Layout, k: nat)
    requires Closing(s, g) && t < |s.threads| && !Uncovered(s.threads[t]) && s.pool.poolFrees <= 0
    ensures Closing(m, h) && Leads(s, m, k) && GetsStay(s, m)
    ensures s.pool.refcount >= 0 && Nearer(m, s)
  {
    SomeoneLeft(s, g, t);
    hide Closing, Leads, Total, GetsStay, Nearer, Uncovered;
    if Total(s.threads, Freeing) > 0 {
      var v := Heavy(s.threads, Freeing);
      m, h, k := DrainEnding(s, g, v);
    } else if Total(s.threads, Counted) > 0 {
      var v := Heavy(s.threads, Counted);
      if s.threads[v].AllocatedUp? {
        m, h := DrainCreated(s, g, v);
        k := LeadsFirst(s, m, m, 0);
      } else {
        m, h, k := DrainEnding(s, g, v);
      }
    } else {
      m, h, k := DrainUser(s, g, t);
    }
  }

  /** The other threads can go on until the pool is freed, whatever the gets are about to do. */
  lemma {:induction false} Drain(s: State, g: Layout, t: nat) returns (s': State, n: nat)
    requires Closing(s, g) && t < |s.threads| && !Uncovered(s.threads[t])
    ensures Leads(s, s', n) && s'.pool.poolFrees > 0 && GetsStay(s, s')
    decreases s.pool.refcount, Total(s.threads, Creating), Total(s.threads, Freeing)
  {
    hide Closing, Total, Uncovered;
    if s.pool.poolFrees > 0 {
      s', n := s, 0;
    } else {
      var m, h, k := DrainOne(s, g, t);
      s', n := Drain(m, h, t);
      LeadsOn(s, m, s', k, n);
      n := k + n;
    }
  }

  /** The pool has been freed while a thread is inside a call that uses it. */
  ghost predicate FreedInUse(s: State) {
    s.pool.poolFrees > 0 && exists u | 0 <= u < |s.threads| :: !s.threads[u].Idle?
  }

  lemma UninitCloses(s: State, t: nat) returns (g: Layout)
    requires Reachable(s) && Possible(s, t, CallUninit)
    ensures var m := Apply(s, t, CallUninit);
            Closing(m, g) && !Uncovered(m.threads[t]) && GetsStay(s, m)
  {
    hide Located, Total, Reachable;
    g := ReachableInv(s);
    CallKeepsCounts(s, t, CallUninit);
    g := StepKeepsPlaces(s, g, t, CallUninit);
  }

  lemma UncoveredIsFatal(s: State, t: nat, u: nat) returns (s': State, n: nat)
    requires Reachable(s) && Possible(s, t, CallUninit) && u < |s.threads| && Uncovered(s.threads[u])
    ensures Leads(Apply(s, t, CallUninit), s', n) && FreedInUse(s')
  {
    hide Closing, Leads, Reachable, Apply;
    var g := UninitCloses(s, t);
    var m := Apply(s, t, CallUninit);
    s', n := Drain(m, g, t);
    assert m.threads[u] == s.threads[u] && s'.threads[u] == m.threads[u];
    assert !s'.threads[u].Idle?;
  }

  /** Exactly when uninit may be called: the pool can be freed under a running call if and only if
      uninit did not wait for some get that the count does not cover. */
  lemma UninitDuringGet(s: State, t: nat)
    requires Reachable(s) && Possible(s, t, CallUninit)
    ensures (exists s', n: nat :: Leads(Apply(s, t, CallUninit), s', n) && FreedInUse(s'))
       <==> (exists u :: 0 <= u < |s.threads| && Uncovered(s.threads[u]))
  {
    var closing := Apply(s, t, CallUninit);
    if u :| 0 <= u < |s.threads| && Uncovered(s.threads[u]) {
      var s', n := UncoveredIsFatal(s, t, u);
      assert Leads(closing, s', n) && FreedInUse(s');
    } else {
      assert Enabled(s, t, CallUninit);
      StepReachable(s, closing);
      forall s', n: nat | Leads(closing, s', n)
        ensures !FreedInUse(s')
      {
        LeadsReachable(closing, s', n);
        forall u | 0 <= u < |s'.threads| && !s'.threads[u].Idle?
          ensures s'.pool.poolFrees == 0
        {
          NoUseAfterFree(s', u);
        }
      }
    }
  }

  /** A state in which uninit is fatal: thread 0 has just called get. */
  lemma FatalUninit() returns (s: State)
    ensures Reachable(s) && Possible(s, 1, CallUninit) && 0 < |s.threads| && Uncovered(s.threads[0])
  {
    var s0 := State(NEW_POOL, [Idle, Idle]);
    assert Init(s0);
    assert Behaviour([s0]) && [s0][|[s0]| - 1] == s0;
    s := Apply(s0, 0, CallGet);
    assert Enabled(s0, 0, CallGet);
    StepReachable(s0, s);
  }
}
