// The MCP client's cached handshake, interleaved at its await points
// (McpClient in src/hrmosaic/agent/client.py).
module Client {
  import opened Blocks

  // A task is a position in the list of tasks; a handshake is numbered in the order it began.
  type TaskId = nat
  type Handshake = nat

  // The fields the tasks share. `catalog` and `connection` name the handshake they came from,
  // `ended` the connections that no longer carry a session.
  datatype Shared = Shared(
    catalog: Option<Handshake>,
    connection: Option<Handshake>,
    lock: Option<TaskId>,
    begun: nat,
    ended: set<Handshake>)

  // ----- what one task does between two awaits -----

  datatype Entrance = Cached(handshake: Handshake) | MustShake(handshake: Handshake)

  // discover, from the acquired lock to its release or to the first await of a handshake.
  function Entered(c: Shared, t: TaskId): (Shared, Entrance) {
    if c.catalog.Some? then (c, Cached(c.catalog.value))
    else (c.(lock := Some(t), begun := c.begun + 1), MustShake(c.begun))
  }

  // The tail of a handshake whose tools were listed: the connection is published before the
  // schemas are validated, the catalog after.
  function Published(c: Shared, h: Handshake, valid: bool): Shared {
    c.(connection := Some(h), catalog := if valid then Some(h) else c.catalog, lock := None)
  }

  // close(): the session is gone before the background task has unwound.
  function Closed(c: Shared, h: Handshake): Shared { c.(ended := c.ended + {h}) }

  function Released(c: Shared): Shared { c.(lock := None) }

  // reset, up to the await of the old connection's close.
  function WithoutHandshake(c: Shared): Shared {
    var cleared := c.(connection := None, catalog := None);
    if c.connection.Some? then Closed(cleared, c.connection.value) else cleared
  }

  // The test call_tool opens with.
  predicate NeedsDiscovery(c: Shared) {
    c.catalog.None? || c.connection.None? || c.connection.value in c.ended
  }

  class McpClient {
    var catalog: Option<Handshake>
    var connection: Option<Handshake>
    var lock: Option<TaskId>
    var begun: nat
    var ended: set<Handshake>

    function State(): Shared
      reads this
    {
      Shared(catalog, connection, lock, begun, ended)
    }

    // A catalog comes with the connection of its own handshake; while the lock is kept across a
    // handshake there is no catalog; a published handshake has begun.
    ghost predicate Valid()
      reads this
    {
      && (catalog.Some? ==> connection == catalog)
      && (lock.Some? ==> catalog.None? && begun > 0)
      && (connection.Some? ==> connection.value < begun)
    }

    // A call can go out: catalog and open session are those of the handshake h.
    ghost predicate Serves(h: Handshake)
      reads this
    {
      catalog == Some(h) && connection == Some(h) && h !in ended
    }

    constructor ()
      ensures Valid() && State() == Shared(None, None, None, 0, {})
    {
      catalog, connection, lock, begun, ended := None, None, None, 0, {};
    }

    // The caller either gets a catalog whose connection is the published one, and has touched
    // nothing, or holds the lock for a handshake nobody has seen.
    method Enter(t: TaskId) returns (entry: Entrance)
      requires Valid() && lock.None?
      modifies this
      ensures Valid() && (entry.Cached? <==> old(catalog).Some?)
      ensures entry.Cached? ==> State() == old(State()) && connection == catalog == Some(entry.handshake)
      ensures entry.MustShake? ==>
                && entry.handshake + 1 == begun && connection != Some(entry.handshake)
                && catalog.None? && lock == Some(t)
                && State() == old(State()).(lock := lock, begun := begun)
      ensures entry.MustShake? ==> old(begun) == entry.handshake
    {
      if catalog.Some? {
        return Cached(catalog.value);
      }
      lock := Some(t);
      entry := MustShake(begun);
      begun := begun + 1;
    }

    // Nothing of an earlier handshake is left: there is a catalog exactly when the schemas were
    // valid, and then a call can go out unless the session has ended meanwhile.
    method Publish(h: Handshake, valid: bool)
      requires Valid() && lock.Some? && h + 1 == begun
      modifies `connection, `catalog, `lock
      ensures Valid() && lock.None? && connection == Some(h)
      ensures catalog.Some? <==> valid
      ensures valid ==> catalog == Some(h) && (Serves(h) <==> h !in ended)
    {
      connection := Some(h);
      if valid {
        catalog := Some(h);
      }
      lock := None;
    }

    // No call goes out on a closed connection, and every other handshake serves as before.
    method Close(h: Handshake)
      requires Valid()
      modifies `ended
      ensures Valid() && !Serves(h) && ended == old(ended) + {h}
      ensures forall k :: k != h ==> Serves(k) == old(Serves(k))
    {
      ended := ended + {h};
    }

    method Release()
      requires Valid()
      modifies `lock
      ensures Valid() && lock.None? && forall k :: Serves(k) == old(Serves(k))
    {
      lock := None;
    }

    // Nothing is served any more, and the session that was published, if any, is closed.
    method Reset() returns (closing: Option<Handshake>)
      requires Valid()
      modifies `connection, `catalog, `ended
      ensures Valid() && connection.None? && catalog.None?
      ensures closing == old(connection)
      ensures ended == old(ended) + if closing.Some? then {closing.value} else {}
      ensures forall h :: !Serves(h)
    {
      closing, connection := connection, None;
      catalog := None;
      if closing.Some? {
        Close(closing.value);
      }
    }

    // A call re-discovers exactly when no handshake can serve it.
    method MustRediscover() returns (stale: bool)
      requires Valid()
      ensures stale <==> forall h :: !Serves(h)
    {
      stale := catalog.None? || connection.None? || connection.value in ended;
      assert !stale ==> Serves(catalog.value);
    }
  }

  // ----- where a task is suspended -----

  // What discover, or the reset in front of it, was called for.
  datatype Purpose = ForItself | ForCall

  datatype Place =
    | Resting
    | AwaitingLock(purpose: Purpose)
    | Opening(handshake: Handshake, purpose: Purpose)
    | Listing(handshake: Handshake, purpose: Purpose)
    | ClosingFailed(handshake: Handshake)
    | ClosingOld(purpose: Purpose)
    | Calling(catalog: Handshake, session: Handshake)
    | Discovered(catalog: Handshake, cached: bool)
    | Raised
  {
    predicate AtRest() { Resting? || Discovered? || Raised? }
    predicate Shaking() { Opening? || Listing? || ClosingFailed? }
  }

  datatype ListReply = ToolsListed(valid: bool) | ListFailed

  // One task resumes, or a server goes away.
  datatype Event =
    | StartDiscover(task: TaskId)
    | StartReset(task: TaskId)
    | StartCall(task: TaskId)
    | LockGranted(task: TaskId)
    | OpenAnswered(task: TaskId, ok: bool)
    | ListAnswered(task: TaskId, reply: ListReply)
    | CloseFinished(task: TaskId)
    | CallAnswered(task: TaskId)
    | Cancelled(task: TaskId)
    | SessionEnded(handshake: Handshake)

  // The shared fields, where every task is, and a record of what happened: handshakes that
  // completed, catalogs that were dropped, resets, schema validations that failed, handshakes that
  // were cancelled, and published connections that were overwritten.
  datatype World = World(
    client: Shared,
    tasks: seq<Place>,
    completed: nat,
    dropped: nat,
    resets: nat,
    malformed: set<Handshake>,
    cancelled: set<Handshake>,
    overwritten: set<Handshake>)

  function Start(n: nat): World {
    World(Shared(None, None, None, 0, {}), seq(n, i => Resting), 0, 0, 0, {}, {}, {})
  }

  // discover has returned to whoever called it: call_tool goes on, without an await, to read the
  // pair it will use.
  function Continued(c: Shared, purpose: Purpose, h: Handshake, cached: bool): Place {
    if purpose.ForItself? then Discovered(h, cached) else CallPlace(c)
  }

  // Where a call goes once the pair it read has been tested.
  function CallPlace(c: Shared): Place {
    if c.connection.None? || c.connection.value in c.ended || c.catalog.None? then Raised
    else Calling(c.catalog.value, c.connection.value)
  }

  function ResetStep(w: World, t: TaskId, purpose: Purpose): World
    requires t < |w.tasks|
  {
    var after := if purpose.ForCall? then AwaitingLock(ForCall) else Resting;
    w.(client := WithoutHandshake(w.client),
       resets := w.resets + 1,
       dropped := w.dropped + if w.client.catalog.Some? then 1 else 0,
       tasks := w.tasks[t := if w.client.connection.Some? then ClosingOld(purpose) else after])
  }

  function LockStep(w: World, t: TaskId, purpose: Purpose): World
    requires t < |w.tasks|
  {
    var (client, entry) := Entered(w.client, t);
    match entry
    case Cached(h) => w.(client := client, tasks := w.tasks[t := Continued(client, purpose, h, true)])
    case MustShake(h) => w.(client := client, tasks := w.tasks[t := Opening(h, purpose)])
  }

  function ListStep(w: World, t: TaskId, h: Handshake, purpose: Purpose, reply: ListReply): World
    requires t < |w.tasks|
  {
    match reply
    case ListFailed => w.(client := Closed(w.client, h), tasks := w.tasks[t := ClosingFailed(h)])
    case ToolsListed(valid) =>
      var client := Published(w.client, h, valid);
      var lost := if w.client.connection.Some? then {w.client.connection.value} - w.client.ended else {};
      if valid then
        w.(client := client, completed := w.completed + 1, overwritten := w.overwritten + lost,
           tasks := w.tasks[t := Continued(client, purpose, h, false)])
      else
        w.(client := client, malformed := w.malformed + {h}, overwritten := w.overwritten + lost,
           tasks := w.tasks[t := Raised])
  }

  function CancelStep(w: World, t: TaskId): World
    requires t < |w.tasks|
  {
    var place := w.tasks[t];
    var gone := w.(tasks := w.tasks[t := Raised]);
    if place.Shaking() then gone.(client := Released(w.client), cancelled := w.cancelled + {place.handshake})
    else gone
  }

  // An event that cannot happen in this world leaves it as it is.
  function Next(w: World, e: Event): World {
    match e
    case SessionEnded(h) => w.(client := Closed(w.client, h))
    case _ =>
      var t := e.task;
      if t >= |w.tasks| then w
      else
        var place := w.tasks[t];
        match e
        case StartDiscover(_) => if place.AtRest() then w.(tasks := w.tasks[t := AwaitingLock(ForItself)]) else w
        case StartReset(_) => if place.AtRest() then ResetStep(w, t, ForItself) else w
        case StartCall(_) =>
          if !place.AtRest() then w
          else if NeedsDiscovery(w.client) then ResetStep(w, t, ForCall)
          else w.(tasks := w.tasks[t := CallPlace(w.client)])
        case LockGranted(_) =>
          if place.AwaitingLock? && w.client.lock.None? then LockStep(w, t, place.purpose) else w
        case OpenAnswered(_, ok) =>
          if !place.Opening? then w
          else if ok then w.(tasks := w.tasks[t := Listing(place.handshake, place.purpose)])
          else w.(client := Closed(w.client, place.handshake), tasks := w.tasks[t := ClosingFailed(place.handshake)])
        case ListAnswered(_, reply) =>
          if place.Listing? then ListStep(w, t, place.handshake, place.purpose, reply) else w
        case CloseFinished(_) =>
          if place.ClosingFailed? then w.(client := Released(w.client), tasks := w.tasks[t := Raised])
          else if place.ClosingOld? then
            w.(tasks := w.tasks[t := if place.purpose.ForCall? then AwaitingLock(ForCall) else Resting])
          else w
        case CallAnswered(_) => if place.Calling? then w.(tasks := w.tasks[t := Resting]) else w
        case Cancelled(_) => CancelStep(w, t)
        case SessionEnded(_) => w
  }

  function Run(n: nat, events: seq<Event>): World {
    if events == [] then Start(n) else Next(Run(n, events[..|events| - 1]), events[|events| - 1])
  }

  // ----- the invariant -----

  // The lock is held by exactly the task that is in a handshake, and that handshake is the last begun.
  ghost predicate LockInvariant(w: World) {
    forall t :: 0 <= t < |w.tasks| ==>
      && (w.tasks[t].Shaking() <==> w.client.lock == Some(t))
      && (w.tasks[t].Shaking() ==> w.tasks[t].handshake + 1 == w.client.begun)
      && (w.tasks[t].ClosingFailed? ==> w.tasks[t].handshake in w.client.ended)
  }

  // A catalog comes from the handshake whose connection is published, and there is none while a
  // handshake is under way.
  ghost predicate CatalogInvariant(w: World) {
    && (w.client.catalog.Some? ==> w.client.connection == w.client.catalog)
    && (w.client.lock.Some? ==> w.client.catalog.None? && w.client.lock.value < |w.tasks| && w.client.begun > 0)
    && (w.client.connection.Some? ==>
          w.client.connection.value < if w.client.lock.Some? then w.client.begun - 1 else w.client.begun)
  }

  // A call is made on the session of the handshake its catalog came from.
  ghost predicate CallInvariant(w: World) {
    forall t :: 0 <= t < |w.tasks| && w.tasks[t].Calling? ==> w.tasks[t].catalog == w.tasks[t].session
  }

  // Completed handshakes are accounted for; a published connection without a catalog is one whose
  // schemas were malformed.
  ghost predicate AccountInvariant(w: World) {
    && w.completed == w.dropped + (if w.client.catalog.Some? then 1 else 0)
    && w.dropped <= w.resets
    && (w.client.connection.Some? ==> (w.client.catalog.None? <==> w.client.connection.value in w.malformed))
    && w.overwritten <= w.malformed
  }

  // The handshakes begun before the one under way.
  predicate Earlier(w: World, h: Handshake) { h < if w.client.lock.Some? then w.client.begun - 1 else w.client.begun }

  // What was published malformed, overwritten or cancelled is past, and the last two are not published.
  ghost predicate PastInvariant(w: World) {
    && (forall h :: h in w.malformed ==> Earlier(w, h))
    && (forall h :: h in w.overwritten || h in w.cancelled ==> Earlier(w, h) && w.client.connection != Some(h))
  }

  // Task t is in the handshake h.
  predicate InHandshake(w: World, t: TaskId, h: Handshake) {
    t < |w.tasks| && w.tasks[t].Shaking() && w.tasks[t].handshake == h
  }

  // Every session still open is published, being set up, or lost in one of two ways.
  ghost predicate SessionInvariant(w: World) {
    forall h: Handshake :: h < w.client.begun ==>
      || h in w.client.ended
      || w.client.connection == Some(h)
      || (w.client.lock.Some? && InHandshake(w, w.client.lock.value, h))
      || h in w.overwritten
      || h in w.cancelled
  }

  ghost predicate Inv(w: World) {
    && LockInvariant(w) && CatalogInvariant(w) && CallInvariant(w)
    && AccountInvariant(w) && PastInvariant(w) && SessionInvariant(w)
  }

  lemma ResetKeeps(w: World, t: TaskId, purpose: Purpose)
    requires Inv(w) && t < |w.tasks| && w.tasks[t].AtRest()
    ensures Inv(ResetStep(w, t, purpose))
  {
  }

  lemma LockKeeps(w: World, t: TaskId)
    requires Inv(w) && t < |w.tasks| && w.tasks[t].AwaitingLock? && w.client.lock.None?
    ensures Inv(LockStep(w, t, w.tasks[t].purpose))
  {
  }

  lemma ListKeeps(w: World, t: TaskId, reply: ListReply)
    requires Inv(w) && t < |w.tasks| && w.tasks[t].Listing?
    ensures Inv(ListStep(w, t, w.tasks[t].handshake, w.tasks[t].purpose, reply))
  {
  }

  lemma CancelKeeps(w: World, t: TaskId)
    requires Inv(w) && t < |w.tasks|
    ensures Inv(CancelStep(w, t))
  {
  }

  // A place that is not in a handshake gives way to another such place.
  lemma MoveKeeps(w: World, t: TaskId, place: Place)
    requires Inv(w) && t < |w.tasks| && !w.tasks[t].Shaking() && !place.Shaking()
    requires place.Calling? ==> place.catalog == place.session
    ensures Inv(w.(tasks := w.tasks[t := place]))
  {
  }

  lemma OpenKeeps(w: World, t: TaskId, ok: bool)
    requires Inv(w) && t < |w.tasks| && w.tasks[t].Opening?
    ensures Inv(Next(w, OpenAnswered(t, ok)))
  {
  }

  lemma EndKeeps(w: World, h: Handshake)
    requires Inv(w)
    ensures Inv(Next(w, SessionEnded(h)))
  {
  }

  lemma CloseKeeps(w: World, t: TaskId)
    requires Inv(w) && t < |w.tasks| && w.tasks[t].ClosingFailed?
    ensures Inv(Next(w, CloseFinished(t)))
  {
    assert w.tasks[t].handshake in w.client.ended;
  }

  lemma NextKeeps(w: World, e: Event)
    requires Inv(w)
    ensures Inv(Next(w, e))
  {
    if e.SessionEnded? {
      EndKeeps(w, e.handshake);
    } else if e.task < |w.tasks| && Next(w, e) != w {
      var t := e.task;
      var place := w.tasks[t];
      match e {
        case StartDiscover(_) => MoveKeeps(w, t, AwaitingLock(ForItself));
        case StartReset(_) => ResetKeeps(w, t, ForItself);
        case StartCall(_) =>
          if NeedsDiscovery(w.client) { ResetKeeps(w, t, ForCall); } else { MoveKeeps(w, t, CallPlace(w.client)); }
        case LockGranted(_) => LockKeeps(w, t);
        case OpenAnswered(_, ok) => OpenKeeps(w, t, ok);
        case ListAnswered(_, reply) => ListKeeps(w, t, reply);
        case CloseFinished(_) =>
          if place.ClosingFailed? {
            CloseKeeps(w, t);
          } else {
            MoveKeeps(w, t, if place.purpose.ForCall? then AwaitingLock(ForCall) else Resting);
          }
        case CallAnswered(_) => MoveKeeps(w, t, Resting);
        case Cancelled(_) => CancelKeeps(w, t);
      }
    }
  }

  lemma {:induction false} RunKeeps(n: nat, events: seq<Event>)
    ensures Inv(Run(n, events))
  {
    if events != [] {
      RunKeeps(n, events[..|events| - 1]);
      NextKeeps(Run(n, events[..|events| - 1]), events[|events| - 1]);
    }
  }

  // ----- the tasks of one event loop over one client -----

  class EventLoop {
    const client: McpClient
    var places: seq<Place>
    ghost var past: World

    // The world as the fields tell it, with the record of what happened.
    ghost function Now(): World
      reads this, client
    {
      past.(client := client.State(), tasks := places)
    }

    ghost predicate Valid()
      reads this, client
    {
      Inv(Now()) && client.Valid()
    }

    constructor (n: nat)
      ensures Valid() && fresh(client) && Now() == Start(n)
    {
      client := new McpClient();
      places := seq(n, i => Resting);
      past := Start(n);
    }

    // One task resumes on the shared client, or a session ends: over any sequence of events the
    // object is in the world of Run.
    method Handle(e: Event)
      requires Valid()
      modifies this, client
      ensures Valid() && Now() == Next(old(Now()), e)
    {
      ghost var next := Next(Now(), e);
      NextKeeps(Now(), e);
      match e {
        case SessionEnded(h) => client.Close(h);
        case _ =>
          if e.task < |places| {
            Resume(e);
          }
      }
      past := next;
    }

    method Resume(e: Event)
      requires Valid() && !e.SessionEnded? && e.task < |places|
      modifies `places, client
      ensures client.Valid() && client.State() == Next(old(Now()), e).client && places == Next(old(Now()), e).tasks
    {
      var t := e.task;
      var place := places[t];
      match e {
        case StartDiscover(_) => if place.AtRest() { places := places[t := AwaitingLock(ForItself)]; }
        case StartReset(_) => if place.AtRest() { ResetFor(t, ForItself); }
        case StartCall(_) => if place.AtRest() { Call(t); }
        case LockGranted(_) => if place.AwaitingLock? && client.lock.None? { Discover(t, place.purpose); }
        case OpenAnswered(_, ok) => if place.Opening? { Opened(t, place.handshake, place.purpose, ok); }
        case ListAnswered(_, reply) => if place.Listing? { Listed(t, place.handshake, place.purpose, reply); }
        case CloseFinished(_) => Unwind(t, place);
        case CallAnswered(_) => if place.Calling? { places := places[t := Resting]; }
        case Cancelled(_) =>
          if place.Shaking() { client.Release(); }
          places := places[t := Raised];
      }
    }

    method ResetFor(t: TaskId, purpose: Purpose)
      requires Valid() && t < |places|
      modifies `places, client
      ensures client.Valid()
      ensures var next := ResetStep(old(Now()), t, purpose); client.State() == next.client && places == next.tasks
    {
      var closing := client.Reset();
      var after := if purpose.ForCall? then AwaitingLock(ForCall) else Resting;
      places := places[t := if closing.Some? then ClosingOld(purpose) else after];
    }

    method Call(t: TaskId)
      requires Valid() && t < |places| && places[t].AtRest()
      modifies `places, client
      ensures client.Valid()
      ensures var next := Next(old(Now()), StartCall(t)); client.State() == next.client && places == next.tasks
    {
      var stale := client.MustRediscover();
      assert !NeedsDiscovery(client.State()) ==> client.Serves(client.catalog.value);
      if stale {
        ResetFor(t, ForCall);
      } else {
        places := places[t := Calling(client.catalog.value, client.connection.value)];
      }
    }

    method Discover(t: TaskId, purpose: Purpose)
      requires Valid() && t < |places| && client.lock.None?
      modifies `places, client
      ensures client.Valid()
      ensures var next := LockStep(old(Now()), t, purpose); client.State() == next.client && places == next.tasks
    {
      var entry := client.Enter(t);
      match entry {
        case Cached(h) => places := places[t := Continued(client.State(), purpose, h, true)];
        case MustShake(h) => places := places[t := Opening(h, purpose)];
      }
    }

    method Opened(t: TaskId, h: Handshake, purpose: Purpose, ok: bool)
      requires Valid() && t < |places| && places[t] == Opening(h, purpose)
      modifies `places, client
      ensures client.Valid()
      ensures var next := Next(old(Now()), OpenAnswered(t, ok)); client.State() == next.client && places == next.tasks
    {
      if ok {
        places := places[t := Listing(h, purpose)];
      } else {
        client.Close(h);
        places := places[t := ClosingFailed(h)];
      }
    }

    method Listed(t: TaskId, h: Handshake, purpose: Purpose, reply: ListReply)
      requires Valid() && t < |places| && places[t] == Listing(h, purpose)
      modifies `places, client
      ensures client.Valid()
      ensures var next := ListStep(old(Now()), t, h, purpose, reply);
              client.State() == next.client && places == next.tasks
    {
      match reply {
        case ListFailed =>
          client.Close(h);
          places := places[t := ClosingFailed(h)];
        case ToolsListed(valid) =>
          client.Publish(h, valid);
          places := places[t := if valid then Continued(client.State(), purpose, h, false) else Raised];
      }
    }

    // A close has been awaited: of the session that failed, or of the one a reset dropped.
    method Unwind(t: TaskId, place: Place)
      requires Valid() && t < |places| && place == places[t]
      modifies `places, client
      ensures client.Valid()
      ensures var next := Next(old(Now()), CloseFinished(t)); client.State() == next.client && places == next.tasks
    {
      if place.ClosingFailed? {
        client.Release();
        places := places[t := Raised];
      } else if place.ClosingOld? {
        places := places[t := if place.purpose.ForCall? then AwaitingLock(ForCall) else Resting];
      }
    }
  }

  // Every run of the step machine is a run of the objects.
  method Serve(n: nat, events: seq<Event>) returns (tasks: EventLoop)
    ensures fresh(tasks) && fresh(tasks.client) && tasks.Valid() && tasks.Now() == Run(n, events)
  {
    tasks := new EventLoop(n);
    for i := 0 to |events|
      invariant fresh(tasks) && fresh(tasks.client)
      invariant tasks.Valid() && tasks.Now() == Run(n, events[..i])
    {
      assert events[..i + 1][..i] == events[..i];
      tasks.Handle(events[i]);
    }
    assert events[..|events|] == events;
  }

  // ----- what holds over every run -----

  // Handshakes never overlap, and none is under way while there is a catalog to hand out.
  lemma OneHandshakeAtATime(n: nat, events: seq<Event>, t: TaskId, u: TaskId)
    requires var w := Run(n, events); t < |w.tasks| && u < |w.tasks| && w.tasks[t].Shaking() && w.tasks[u].Shaking()
    ensures t == u && Run(n, events).client.catalog.None?
  {
    RunKeeps(n, events);
  }

  // A non-null catalog always comes from the same handshake as a non-null connection.
  lemma CatalogHasItsConnection(n: nat, events: seq<Event>)
    ensures var c := Run(n, events).client; c.catalog.Some? ==> c.connection == c.catalog
  {
    RunKeeps(n, events);
  }

  // When discover returns, the catalog it returns is the one in the client, so the assertion after
  // the lock cannot fail; and `cached` says whether this call was the one that shook hands.
  lemma DiscoverReturnsTheCatalog(n: nat, events: seq<Event>, e: Event)
    requires !e.SessionEnded?
    requires var w, w' := Run(n, events), Next(Run(n, events), e);
             e.task < |w.tasks| && w.tasks[e.task] != w'.tasks[e.task] && w'.tasks[e.task].Discovered?
    ensures var w, w' := Run(n, events), Next(Run(n, events), e);
            && w'.client.catalog == Some(w'.tasks[e.task].catalog) == w'.client.connection
            && (w'.tasks[e.task].cached <==> w.client.catalog.Some?)
            && w'.completed == w.completed + (if w'.tasks[e.task].cached then 0 else 1)
  {
    RunKeeps(n, events);
    RunKeeps(n, events + [e]);
    assert (events + [e])[..|events|] == events;
  }

  // A call that re-discovered goes out on the session of the catalog it was given, and is refused
  // for want of a session only when that very session has ended.
  lemma CallAfterDiscovery(n: nat, events: seq<Event>, e: Event)
    requires e.LockGranted? || (e.ListAnswered? && e.reply == ToolsListed(true))
    requires var w := Run(n, events);
             && e.task < |w.tasks|
             && ((&& e.LockGranted? && w.client.lock.None? && w.client.catalog.Some?
                  && w.tasks[e.task] == AwaitingLock(ForCall))
                 || (e.ListAnswered? && w.tasks[e.task].Listing? && w.tasks[e.task].purpose == ForCall))
    ensures var w' := Next(Run(n, events), e);
            && w'.client.catalog.Some?
            && var h := w'.client.catalog.value;
               w'.tasks[e.task] == if h in w'.client.ended then Raised else Calling(h, h)
  {
    RunKeeps(n, events);
  }

  // The handshake is cached: beyond the first, there is never more than one per reset.
  lemma HandshakesAreCached(n: nat, events: seq<Event>)
    ensures var w := Run(n, events); w.completed <= w.resets + 1
  {
    RunKeeps(n, events);
  }

  // Exactly when a published connection has no catalog: its schemas were malformed.
  lemma ConnectionWithoutCatalog(n: nat, events: seq<Event>)
    requires Run(n, events).client.connection.Some?
    ensures var w := Run(n, events); w.client.catalog.None? <==> w.client.connection.value in w.malformed
  {
    RunKeeps(n, events);
  }

  // Exactly when an open session is lost, that is, neither published nor in a handshake under way:
  // its handshake was cancelled, or its schemas were malformed and a later one was published over it.
  lemma NoSessionIsLost(n: nat, events: seq<Event>, h: Handshake)
    requires var w := Run(n, events); h < w.client.begun && h !in w.client.ended
    ensures var w := Run(n, events);
            && w.overwritten <= w.malformed
            && ((w.client.connection == Some(h) || exists t :: InHandshake(w, t, h))
                <==> h !in w.overwritten && h !in w.cancelled)
  {
    RunKeeps(n, events);
  }

  lemma RunNext(n: nat, events: seq<Event>, e: Event)
    ensures Run(n, events + [e]) == Next(Run(n, events), e)
  {
    assert (events + [e])[..|events|] == events;
  }

  // A task at rest discovers, while the catalog is missing and nobody else is in the way.
  function Discovering(valid: bool): seq<Event> {
    [StartDiscover(0), LockGranted(0), OpenAnswered(0, true), ListAnswered(0, ToolsListed(valid))]
  }

  lemma DiscoverSteps(w: World, valid: bool) returns (w': World)
    requires w.tasks != [] && w.tasks[0].AtRest() && w.client.lock.None? && w.client.catalog.None?
    ensures var e := Discovering(valid); w' == Next(Next(Next(Next(w, e[0]), e[1]), e[2]), e[3])
    ensures w'.client == w.client.(begun := w.client.begun + 1, connection := Some(w.client.begun),
                                   catalog := if valid then Some(w.client.begun) else None)
    ensures w'.tasks == w.tasks[0 := if valid then Discovered(w.client.begun, false) else Raised]
    ensures w'.overwritten == w.overwritten
              + (if w.client.connection.Some? then {w.client.connection.value} - w.client.ended else {})
  {
    var h := w.client.begun;
    var w1 := w.(tasks := w.tasks[0 := AwaitingLock(ForItself)]);
    var w2 := w.(client := w.client.(lock := Some(0), begun := h + 1), tasks := w.tasks[0 := Opening(h, ForItself)]);
    var w3 := w2.(tasks := w.tasks[0 := Listing(h, ForItself)]);
    assert Next(w, StartDiscover(0)) == w1;
    assert Next(w1, LockGranted(0)) == w2;
    assert Next(w2, OpenAnswered(0, true)) == w3;
    w' := Next(w3, ListAnswered(0, ToolsListed(valid)));
  }

  lemma DiscoverRun(n: nat, events: seq<Event>, valid: bool)
    ensures var e := Discovering(valid);
            Run(n, events + e) == Next(Next(Next(Next(Run(n, events), e[0]), e[1]), e[2]), e[3])
  {
    var e := Discovering(valid);
    RunNext(n, events, e[0]);
    RunNext(n, events + [e[0]], e[1]);
    RunNext(n, events + [e[0]] + [e[1]], e[2]);
    RunNext(n, events + [e[0]] + [e[1]] + [e[2]], e[3]);
    assert events + e == events + [e[0]] + [e[1]] + [e[2]] + [e[3]];
  }

  // The converse of CatalogHasItsConnection fails: a malformed schema leaves a connection without a
  // catalog, and the next discover publishes over it while its session is still open.
  lemma MalformedSchemaLosesASession() returns (events: seq<Event>)
    ensures exists k :: 0 <= k < |events| &&
              var w := Run(1, events[..k]); w.client.catalog.None? && w.client.connection == Some(0)
    ensures var w := Run(1, events);
            w.client.connection == Some(1) && w.overwritten == {0} && 0 !in w.client.ended
  {
    var bad := [] + Discovering(false);
    DiscoverRun(1, [], false);
    var w1 := DiscoverSteps(Start(1), false);
    events := bad + Discovering(true);
    DiscoverRun(1, bad, true);
    var w2 := DiscoverSteps(w1, true);
    assert events[..4] == bad;
  }

  // ----- a held lock is released -----

  // How many answers at most a handshake still waits for.
  function Awaited(place: Place): nat {
    if place.Opening? then 3 else if place.Listing? then 2 else if place.ClosingFailed? then 1 else 0
  }

  // The event answers the await task t is suspended in under the lock, or cancels it.
  predicate Wakes(w: World, t: TaskId, e: Event) {
    && t < |w.tasks| && w.tasks[t].Shaking() && !e.SessionEnded? && e.task == t
    && match w.tasks[t]
       case Opening(_, _) => e.OpenAnswered? || e.Cancelled?
       case Listing(_, _) => e.ListAnswered? || e.Cancelled?
       case _ => e.CloseFinished? || e.Cancelled?
  }

  lemma HolderMoves(w: World, t: TaskId, e: Event)
    requires Inv(w) && w.client.lock == Some(t)
    ensures var next := Next(w, e);
            && t < |next.tasks| == |w.tasks|
            && if Wakes(w, t, e) then next.client.lock.None? || Awaited(next.tasks[t]) < Awaited(w.tasks[t])
               else next.client.lock == Some(t) && next.tasks[t] == w.tasks[t]
  {
    assert w.tasks[t].Shaking();
    if !e.SessionEnded? && e.task < |w.tasks| && e.task != t {
      assert !w.tasks[e.task].Shaking();
    }
  }

  // Task t has the lock after these events and after each of the later ones.
  ghost predicate Holds(n: nat, events: seq<Event>, more: seq<Event>, t: TaskId) {
    forall k :: 0 <= k <= |more| ==> Run(n, events + more[..k]).client.lock == Some(t)
  }

  function Woken(n: nat, events: seq<Event>, more: seq<Event>, t: TaskId): nat {
    if more == [] then 0
    else
      var init, last := more[..|more| - 1], more[|more| - 1];
      Woken(n, events, init, t) + if Wakes(Run(n, events + init), t, last) then 1 else 0
  }

  lemma RunMore(n: nat, events: seq<Event>, more: seq<Event>)
    requires more != []
    ensures var init, last := more[..|more| - 1], more[|more| - 1];
            Run(n, events + more) == Next(Run(n, events + init), last)
  {
    var init, last := more[..|more| - 1], more[|more| - 1];
    assert events + more == (events + init) + [last];
    RunNext(n, events + init, last);
  }

  lemma HoldsBefore(n: nat, events: seq<Event>, more: seq<Event>, t: TaskId)
    requires more != [] && Holds(n, events, more, t)
    ensures Holds(n, events, more[..|more| - 1], t)
    ensures Run(n, events + more).client.lock == Run(n, events + more[..|more| - 1]).client.lock == Some(t)
  {
    var init := more[..|more| - 1];
    forall k | 0 <= k <= |init| ensures init[..k] == more[..k] {
    }
    assert more[..|more|] == more && init[..|init|] == init;
  }

  // Whatever else happens in between, a task that keeps the lock has been answered less often than it
  // still waited for answers when it was looked at: at most twice in all.
  lemma {:induction false} LockIsReleased(n: nat, events: seq<Event>, more: seq<Event>, t: TaskId)
    requires Holds(n, events, more, t)
    ensures var before, after := Run(n, events), Run(n, events + more);
            && t < |before.tasks| == |after.tasks| && 1 <= Awaited(after.tasks[t])
            && Woken(n, events, more, t) + Awaited(after.tasks[t]) <= Awaited(before.tasks[t]) <= 3
  {
    RunKeeps(n, events + more);
    if more == [] {
      assert events + more == events && more[..0] == [];
    } else {
      var init, last := more[..|more| - 1], more[|more| - 1];
      HoldsBefore(n, events, more, t);
      LockIsReleased(n, events, init, t);
      RunKeeps(n, events + init);
      RunMore(n, events, more);
      HolderMoves(Run(n, events + init), t, last);
    }
  }

  // And from every reachable world with the lock taken, answers to its holder free it.
  lemma LockCanBeFreed(n: nat, events: seq<Event>, t: TaskId) returns (answers: seq<Event>)
    requires Run(n, events).client.lock == Some(t)
    ensures |answers| <= 2 && forall e :: e in answers ==> !e.SessionEnded? && !e.Cancelled? && e.task == t
    ensures Run(n, events + answers).client.lock.None?
  {
    var w := Run(n, events);
    RunKeeps(n, events);
    var first := if w.tasks[t].Opening? then OpenAnswered(t, false)
                 else if w.tasks[t].Listing? then ListAnswered(t, ToolsListed(true))
                 else CloseFinished(t);
    RunNext(n, events, first);
    answers := [first];
    if w.tasks[t].Opening? {
      RunNext(n, events + [first], CloseFinished(t));
      answers := [first, CloseFinished(t)];
      assert events + answers == events + [first] + [CloseFinished(t)];
    }
  }

  // ----- a call that finds no session is served by a new one -----

  lemma StaleCallResets(n: nat, events: seq<Event>, t: TaskId)
    requires var w := Run(n, events); t < |w.tasks| && w.tasks[t].AtRest() && NeedsDiscovery(w.client)
    ensures var w, next := Run(n, events), Run(n, events + [StartCall(t)]);
            && |next.tasks| == |w.tasks| && next.client.catalog.None? && next.client.connection.None?
            && next.client.begun == w.client.begun && next.client.lock == w.client.lock
            && next.client.ended
               == w.client.ended + (if w.client.connection.Some? then {w.client.connection.value} else {})
            && next.tasks[t] == if w.client.connection.Some? then ClosingOld(ForCall) else AwaitingLock(ForCall)
  {
    RunNext(n, events, StartCall(t));
  }

  // From there on the answers alone lead to a call on the session of a new handshake.
  lemma FreshCall(n: nat, events: seq<Event>, t: TaskId)
    requires var w := Run(n, events);
             && t < |w.tasks| && w.tasks[t] == AwaitingLock(ForCall) && w.client.lock.None?
             && w.client.catalog.None? && w.client.begun !in w.client.ended
    ensures var h := Run(n, events).client.begun;
            var w := Run(n, events + [LockGranted(t)] + [OpenAnswered(t, true)] + [ListAnswered(t, ToolsListed(true))]);
            t < |w.tasks| && w.tasks[t] == Calling(h, h)
  {
    RunNext(n, events, LockGranted(t));
    RunNext(n, events + [LockGranted(t)], OpenAnswered(t, true));
    RunNext(n, events + [LockGranted(t)] + [OpenAnswered(t, true)], ListAnswered(t, ToolsListed(true)));
  }

  lemma StaleCallWaits(n: nat, events: seq<Event>, t: TaskId) returns (begun: seq<Event>)
    requires var w := Run(n, events); t < |w.tasks| && w.tasks[t].AtRest() && NeedsDiscovery(w.client)
    ensures begun == [StartCall(t)] || begun == [StartCall(t), CloseFinished(t)]
    ensures var w, next := Run(n, events), Run(n, events + begun);
            && t < |next.tasks| && next.tasks[t] == AwaitingLock(ForCall)
            && next.client.catalog.None? && next.client.begun == w.client.begun && next.client.lock == w.client.lock
            && (w.client.begun in next.client.ended ==> w.client.begun in w.client.ended)
  {
    var w := Run(n, events);
    begun := [StartCall(t)];
    RunKeeps(n, events);
    StaleCallResets(n, events, t);
    if w.client.connection.Some? {
      RunNext(n, events + begun, CloseFinished(t));
      assert events + begun + [CloseFinished(t)] == events + [StartCall(t), CloseFinished(t)];
      begun := [StartCall(t), CloseFinished(t)];
    }
  }

  // A call that finds no catalog, or a session that ended, goes out on the session of a handshake of its
  // own when the server answers, unless that session has ended too.
  lemma StaleCallIsServed(n: nat, events: seq<Event>, t: TaskId) returns (answers: seq<Event>)
    requires var w := Run(n, events);
             && t < |w.tasks| && w.tasks[t].AtRest() && w.client.lock.None?
             && NeedsDiscovery(w.client) && w.client.begun !in w.client.ended
    ensures 0 < |answers| <= 5 && answers[0] == StartCall(t)
    ensures forall e :: e in answers ==> !e.SessionEnded? && !e.Cancelled? && e.task == t
    ensures var w, h := Run(n, events + answers), Run(n, events).client.begun;
            t < |w.tasks| && w.tasks[t] == Calling(h, h)
  {
    var begun := StaleCallWaits(n, events, t);
    FreshCall(n, events + begun, t);
    answers := begun + [LockGranted(t)] + [OpenAnswered(t, true)] + [ListAnswered(t, ToolsListed(true))];
    assert events + answers
           == events + begun + [LockGranted(t)] + [OpenAnswered(t, true)] + [ListAnswered(t, ToolsListed(true))];
  }
}
