/**
 * The in-memory access-gate registry of server.js, as values.
 *
 * `State` holds the three module-level collections of the server: the
 * pending access requests (a `Map` from client address to request record,
 * whose insertion order is kept in `requestOrder`), the approved addresses
 * (a `Map` from address to approval time) and the authenticated admin
 * sessions (a `Set`, kept in insertion order).  Each handler is a function
 * from the state before to a `Step`: what it answers, the state after, and
 * the notifications it emits, in order, as (session, message) pairs.
 *
 * The things server.js obtains from its environment -- the fresh uuid, the
 * current date, the User-Agent header, the client address, the socket --
 * are parameters.
 */
module AccessModel {
  import opened SeqUtil

  /** A client network address: the key of both maps. */
  type Key = string
  /** The uuid of an access request. */
  type RequestId = string
  /** An instant, standing for a JavaScript `Date`. */
  type Time = int
  /** A real-time (socket.io) session. */
  type SocketId = nat

  /** The admin password compiled into server.js. */
  const AdminPassword: string := "nova2024"

  datatype Option<T> = None | Some(value: T)

  /** `'pending'` is the only status a stored request ever has. */
  datatype Status = Pending

  /** The record stored in `accessRequests` and sent to admins. */
  datatype Request = Request(id: RequestId, ip: Key, timestamp: Time, userAgent: Option<string>, status: Status)

  /** The events the server emits to an admin session. */
  datatype Message =
    | NewRequest(request: Request)
    | RequestApproved(ip: Key)
    | RequestDeclined(ip: Key)
    | InitialRequests(requests: seq<Request>)

  /** One `socket.emit`: the session it goes to and what it carries. */
  datatype Emit = Emit(to: SocketId, message: Message)

  /** The answer of the admin action endpoint. */
  datatype ActionResult = Success | Unauthorized | InvalidAction

  /** The HTTP status the admin action endpoint responds with: a success
      status (2xx) exactly when the action was carried out, a client error
      (4xx) otherwise. */
  function StatusCode(r: ActionResult): (code: nat)
    ensures 200 <= code < 300 <==> r.Success?
    ensures 400 <= code < 500 <==> !r.Success?
  {
    match r
    case Success => 200
    case Unauthorized => 401
    case InvalidAction => 400
  }

  datatype State = State(
    accessRequests: map<Key, Request>,
    requestOrder: seq<Key>,
    approvedIPs: map<Key, Time>,
    adminSockets: seq<SocketId>,
    /** every request id handed out so far (the uuids already used) */
    issued: set<RequestId>)

  /** What a handler answers, the state it leaves, and what it emits. */
  datatype Step<R> = Step(reply: R, next: State, sent: seq<Emit>)

  /** The state the server starts with: every collection empty. */
  function Init(): State
  {
    State(map[], [], map[], [], {})
  }

  /** The invariant every handler keeps. */
  ghost predicate Inv(g: State)
  {
    // the order of the pending map lists each pending key exactly once
    && NoDups(g.requestOrder)
    && (forall k :: k in g.accessRequests <==> k in g.requestOrder)
    // a pending record is filed under its own address, is pending, and has an issued id
    && (forall k :: k in g.accessRequests ==>
          g.accessRequests[k].ip == k && g.accessRequests[k].status == Pending && g.accessRequests[k].id in g.issued)
    // at most one pending request carries a given id
    && (forall k1, k2 :: k1 in g.accessRequests && k2 in g.accessRequests && k1 != k2 ==>
          g.accessRequests[k1].id != g.accessRequests[k2].id)
    // no address is pending and approved at once
    && (forall k :: k in g.accessRequests ==> k !in g.approvedIPs)
    // each admin session is tracked once
    && NoDups(g.adminSockets)
  }

  /** `adminSockets.forEach(socket => socket.emit(...))`: one emit per
      session, in the order of the set. */
  function Broadcast(sockets: seq<SocketId>, m: Message): seq<Emit>
  {
    if sockets == [] then [] else [Emit(sockets[0], m)] + Broadcast(sockets[1..], m)
  }

  /** The values of the map `m` in the order `order` (skipping absent keys). */
  function Values(order: seq<Key>, m: map<Key, Request>): seq<Request>
  {
    if order == [] then []
    else (if order[0] in m then [m[order[0]]] else []) + Values(order[1..], m)
  }

  /** `Array.from(accessRequests.values())`. */
  function PendingList(g: State): seq<Request>
  {
    Values(g.requestOrder, g.accessRequests)
  }

  /** GET /api/check-access from address `ip`.  `id`, `at` and `agent` are
      what `uuidv4()`, `new Date()` and the User-Agent header give. */
  function CheckAccess(g: State, ip: Key, id: RequestId, at: Time, agent: Option<string>): Step<bool>
  {
    if ip in g.approvedIPs then Step(true, g, [])
    else if ip in g.accessRequests then Step(false, g, [])
    else
      var req := Request(id, ip, at, agent, Pending);
      var next := g.(accessRequests := g.accessRequests[ip := req],
                     requestOrder := g.requestOrder + [ip],
                     issued := g.issued + {id});
      Step(false, next, Broadcast(g.adminSockets, NewRequest(req)))
  }

  /** POST /api/admin/action with body `{action, ip, password}`, checked
      against `secret`; `at` is `new Date()` at approval. */
  function AdminAction(g: State, secret: string, action: string, ip: Key, password: string, at: Time): Step<ActionResult>
  {
    if password != secret then Step(Unauthorized, g, [])
    else if action == "approve" then
      var next := g.(approvedIPs := g.approvedIPs[ip := at],
                     accessRequests := g.accessRequests - {ip},
                     requestOrder := Without(g.requestOrder, ip));
      Step(Success, next, Broadcast(g.adminSockets, RequestApproved(ip)))
    else if action == "decline" then
      var next := g.(accessRequests := g.accessRequests - {ip},
                     requestOrder := Without(g.requestOrder, ip));
      Step(Success, next, Broadcast(g.adminSockets, RequestDeclined(ip)))
    else Step(InvalidAction, g, [])
  }

  /** The socket event `admin-join(password)` on session `socket`. */
  function AdminJoin(g: State, secret: string, socket: SocketId, password: string): Step<()>
  {
    if password == secret then
      var next := if socket in g.adminSockets then g else g.(adminSockets := g.adminSockets + [socket]);
      Step((), next, [Emit(socket, InitialRequests(PendingList(g)))])
    else Step((), g, [])
  }

  /** The socket event `disconnect` on session `socket`. */
  function Disconnect(g: State, socket: SocketId): State
  {
    g.(adminSockets := Without(g.adminSockets, socket))
  }

  /** One inbound call to any handler. */
  datatype Call =
    | CheckAccessCall(ip: Key, id: RequestId, at: Time, agent: Option<string>)
    | ActionCall(action: string, ip: Key, password: string, at: Time)
    | ListCall
    | JoinCall(socket: SocketId, password: string)
    | DisconnectCall(socket: SocketId)

  /** The state after call `c`. */
  function Apply(g: State, secret: string, c: Call): State
  {
    match c
    case CheckAccessCall(ip, id, at, agent) => CheckAccess(g, ip, id, at, agent).next
    case ActionCall(action, ip, password, at) => AdminAction(g, secret, action, ip, password, at).next
    case ListCall => g
    case JoinCall(socket, password) => AdminJoin(g, secret, socket, password).next
    case DisconnectCall(socket) => Disconnect(g, socket)
  }

  /** The state after the calls `cs`, one after the other. */
  function Run(g: State, secret: string, cs: seq<Call>): State
    decreases |cs|
  {
    if cs == [] then g else Run(Apply(g, secret, cs[0]), secret, cs[1..])
  }

  /** Every check-access call gets a uuid never handed out before. */
  ghost predicate FreshIds(g: State, secret: string, cs: seq<Call>)
    decreases |cs|
  {
    cs == [] ||
    ((cs[0].CheckAccessCall? ==> cs[0].id !in g.issued) &&
     FreshIds(Apply(g, secret, cs[0]), secret, cs[1..]))
  }
}
