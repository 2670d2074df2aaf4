# Access-gate registry of server.js, in Dafny

server.js is an IP-based access gate. A client that calls
`GET /api/check-access` is let in if its address is approved. Otherwise a
pending access request is filed for it, and every connected admin session
is told about it in real time. An admin approves or declines the request
with `POST /api/admin/action`, which is gated by a shared password. Every
admin session is told of the decision.

The server keeps three module-level collections (server.js:16-18):
- `accessRequests`: pending requests, a Map from client address to request record;
- `approvedIPs`: a Map from address to approval date;
- `adminSockets`: the Set of admin sessions that presented the password.

This project models those collections and the five handlers that act on
them: check-access, admin action, pending list, `admin-join` and `disconnect`.

Files:
- `seq_util.dfy` (module `SeqUtil`): duplicate-free sequences and `Without`.
  JavaScript's Map and Set iterate in insertion order, so the model keeps that
  order as a sequence, and `delete` becomes `Without`, which keeps the other
  elements in their order.
- `access_model.dfy` (module `AccessModel`): the value model. `State` holds the
  collections. The check-access, admin action and `admin-join` handlers are
  functions from the old state to a `Step`: the reply, the new state, and the
  emitted `(session, message)` pairs in order. `Disconnect` replies and emits
  nothing, so it returns just the new `State`. The pending list is
  `PendingList`, which changes nothing and returns the records.
  `Inv` is the registry invariant. `Run` applies a sequence of calls.
- `access_properties.dfy` (module `AccessProperties`): lemmas proving what each
  branch of each handler does, that every handler keeps `Inv`, that approvals
  are never revoked, and whole-lifecycle scenarios.
- `access_server.dfy` (modules `AccessServer`, `AccessLifecycle`): the class
  `Registry`. Its fields are the three collections, an `outbox` of emits, and
  the admin password as a constant. Its methods update the fields in place,
  and each one's postcondition ties the new fields, the reply and the new
  emits to the step function. `NotifyAdmins` is the `forEach` broadcast loop.
  `ApproveLifecycle` drives one client's lifecycle through the object.

Modelling decisions:
- Sockets are abstract ids (`SocketId`). `socket.emit` is an append to `outbox`.
- `uuidv4()`, `new Date()`, the User-Agent header and the client address are
  parameters. A request id must not have been handed out before (`id !in issued`),
  which stands for uuid uniqueness. The ghost set `issued` records the ids used.
- The User-Agent may be absent, so it is an `Option<string>`.
- The password is a constant of the registry, given to its constructor.
  `AdminPassword` is the value server.js compiles in (`"nova2024"`). It is
  compared with plain equality, as the code does.

Details of server.js the model keeps:
- A successful `admin-join` from an already-registered session sends the
  snapshot again. It does not add the session a second time.
- Approving an address that is already approved overwrites its approval date.
- The password is a literal and is not compared in constant time.
- `GET /api/admin/requests` asks for no password, and the model adds none.

## Model

| member | source | states |
|---|---|---|
| AccessModel.StatusCode | server.js:66-89 | the admin action responds with a success status (2xx) exactly when the action was carried out, and a client-error status (4xx) for a wrong password or an unknown action |
| AccessProperties.ActionStatusCode | server.js:61-91 | the admin action answers 401 exactly when the password is wrong, 400 exactly when the password is right and the action is neither approve nor decline, and 200 exactly when the password is right and the action is approve or decline |
| SeqUtil.WithoutSpec | server.js:71 | deleting a key from the insertion order removes exactly that key, keeps every other, leaves the order as it was when the key is absent, and keeps it duplicate-free |
| SeqUtil.WithoutConcat | server.js:71 | deleting works element by element: deleting from a concatenation deletes from each part and keeps the parts in place, so the remaining keys keep their relative order |
| SeqUtil.WithoutAt | server.js:116 | in a duplicate-free order, deleting the element at position i closes the gap: everything before it and after it stays in place |
| AccessProperties.BroadcastSpec | server.js:51-53 | a broadcast emits the message once to each admin session, in set order, to no other session; with distinct sessions the emits are distinct |
| AccessProperties.BroadcastAppend | server.js:74-76 | one more session in the loop adds exactly one emit at the end |
| AccessProperties.ValuesSpec | server.js:95 | listing a map's values along its key order gives one value per key, the i-th being the value of the i-th key |
| AccessProperties.PendingListSpec | server.js:94-97 | under the invariant the pending snapshot has one entry per pending address, in insertion order, holds exactly the pending records, and repeats none |
| AccessProperties.CheckAccessWhenApproved | server.js:34-35 | an approved address gets `approved: true`; no collection changes and nothing is emitted |
| AccessProperties.CheckAccessCreatesRequest | server.js:38-56 | a new unapproved address gets one pending record (its own address, status pending, given id, date and agent) appended to the order, the map grows by exactly one, the other records and the approved map and sessions are unchanged, every admin session and no other gets `new-request` with that record once, and the answer is `approved: false` |
| AccessProperties.CheckAccessWhenPending | server.js:38-56 | an address that is already pending gets `approved: false`; nothing changes and nothing is emitted |
| AccessProperties.CheckAccessRepeated | server.js:31-58 | the answer is `approved` exactly when the address is approved, and a second call from the same address, with any uuid, date and User-Agent, gives the same answer, changes nothing and emits nothing |
| AccessProperties.CheckAccessKeepsInv | server.js:31-58 | with a fresh uuid check-access keeps the registry invariant and leaves approved addresses and admin sessions alone |
| AccessProperties.WrongPasswordChangesNothing | server.js:65-67 | a wrong password gets 401 for every action value, changes nothing and emits nothing |
| AccessProperties.ApproveSpec | server.js:69-78 | approve makes the address approved and not pending, whether or not it was pending; every other key of both maps keeps its value; the order loses only that address; under the invariant the pending snapshot afterwards is the old one with that address's record taken out and the rest in their order; every admin session gets `request-approved` once; the answer is success |
| AccessProperties.DeclineSpec | server.js:79-87 | decline removes the address from the pending map and order, leaves every other pending key, the approved map and the sessions unchanged; under the invariant the pending snapshot afterwards is the old one with that address's record taken out and the rest in their order; it sends `request-declined` once to every admin session and answers success |
| AccessProperties.DropPendingSnapshot | server.js:71 | under the invariant, deleting an address from the pending map leaves the old snapshot with that address's record taken out, the rest in their order, and leaves the snapshot as it was when the address is not pending |
| AccessProperties.DropValues | server.js:95 | when each record is filed under its own address, listing the map along the order after a key is deleted gives the old listing with that key's record taken out |
| AccessProperties.DeclineNotPending | server.js:80 | declining an address that is not pending leaves the whole registry unchanged |
| AccessProperties.DeclineIdempotent | server.js:79-87 | from any state, declining the same address twice leaves the registry as declining once does |
| AccessProperties.InvalidActionSpec | server.js:88-90 | any action other than approve and decline, with the right password, gets 400, changes nothing and emits nothing |
| AccessProperties.AdminActionKeepsInv | server.js:61-91 | every admin action keeps the invariant, never removes an approved address, never adds a pending one, and leaves the sessions unchanged |
| AccessProperties.DropPendingKeepsInv | server.js:70-71 | removing an address from the pending map and its order keeps the invariant for any approved map that contains no other pending address |
| AccessProperties.AdminJoinSpec | server.js:104-113 | with the right password the session becomes tracked, appended at the end only when it was not tracked already, and only it is sent `initial-requests` with the pending snapshot; with a wrong one nothing changes and nothing is emitted; the maps never change |
| AccessProperties.AdminJoinKeepsInv | server.js:104-113 | admin-join keeps the invariant, so no session is tracked twice |
| AccessProperties.DisconnectSpec | server.js:115-118 | disconnect stops tracking exactly that session and leaves the other sessions in place, and a session that was not tracked leaves the sessions exactly as they were; the pending map, its order, the approved map and the issued ids are unchanged; the invariant is kept |
| AccessProperties.InitInv | server.js:16-18 | the empty registry satisfies the invariant |
| AccessProperties.ApplyKeepsInv | server.js:31-118 | any single handler call keeps the invariant and never shrinks the approved set |
| AccessProperties.RunKeepsInv | server.js:31-118 | over any sequence of calls with fresh uuids the invariant holds (one pending entry per address, pending and approved disjoint, distinct ids) and no approval is revoked |
| AccessProperties.RunKeepsApproved | server.js:31-118 | from any state and over any sequence of calls, no approved address is ever removed |
| AccessProperties.ApprovedStaysApproved | server.js:34-35 | from any state, after an approval, check-access from that address after any later calls answers `approved: true` and creates nothing |
| AccessProperties.DeclineThenAskAgain | server.js:38-48 | after a decline the address is gone from the pending list, and its next check-access creates a new pending request whose id differs from the declined one |
| AccessProperties.ApproveScenario | server.js:31-91 | ask from 1.2.3.4, admin join, approve: the admin is sent the one request, then `request-approved`, the pending list is empty, and the next check-access answers `approved: true` |
| AccessProperties.DeleteActionScenario | server.js:88-90 | the action `delete` with the right password gets 400 and changes nothing |
| AccessServer.Registry.constructor | server.js:16-19 | a new registry has empty collections, an empty outbox, satisfies the invariant, and keeps the given password |
| AccessServer.Registry.NotifyAdmins | server.js:51-53 | the broadcast loop appends to the outbox exactly one emit per admin session, in set order |
| AccessServer.Registry.CheckAccess | server.js:31-58 | the fields, reply and new emits are those of the check-access step; the invariant is kept; the reply is true exactly when the address is approved |
| AccessServer.Registry.AdminAction | server.js:61-91 | the fields, reply and new emits are those of the admin action step; the invariant is kept; on 401 nothing changes |
| AccessServer.Registry.ListPending | server.js:94-97 | returns the pending records in insertion order, one per pending address, and exactly the pending records |
| AccessServer.Registry.AdminJoin | server.js:104-113 | the fields and new emits are those of the admin-join step; the invariant is kept |
| AccessServer.Registry.Disconnect | server.js:115-118 | the sessions lose exactly that socket, nothing else changes, nothing is emitted |
| AccessLifecycle.ApproveLifecycle | server.js:31-118 | driving one registry object through ask, join, approve, list and ask again gives `approved: false`, success, an empty list, `approved: true`, and exactly the two emits the admin should see |

## Left out

- Express routing, static files and `sendFile` (server.js:12, 22-28): framework plumbing.
- JSON body parsing and the response encoding. Body fields are strings in the model. A missing or non-string `action` or `password` fails the same comparisons as a wrong string would. A non-string `ip` key is not modelled.
- The socket.io transport, connection handling and delivery: a session is an id and an emit is an append to `outbox`. Delivery is fire-and-forget, so a lost message is outside the model.
- `server.listen`, `process.env.PORT` and every `console.log` (server.js:101, 107, 117, 121-127): I/O.
- `uuidv4()`, `new Date()`, `req.get('User-Agent')` and `req.ip || req.connection.remoteAddress` (server.js:32, 39, 43-44, 70): these are parameters. Uuid uniqueness is a precondition, tracked in a ghost set.
- Interleaving of handlers: Node runs each handler to completion, so the model treats each call as one atomic step.

