/**
 * What the handlers of server.js guarantee, proved about the value model:
 * the effect of each branch of each handler, the invariant they all keep,
 * that an approval is never taken back, and the request lifecycle over
 * whole sequences of calls.
 */
module AccessProperties {
  import opened SeqUtil
  import opened AccessModel

  // ---------------------------------------------------------------------
  // Notification fan-out and the pending snapshot
  // ---------------------------------------------------------------------

  /** A broadcast sends `m` once to each session, in the order of the set,
      and to no one else. */
  lemma {:induction false} BroadcastSpec(sockets: seq<SocketId>, m: Message)
    ensures |Broadcast(sockets, m)| == |sockets|
    ensures forall i :: 0 <= i < |sockets| ==> Broadcast(sockets, m)[i] == Emit(sockets[i], m)
    ensures forall e :: e in Broadcast(sockets, m) <==> e.to in sockets && e.message == m
    ensures NoDups(sockets) ==> NoDups(Broadcast(sockets, m))
  {
    if sockets != [] {
      BroadcastSpec(sockets[1..], m);
      var b := Broadcast(sockets, m);
      forall i | 0 <= i < |sockets| ensures b[i] == Emit(sockets[i], m) {
        if i > 0 {
          assert b[i] == Broadcast(sockets[1..], m)[i - 1];
        }
      }
      forall e ensures e in b <==> e.to in sockets && e.message == m {
        if e.to in sockets && e.message == m {
          var k :| 0 <= k < |sockets| && sockets[k] == e.to;
          assert b[k] == e;
        }
      }
      if NoDups(sockets) {
        forall i, j | 0 <= i < j < |b| ensures b[i] != b[j] {
          assert b[i].to == sockets[i] && b[j].to == sockets[j];
        }
      }
    }
  }

  /** Broadcasting to one more session appends one emit at the end: the
      step of the `forEach` loop. */
  lemma {:induction false} BroadcastAppend(sockets: seq<SocketId>, s: SocketId, m: Message)
    ensures Broadcast(sockets + [s], m) == Broadcast(sockets, m) + [Emit(s, m)]
  {
    if sockets == [] {
      assert sockets + [s] == [s];
    } else {
      assert (sockets + [s])[1..] == sockets[1..] + [s];
      BroadcastAppend(sockets[1..], s, m);
    }
  }

  /** The values of `m` listed along `order`, when every key of `order` is in `m`. */
  lemma {:induction false} ValuesSpec(order: seq<Key>, m: map<Key, Request>)
    requires forall i :: 0 <= i < |order| ==> order[i] in m
    ensures |Values(order, m)| == |order|
    ensures forall i :: 0 <= i < |order| ==> Values(order, m)[i] == m[order[i]]
  {
    if order != [] {
      ValuesSpec(order[1..], m);
      var v := Values(order, m);
      forall i | 0 <= i < |order| ensures v[i] == m[order[i]] {
        if i > 0 {
          assert v[i] == Values(order[1..], m)[i - 1];
        }
      }
    }
  }

  /** The pending snapshot lists the pending records in insertion order,
      each exactly once, and nothing else. */
  lemma PendingListSpec(g: State)
    requires Inv(g)
    ensures |PendingList(g)| == |g.requestOrder| == |g.accessRequests|
    ensures forall i :: 0 <= i < |g.requestOrder| ==> PendingList(g)[i] == g.accessRequests[g.requestOrder[i]]
    ensures forall q :: q in PendingList(g) <==> q in g.accessRequests.Values
    ensures NoDups(PendingList(g))
  {
    var p := PendingList(g);
    ValuesSpec(g.requestOrder, g.accessRequests);
    forall q ensures q in p <==> q in g.accessRequests.Values {
      if q in g.accessRequests.Values {
        var k :| k in g.accessRequests && g.accessRequests[k] == q;
        var i :| 0 <= i < |g.requestOrder| && g.requestOrder[i] == k;
        assert p[i] == q;
      }
    }
    forall i, j | 0 <= i < j < |p| ensures p[i] != p[j] {
      assert p[i].ip == g.requestOrder[i] && p[j].ip == g.requestOrder[j];
    }
    KeysOfOrder(g);
  }

  /** Under the invariant there are as many pending records as ordered keys. */
  lemma KeysOfOrder(g: State)
    requires Inv(g)
    ensures |g.accessRequests| == |g.requestOrder|
  {
    DistinctCard(g.requestOrder);
    assert g.accessRequests.Keys == set k | k in g.requestOrder;
  }

  /** A duplicate-free sequence has as many distinct elements as its length. */
  lemma {:induction false} DistinctCard(s: seq<Key>)
    requires NoDups(s)
    ensures |set k | k in s| == |s|
  {
    if s != [] {
      assert NoDups(s[1..]) by {
        forall i, j | 0 <= i < j < |s[1..]| ensures s[1..][i] != s[1..][j] {
          assert s[1..][i] == s[i + 1] && s[1..][j] == s[j + 1];
        }
      }
      DistinctCard(s[1..]);
      assert s[0] !in s[1..];
      assert (set k | k in s) == (set k | k in s[1..]) + {s[0]};
    }
  }

  // ---------------------------------------------------------------------
  // GET /api/check-access
  // ---------------------------------------------------------------------

  /** An approved address is answered `approved: true`; nothing changes and
      nothing is emitted. */
  lemma CheckAccessWhenApproved(g: State, ip: Key, id: RequestId, at: Time, agent: Option<string>)
    requires ip in g.approvedIPs
    ensures CheckAccess(g, ip, id, at, agent) == Step(true, g, [])
  {
  }

  /** A new address gets exactly one pending record, filed under it, at the
      end of the order; every admin session, and no other, is sent that
      record once; the answer is `approved: false`. */
  lemma CheckAccessCreatesRequest(g: State, ip: Key, id: RequestId, at: Time, agent: Option<string>)
    requires Inv(g)
    requires ip !in g.approvedIPs && ip !in g.accessRequests
    ensures var s := CheckAccess(g, ip, id, at, agent);
      var req := Request(id, ip, at, agent, Pending);
      && !s.reply
      && s.next.accessRequests.Keys == g.accessRequests.Keys + {ip}
      && |s.next.accessRequests| == |g.accessRequests| + 1
      && s.next.accessRequests[ip] == req
      && (forall k :: k in g.accessRequests ==> s.next.accessRequests[k] == g.accessRequests[k])
      && s.next.requestOrder == g.requestOrder + [ip]
      && PendingList(s.next) == PendingList(g) + [req]
      && s.next.approvedIPs == g.approvedIPs && s.next.adminSockets == g.adminSockets
      && |s.sent| == |g.adminSockets|
      && (forall i :: 0 <= i < |g.adminSockets| ==> s.sent[i] == Emit(g.adminSockets[i], NewRequest(req)))
      && (forall e :: e in s.sent <==> e.to in g.adminSockets && e.message == NewRequest(req))
  {
    var s := CheckAccess(g, ip, id, at, agent);
    var req := Request(id, ip, at, agent, Pending);
    assert s.next.accessRequests.Keys == g.accessRequests.Keys + {ip};
    assert PendingList(s.next) == PendingList(g) + [req] by {
      ValuesAppend(g.requestOrder, g.accessRequests, ip, req);
    }
    BroadcastSpec(g.adminSockets, NewRequest(req));
  }

  /** Listing along `order + [k]` in `m[k := v]`, where `k` is new, adds `v` at the end. */
  lemma {:induction false} ValuesAppend(order: seq<Key>, m: map<Key, Request>, k: Key, v: Request)
    requires k !in order
    ensures Values(order + [k], m[k := v]) == Values(order, m) + [v]
  {
    if order == [] {
      assert order + [k] == [k];
    } else {
      assert (order + [k])[1..] == order[1..] + [k];
      ValuesAppend(order[1..], m, k, v);
      assert order[0] != k;
    }
  }

  /** An address that already has a pending request is answered `false`,
      and nothing changes and nothing is emitted. */
  lemma CheckAccessWhenPending(g: State, ip: Key, id: RequestId, at: Time, agent: Option<string>)
    requires ip !in g.approvedIPs && ip in g.accessRequests
    ensures CheckAccess(g, ip, id, at, agent) == Step(false, g, [])
  {
  }

  /** Asking again from the same address, with whatever new uuid, date and
      User-Agent, creates no second entry and no second broadcast. */
  lemma CheckAccessRepeated(g: State, ip: Key, id1: RequestId, at1: Time, agent1: Option<string>,
                            id2: RequestId, at2: Time, agent2: Option<string>)
    ensures var s1 := CheckAccess(g, ip, id1, at1, agent1);
      s1.reply == (ip in g.approvedIPs) &&
      CheckAccess(s1.next, ip, id2, at2, agent2) == Step(s1.reply, s1.next, [])
  {
  }

  /** The check-access handler keeps the invariant when its uuid is fresh,
      and never touches the approved map or the admin sessions. */
  lemma CheckAccessKeepsInv(g: State, ip: Key, id: RequestId, at: Time, agent: Option<string>)
    requires Inv(g) && id !in g.issued
    ensures var s := CheckAccess(g, ip, id, at, agent);
      Inv(s.next) && s.next.approvedIPs == g.approvedIPs && s.next.adminSockets == g.adminSockets &&
      g.issued <= s.next.issued
  {
    if ip !in g.approvedIPs && ip !in g.accessRequests {
      AppendFreshNoDups(g.requestOrder, ip);
    }
  }

  // ---------------------------------------------------------------------
  // POST /api/admin/action
  // ---------------------------------------------------------------------

  /** A wrong password is answered 401, whatever the action: nothing changes
      and nothing is emitted. */
  lemma WrongPasswordChangesNothing(g: State, secret: string, action: string, ip: Key, password: string, at: Time)
    requires password != secret
    ensures AdminAction(g, secret, action, ip, password, at) == Step(Unauthorized, g, [])
    ensures StatusCode(AdminAction(g, secret, action, ip, password, at).reply) == 401
  {
  }

  /** The status the admin action endpoint answers: 401 exactly when the
      password is wrong, 400 exactly when it is right and the action is
      neither approve nor decline, 200 exactly when it is right and the
      action is one of them. */
  lemma ActionStatusCode(g: State, secret: string, action: string, ip: Key, password: string, at: Time)
    ensures var c := StatusCode(AdminAction(g, secret, action, ip, password, at).reply);
      && (c == 401 <==> password != secret)
      && (c == 400 <==> password == secret && action != "approve" && action != "decline")
      && (c == 200 <==> password == secret && (action == "approve" || action == "decline"))
  {
  }

  /** `approve` makes `ip` approved and not pending, leaves every other key
      of both maps as it was, and tells every admin session once; it does
      so whether or not `ip` was pending.  Under the invariant the pending
      snapshot afterwards is the old one without the record of `ip`, the
      others in their order. */
  lemma ApproveSpec(g: State, secret: string, ip: Key, at: Time)
    ensures var s := AdminAction(g, secret, "approve", ip, secret, at);
      && s.reply == Success
      && ip in s.next.approvedIPs && ip !in s.next.accessRequests
      && s.next.approvedIPs.Keys == g.approvedIPs.Keys + {ip}
      && s.next.accessRequests.Keys == g.accessRequests.Keys - {ip}
      && (forall k :: k != ip && k in g.approvedIPs ==> s.next.approvedIPs[k] == g.approvedIPs[k])
      && (forall k :: k != ip && k in g.accessRequests ==> s.next.accessRequests[k] == g.accessRequests[k])
      && (forall k :: k in s.next.requestOrder <==> k in g.requestOrder && k != ip)
      && s.next.adminSockets == g.adminSockets
      && |s.sent| == |g.adminSockets|
      && (forall i :: 0 <= i < |g.adminSockets| ==> s.sent[i] == Emit(g.adminSockets[i], RequestApproved(ip)))
      && (Inv(g) ==>
            PendingList(s.next) ==
            (if ip in g.accessRequests then Without(PendingList(g), g.accessRequests[ip]) else PendingList(g)))
  {
    WithoutSpec(g.requestOrder, ip);
    BroadcastSpec(g.adminSockets, RequestApproved(ip));
    if Inv(g) {
      DropPendingSnapshot(g, ip);
    }
  }

  /** `decline` takes `ip` out of the pending map, leaves the approved map
      and every other pending key as they were, and tells every admin
      session once.  Under the invariant the pending snapshot afterwards is
      the old one without the record of `ip`, the others in their order. */
  lemma DeclineSpec(g: State, secret: string, ip: Key, at: Time)
    ensures var s := AdminAction(g, secret, "decline", ip, secret, at);
      && s.reply == Success
      && ip !in s.next.accessRequests
      && s.next.accessRequests.Keys == g.accessRequests.Keys - {ip}
      && (forall k :: k != ip && k in g.accessRequests ==> s.next.accessRequests[k] == g.accessRequests[k])
      && (forall k :: k in s.next.requestOrder <==> k in g.requestOrder && k != ip)
      && s.next.approvedIPs == g.approvedIPs
      && s.next.adminSockets == g.adminSockets
      && |s.sent| == |g.adminSockets|
      && (forall i :: 0 <= i < |g.adminSockets| ==> s.sent[i] == Emit(g.adminSockets[i], RequestDeclined(ip)))
      && (Inv(g) ==>
            PendingList(s.next) ==
            (if ip in g.accessRequests then Without(PendingList(g), g.accessRequests[ip]) else PendingList(g)))
  {
    WithoutSpec(g.requestOrder, ip);
    BroadcastSpec(g.adminSockets, RequestDeclined(ip));
    if Inv(g) {
      DropPendingSnapshot(g, ip);
    }
  }

  /** Dropping `ip` from the pending map and its order leaves the old
      snapshot with the record of `ip` taken out, the others in order. */
  lemma DropPendingSnapshot(g: State, ip: Key)
    requires Inv(g)
    ensures Values(Without(g.requestOrder, ip), g.accessRequests - {ip}) ==
      if ip in g.accessRequests then Without(PendingList(g), g.accessRequests[ip]) else PendingList(g)
  {
    if ip in g.accessRequests {
      assert forall i :: 0 <= i < |g.requestOrder| ==> g.requestOrder[i] in g.accessRequests;
      DropValues(g.requestOrder, g.accessRequests, ip);
    } else {
      WithoutSpec(g.requestOrder, ip);
      assert Without(g.requestOrder, ip) == g.requestOrder;
      assert g.accessRequests - {ip} == g.accessRequests;
    }
  }

  /** Listing after a key is dropped is the old listing without that key's
      value, when each value records its own key. */
  lemma {:induction false} DropValues(order: seq<Key>, m: map<Key, Request>, ip: Key)
    requires ip in m
    requires forall i :: 0 <= i < |order| ==> order[i] in m
    requires forall k :: k in m ==> m[k].ip == k
    ensures Values(Without(order, ip), m - {ip}) == Without(Values(order, m), m[ip])
  {
    if order != [] {
      DropValues(order[1..], m, ip);
      var k := order[0];
      WithoutConcat([m[k]], Values(order[1..], m), m[ip]);
      assert [m[k]] + Values(order[1..], m) == Values(order, m);
      if k != ip {
        assert m[k] != m[ip];
      }
    }
  }

  /** Declining an address that is not pending leaves the whole registry as
      it was; only the notification goes out. */
  lemma DeclineNotPending(g: State, secret: string, ip: Key, at: Time)
    requires Inv(g) && ip !in g.accessRequests
    ensures AdminAction(g, secret, "decline", ip, secret, at).next == g
  {
    WithoutSpec(g.requestOrder, ip);
    assert g.accessRequests - {ip} == g.accessRequests;
  }

  /** Declining twice leaves the registry as declining once does. */
  lemma DeclineIdempotent(g: State, secret: string, ip: Key, at1: Time, at2: Time)
    ensures var once := AdminAction(g, secret, "decline", ip, secret, at1).next;
      AdminAction(once, secret, "decline", ip, secret, at2).next == once
  {
    var once := AdminAction(g, secret, "decline", ip, secret, at1).next;
    WithoutSpec(g.requestOrder, ip);
    WithoutSpec(once.requestOrder, ip);
    assert once.accessRequests - {ip} == once.accessRequests;
  }

  /** Any action other than `approve` and `decline` is answered 400, with
      nothing changed and nothing emitted. */
  lemma InvalidActionSpec(g: State, secret: string, action: string, ip: Key, at: Time)
    requires action != "approve" && action != "decline"
    ensures AdminAction(g, secret, action, ip, secret, at) == Step(InvalidAction, g, [])
    ensures StatusCode(AdminAction(g, secret, action, ip, secret, at).reply) == 400
  {
  }

  /** The admin action handler keeps the invariant, never removes an
      approved address, never adds a pending one, and hands out no uuid. */
  lemma AdminActionKeepsInv(g: State, secret: string, action: string, ip: Key, password: string, at: Time)
    requires Inv(g)
    ensures var s := AdminAction(g, secret, action, ip, password, at);
      && Inv(s.next)
      && g.approvedIPs.Keys <= s.next.approvedIPs.Keys
      && s.next.accessRequests.Keys <= g.accessRequests.Keys
      && s.next.issued == g.issued
      && s.next.adminSockets == g.adminSockets
  {
    if password == secret && action == "approve" {
      DropPendingKeepsInv(g, ip, g.approvedIPs[ip := at]);
    } else if password == secret && action == "decline" {
      DropPendingKeepsInv(g, ip, g.approvedIPs);
    }
  }

  /** Dropping `ip` from the pending map and its order keeps the invariant,
      whatever approved map `approved` comes with it, as long as no other
      pending key is in it. */
  lemma DropPendingKeepsInv(g: State, ip: Key, approved: map<Key, Time>)
    requires Inv(g)
    requires forall k :: k in g.accessRequests && k != ip ==> k !in approved
    ensures Inv(State(g.accessRequests - {ip}, Without(g.requestOrder, ip), approved, g.adminSockets, g.issued))
  {
    WithoutSpec(g.requestOrder, ip);
  }

  // ---------------------------------------------------------------------
  // Socket events admin-join and disconnect
  // ---------------------------------------------------------------------

  /** With the right password the session is tracked (once) and is sent the
      pending snapshot, alone; with a wrong one nothing happens.  The
      registry maps are untouched either way. */
  lemma AdminJoinSpec(g: State, secret: string, socket: SocketId, password: string)
    requires Inv(g)
    ensures var s := AdminJoin(g, secret, socket, password);
      && s.next.accessRequests == g.accessRequests && s.next.requestOrder == g.requestOrder
      && s.next.approvedIPs == g.approvedIPs
      && (password == secret ==>
            && (forall x :: x in s.next.adminSockets <==> x in g.adminSockets || x == socket)
            && s.next.adminSockets ==
               (if socket in g.adminSockets then g.adminSockets else g.adminSockets + [socket])
            && s.sent == [Emit(socket, InitialRequests(PendingList(g)))]
            && |PendingList(g)| == |g.accessRequests|)
      && (password != secret ==> s.next == g && s.sent == [])
  {
    PendingListSpec(g);
  }

  /** admin-join keeps the invariant. */
  lemma AdminJoinKeepsInv(g: State, secret: string, socket: SocketId, password: string)
    requires Inv(g)
    ensures Inv(AdminJoin(g, secret, socket, password).next)
  {
    if password == secret && socket !in g.adminSockets {
      AppendFreshNoDups(g.adminSockets, socket);
    }
  }

  /** disconnect stops tracking the session, keeps the others in their
      order, changes nothing else, and keeps the invariant. */
  lemma DisconnectSpec(g: State, socket: SocketId)
    requires Inv(g)
    ensures var n := Disconnect(g, socket);
      && Inv(n)
      && (forall x :: x in n.adminSockets <==> x in g.adminSockets && x != socket)
      && (socket !in g.adminSockets ==> n.adminSockets == g.adminSockets)
      && (forall i :: 0 <= i < |g.adminSockets| && g.adminSockets[i] == socket ==>
            n.adminSockets == g.adminSockets[..i] + g.adminSockets[i + 1..])
      && n.accessRequests == g.accessRequests && n.requestOrder == g.requestOrder
      && n.approvedIPs == g.approvedIPs && n.issued == g.issued
  {
    WithoutSpec(g.adminSockets, socket);
    forall i | 0 <= i < |g.adminSockets| && g.adminSockets[i] == socket
      ensures Without(g.adminSockets, socket) == g.adminSockets[..i] + g.adminSockets[i + 1..]
    {
      WithoutAt(g.adminSockets, i);
    }
  }

  // ---------------------------------------------------------------------
  // Whole runs
  // ---------------------------------------------------------------------

  /** The empty registry satisfies the invariant. */
  lemma InitInv()
    ensures Inv(Init())
  {
  }

  /** Any call keeps the invariant (given a fresh uuid) and never shrinks
      the approved set. */
  lemma ApplyKeepsInv(g: State, secret: string, c: Call)
    requires Inv(g)
    requires c.CheckAccessCall? ==> c.id !in g.issued
    ensures Inv(Apply(g, secret, c))
    ensures g.approvedIPs.Keys <= Apply(g, secret, c).approvedIPs.Keys
    ensures g.issued <= Apply(g, secret, c).issued
  {
    match c
    case CheckAccessCall(ip, id, at, agent) => CheckAccessKeepsInv(g, ip, id, at, agent);
    case ActionCall(action, ip, password, at) => AdminActionKeepsInv(g, secret, action, ip, password, at);
    case ListCall =>
    case JoinCall(socket, password) => AdminJoinKeepsInv(g, secret, socket, password);
    case DisconnectCall(socket) => DisconnectSpec(g, socket);
  }

  /** Over any sequence of calls the invariant holds and approvals are never
      revoked: an approved address stays approved for the process lifetime. */
  lemma {:induction false} RunKeepsInv(g: State, secret: string, cs: seq<Call>)
    requires Inv(g) && FreshIds(g, secret, cs)
    ensures Inv(Run(g, secret, cs))
    ensures g.approvedIPs.Keys <= Run(g, secret, cs).approvedIPs.Keys
    ensures g.issued <= Run(g, secret, cs).issued
    decreases |cs|
  {
    if cs != [] {
      ApplyKeepsInv(g, secret, cs[0]);
      RunKeepsInv(Apply(g, secret, cs[0]), secret, cs[1..]);
    }
  }

  /** Once approved, an address is answered `approved: true` after any
      later calls, and no request is created for it. */
  lemma ApprovedStaysApproved(g: State, secret: string, ip: Key, at: Time, cs: seq<Call>,
                              id: RequestId, now: Time, agent: Option<string>)
    ensures var later := Run(AdminAction(g, secret, "approve", ip, secret, at).next, secret, cs);
      CheckAccess(later, ip, id, now, agent) == Step(true, later, [])
  {
    RunKeepsApproved(AdminAction(g, secret, "approve", ip, secret, at).next, secret, cs);
  }

  /** No call ever removes an approved address, from whatever state. */
  lemma {:induction false} RunKeepsApproved(g: State, secret: string, cs: seq<Call>)
    ensures g.approvedIPs.Keys <= Run(g, secret, cs).approvedIPs.Keys
    decreases |cs|
  {
    if cs != [] {
      RunKeepsApproved(Apply(g, secret, cs[0]), secret, cs[1..]);
    }
  }

  /** After a decline, the next check-access from the same address creates
      a brand-new pending request whose id differs from the declined one. */
  lemma DeclineThenAskAgain(g: State, secret: string, ip: Key, at: Time,
                            id: RequestId, now: Time, agent: Option<string>)
    requires Inv(g) && ip in g.accessRequests && id !in g.issued
    ensures var declined := AdminAction(g, secret, "decline", ip, secret, at).next;
      var s := CheckAccess(declined, ip, id, now, agent);
      && ip !in declined.accessRequests
      && (forall q :: q in PendingList(declined) ==> q.ip != ip)
      && !s.reply
      && ip in s.next.accessRequests
      && s.next.accessRequests[ip].id == id
      && s.next.accessRequests[ip].id != g.accessRequests[ip].id
      && |s.sent| == |g.adminSockets|
  {
    var declined := AdminAction(g, secret, "decline", ip, secret, at).next;
    AdminActionKeepsInv(g, secret, "decline", ip, secret, at);
    PendingListSpec(declined);
    BroadcastSpec(g.adminSockets, NewRequest(Request(id, ip, now, agent, Pending)));
  }

  /** The lifecycle of one client: it asks, an admin joins and sees the
      request, approves it, everyone is told, the pending list empties and
      the client is let in. */
  lemma ApproveScenario(id: RequestId, t0: Time, agent: Option<string>, admin: SocketId, t1: Time, id2: RequestId, t2: Time)
    ensures var ip := "1.2.3.4";
      var s1 := CheckAccess(Init(), ip, id, t0, agent);
      var req := Request(id, ip, t0, agent, Pending);
      var s2 := AdminJoin(s1.next, AdminPassword, admin, AdminPassword);
      var s3 := AdminAction(s2.next, AdminPassword, "approve", ip, AdminPassword, t1);
      var s4 := CheckAccess(s3.next, ip, id2, t2, agent);
      && !s1.reply && s1.sent == [] && PendingList(s1.next) == [req]
      && s2.sent == [Emit(admin, InitialRequests([req]))]
      && s3.reply == Success && s3.sent == [Emit(admin, RequestApproved(ip))]
      && PendingList(s3.next) == []
      && s4 == Step(true, s3.next, [])
  {
    var ip := "1.2.3.4";
    var s1 := CheckAccess(Init(), ip, id, t0, agent);
    assert s1.next.requestOrder == [ip];
    var s2 := AdminJoin(s1.next, AdminPassword, admin, AdminPassword);
    assert s2.next.adminSockets == [admin];
    var req := Request(id, ip, t0, agent, Pending);
    assert s1.next.accessRequests == map[ip := req];
    ValuesAppend([], map[], ip, req);
    assert PendingList(s1.next) == [req];
    assert s2.sent == [Emit(admin, InitialRequests([req]))];
    var s3 := AdminAction(s2.next, AdminPassword, "approve", ip, AdminPassword, t1);
    assert s3.next.requestOrder == [] by {
      assert Without([ip], ip) == Without([ip][1..], ip);
    }
    assert s3.sent == [Emit(admin, RequestApproved(ip))] by {
      BroadcastAppend([], admin, RequestApproved(ip));
      assert [] + [admin] == [admin];
    }
    assert PendingList(s3.next) == [];
  }

  /** An unknown action from an admin with the right password is answered
      400 and changes nothing. */
  lemma DeleteActionScenario(g: State)
    ensures AdminAction(g, AdminPassword, "delete", "5.6.7.8", AdminPassword, 0) == Step(InvalidAction, g, [])
  {
  }
}
