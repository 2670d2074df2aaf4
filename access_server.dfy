/**
 * The handlers of server.js as methods on the registry object that owns
 * the three collections.  Every method updates the fields in place, as the
 * JavaScript does with `Map.set`, `Map.delete`, `Set.add` and `Set.delete`,
 * and appends what it emits to `outbox`; its postcondition ties the new
 * fields, the answer and the new emits to the step function of
 * `AccessModel`, about which `AccessProperties` proves what the server
 * promises.
 */
module AccessServer {
  import opened SeqUtil
  import opened AccessModel
  import opened AccessProperties

  class Registry {
    /** pending requests by client address (`accessRequests`) */
    var accessRequests: map<Key, Request>
    /** the insertion order of `accessRequests` */
    var requestOrder: seq<Key>
    /** approval time by client address (`approvedIPs`) */
    var approvedIPs: map<Key, Time>
    /** authenticated admin sessions in insertion order (`adminSockets`) */
    var adminSockets: seq<SocketId>
    /** every `socket.emit` so far, oldest first */
    var outbox: seq<Emit>
    /** the request ids handed out so far */
    ghost var issued: set<RequestId>
    /** `ADMIN_PASSWORD` */
    const adminPassword: string

    /** The collections as a value of the model. */
    ghost function Model(): State
      reads this
    {
      State(accessRequests, requestOrder, approvedIPs, adminSockets, issued)
    }

    ghost predicate Valid()
      reads this
    {
      Inv(Model())
    }

    /** A registry with empty collections, gated by `password`
        (server.js uses `AdminPassword`). */
    constructor (password: string)
      ensures Valid() && Model() == Init() && outbox == [] && adminPassword == password
    {
      accessRequests, requestOrder, approvedIPs, adminSockets := map[], [], map[], [];
      outbox := [];
      issued := {};
      adminPassword := password;
    }

    /** `adminSockets.forEach(socket => socket.emit(..., m))`. */
    method NotifyAdmins(m: Message)
      modifies this`outbox
      ensures outbox == old(outbox) + Broadcast(adminSockets, m)
    {
      for i := 0 to |adminSockets|
        invariant outbox == old(outbox) + Broadcast(adminSockets[..i], m)
      {
        BroadcastAppend(adminSockets[..i], adminSockets[i], m);
        assert adminSockets[..i + 1] == adminSockets[..i] + [adminSockets[i]];
        outbox := outbox + [Emit(adminSockets[i], m)];
      }
      assert adminSockets[..|adminSockets|] == adminSockets;
    }

    /** GET /api/check-access from `ip`; `id` is the fresh uuid, `at` the
        date and `agent` the User-Agent header. */
    method CheckAccess(ip: Key, id: RequestId, at: Time, agent: Option<string>) returns (approved: bool)
      requires Valid() && id !in issued
      modifies this
      ensures Valid()
      ensures var s := AccessModel.CheckAccess(old(Model()), ip, id, at, agent);
        approved == s.reply && Model() == s.next && outbox == old(outbox) + s.sent
      ensures approved <==> ip in approvedIPs
    {
      ghost var before := Model();
      CheckAccessKeepsInv(before, ip, id, at, agent);
      if ip in approvedIPs {
        approved := true;
      } else {
        if ip !in accessRequests {
          var requestData := Request(id, ip, at, agent, Pending);
          accessRequests := accessRequests[ip := requestData];
          requestOrder := requestOrder + [ip];
          issued := issued + {id};
          NotifyAdmins(NewRequest(requestData));
        }
        approved := false;
      }
    }

    /** POST /api/admin/action with body `{action, ip, password}`; `at` is
        the date of an approval. */
    method AdminAction(action: string, ip: Key, password: string, at: Time) returns (result: ActionResult)
      requires Valid()
      modifies this
      ensures Valid()
      ensures var s := AccessModel.AdminAction(old(Model()), adminPassword, action, ip, password, at);
        result == s.reply && Model() == s.next && outbox == old(outbox) + s.sent
      ensures result == Unauthorized ==> Model() == old(Model()) && outbox == old(outbox)
    {
      ghost var before := Model();
      AdminActionKeepsInv(before, adminPassword, action, ip, password, at);
      if password != adminPassword {
        return Unauthorized;
      }
      if action == "approve" {
        approvedIPs := approvedIPs[ip := at];
        accessRequests := accessRequests - {ip};
        requestOrder := Without(requestOrder, ip);
        NotifyAdmins(RequestApproved(ip));
        result := Success;
      } else if action == "decline" {
        accessRequests := accessRequests - {ip};
        requestOrder := Without(requestOrder, ip);
        NotifyAdmins(RequestDeclined(ip));
        result := Success;
      } else {
        result := InvalidAction;
      }
    }

    /** GET /api/admin/requests: the pending records in insertion order. */
    method ListPending() returns (requests: seq<Request>)
      requires Valid()
      ensures requests == PendingList(Model())
      ensures |requests| == |requestOrder| == |accessRequests|
      ensures forall i :: 0 <= i < |requestOrder| ==> requests[i] == accessRequests[requestOrder[i]]
      ensures forall q :: q in requests <==> q in accessRequests.Values
    {
      PendingListSpec(Model());
      requests := Values(requestOrder, accessRequests);
    }

    /** The socket event `admin-join(password)` from session `socket`. */
    method AdminJoin(socket: SocketId, password: string)
      requires Valid()
      modifies this
      ensures Valid()
      ensures var s := AccessModel.AdminJoin(old(Model()), adminPassword, socket, password);
        Model() == s.next && outbox == old(outbox) + s.sent
    {
      AdminJoinKeepsInv(Model(), adminPassword, socket, password);
      if password == adminPassword {
        var requests := Values(requestOrder, accessRequests);
        if socket !in adminSockets {
          adminSockets := adminSockets + [socket];
        }
        outbox := outbox + [Emit(socket, InitialRequests(requests))];
      }
    }

    /** The socket event `disconnect` from session `socket`. */
    method Disconnect(socket: SocketId)
      requires Valid()
      modifies this
      ensures Valid()
      ensures Model() == AccessModel.Disconnect(old(Model()), socket) && outbox == old(outbox)
    {
      DisconnectSpec(Model(), socket);
      adminSockets := Without(adminSockets, socket);
    }
  }
}

/** The lifecycle of one client, driven through the registry object: the
    client asks, an admin joins and is sent the request, the admin approves,
    every admin is told, and the client's next request is let in. */
module AccessLifecycle {
  import opened AccessModel
  import opened AccessServer
  import opened AccessProperties

  method ApproveLifecycle(admin: SocketId, id: RequestId, id2: RequestId, agent: Option<string>)
    returns (first: bool, result: ActionResult, pending: seq<Request>, second: bool, sent: seq<Emit>)
    requires id2 != id  // each uuid is fresh
    ensures !first && result == Success && second
    ensures pending == []
    ensures sent == [Emit(admin, InitialRequests([Request(id, "1.2.3.4", 0, agent, Pending)])),
                     Emit(admin, RequestApproved("1.2.3.4"))]
  {
    ApproveScenario(id, 0, agent, admin, 1, id2, 2);
    var ip := "1.2.3.4";
    var s1 := AccessModel.CheckAccess(Init(), ip, id, 0, agent);
    var s2 := AccessModel.AdminJoin(s1.next, AdminPassword, admin, AdminPassword);
    var s3 := AccessModel.AdminAction(s2.next, AdminPassword, "approve", ip, AdminPassword, 1);
    var r := new Registry(AdminPassword);
    first := r.CheckAccess(ip, id, 0, agent);
    assert r.Model() == s1.next && r.outbox == [];
    r.AdminJoin(admin, AdminPassword);
    assert r.Model() == s2.next && r.outbox == s2.sent;
    result := r.AdminAction("approve", ip, AdminPassword, 1);
    assert r.Model() == s3.next && r.outbox == s2.sent + s3.sent;
    pending := r.ListPending();
    second := r.CheckAccess(ip, id2, 2, agent);
    sent := r.outbox;
  }
}
