/**
 * Federation between servers (`src/impls/sync`): a dispatch task that queues or
 * pushes each event, a stored queue per host, and a pull that takes the whole
 * queue. A network of any number of servers is a map from host names; one
 * request, one dispatched event and one pull are single steps.
 */
module Sync {
  import opened Wrappers
  import opened Bytes
  import opened Membership
  import opened Federation

  // ---- one server ----

  datatype Config = Config(allow: set<Host>, block: set<Host>)

  datatype Server = Server(
    config: Option<Config>,               // None when federation is disabled
    chat: Chat,
    queues: map<Host, seq<Event>>)        // the sync tree

  /** `is_host_allowed`. */
  predicate HostAllowed(server: Server, host: Host) {
    && server.config.Some?
    && var Config(allow, block) := server.config.value;
       host in allow || (allow == {} && host !in block)
  }

  function StoredQueue(server: Server, host: Host): seq<Event> {
    if host in server.queues then server.queues[host] else []
  }

  /** `push_logic`: one event from `from` edits the guild list. */
  function PushLogic(chat: Chat, from: Host, event: Event): Chat {
    match event
    case Added(user, guild) => chat.(lists := chat.lists + {Entry(user, guild, from)})
    case Removed(user, guild) => chat.(lists := chat.lists - {Entry(user, guild, from)})
  }

  function PushEvents(chat: Chat, from: Host, events: seq<Event>): Chat
    decreases |events|
  {
    if |events| == 0 then chat else PushEvents(PushLogic(chat, from, events[0]), from, events[1..])
  }

  /** The push endpoint: leave an empty queue marker if there is no row, then apply the event. */
  function PushHandler(server: Server, from: Host, event: Event): (Server, bool) {
    if !HostAllowed(server, from) then (server, false)
    else
      var queues := if from in server.queues then server.queues else server.queues[from := []];
      (server.(queues := queues, chat := PushLogic(server.chat, from, event)), true)
  }

  /** The pull endpoint: hand out the whole queue and drop its row. */
  function PullHandler(server: Server, from: Host): (Server, Option<seq<Event>>) {
    if !HostAllowed(server, from) then (server, None)
    else (server.(queues := server.queues - {from}), Some(StoredQueue(server, from)))
  }

  /** What the network does with one push request. */
  datatype Attempt = RequestLost | ReplyLost | Answered

  function Deliver(peer: Server, from: Host, event: Event, attempt: Attempt): (Server, bool) {
    match attempt
    case RequestLost => (peer, false)
    case ReplyLost => (PushHandler(peer, from, event).0, false)
    case Answered => PushHandler(peer, from, event)
  }

  /** Retries until one attempt is answered with success. */
  function Push(peer: Server, from: Host, event: Event, attempts: seq<Attempt>): (Server, bool)
    decreases |attempts|
  {
    if |attempts| == 0 then (peer, false)
    else
      var (reached, ok) := Deliver(peer, from, event, attempts[0]);
      if ok then (reached, true) else Push(reached, from, event, attempts[1..])
  }

  /** Queue the event: no row, or a row that is not the empty marker. */
  predicate MustQueue(server: Server, host: Host) {
    host !in server.queues || server.queues[host] != []
  }

  function Enqueued(server: Server, host: Host, event: Event): Server {
    server.(queues := server.queues[host := StoredQueue(server, host) + [event]])
  }

  /** The dispatch task on one event; `peer` is the server behind `host`. */
  function Dispatched(sender: Server, me: Host, peer: Server, host: Host, event: Event, attempts: seq<Attempt>)
    : (Server, Server)
  {
    if !HostAllowed(sender, host) then (sender, peer)
    else if MustQueue(sender, host) then (Enqueued(sender, host, event), peer)
    else
      var taken := sender.(queues := sender.queues - {host});
      var (reached, ok) := Push(peer, me, event, attempts);
      (if ok then taken else Enqueued(taken, host, event), reached)
  }

  function TakeDispatch(server: Server): Server
    requires server.chat.outbox != []
  {
    server.(chat := server.chat.(outbox := server.chat.outbox[1..]))
  }

  // ---- networks ----

  type Network = map<Host, Server>

  datatype Step =
    | Request(at: Host, op: Op)
    | DispatchNext(at: Host, attempts: seq<Attempt>)
    | Pull(at: Host, from: Host)
    | PullUnanswered(at: Host, from: Host)    // the answer of a pull is lost on its way

  /** The first attempt and five retries. */
  const MAX_ATTEMPTS := 6

  predicate Possible(net: Network, step: Step) {
    && step.at in net
    && match step
       case Request(_, op) => Drawable(op)
       case DispatchNext(_, attempts) => net[step.at].chat.outbox != [] && |attempts| == MAX_ATTEMPTS
       case Pull(at, from) => from in net && from != at && from in net[at].queues
       case PullUnanswered(at, from) => from in net && from != at && from in net[at].queues
  }

  ghost function Performed(net: Network, step: Step): Network
    requires Possible(net, step)
  {
    match step
    case Request(at, op) => net[at := net[at].(chat := After(net[at].chat, op))]
    case DispatchNext(at, attempts) =>
      var next := net[at].chat.outbox[0];
      var sender := TakeDispatch(net[at]);
      if next.host in net && next.host != at then
        var (sender', peer') := Dispatched(sender, at, net[next.host], next.host, next.event, attempts);
        net[at := sender'][next.host := peer']
      else
        // nobody answers under that name: every attempt is lost
        net[at := Dispatched(sender, at, sender, next.host, next.event, []).0]
    case Pull(at, from) =>
      if !HostAllowed(net[at], from) then net
      else
        var (source, queue) := PullHandler(net[from], at);
        (match queue
         case None => net
         case Some(events) =>
           net[from := source][at := net[at].(chat := PushEvents(net[at].chat, from, events))])
    case PullUnanswered(at, from) =>
      if !HostAllowed(net[at], from) then net else net[from := PullHandler(net[from], at).0]
  }

  // ---- agreement ----

  /** Events of `sender` for `host` that the receiver has not seen for certain. */
  function Pending(sender: Server, host: Host): seq<Event> {
    StoredQueue(sender, host) + EventsFor(sender.chat.outbox, host)
  }

  /** Replaying what is pending on the receiver's list gives the sender's true membership. */
  ghost predicate Agree(sender: Server, me: Host, receiver: Server, host: Host) {
    Replay(ListedFrom(receiver.chat, me), Pending(sender, host)) == RemoteMembers(sender.chat, host)
  }

  ghost predicate Agreement(net: Network) {
    && [] !in net
    && (forall a | a in net :: LinksSound(net[a].chat))
    && (forall a, b | a in net && b in net && a != b && HostAllowed(net[a], b) :: Agree(net[a], a, net[b], b))
  }

  // ---- pushing ----

  lemma PushLogicListed(chat: Chat, from: Host, event: Event, host: Host)
    ensures ListedFrom(PushLogic(chat, from, event), host)
         == if host == from then Effect(ListedFrom(chat, from), event) else ListedFrom(chat, host)
  {
    var after := PushLogic(chat, from, event);
    forall pair: (u64, u64)
      ensures pair in ListedFrom(after, host) <==> Entry(pair.0, pair.1, host) in after.lists
      ensures pair in ListedFrom(chat, host) <==> Entry(pair.0, pair.1, host) in chat.lists
    {
      Listed(after, host, pair);
      Listed(chat, host, pair);
    }
  }

  lemma {:induction false} PushEventsListed(chat: Chat, from: Host, events: seq<Event>, host: Host)
    ensures ListedFrom(PushEvents(chat, from, events), host)
         == if host == from then Replay(ListedFrom(chat, from), events) else ListedFrom(chat, host)
    ensures PushEvents(chat, from, events).(lists := chat.lists) == chat
    decreases |events|
  {
    if |events| > 0 {
      PushLogicListed(chat, from, events[0], host);
      PushEventsListed(PushLogic(chat, from, events[0]), from, events[1..], host);
    }
  }

  /** A peer after some push attempts: it may have applied the event, any number of times. */
  ghost predicate Reached(peer: Server, from: Host, event: Event, after: Server) {
    && after.config == peer.config
    && after.chat.(lists := peer.chat.lists) == peer.chat
    && (forall host | host != from :: ListedFrom(after.chat, host) == ListedFrom(peer.chat, host))
    && (forall host :: StoredQueue(after, host) == StoredQueue(peer, host))
    && (|| ListedFrom(after.chat, from) == ListedFrom(peer.chat, from)
        || ListedFrom(after.chat, from) == Effect(ListedFrom(peer.chat, from), event))
  }

  lemma PushHandlerReaches(peer: Server, from: Host, event: Event)
    ensures var (after, ok) := PushHandler(peer, from, event);
            && Reached(peer, from, event, after)
            && (ok ==> ListedFrom(after.chat, from) == Effect(ListedFrom(peer.chat, from), event))
  {
    var (after, ok) := PushHandler(peer, from, event);
    if ok {
      forall host
        ensures ListedFrom(after.chat, host)
             == if host == from then Effect(ListedFrom(peer.chat, from), event) else ListedFrom(peer.chat, host)
      {
        PushLogicListed(peer.chat, from, event, host);
      }
    }
  }

  lemma ReachedTwice(peer: Server, from: Host, event: Event, mid: Server, after: Server)
    requires Reached(peer, from, event, mid) && Reached(mid, from, event, after)
    ensures Reached(peer, from, event, after)
  {
    EffectIdempotent(ListedFrom(peer.chat, from), event);
    assert after.chat.(lists := peer.chat.lists) == mid.chat.(lists := peer.chat.lists);
  }

  /** However many attempts got through, the event's effect is there if one was answered. */
  lemma {:induction false} PushReaches(peer: Server, from: Host, event: Event, attempts: seq<Attempt>)
    ensures var (after, ok) := Push(peer, from, event, attempts);
            && Reached(peer, from, event, after)
            && (ok ==> ListedFrom(after.chat, from) == Effect(ListedFrom(peer.chat, from), event))
    decreases |attempts|
  {
    if |attempts| > 0 {
      var (mid, ok) := Deliver(peer, from, event, attempts[0]);
      PushHandlerReaches(peer, from, event);
      if !ok {
        PushReaches(mid, from, event, attempts[1..]);
        ReachedTwice(peer, from, event, mid, Push(mid, from, event, attempts[1..]).0);
        EffectIdempotent(ListedFrom(peer.chat, from), event);
      }
    }
  }

  /** A push ends well exactly when the peer deals with the sender and some attempt is answered; any that arrives counts. */
  lemma {:induction false} PushSucceedsIff(peer: Server, from: Host, event: Event, attempts: seq<Attempt>)
    ensures var (after, ok) := Push(peer, from, event, attempts);
            && (ok <==> HostAllowed(peer, from) && Answered in attempts)
            && ListedFrom(after.chat, from)
               == if HostAllowed(peer, from) && exists attempt | attempt in attempts :: attempt != RequestLost
                  then Effect(ListedFrom(peer.chat, from), event) else ListedFrom(peer.chat, from)
    decreases |attempts|
  {
    hide ListedFrom, Reached;
    if |attempts| > 0 {
      var (mid, ok) := Deliver(peer, from, event, attempts[0]);
      PushHandlerListed(peer, from, event);
      EffectIdempotent(ListedFrom(peer.chat, from), event);
      assert forall attempt :: attempt in attempts <==> attempt == attempts[0] || attempt in attempts[1..];
      assert attempts[0] in attempts;
      if !ok {
        PushSucceedsIff(mid, from, event, attempts[1..]);
      }
    }
  }

  lemma PushHandlerListed(peer: Server, from: Host, event: Event)
    ensures var (after, ok) := PushHandler(peer, from, event);
            && (ok <==> HostAllowed(peer, from))
            && after.config == peer.config
            && ListedFrom(after.chat, from)
               == if ok then Effect(ListedFrom(peer.chat, from), event) else ListedFrom(peer.chat, from)
  {
    PushLogicListed(peer.chat, from, event, from);
  }

  /**
   * With federation enabled a server deals with exactly the hosts on its allow
   * list, or with all but those on its block list if the allow list is empty;
   * with federation disabled it deals with nobody.
   */
  lemma DealsWithIff(server: Server, host: Host, event: Event, peer: Server, me: Host, attempts: seq<Attempt>)
    ensures var deals := match server.config
                         case None => false
                         case Some(Config(allow, block)) => if allow == {} then host !in block else host in allow;
            && (PushHandler(server, host, event).1 <==> deals)
            && (PullHandler(server, host).1.Some? <==> deals)
            && (!deals ==> PushHandler(server, host, event).0 == server && PullHandler(server, host).0 == server)
            && (Dispatched(server, me, peer, host, event, attempts) != (server, peer) ==> deals)
            && (deals && host !in server.queues ==> Dispatched(server, me, peer, host, event, attempts).0 != server)
  {
  }

  /** A dispatched event is queued last, or pushed without a row left behind, or the only one queued if the push fails. */
  lemma DispatchOutcome(sender: Server, me: Host, peer: Server, host: Host, event: Event, attempts: seq<Attempt>)
    requires HostAllowed(sender, host)
    ensures var (sender', peer') := Dispatched(sender, me, peer, host, event, attempts);
            var pushed := host in sender.queues && sender.queues[host] == [];
            && (if pushed && HostAllowed(peer, me) && Answered in attempts then
                  host !in sender'.queues && ListedFrom(peer'.chat, me) == Effect(ListedFrom(peer.chat, me), event)
                else
                  host in sender'.queues && sender'.queues[host] == StoredQueue(sender, host) + [event])
            && (!pushed ==> peer' == peer)
            && (forall other | other != host ::
                  && (other in sender'.queues <==> other in sender.queues)
                  && (other in sender.queues ==> sender'.queues[other] == sender.queues[other]))
  {
    hide ListedFrom;
    PushSucceedsIff(peer, me, event, attempts);
    assert Answered in attempts ==> exists attempt | attempt in attempts :: attempt != RequestLost;
  }

  /** A pull takes the whole queue and its row away from the sender, and applies it to the puller's list if it is answered. */
  lemma PullTakesAll(net: Network, at: Host, from: Host)
    requires Possible(net, Pull(at, from)) && HostAllowed(net[at], from) && HostAllowed(net[from], at)
    ensures var after, lost := Performed(net, Pull(at, from)), Performed(net, PullUnanswered(at, from));
            && after.Keys == net.Keys == lost.Keys
            && after[from] == net[from].(queues := net[from].queues - {at})
            && after[at].(chat := net[at].chat) == net[at]
            && ListedFrom(after[at].chat, from) == Replay(ListedFrom(net[at].chat, from), StoredQueue(net[from], at))
            && (forall host | host != from :: ListedFrom(after[at].chat, host) == ListedFrom(net[at].chat, host))
            && (forall host | host in net && host != at && host != from :: after[host] == net[host])
            && lost == net[from := after[from]]
  {
    hide ListedFrom;
    forall host
      ensures ListedFrom(Performed(net, Pull(at, from))[at].chat, host)
           == if host == from then Replay(ListedFrom(net[at].chat, from), StoredQueue(net[from], at))
              else ListedFrom(net[at].chat, host)
    {
      PushEventsListed(net[at].chat, from, StoredQueue(net[from], at), host);
    }
  }

  // ---- each step keeps the agreement ----

  /** Dispatching an event keeps sender and receiver in agreement, whatever the network does. */
  lemma DispatchKeepsAgree(sender: Server, a: Host, peer: Server, b: Host, event: Event, attempts: seq<Attempt>)
    requires HostAllowed(sender, b)
    requires Replay(ListedFrom(peer.chat, a), StoredQueue(sender, b) + ([event] + EventsFor(sender.chat.outbox, b)))
          == RemoteMembers(sender.chat, b)
    ensures var (sender', peer') := Dispatched(sender, a, peer, b, event, attempts);
            Agree(sender', a, peer', b)
  {
    hide Push, ListedFrom, RemoteMembers;
    var (sender', peer') := Dispatched(sender, a, peer, b, event, attempts);
    var rest, list := EventsFor(sender.chat.outbox, b), ListedFrom(peer.chat, a);
    if MustQueue(sender, b) {
      assert StoredQueue(sender, b) + ([event] + rest) == (StoredQueue(sender, b) + [event]) + rest;
    } else {
      PushReaches(peer, a, event, attempts);
      var (reached, ok) := Push(peer, a, event, attempts);
      assert StoredQueue(sender, b) + ([event] + rest) == [event] + rest;
      assert ([event] + rest)[1..] == rest;
      EffectIdempotent(list, event);
      if ok {
        assert Pending(sender', b) == rest;
      } else {
        assert Pending(sender', b) == [event] + rest;
      }
    }
  }

  lemma DispatchFrame(sender: Server, a: Host, peer: Server, b: Host, event: Event, attempts: seq<Attempt>)
    ensures var (sender', peer') := Dispatched(sender, a, peer, b, event, attempts);
            && sender'.config == sender.config
            && sender'.chat == sender.chat
            && (forall host | host != b :: StoredQueue(sender', host) == StoredQueue(sender, host))
            && peer'.config == peer.config
            && peer'.chat.(lists := peer.chat.lists) == peer.chat
            && (forall host | host != a :: ListedFrom(peer'.chat, host) == ListedFrom(peer.chat, host))
            && (forall host :: StoredQueue(peer', host) == StoredQueue(peer, host))
  {
    PushReaches(peer, a, event, attempts);
  }

  lemma OutboxGrows(chat: Chat, op: Op)
    ensures var after := After(chat, op);
            |chat.outbox| <= |after.outbox| && after.outbox[..|chat.outbox|] == chat.outbox
  {
    hide MemberIds, NotifyDeleted, CheckGuildUser, CheckRemoval, CheckJoin, IsOwner;
    if op.DeleteGuild? {
      NotifyEmits(DropGuild(chat, op.g), op.actor, op.g, MemberIds(chat, op.g), []);
    }
  }

  /** A request keeps the agreement with a host exactly when what it emits for the host says what it did. */
  lemma AnnouncedAgreesIff(sender: Server, after: Chat, a: Host, receiver: Server, b: Host)
    requires Agree(sender, a, receiver, b)
    requires |sender.chat.outbox| <= |after.outbox| && after.outbox[..|sender.chat.outbox|] == sender.chat.outbox
    ensures Agree(sender.(chat := after), a, receiver, b) <==> Announces(sender.chat, after, b)
  {
    var before, sender' := sender.chat, sender.(chat := after);
    var emitted := after.outbox[|before.outbox|..];
    assert after.outbox == before.outbox + emitted;
    EventsForConcat(before.outbox, emitted, b);
    assert Pending(sender', b) == Pending(sender, b) + EventsFor(emitted, b);
    ReplayConcat(ListedFrom(receiver.chat, a), Pending(sender, b), EventsFor(emitted, b));
  }

  /** Losing entries of its list leaves a receiver in agreement exactly when pending events decide every one of them. */
  lemma DroppedAgreesIff(sender: Server, a: Host, receiver: Server, after: Chat, b: Host, dropped: Guildlist)
    requires Agree(sender, a, receiver, b)
    requires ListedFrom(after, a) == ListedFrom(receiver.chat, a) - dropped && dropped <= ListedFrom(receiver.chat, a)
    ensures Agree(sender, a, receiver.(chat := after), b)
       <==> forall pair | pair in dropped :: LastAbout(Pending(sender, b), pair).Some?
  {
    var list, events := ListedFrom(receiver.chat, a), Pending(sender, b);
    forall pair: (u64, u64)
      ensures (pair in Replay(list - dropped, events) <==> pair in Replay(list, events))
         <==> (pair in dropped ==> LastAbout(events, pair).Some?)
    {
      ReplayPointwise(list - dropped, events, pair);
      ReplayPointwise(list, events, pair);
    }
    if forall pair | pair in dropped :: LastAbout(events, pair).Some? {
      assert Replay(list - dropped, events) == Replay(list, events);
    } else {
      var pair :| pair in dropped && LastAbout(events, pair).None?;
      ReplayPointwise(list - dropped, events, pair);
      ReplayPointwise(list, events, pair);
    }
  }

  /** What a request does not check and a look at the network beforehand tells. */
  ghost predicate Tells(net: Network, at: Host, op: Op)
    requires at in net
  {
    && (forall b | b in net && b != at && HostAllowed(net[at], b) :: AnnouncesTo(net[at].chat, op, b))
    && (forall a | a in net && a != at && HostAllowed(net[a], at) ::
          forall pair | pair in Dropped(net[at].chat, op, a) :: LastAbout(Pending(net[a], at), pair).Some?)
  }

  lemma RequestAsSender(net: Network, at: Host, op: Op, b: Host)
    requires Agreement(net) && at in net && b in net && b != at && HostAllowed(net[at], b)
    ensures Agree(net[at].(chat := After(net[at].chat, op)), at, net[b], b) <==> AnnouncesTo(net[at].chat, op, b)
  {
    OutboxGrows(net[at].chat, op);
    AnnouncedAgreesIff(net[at], After(net[at].chat, op), at, net[b], b);
    HandlerAnnouncesIff(net[at].chat, op, b);
  }

  lemma RequestAsReceiver(net: Network, at: Host, op: Op, a: Host)
    requires Agreement(net) && at in net && a in net && a != at && HostAllowed(net[a], at)
    ensures Agree(net[a], a, net[at].(chat := After(net[at].chat, op)), at)
       <==> forall pair | pair in Dropped(net[at].chat, op, a) :: LastAbout(Pending(net[a], at), pair).Some?
  {
    HandlerListed(net[at].chat, op, a);
    DroppedAgreesIff(net[a], a, net[at], After(net[at].chat, op), at, Dropped(net[at].chat, op, a));
  }

  /** A request keeps all servers in agreement exactly when it tells everybody concerned. */
  lemma RequestKeepsIff(net: Network, step: Step)
    requires Agreement(net) && Possible(net, step) && step.Request?
    ensures Agreement(Performed(net, step)) <==> Tells(net, step.at, step.op)
  {
    hide AnnouncesTo, Dropped, LastAbout, Pending, After;
    var Request(at, op) := step;
    var net' := Performed(net, step);
    HandlerKeepsLinks(net[at].chat, op);
    forall b | b in net && b != at && HostAllowed(net[at], b)
      ensures Agree(net'[at], at, net'[b], b) <==> AnnouncesTo(net[at].chat, op, b)
    {
      RequestAsSender(net, at, op, b);
    }
    forall a | a in net && a != at && HostAllowed(net[a], at)
      ensures Agree(net'[a], a, net'[at], at)
         <==> forall pair | pair in Dropped(net[at].chat, op, a) :: LastAbout(Pending(net[a], at), pair).Some?
    {
      RequestAsReceiver(net, at, op, a);
    }
    forall a, b | a in net' && b in net' && a != b && a != at && b != at && HostAllowed(net'[a], b)
      ensures Agree(net'[a], a, net'[b], b)
    {
      assert Agree(net[a], a, net[b], b);
    }
  }

  lemma HandlerKeepsLinks(chat: Chat, op: Op)
    requires LinksSound(chat) && Drawable(op)
    ensures LinksSound(After(chat, op))
  {
    if op.DeleteGuild? {
      NotifyFrame(DropGuild(chat, op.g), op.actor, op.g, MemberIds(chat, op.g));
    }
  }

  /** The dispatching server against every receiver, the addressed one and the others. */
  lemma DispatchKeepsSender(server: Server, a: Host, peer: Server, receiver: Server, b: Host, attempts: seq<Attempt>)
    requires server.chat.outbox != [] && HostAllowed(server, b) && Agree(server, a, receiver, b)
    requires server.chat.outbox[0].host == b ==> peer == receiver
    ensures var next := server.chat.outbox[0];
            var (sender', peer') := Dispatched(TakeDispatch(server), a, peer, next.host, next.event, attempts);
            Agree(sender', a, if next.host == b then peer' else receiver, b)
  {
    var next, sender := server.chat.outbox[0], TakeDispatch(server);
    assert StoredQueue(sender, b) == StoredQueue(server, b);
    if next.host == b {
      DispatchKeepsAgree(sender, a, peer, b, next.event, attempts);
    } else {
      DispatchFrame(sender, a, peer, next.host, next.event, attempts);
      assert EventsFor(sender.chat.outbox, b) == EventsFor(server.chat.outbox, b);
    }
  }

  lemma DispatchKeeps(net: Network, step: Step)
    requires Agreement(net) && Possible(net, step) && step.DispatchNext?
    ensures Agreement(Performed(net, step))
  {
    hide Dispatched, Replay, Push;
    var DispatchNext(at, attempts) := step;
    var net' := Performed(net, step);
    var next, sender := net[at].chat.outbox[0], TakeDispatch(net[at]);
    var known := next.host in net && next.host != at;
    var peer, tries := (if known then net[next.host] else sender), (if known then attempts else []);
    DispatchFrame(sender, at, peer, next.host, next.event, tries);
    forall a, b | a in net' && b in net' && a != b && HostAllowed(net'[a], b)
      ensures Agree(net'[a], a, net'[b], b)
    {
      assert Agree(net[a], a, net[b], b);
      if a == at {
        DispatchKeepsSender(net[at], at, peer, net[b], b, tries);
      }
    }
  }

  lemma PullKeeps(net: Network, step: Step)
    requires Agreement(net) && Possible(net, step) && step.Pull?
    ensures Agreement(Performed(net, step))
  {
    var Pull(at, from) := step;
    var net' := Performed(net, step);
    if HostAllowed(net[at], from) && HostAllowed(net[from], at) {
      var events := StoredQueue(net[from], at);
      forall host
        ensures ListedFrom(net'[at].chat, host)
             == if host == from then Replay(ListedFrom(net[at].chat, from), events) else ListedFrom(net[at].chat, host)
        ensures net'[at].chat.(lists := net[at].chat.lists) == net[at].chat
      {
        PushEventsListed(net[at].chat, from, events, host);
      }
      forall a, b | a in net' && b in net' && a != b && HostAllowed(net'[a], b)
        ensures Agree(net'[a], a, net'[b], b)
      {
        assert Agree(net[a], a, net[b], b);
        if a == from && b == at {
          ReplayConcat(ListedFrom(net[at].chat, from), events, EventsFor(net[from].chat.outbox, at));
          assert Pending(net'[a], b) == EventsFor(net[from].chat.outbox, at);
        }
      }
    }
  }

  // ---- a pull whose answer is lost ----

  /** The queue left the sender, the receiver never saw it. */
  function PullLost(net: Network, at: Host, from: Host): Network
    requires at in net && from in net
  {
    net[from := net[from].(queues := net[from].queues - {at})]
  }

  /** Of every pair in the lost queue, later pending events decide it or the receiver already lists it as the queue says. */
  ghost predicate Dispensable(net: Network, at: Host, from: Host)
    requires at in net && from in net
  {
    var queue, later := StoredQueue(net[from], at), EventsFor(net[from].chat.outbox, at);
    forall pair | LastAbout(later, pair).None? && LastAbout(queue, pair).Some? ::
      LastAbout(queue, pair) == Some(pair in ListedFrom(net[at].chat, from))
  }

  /**
   * A lost answer is harmless exactly for the pairs that later pending events
   * decide, and for those the receiver already lists as the lost events say.
   */
  lemma LostPullAgreesIff(net: Network, at: Host, from: Host)
    requires Agreement(net) && at in net && from in net && at != from && HostAllowed(net[from], at)
    ensures Agree(PullLost(net, at, from)[from], from, net[at], at) <==> Dispensable(net, at, from)
  {
    var queue, later := StoredQueue(net[from], at), EventsFor(net[from].chat.outbox, at);
    var list, after := ListedFrom(net[at].chat, from), PullLost(net, at, from)[from];
    assert Pending(after, at) == later;
    assert Agree(net[from], from, net[at], at);
    ReplayConcat(list, queue, later);
    forall pair: (u64, u64)
      ensures (pair in Replay(list, later) <==> pair in Replay(Replay(list, queue), later))
         <==> (LastAbout(later, pair).None? && LastAbout(queue, pair).Some? ==> LastAbout(queue, pair) == Some(pair in list))
    {
      ReplayPointwise(list, later, pair);
      ReplayPointwise(Replay(list, queue), later, pair);
      ReplayPointwise(list, queue, pair);
    }
    assert Agree(after, from, net[at], at) <==>
        forall pair :: pair in Replay(list, later) <==> pair in Replay(Replay(list, queue), later);
  }

  /** A lost answer keeps all servers in agreement exactly when its events are dispensable or no queue was handed out. */
  lemma UnansweredKeepsIff(net: Network, step: Step)
    requires Agreement(net) && Possible(net, step) && step.PullUnanswered?
    ensures Agreement(Performed(net, step)) <==> Forgivable(net, step.at, step.from)
  {
    hide LastAbout, ListedFrom, RemoteMembers, Replay, Dispensable;
    var PullUnanswered(at, from) := step;
    var net' := Performed(net, step);
    if HostAllowed(net[at], from) && HostAllowed(net[from], at) {
      LostPullAgreesIff(net, at, from);
      assert net' == PullLost(net, at, from);
      forall a, b | a in net' && b in net' && a != b && HostAllowed(net'[a], b) && (a, b) != (from, at)
        ensures Agree(net'[a], a, net'[b], b)
      {
        assert Agree(net[a], a, net[b], b);
      }
      assert Agreement(net') <==> Agree(net'[from], from, net'[at], at);
    } else {
      assert net' == net;
    }
  }

  ghost predicate Forgivable(net: Network, at: Host, from: Host)
    requires at in net && from in net
  {
    HostAllowed(net[at], from) && HostAllowed(net[from], at) ==> Dispensable(net, at, from)
  }

  /** Requests have to tell everybody concerned, and lost answers must be forgivable; the other steps are always fine. */
  ghost predicate Fair(net: Network, step: Step) {
    && Possible(net, step)
    && (step.Request? ==> Tells(net, step.at, step.op))
    && (step.PullUnanswered? ==> Forgivable(net, step.at, step.from))
  }

  /** A step keeps the agreement exactly when it is fair. */
  lemma StepKeepsAgreementIff(net: Network, step: Step)
    requires Agreement(net) && Possible(net, step)
    ensures Agreement(Performed(net, step)) <==> Fair(net, step)
  {
    match step
    case Request(_, _) => RequestKeepsIff(net, step);
    case DispatchNext(_, _) => DispatchKeeps(net, step);
    case Pull(_, _) => PullKeeps(net, step);
    case PullUnanswered(_, _) => UnansweredKeepsIff(net, step);
  }

  // ---- runs ----

  ghost predicate PossibleRun(net: Network, steps: seq<Step>)
    decreases |steps|
  {
    |steps| == 0 || (Possible(net, steps[0]) && PossibleRun(Performed(net, steps[0]), steps[1..]))
  }

  ghost function RunNet(net: Network, steps: seq<Step>): Network
    requires PossibleRun(net, steps)
    decreases |steps|
  {
    if |steps| == 0 then net else RunNet(Performed(net, steps[0]), steps[1..])
  }

  ghost predicate FairRun(net: Network, steps: seq<Step>)
    ensures FairRun(net, steps) ==> PossibleRun(net, steps)
    decreases |steps|
  {
    |steps| == 0 || (Fair(net, steps[0]) && FairRun(Performed(net, steps[0]), steps[1..]))
  }

  lemma {:induction false} RunKeepsAgreement(net: Network, steps: seq<Step>)
    requires Agreement(net) && FairRun(net, steps)
    ensures Agreement(RunNet(net, steps))
    decreases |steps|
  {
    if |steps| > 0 {
      StepKeepsAgreementIff(net, steps[0]);
      RunKeepsAgreement(Performed(net, steps[0]), steps[1..]);
    }
  }

  /** All servers agree in every state of the run. */
  ghost predicate AgreesThroughout(net: Network, steps: seq<Step>)
    requires PossibleRun(net, steps)
    decreases |steps|
  {
    Agreement(net) && (|steps| > 0 ==> AgreesThroughout(Performed(net, steps[0]), steps[1..]))
  }

  /**
   * A run keeps the agreement in all its states exactly when each of its requests
   * tells everybody concerned and each lost answer is forgivable.
   */
  lemma {:induction false} RunAgreesIff(net: Network, steps: seq<Step>)
    requires Agreement(net) && PossibleRun(net, steps)
    ensures AgreesThroughout(net, steps) <==> FairRun(net, steps)
    decreases |steps|
  {
    if |steps| > 0 {
      StepKeepsAgreementIff(net, steps[0]);
      if Fair(net, steps[0]) {
        RunAgreesIff(Performed(net, steps[0]), steps[1..]);
      }
    }
  }

  /** Servers with empty stores. */
  predicate Pristine(net: Network) {
    [] !in net && forall a | a in net :: net[a].chat == EmptyChat && net[a].queues == map[]
  }

  lemma PristineAgrees(net: Network)
    requires Pristine(net)
    ensures Agreement(net)
  {
    forall a, b | a in net && b in net && a != b
      ensures Agree(net[a], a, net[b], b)
    {
      assert Pending(net[a], b) == [];
      assert RemoteMembers(EmptyChat, b) == {} == ListedFrom(EmptyChat, a);
    }
  }

  /**
   * In every state of every network: pending events lead from what the
   * receiver lists to the sender's membership, and when nothing is pending
   * the two are equal.
   */
  lemma Convergence(net: Network, steps: seq<Step>, a: Host, b: Host)
    requires Pristine(net) && FairRun(net, steps)
    ensures var end := RunNet(net, steps);
            a in end && b in end && a != b && HostAllowed(end[a], b) ==>
              && Agree(end[a], a, end[b], b)
              && (Pending(end[a], b) == [] ==> ListedFrom(end[b].chat, a) == RemoteMembers(end[a].chat, b))
  {
    PristineAgrees(net);
    RunKeepsAgreement(net, steps);
  }

  // ---- how events really travel ----

  /** No stored queue is the empty marker that would allow a direct push. */
  ghost predicate NoMarkers(net: Network) {
    forall a, b | a in net && b in net[a].queues :: net[a].queues[b] != []
  }

  /** The dispatch task can reach a peer exactly when it finds the empty marker: else the event only goes to a queue. */
  lemma DispatchContactsIff(sender: Server, me: Host, host: Host, event: Event)
    ensures (exists peer, attempts | |attempts| == MAX_ATTEMPTS ::
               Dispatched(sender, me, peer, host, event, attempts).1 != peer)
       <==> HostAllowed(sender, host) && host in sender.queues && sender.queues[host] == []
  {
    if HostAllowed(sender, host) && !MustQueue(sender, host) {
      var peer := Server(Some(Config({me}, {})), EmptyChat, map[]);
      var attempts := [Answered, Answered, Answered, Answered, Answered, Answered];
      assert HostAllowed(peer, me) && me !in peer.queues;
      assert me in PushHandler(peer, me, event).0.queues;
      assert Push(peer, me, event, attempts).0 == PushHandler(peer, me, event).0;
      assert Dispatched(sender, me, peer, host, event, attempts).1 != peer;
    }
  }

  /** Without markers the dispatch task only ever queues: it never contacts the peer, and no marker appears. */
  lemma DispatchOnlyQueues(net: Network, step: Step)
    requires NoMarkers(net) && Possible(net, step)
    ensures NoMarkers(Performed(net, step))
    ensures step.DispatchNext? ==> forall b | b in net && b != step.at :: Performed(net, step)[b] == net[b]
  {
  }

  /** No dispatch of the run changes any server but the dispatching one. */
  ghost predicate NoContact(net: Network, steps: seq<Step>)
    requires PossibleRun(net, steps)
    decreases |steps|
  {
    |steps| > 0 ==>
      && (steps[0].DispatchNext? ==> forall b | b in net && b != steps[0].at :: Performed(net, steps[0])[b] == net[b])
      && NoContact(Performed(net, steps[0]), steps[1..])
  }

  /** From empty stores, direct pushes never happen: every event waits in a queue until it is pulled. */
  lemma {:induction false} EventsAlwaysQueue(net: Network, steps: seq<Step>)
    requires NoMarkers(net) && PossibleRun(net, steps)
    ensures NoContact(net, steps)
    ensures NoMarkers(RunNet(net, steps))
    decreases |steps|
  {
    if |steps| > 0 {
      DispatchOnlyQueues(net, steps[0]);
      EventsAlwaysQueue(Performed(net, steps[0]), steps[1..]);
    }
  }

  ghost predicate NothingFor(net: Network, b: Host, a: Host) {
    b in net ==> EventsFor(net[b].chat.outbox, a) == []
  }

  /** In no state of the run does `b` have an event to send to `a`. */
  ghost predicate Silent(net: Network, steps: seq<Step>, b: Host, a: Host)
    requires PossibleRun(net, steps)
    decreases |steps|
  {
    && NothingFor(net, b, a)
    && (|steps| > 0 ==> Silent(Performed(net, steps[0]), steps[1..], b, a))
  }

  /** `b` has no reason to contact `a` and has heard nothing from it. */
  ghost predicate Unaware(net: Network, b: Host, a: Host) {
    b in net ==> a !in net[b].queues && ListedFrom(net[b].chat, a) == {}
  }

  lemma StaysUnaware(net: Network, step: Step, b: Host, a: Host)
    requires NoMarkers(net) && Possible(net, step) && a != [] && a != b
    requires Unaware(net, b, a) && NothingFor(net, b, a)
    ensures Unaware(Performed(net, step), b, a)
  {
    match step
    case Request(at, op) => HandlerListed(net[at].chat, op, a);
    case DispatchNext(at, _) =>
      if at == b {
        assert net[b].chat.outbox[0].host != a;
      }
    case Pull(at, from) =>
      if at == b {
        PushEventsListed(net[b].chat, from, StoredQueue(net[from], b), a);
      }
    case PullUnanswered(_, _) =>
  }

  /**
   * Delivery needs both directions: a server that never has an event for `a`
   * has no row for it, so it never pulls, and learns nothing of its own users'
   * guilds there, whatever `a` has queued.
   */
  lemma {:induction false} OneWayNeverDelivers(net: Network, steps: seq<Step>, b: Host, a: Host)
    requires NoMarkers(net) && PossibleRun(net, steps) && a != [] && a != b
    requires Unaware(net, b, a) && Silent(net, steps, b, a)
    ensures Unaware(RunNet(net, steps), b, a)
    decreases |steps|
  {
    if |steps| > 0 {
      StaysUnaware(net, steps[0], b, a);
      DispatchOnlyQueues(net, steps[0]);
      OneWayNeverDelivers(Performed(net, steps[0]), steps[1..], b, a);
    }
  }

  // ---- when queued events can be delivered at all ----

  /** Only the federation tasks and the network are at work. */
  ghost predicate Internal(steps: seq<Step>) {
    forall i | 0 <= i < |steps| :: !steps[i].Request?
  }

  /** And no answer of a pull is lost. */
  ghost predicate Lossless(steps: seq<Step>) {
    forall i | 0 <= i < |steps| :: steps[i].DispatchNext? || steps[i].Pull?
  }

  ghost predicate Delivered(net: Network, a: Host, b: Host) {
    a in net && b in net && ListedFrom(net[b].chat, a) == RemoteMembers(net[a].chat, b)
  }

  ghost predicate Delivers(net: Network, steps: seq<Step>, a: Host, b: Host) {
    Internal(steps) && PossibleRun(net, steps) && Delivered(RunNet(net, steps), a, b)
  }

  /** Dispatches and pulls alone can make `b` list exactly its users in `a`'s guilds. */
  ghost predicate Deliverable(net: Network, a: Host, b: Host) {
    exists steps :: Delivers(net, steps, a, b)
  }

  /** `b` may pull from `a`, and has a row for it or an event that will make it one. */
  predicate CanPull(net: Network, a: Host, b: Host)
    requires a in net && b in net
  {
    && HostAllowed(net[b], a)
    && HostAllowed(net[a], b)
    && (a in net[b].queues || EventsFor(net[b].chat.outbox, a) != [])
  }

  /** Runs of the federation tasks may be put one after the other. */
  lemma {:induction false} RunsConcat(net: Network, s: seq<Step>, t: seq<Step>)
    requires PossibleRun(net, s) && PossibleRun(RunNet(net, s), t)
    ensures PossibleRun(net, s + t) && RunNet(net, s + t) == RunNet(RunNet(net, s), t)
    decreases |s|
  {
    if |s| == 0 {
      assert s + t == t;
    } else {
      assert (s + t)[0] == s[0] && (s + t)[1..] == s[1..] + t;
      RunsConcat(Performed(net, s[0]), s[1..], t);
    }
  }

  lemma OneStep(net: Network, step: Step)
    requires Possible(net, step)
    ensures PossibleRun(net, [step]) && RunNet(net, [step]) == Performed(net, step)
  {
    assert [step][1..] == [];
  }

  const LostAttempts: seq<Attempt> := [RequestLost, RequestLost, RequestLost, RequestLost, RequestLost, RequestLost]

  /** A dispatch without markers: only the outbox and the queues of its server change. */
  lemma DispatchLocally(net: Network, step: Step)
    requires NoMarkers(net) && Possible(net, step) && step.DispatchNext?
    ensures NoMarkers(Performed(net, step))
    ensures Performed(net, step) == net[step.at := Performed(net, step)[step.at]]
    ensures var before, after := net[step.at], Performed(net, step)[step.at];
            var next := before.chat.outbox[0];
            && after.config == before.config
            && after.chat == before.chat.(outbox := before.chat.outbox[1..])
            && (forall host | host != next.host :: host in after.queues <==> host in before.queues)
            && (if HostAllowed(before, next.host) then next.host in after.queues else after.queues == before.queues)
  {
    hide Push;
    DispatchOnlyQueues(net, step);
  }

  /** The task of `at` can empty its channel; nothing else in the network changes. */
  lemma {:induction false} DrainChannel(net: Network, at: Host) returns (steps: seq<Step>)
    requires NoMarkers(net) && at in net
    ensures Lossless(steps) && PossibleRun(net, steps)
    ensures var end := RunNet(net, steps);
            && NoMarkers(end)
            && at in end && end == net[at := end[at]]
            && end[at].config == net[at].config
            && end[at].chat == net[at].chat.(outbox := [])
    decreases |net[at].chat.outbox|
  {
    if net[at].chat.outbox == [] {
      steps := [];
    } else {
      var step := DispatchNext(at, LostAttempts);
      DispatchLocally(net, step);
      OneStep(net, step);
      var rest := DrainChannel(Performed(net, step), at);
      RunsConcat(net, [step], rest);
      steps := [step] + rest;
    }
  }

  /** A server with an event for an allowed host can get itself a row for that host. */
  lemma {:induction false} MakeRow(net: Network, b: Host, a: Host) returns (steps: seq<Step>)
    requires NoMarkers(net) && b in net && HostAllowed(net[b], a)
    requires a in net[b].queues || EventsFor(net[b].chat.outbox, a) != []
    ensures Lossless(steps) && PossibleRun(net, steps)
    ensures var end := RunNet(net, steps);
            && NoMarkers(end)
            && b in end && end == net[b := end[b]]
            && end[b].config == net[b].config
            && end[b].chat.(outbox := []) == net[b].chat.(outbox := [])
            && a in end[b].queues
    decreases |net[b].chat.outbox|
  {
    if a in net[b].queues {
      steps := [];
    } else {
      var step := DispatchNext(b, LostAttempts);
      DispatchLocally(net, step);
      OneStep(net, step);
      var rest := MakeRow(Performed(net, step), b, a);
      RunsConcat(net, [step], rest);
      steps := [step] + rest;
    }
  }

  /** Dispatches and pulls are fair whatever happens. */
  lemma {:induction false} LosslessIsFair(net: Network, steps: seq<Step>)
    requires Lossless(steps) && PossibleRun(net, steps)
    ensures FairRun(net, steps)
    decreases |steps|
  {
    if |steps| > 0 {
      assert steps[0].DispatchNext? || steps[0].Pull?;
      assert forall i | 0 <= i < |steps[1..]| :: steps[1..][i] == steps[i + 1];
      LosslessIsFair(Performed(net, steps[0]), steps[1..]);
    }
  }

  /** With `a`'s channel empty, one pull brings `b` up to date. */
  lemma PullDelivers(net: Network, a: Host, b: Host)
    requires Agreement(net) && a in net && b in net && a != b && a in net[b].queues
    requires HostAllowed(net[b], a) && HostAllowed(net[a], b) && net[a].chat.outbox == []
    ensures Possible(net, Pull(b, a)) && Delivered(Performed(net, Pull(b, a)), a, b)
  {
    assert Agree(net[a], a, net[b], b);
    assert Pending(net[a], b) == StoredQueue(net[a], b);
    PushEventsListed(net[b].chat, a, StoredQueue(net[a], b), a);
  }

  lemma CanPullDelivers(net: Network, a: Host, b: Host) returns (steps: seq<Step>)
    requires NoMarkers(net) && Agreement(net) && a in net && b in net && a != b && CanPull(net, a, b)
    ensures Delivers(net, steps, a, b)
  {
    hide PossibleRun, RunNet;
    var first := MakeRow(net, b, a);
    var mid := RunNet(net, first);
    var second := DrainChannel(mid, a);
    var drained := RunNet(mid, second);
    RunsConcat(net, first, second);
    LosslessIsFair(net, first + second);
    RunKeepsAgreement(net, first + second);
    PullDelivers(drained, a, b);
    OneStep(drained, Pull(b, a));
    RunsConcat(net, first + second, [Pull(b, a)]);
    steps := first + second + [Pull(b, a)];
  }

  lemma StuckDispatch(net: Network, step: Step, a: Host, b: Host)
    requires NoMarkers(net) && Possible(net, step) && step.DispatchNext?
    requires a in net && b in net && a != b && !CanPull(net, a, b)
    ensures var next := Performed(net, step);
            a in next && b in next && !CanPull(next, a, b)
            && next[b].chat.lists == net[b].chat.lists
            && next[a].chat.members == net[a].chat.members && next[a].chat.foreign == net[a].chat.foreign
  {
    hide Performed, NoMarkers;
    DispatchLocally(net, step);
  }

  lemma StuckPull(net: Network, step: Step, a: Host, b: Host)
    requires Possible(net, step) && step.Pull?
    requires a in net && b in net && a != b && !CanPull(net, a, b)
    ensures var next := Performed(net, step);
            a in next && b in next && !CanPull(next, a, b)
            && ListedFrom(next[b].chat, a) == ListedFrom(net[b].chat, a)
            && next[a].chat.members == net[a].chat.members && next[a].chat.foreign == net[a].chat.foreign
  {
    hide ListedFrom, Replay, PushEvents;
    var Pull(at, from) := step;
    PushEventsListed(net[at].chat, from, StoredQueue(net[from], at), a);
    if HostAllowed(net[at], from) && HostAllowed(net[from], at) {
      assert (at, from) != (b, a);
    } else {
      assert Performed(net, step) == net;
    }
  }

  /** A server that cannot pull stays that way, and stays as ignorant as it was, in every federation step. */
  lemma StuckStep(net: Network, step: Step, a: Host, b: Host)
    requires NoMarkers(net) && Possible(net, step) && !step.Request?
    requires a in net && b in net && a != b && !CanPull(net, a, b)
    ensures var next := Performed(net, step);
            && a in next && b in next && !CanPull(next, a, b)
            && ListedFrom(next[b].chat, a) == ListedFrom(net[b].chat, a)
            && RemoteMembers(next[a].chat, b) == RemoteMembers(net[a].chat, b)
  {
    match step
    case DispatchNext(_, _) =>
      hide Performed, CanPull;
      StuckDispatch(net, step, a, b);
    case Pull(_, _) =>
      hide Performed, CanPull;
      StuckPull(net, step, a, b);
    case PullUnanswered(_, _) =>
  }

  lemma {:induction false} StuckForever(net: Network, steps: seq<Step>, a: Host, b: Host)
    requires NoMarkers(net) && Internal(steps) && PossibleRun(net, steps)
    requires a in net && b in net && a != b && !CanPull(net, a, b)
    ensures var end := RunNet(net, steps);
            && a in end && b in end
            && ListedFrom(end[b].chat, a) == ListedFrom(net[b].chat, a)
            && RemoteMembers(end[a].chat, b) == RemoteMembers(net[a].chat, b)
    decreases |steps|
  {
    if |steps| > 0 {
      assert !steps[0].Request?;
      assert forall i | 0 <= i < |steps[1..]| :: steps[1..][i] == steps[i + 1];
      StuckStep(net, steps[0], a, b);
      DispatchOnlyQueues(net, steps[0]);
      StuckForever(Performed(net, steps[0]), steps[1..], a, b);
    }
  }

  /**
   * In a network without markers, as every run from empty stores leaves it,
   * dispatching and pulling can bring `b` up to date with `a` exactly when it
   * is up to date already, or may pull from `a` and has a row for it or an
   * event to send to it.
   */
  lemma DeliverableIff(net: Network, a: Host, b: Host)
    requires NoMarkers(net) && Agreement(net) && a in net && b in net && a != b
    ensures Deliverable(net, a, b) <==> Delivered(net, a, b) || CanPull(net, a, b)
  {
    if Delivered(net, a, b) {
      assert Delivers(net, [], a, b);
    } else if CanPull(net, a, b) {
      var steps := CanPullDelivers(net, a, b);
    } else {
      forall steps
        ensures !Delivers(net, steps, a, b)
      {
        if Internal(steps) && PossibleRun(net, steps) {
          StuckForever(net, steps, a, b);
        }
      }
    }
  }

  // ---- a network where that fails ----

  const OPEN := Some(Config({}, {}))

  const NEW_SERVER := Server(OPEN, EmptyChat, map[])

  /** A user of `other` logs in at `at` and creates a guild, and the event is dispatched. */
  function ForeignGuild(at: Host, other: Host): seq<Step> {
    [Request(at, Login(3, other, 7)), Request(at, CreateGuild(7, 5)), DispatchNext(at, LostAttempts)]
  }

  function WithForeignGuild(other: Host): Server {
    Server(OPEN,
           EmptyChat.(guilds := map[5 := {7}], defaultRoles := {5}, members := {(5, 7)},
                      foreign := map[7 := (3, other)], accounts := map[(3, other) := 7]),
           map[other := [Added(3, 5)]])
  }

  lemma ForeignGuildSteps(net: Network, at: Host, other: Host)
    requires at in net && net[at] == NEW_SERVER && at != other && other in net
    ensures var linked := NEW_SERVER.(chat := EmptyChat.(foreign := map[7 := (3, other)], accounts := map[(3, other) := 7]));
            var created := WithForeignGuild(other).(queues := map[]);
            var created' := created.(chat := created.chat.(outbox := [Dispatch(other, Added(3, 5))]));
            && Performed(net, ForeignGuild(at, other)[0]) == net[at := linked]
            && Performed(net[at := linked], ForeignGuild(at, other)[1]) == net[at := created']
            && Performed(net[at := created'], ForeignGuild(at, other)[2]) == net[at := WithForeignGuild(other)]
  {
    var linked := NEW_SERVER.(chat := EmptyChat.(foreign := map[7 := (3, other)], accounts := map[(3, other) := 7]));
    var created := WithForeignGuild(other).(queues := map[]);
    var created' := created.(chat := created.chat.(outbox := [Dispatch(other, Added(3, 5))]));
    assert After(EmptyChat, Login(3, other, 7)) == linked.chat;
    assert After(linked.chat, CreateGuild(7, 5)) == created'.chat;
    assert HostAllowed(created', other) && MustQueue(TakeDispatch(created'), other);
    assert TakeDispatch(created') == created;
    assert StoredQueue(created, other) + [Added(3, 5)] == [Added(3, 5)];
    assert Enqueued(created, other, Added(3, 5)) == WithForeignGuild(other);
    assert net[at := created'][at := WithForeignGuild(other)][other := net[other]] == net[at := WithForeignGuild(other)];
  }

  lemma ForeignGuildRun(net: Network, at: Host, other: Host)
    requires at in net && net[at] == NEW_SERVER && at != other && other in net
    ensures FairRun(net, ForeignGuild(at, other))
    ensures RunNet(net, ForeignGuild(at, other)) == net[at := WithForeignGuild(other)]
  {
    var steps := ForeignGuild(at, other);
    ForeignGuildSteps(net, at, other);
    var one := Performed(net, steps[0]);
    var two := Performed(one, steps[1]);
    assert Fair(net, steps[0]) && Fair(one, steps[1]) && Fair(two, steps[2]);
    assert steps[1..][1..] == steps[2..] && steps[2..] == [steps[2]];
    OneStep(two, steps[2]);
    assert FairRun(two, [steps[2]]);
    assert FairRun(two, steps[2..]) && RunNet(two, steps[2..]) == net[at := WithForeignGuild(other)];
    assert FairRun(one, steps[1..]);
  }

  lemma ForeignGuildMembers(other: Host)
    ensures RemoteMembers(WithForeignGuild(other).chat, other) == {(3, 5)}
  {
    assert (5, 7) in WithForeignGuild(other).chat.members;
  }

  /**
   * Two servers that allow each other: a user of `b` founds a guild on `a`. The
   * event is queued at `a`, and nothing the two federation tasks do will ever
   * bring it to `b`.
   */
  lemma QueuedEventIsStuck(a: Host, b: Host)
    requires a != b && a != [] && b != []
    ensures var net := map[a := NEW_SERVER, b := NEW_SERVER];
            && Pristine(net) && FairRun(net, ForeignGuild(a, b))
            && var end := RunNet(net, ForeignGuild(a, b));
               && a in end && b in end && HostAllowed(end[a], b) && HostAllowed(end[b], a)
               && RemoteMembers(end[a].chat, b) == {(3, 5)}
               && StoredQueue(end[a], b) == [Added(3, 5)]
               && !Deliverable(end, a, b)
  {
    hide RunNet, FairRun, Deliverable, Replay;
    var net := map[a := NEW_SERVER, b := NEW_SERVER];
    ForeignGuildRun(net, a, b);
    ForeignGuildMembers(b);
    var end := net[a := WithForeignGuild(b)];
    PristineAgrees(net);
    RunKeepsAgreement(net, ForeignGuild(a, b));
    assert NoMarkers(end);
    assert ListedFrom(end[b].chat, a) == {};
    DeliverableIff(end, a, b);
  }

  // ---- a network where an answer is lost ----

  function ForeignGuilds(a: Host, b: Host): Network
    requires a != b
  {
    map[a := WithForeignGuild(b), b := WithForeignGuild(a)]
  }

  lemma TwoRuns(net: Network, s: seq<Step>, t: seq<Step>, mid: Network, end: Network)
    requires PossibleRun(net, s) && RunNet(net, s) == mid && PossibleRun(mid, t) && RunNet(mid, t) == end
    ensures PossibleRun(net, s + t) && RunNet(net, s + t) == end
  {
    RunsConcat(net, s, t);
  }

  lemma ForeignGuildsRun(net: Network, a: Host, b: Host, s: seq<Step>, t: seq<Step>)
    requires a != b && net == map[a := NEW_SERVER, b := NEW_SERVER]
    requires s == ForeignGuild(a, b) && t == ForeignGuild(b, a)
    ensures PossibleRun(net, s + t) && RunNet(net, s + t) == ForeignGuilds(a, b)
  {
    hide PossibleRun, RunNet;
    var mid, end := net[a := WithForeignGuild(b)], net[a := WithForeignGuild(b)][b := WithForeignGuild(a)];
    assert PossibleRun(net, s) && RunNet(net, s) == mid by {
      ForeignGuildRun(net, a, b);
    }
    assert PossibleRun(mid, t) && RunNet(mid, t) == end by {
      ForeignGuildRun(mid, b, a);
    }
    TwoRuns(net, s, t, mid, end);
    assert end == ForeignGuilds(a, b);
  }

  lemma LostPullDisagrees(a: Host, b: Host)
    requires a != b
    ensures !Agree(PullLost(ForeignGuilds(a, b), b, a)[a], a, ForeignGuilds(a, b)[b], b)
  {
    ForeignGuildMembers(b);
    assert Pending(PullLost(ForeignGuilds(a, b), b, a)[a], b) == [];
    assert ListedFrom(ForeignGuilds(a, b)[b].chat, a) == {};
  }

  /** Two servers with a guild for a user of the other: a lost pull answer leaves one of them without it. */
  lemma LostPullLoses(a: Host, b: Host)
    requires a != b && a != [] && b != []
    ensures var net := map[a := NEW_SERVER, b := NEW_SERVER];
            var steps := ForeignGuild(a, b) + ForeignGuild(b, a);
            && Pristine(net) && PossibleRun(net, steps)
            && var end := RunNet(net, steps);
               && Possible(end, Pull(b, a))
               && !Agree(PullLost(end, b, a)[a], a, end[b], b)
  {
    ForeignGuildsRun(map[a := NEW_SERVER, b := NEW_SERVER], a, b, ForeignGuild(a, b), ForeignGuild(b, a));
    LostPullDisagrees(a, b);
  }
}
