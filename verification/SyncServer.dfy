/**
 * The federation task of one server (`src/impls/sync/mod.rs`, `push.rs`,
 * `pull.rs`), run on mutable servers: the dispatch loop body with its retries,
 * and the two endpoints. Each method is proved to be the function `Sync`
 * reasons about.
 */
module SyncServers {
  import opened Wrappers
  import opened Membership
  import opened Sync

  class SyncServer {
    const host: Host
    const config: Option<Config>
    var chat: Chat
    var queues: map<Host, seq<Event>>

    ghost function View(): Server
      reads this
    {
      Server(config, chat, queues)
    }

    constructor (host: Host, config: Option<Config>)
      ensures View() == Server(config, EmptyChat, map[])
      ensures this.host == host
    {
      this.host := host;
      this.config := config;
      this.chat := EmptyChat;
      this.queues := map[];
    }

    method IsHostAllowed(other: Host) returns (allowed: bool)
      ensures allowed <==> HostAllowed(View(), other)
    {
      if config.None? {
        return false;
      }
      allowed := other in config.value.allow || (config.value.allow == {} && other !in config.value.block);
    }

    method ApplyEvent(from: Host, event: Event)
      modifies this`chat
      ensures chat == PushLogic(old(chat), from, event)
    {
      match event {
        case Removed(user, guild) => chat := chat.(lists := chat.lists - {Entry(user, guild, from)});
        case Added(user, guild) => chat := chat.(lists := chat.lists + {Entry(user, guild, from)});
      }
    }

    /** The push endpoint. */
    method HandlePush(from: Host, event: Event) returns (ok: bool)
      modifies this
      ensures (View(), ok) == PushHandler(old(View()), from, event)
    {
      var allowed := IsHostAllowed(from);
      if !allowed {
        return false;
      }
      if from !in queues {
        queues := queues[from := []];
      }
      ApplyEvent(from, event);
      ok := true;
    }

    /** `get_event_queue_raw`: read the row and remove it. */
    method GetEventQueueRaw(other: Host) returns (raw: Option<seq<Event>>)
      modifies this`queues
      ensures raw == if other in old(queues) then Some(old(queues)[other]) else None
      ensures queues == old(queues) - {other}
    {
      raw := if other in queues then Some(queues[other]) else None;
      queues := queues - {other};
    }

    /** The pull endpoint. */
    method HandlePull(from: Host) returns (queue: Option<seq<Event>>)
      modifies this
      ensures (View(), queue) == PullHandler(old(View()), from)
    {
      var allowed := IsHostAllowed(from);
      if !allowed {
        return None;
      }
      var raw := GetEventQueueRaw(from);
      queue := Some(if raw.Some? then raw.value else []);
    }

    method PushToEventQueue(other: Host, queue: seq<Event>, event: Event)
      modifies this`queues
      ensures queues == old(queues)[other := queue + [event]]
    {
      queues := queues[other := queue + [event]];
    }

    /** One push request through the network. */
    method SendPush(peer: SyncServer, event: Event, attempt: Attempt) returns (ok: bool)
      requires peer != this
      modifies peer
      ensures (peer.View(), ok) == Deliver(old(peer.View()), host, event, attempt)
    {
      match attempt {
        case RequestLost =>
          ok := false;
        case ReplyLost =>
          ok := peer.HandlePush(host, event);
          ok := false;
        case Answered =>
          ok := peer.HandlePush(host, event);
      }
    }

    /** The push with its five retries. */
    method PushWithRetries(peer: SyncServer, event: Event, attempts: seq<Attempt>) returns (ok: bool)
      requires peer != this && |attempts| == MAX_ATTEMPTS
      modifies peer
      ensures (peer.View(), ok) == Push(old(peer.View()), host, event, attempts)
    {
      ok := SendPush(peer, event, attempts[0]);
      var tryCount := 0;
      while tryCount < 5 && !ok
        invariant 0 <= tryCount <= 5
        invariant Push(old(peer.View()), host, event, attempts)
               == if ok then (peer.View(), true) else Push(peer.View(), host, event, attempts[tryCount + 1..])
      {
        ghost var left := attempts[tryCount + 1..];
        assert left[0] == attempts[tryCount + 1] && left[1..] == attempts[tryCount + 2..];
        ok := SendPush(peer, event, attempts[tryCount + 1]);
        tryCount := tryCount + 1;
      }
    }

    /** The dispatch loop body for an event to the server behind `peer`. */
    method DispatchTo(peer: SyncServer, event: Event, attempts: seq<Attempt>)
      requires peer != this && |attempts| == MAX_ATTEMPTS
      modifies this`queues, peer
      ensures (View(), peer.View()) == Dispatched(old(View()), host, old(peer.View()), peer.host, event, attempts)
    {
      var allowed := IsHostAllowed(peer.host);
      if !allowed {
        return;
      }
      var raw := GetEventQueueRaw(peer.host);
      if raw.None? || raw.value != [] {
        PushToEventQueue(peer.host, if raw.Some? then raw.value else [], event);
        assert queues == old(queues)[peer.host := StoredQueue(old(View()), peer.host) + [event]];
        return;
      }
      var ok := PushWithRetries(peer, event, attempts);
      if !ok {
        PushToEventQueue(peer.host, raw.value, event);
      }
    }

    /** Take the next event off the channel and dispatch it; `peer` is the server it is addressed to. */
    method DispatchNext(peer: SyncServer, attempts: seq<Attempt>)
      requires peer != this && |attempts| == MAX_ATTEMPTS
      requires chat.outbox != [] && chat.outbox[0].host == peer.host
      modifies this, peer
      ensures (View(), peer.View())
           == Dispatched(TakeDispatch(old(View())), host, old(peer.View()), peer.host, old(chat.outbox[0].event), attempts)
    {
      var next := chat.outbox[0];
      chat := chat.(outbox := chat.outbox[1..]);
      DispatchTo(peer, next.event, attempts);
    }

    /** A pull whose answer is lost on its way. */
    method PullInVain(peer: SyncServer)
      requires peer != this
      modifies peer
      ensures View() == old(View())
      ensures peer.View() == if HostAllowed(old(View()), peer.host) then PullHandler(old(peer.View()), host).0
                             else old(peer.View())
    {
      var allowed := IsHostAllowed(peer.host);
      if allowed {
        var queue := peer.HandlePull(host);
      }
    }

    /** The periodic pull from one known host. */
    method PullFrom(peer: SyncServer)
      requires peer != this
      modifies this`chat, peer
      ensures var allowed := HostAllowed(old(View()), peer.host) && HostAllowed(old(peer.View()), host);
              && (!allowed ==> View() == old(View()) && peer.View() == old(peer.View()))
              && (allowed ==>
                    && peer.View() == PullHandler(old(peer.View()), host).0
                    && chat == PushEvents(old(chat), peer.host, StoredQueue(old(peer.View()), host)))
    {
      var allowed := IsHostAllowed(peer.host);
      if !allowed {
        return;
      }
      var queue := peer.HandlePull(host);
      if queue.None? {
        return;
      }
      var events := queue.value;
      for i := 0 to |events|
        invariant peer.View() == PullHandler(old(peer.View()), host).0
        invariant PushEvents(old(chat), peer.host, events) == PushEvents(chat, peer.host, events[i..])
      {
        assert events[i..][1..] == events[i + 1..];
        ApplyEvent(peer.host, events[i]);
      }
    }
  }
}
