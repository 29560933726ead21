/**
 * What the federation events of one server mean: replaying them on a guild
 * list turns an old membership into the new one. Everything here is about one
 * sender and one receiving host.
 */
module Federation {
  import opened Wrappers
  import opened Bytes
  import opened Membership

  /** (user, guild) pairs: a foreign server's view of its users' guilds here. */
  type Guildlist = set<(u64, u64)>

  function Effect(list: Guildlist, event: Event): Guildlist {
    match event
    case Added(user, guild) => list + {(user, guild)}
    case Removed(user, guild) => list - {(user, guild)}
  }

  function Replay(list: Guildlist, events: seq<Event>): Guildlist
    decreases |events|
  {
    if |events| == 0 then list else Replay(Effect(list, events[0]), events[1..])
  }

  /** The events of an outbox that are addressed to a host. */
  function EventsFor(outbox: seq<Dispatch>, host: Host): seq<Event>
    decreases |outbox|
  {
    if |outbox| == 0 then []
    else (if outbox[0].host == host then [outbox[0].event] else []) + EventsFor(outbox[1..], host)
  }

  /** The members of this server's guilds that are users of `host`. */
  ghost function RemoteMembers(chat: Chat, host: Host): Guildlist {
    set m | m in chat.members && m.1 in chat.foreign && chat.foreign[m.1].1 == host :: (chat.foreign[m.1].0, m.0)
  }

  /** The guild list entries of this server's users for guilds of `host`. */
  ghost function ListedFrom(chat: Chat, host: Host): Guildlist {
    set e | e in chat.lists && e.host == host :: (e.user, e.guild)
  }

  lemma RemoteMember(chat: Chat, host: Host, id: u64, g: u64)
    ensures (id, g) in RemoteMembers(chat, host) <==>
              exists l | l in chat.foreign :: (g, l) in chat.members && chat.foreign[l] == (id, host)
  {
    if (id, g) in RemoteMembers(chat, host) {
      var m :| m in chat.members && m.1 in chat.foreign && chat.foreign[m.1] == (id, host) && m.0 == g;
      assert (g, m.1) in chat.members;
    }
    if l :| l in chat.foreign && (g, l) in chat.members && chat.foreign[l] == (id, host) {
      assert (g, l).1 in chat.foreign;
    }
  }

  // ---- replay ----

  lemma {:induction false} ReplayConcat(list: Guildlist, a: seq<Event>, b: seq<Event>)
    ensures Replay(list, a + b) == Replay(Replay(list, a), b)
    decreases |a|
  {
    if |a| == 0 {
      assert a + b == b;
    } else {
      assert (a + b)[1..] == a[1..] + b;
      ReplayConcat(Effect(list, a[0]), a[1..], b);
    }
  }

  lemma ReplayOne(list: Guildlist, event: Event)
    ensures Replay(list, [event]) == Effect(list, event)
  {
    assert [event][1..] == [];
  }

  /** An event applied again right away changes nothing. */
  lemma EffectIdempotent(list: Guildlist, event: Event)
    ensures Effect(Effect(list, event), event) == Effect(list, event)
  {
  }

  lemma {:induction false} EventsForConcat(a: seq<Dispatch>, b: seq<Dispatch>, host: Host)
    ensures EventsFor(a + b, host) == EventsFor(a, host) + EventsFor(b, host)
    decreases |a|
  {
    if |a| == 0 {
      assert a + b == b;
    } else {
      var head := if a[0].host == host then [a[0].event] else [];
      var whole, tail := a + b, a[1..];
      assert whole[0] == a[0] && whole[1..] == tail + b;
      EventsForConcat(tail, b, host);
      assert EventsFor(whole, host) == head + EventsFor(tail + b, host);
    }
  }

  lemma EventsForOne(dispatch: Dispatch, host: Host)
    ensures EventsFor([dispatch], host) == if dispatch.host == host then [dispatch.event] else []
  {
    assert [dispatch][1..] == [];
  }

  /** The last event about a pair decides it; pairs not mentioned stay as they were. */
  function LastAbout(events: seq<Event>, pair: (u64, u64)): Option<bool>
  {
    if |events| == 0 then None
    else
      var last := events[|events| - 1];
      if (last.user, last.guild) == pair then Some(last.Added?) else LastAbout(events[..|events| - 1], pair)
  }

  lemma {:induction false} ReplayPointwise(list: Guildlist, events: seq<Event>, pair: (u64, u64))
    ensures pair in Replay(list, events) <==>
              match LastAbout(events, pair) { case Some(added) => added case None => pair in list }
    decreases |events|
  {
    if |events| > 0 {
      var before, last := events[..|events| - 1], events[|events| - 1];
      assert events == before + [last];
      ReplayConcat(list, before, [last]);
      ReplayOne(Replay(list, before), last);
      ReplayPointwise(list, before, pair);
    }
  }

  // ---- what a handler announces ----

  ghost predicate Memberless(chat: Chat, user: u64) {
    forall m | m in chat.members :: m.1 != user
  }

  /**
   * When a request tells a host what it does to that host's users; all of it
   * can be seen beforehand. A join needs the default role, and a login must not
   * relink an id that is a member somewhere.
   */
  ghost predicate AnnouncesTo(chat: Chat, op: Op, host: Host) {
    match op
    case Join(user, name) =>
      CheckJoin(chat, user, name).None? && user in chat.foreign && chat.foreign[user].1 == host ==>
        chat.invites[name].g in chat.defaultRoles
    case Login(id, home, local) =>
      || (id, home) in chat.accounts
      || Memberless(chat, local)
      || (host != home && (local in chat.foreign ==> chat.foreign[local].1 != host))
    case _ => true
  }

  ghost predicate Announces(before: Chat, after: Chat, host: Host) {
    && |before.outbox| <= |after.outbox|
    && after.outbox[..|before.outbox|] == before.outbox
    && RemoteMembers(after, host)
       == Replay(RemoteMembers(before, host), EventsFor(after.outbox[|before.outbox|..], host))
  }

  lemma Quiet(before: Chat, after: Chat, host: Host)
    requires after.members == before.members && after.foreign == before.foreign && after.outbox == before.outbox
    ensures Announces(before, after, host)
  {
    assert after.outbox[|before.outbox|..] == [];
  }

  lemma JoinAnnounced(chat: Chat, after: Chat, g: u64, user: u64, host: Host)
    requires LinksMatch(chat)
    requires after.members == chat.members + {(g, user)} && after.foreign == chat.foreign
    requires after.outbox == DispatchJoin(chat, g, user).outbox
    ensures Announces(chat, after, host)
  {
    var emitted := after.outbox[|chat.outbox|..];
    if user in chat.foreign {
      var (id, home) := chat.foreign[user];
      assert emitted == [Dispatch(home, Added(id, g))];
      EventsForOne(emitted[0], host);
      ReplayOne(RemoteMembers(chat, host), Added(id, g));
    } else {
      assert emitted == [];
    }
    forall i: u64, h: u64
      ensures (i, h) in RemoteMembers(after, host) <==>
                (i, h) in Replay(RemoteMembers(chat, host), EventsFor(emitted, host))
    {
      RemoteMember(chat, host, i, h);
      RemoteMember(after, host, i, h);
    }
  }

  lemma LeaveAnnounced(chat: Chat, after: Chat, g: u64, user: u64, host: Host)
    requires LinksMatch(chat)
    requires after.members == chat.members - {(g, user)} && after.foreign == chat.foreign
    requires after.outbox == DispatchLeave(chat, g, user).outbox
    ensures Announces(chat, after, host)
  {
    var emitted := after.outbox[|chat.outbox|..];
    if user in chat.foreign {
      var (id, home) := chat.foreign[user];
      assert emitted == [Dispatch(home, Removed(id, g))];
      EventsForOne(emitted[0], host);
      ReplayOne(RemoteMembers(chat, host), Removed(id, g));
    } else {
      assert emitted == [];
    }
    forall i: u64, h: u64
      ensures (i, h) in RemoteMembers(after, host) <==>
                (i, h) in Replay(RemoteMembers(chat, host), EventsFor(emitted, host))
    {
      RemoteMember(chat, host, i, h);
      RemoteMember(after, host, i, h);
    }
  }

  /** The removals the deletion loop emits for a host. */
  function Removals(chat: Chat, g: u64, members: seq<u64>, host: Host): seq<Event> {
    if |members| == 0 then []
    else
      var member := members[|members| - 1];
      Removals(chat, g, members[..|members| - 1], host)
      + (if member in chat.foreign && chat.foreign[member].1 == host then [Removed(chat.foreign[member].0, g)] else [])
  }

  lemma {:induction false} NotifyEmits(chat: Chat, actor: u64, g: u64, members: seq<u64>, host: Host)
    ensures var after := NotifyDeleted(chat, actor, g, members);
            && |chat.outbox| <= |after.outbox|
            && after.outbox[..|chat.outbox|] == chat.outbox
            && EventsFor(after.outbox[|chat.outbox|..], host) == Removals(chat, g, members, host)
  {
    if |members| > 0 {
      var before, after := NotifyDeleted(chat, actor, g, members[..|members| - 1]), NotifyDeleted(chat, actor, g, members);
      NotifyEmits(chat, actor, g, members[..|members| - 1], host);
      var member := members[|members| - 1];
      if member in chat.foreign {
        var dispatch := Dispatch(chat.foreign[member].1, Removed(chat.foreign[member].0, g));
        assert after.outbox[|chat.outbox|..] == before.outbox[|chat.outbox|..] + [dispatch];
        EventsForConcat(before.outbox[|chat.outbox|..], [dispatch], host);
        EventsForOne(dispatch, host);
      }
    } else {
      assert chat.outbox[|chat.outbox|..] == [];
    }
  }

  lemma {:induction false} RemovalsRemove(list: Guildlist, chat: Chat, g: u64, members: seq<u64>, host: Host, pair: (u64, u64))
    ensures pair in Replay(list, Removals(chat, g, members, host)) <==>
              pair in list && !(pair.1 == g && exists l | l in members :: l in chat.foreign && chat.foreign[l] == (pair.0, host))
  {
    if |members| > 0 {
      var before, member := members[..|members| - 1], members[|members| - 1];
      RemovalsRemove(list, chat, g, before, host, pair);
      assert forall l :: l in members <==> l in before || l == member;
      if member in chat.foreign && chat.foreign[member].1 == host {
        var event := Removed(chat.foreign[member].0, g);
        ReplayConcat(list, Removals(chat, g, before, host), [event]);
        ReplayOne(Replay(list, Removals(chat, g, before, host)), event);
      } else {
        assert Removals(chat, g, members, host) == Removals(chat, g, before, host);
      }
    }
  }

  lemma DeletionAnnounced(chat: Chat, actor: u64, g: u64, host: Host)
    requires LinksMatch(chat)
    ensures Announces(chat, NotifyDeleted(DropGuild(chat, g), actor, g, MemberIds(chat, g)), host)
  {
    var dropped, members := DropGuild(chat, g), MemberIds(chat, g);
    var after := NotifyDeleted(dropped, actor, g, members);
    NotifyFrame(dropped, actor, g, members);
    NotifyEmits(dropped, actor, g, members, host);
    var list, events := RemoteMembers(chat, host), Removals(dropped, g, members, host);
    assert after.foreign == chat.foreign && after.members == dropped.members;
    forall l: u64
      ensures l in members <==> (g, l) in chat.members
    {
      assert (g, l).0 == g && (g, l).1 == l;
    }
    forall pair: (u64, u64)
      ensures pair in RemoteMembers(after, host) <==> pair in Replay(list, events)
    {
      RemoteMember(chat, host, pair.0, pair.1);
      RemoteMember(after, host, pair.0, pair.1);
      RemovalsRemove(list, dropped, g, members, host, pair);
    }
    assert dropped.outbox == chat.outbox;
  }

  /**
   * A request extends the outbox by events that, replayed on a host's old
   * membership, give the new one, exactly when `AnnouncesTo` says so.
   */
  lemma HandlerAnnouncesIff(chat: Chat, op: Op, host: Host)
    requires LinksSound(chat)
    ensures Announces(chat, After(chat, op), host) <==> AnnouncesTo(chat, op, host)
  {
    var (after, error) := Handle(chat, op);
    match op
    case CreateGuild(user, g) => CreationAnnouncedIff(chat, user, g, host);
    case DeleteGuild(actor, g) =>
      if error.None? {
        DeletionAnnounced(chat, actor, g, host);
      } else {
        Quiet(chat, after, host);
      }
    case Join(user, name) =>
      if CheckJoin(chat, user, name).None? {
        JoinAnnouncedIff(chat, user, name, host);
      } else {
        Quiet(chat, after, host);
      }
    case Leave(user, g) => RemovalAnnounced(chat, op, g, user, host);
    case Kick(_, g, user) => RemovalAnnounced(chat, op, g, user, host);
    case Ban(_, g, user) => RemovalAnnounced(chat, op, g, user, host);
    case Login(id, home, local) => LoginAnnouncedIff(chat, id, home, local, host);
    case _ => Quiet(chat, after, host);
  }

  /** User 0 gets no member row, so announcing its guild would be wrong for a host it is linked to; drawn ids are not 0. */
  lemma CreationAnnouncedIff(chat: Chat, user: u64, g: u64, host: Host)
    requires LinksMatch(chat)
    ensures Announces(chat, After(chat, CreateGuild(user, g)), host)
       <==> (user == 0 && 0 in chat.foreign && chat.foreign[0].1 == host ==> (g, 0) in chat.members)
  {
    var after := After(chat, CreateGuild(user, g));
    if user != 0 {
      JoinAnnounced(chat, after, g, user, host);
    } else if 0 !in chat.foreign {
      Quiet(chat, after, host);
    } else {
      var (id, home) := chat.foreign[0];
      assert after.outbox[|chat.outbox|..] == [Dispatch(home, Added(id, g))];
      EventsForOne(Dispatch(home, Added(id, g)), host);
      ReplayOne(RemoteMembers(chat, host), Added(id, g));
      assert RemoteMembers(after, host) == RemoteMembers(chat, host);
      RemoteMember(chat, host, id, g);
    }
  }

  lemma RemovalAnnounced(chat: Chat, op: Op, g: u64, user: u64, host: Host)
    requires LinksMatch(chat)
    requires op.Leave? || op.Kick? || op.Ban?
    requires op.g == g && op.user == user
    ensures Announces(chat, After(chat, op), host)
  {
    var (after, error) := Handle(chat, op);
    if error.None? {
      LeaveAnnounced(chat, after, g, user, host);
    } else {
      Quiet(chat, after, host);
    }
  }

  lemma LoginAnnouncedIff(chat: Chat, id: u64, home: Host, local: u64, host: Host)
    requires LinksMatch(chat)
    ensures Announces(chat, After(chat, Login(id, home, local)), host)
       <==> AnnouncesTo(chat, Login(id, home, local), host)
  {
    var after := After(chat, Login(id, home, local));
    assert after.outbox[|chat.outbox|..] == [];
    if AnnouncesTo(chat, Login(id, home, local), host) {
      forall i: u64, h: u64
        ensures (i, h) in RemoteMembers(after, host) <==> (i, h) in RemoteMembers(chat, host)
      {
        RemoteMember(chat, host, i, h);
        RemoteMember(after, host, i, h);
      }
    } else {
      var m :| m in chat.members && m.1 == local;
      if host == home {
        RemoteMember(chat, host, id, m.0);
        RemoteMember(after, host, id, m.0);
      } else {
        RemoteMember(chat, host, chat.foreign[local].0, m.0);
        RemoteMember(after, host, chat.foreign[local].0, m.0);
      }
    }
  }

  /**
   * A join is announced to the user's host exactly when the guild's default
   * role is stored: otherwise the member row is written and nobody is told.
   */
  lemma JoinAnnouncedIff(chat: Chat, user: u64, name: Name, host: Host)
    requires LinksMatch(chat) && CheckJoin(chat, user, name).None?
    ensures Announces(chat, After(chat, Join(user, name)), host) <==> AnnouncesTo(chat, Join(user, name), host)
  {
    var after, g := After(chat, Join(user, name)), chat.invites[name].g;
    if g in chat.defaultRoles {
      JoinAnnounced(chat, after, g, user, host);
    } else {
      assert after.outbox[|chat.outbox|..] == [];
      if user in chat.foreign && chat.foreign[user].1 == host {
        RemoteMember(after, host, chat.foreign[user].0, g);
        RemoteMember(chat, host, chat.foreign[user].0, g);
      } else {
        assert RemoteMembers(after, host) == RemoteMembers(chat, host);
      }
    }
  }

  function LostJoin(host: Host): seq<Op> {
    [Login(3, host, 7), CreateGuild(1, 5), CreateInvite(1, 5, [9], 0), DeleteDefaultRole(1, 5), Join(7, [9])]
  }

  function AfterLostJoin(host: Host): Chat {
    EmptyChat.(foreign := map[7 := (3, host)], accounts := map[(3, host) := 7],
               guilds := map[5 := {1}], members := {(5, 1), (5, 7)},
               lists := {Entry(1, 5, [])}, invites := map[[9] := Invite(5, 0, 0)])
  }

  lemma LostJoinSteps(host: Host)
    ensures var ops := LostJoin(host);
            var four := AfterLostJoin(host).(members := {(5, 1)});
            After(After(After(After(EmptyChat, ops[0]), ops[1]), ops[2]), ops[3]) == four
    ensures After(AfterLostJoin(host).(members := {(5, 1)}), LostJoin(host)[4]) == AfterLostJoin(host)
    ensures Fresh(After(EmptyChat, LostJoin(host)[0]), LostJoin(host)[1])
  {
    var ops := LostJoin(host);
    var one := EmptyChat.(foreign := map[7 := (3, host)], accounts := map[(3, host) := 7]);
    var two := one.(guilds := map[5 := {1}], defaultRoles := {5}, members := {(5, 1)}, lists := {Entry(1, 5, [])});
    var three := two.(invites := map[[9] := Invite(5, 0, 0)]);
    assert After(EmptyChat, ops[0]) == one && After(one, ops[1]) == two;
    assert After(two, ops[2]) == three;
    assert After(three, ops[3]) == three.(defaultRoles := {});
  }

  lemma LostJoinRun(host: Host)
    ensures FreshRun(EmptyChat, LostJoin(host)) && Run(EmptyChat, LostJoin(host)) == AfterLostJoin(host)
  {
    var ops := LostJoin(host);
    hide Handle;
    LostJoinSteps(host);
    var one := After(EmptyChat, ops[0]);
    var two := After(one, ops[1]);
    var three := After(two, ops[2]);
    var four := After(three, ops[3]);
    assert ops[3..][1..] == ops[4..] && ops[2..][1..] == ops[3..] && ops[1..][1..] == ops[2..] && ops[4..][1..] == [];
    assert Run(four, ops[4..]) == AfterLostJoin(host);
    assert Run(three, ops[3..]) == AfterLostJoin(host);
    assert Run(two, ops[2..]) == AfterLostJoin(host);
    assert Run(one, ops[1..]) == AfterLostJoin(host);
    NoGuildsCreated(two, ops[2..]);
    assert FreshRun(one, ops[1..]);
  }

  /** A user of another server joins a guild that lost its default role: it is a member, and its server was never told. */
  lemma UnannouncedJoin(host: Host)
    ensures FreshRun(EmptyChat, LostJoin(host))
    ensures var end := Run(EmptyChat, LostJoin(host));
            RemoteMembers(end, host) == {(3, 5)} && EventsFor(end.outbox, host) == []
  {
    LostJoinRun(host);
    assert (5, 7) in AfterLostJoin(host).members;
  }

  // ---- what a handler forgets ----

  /** The guild list entries a deletion takes along because their user has the guild's number. */
  ghost function Dropped(chat: Chat, op: Op, host: Host): Guildlist {
    if op.DeleteGuild? && CheckGuildUser(chat, op.g, op.actor).None? then
      set pair | pair in ListedFrom(chat, host) && pair.0 == op.g
    else {}
  }

  /** A server's own requests touch nothing else of what another host told it. */
  lemma HandlerListed(chat: Chat, op: Op, host: Host)
    requires host != []
    ensures ListedFrom(After(chat, op), host) == ListedFrom(chat, host) - Dropped(chat, op, host)
  {
    if op.DeleteGuild? && CheckGuildUser(chat, op.g, op.actor).None? {
      NotifyKeepsListed(DropGuild(chat, op.g), op.actor, op.g, MemberIds(chat, op.g), host);
      DropGuildListed(chat, op, host);
    }
  }

  /** A deletion leaves a host's list alone exactly when the guild's number is no listed user's. */
  lemma DeletionKeepsListedIff(chat: Chat, actor: u64, g: u64, host: Host)
    requires CheckGuildUser(chat, g, actor).None? && host != []
    ensures ListedFrom(After(chat, DeleteGuild(actor, g)), host) == ListedFrom(chat, host)
       <==> forall e | e in chat.lists && e.host == host :: e.user != g
  {
    HandlerListed(chat, DeleteGuild(actor, g), host);
    forall e | e in chat.lists && e.host == host && e.user == g
      ensures (e.user, e.guild) in Dropped(chat, DeleteGuild(actor, g), host)
    {
    }
  }

  lemma DropGuildListed(chat: Chat, op: Op, host: Host)
    requires op.DeleteGuild? && CheckGuildUser(chat, op.g, op.actor).None?
    ensures ListedFrom(DropGuild(chat, op.g), host) == ListedFrom(chat, host) - Dropped(chat, op, host)
  {
    var dropped := DropGuild(chat, op.g);
    forall pair: (u64, u64)
      ensures pair in ListedFrom(dropped, host) <==> pair in ListedFrom(chat, host) && pair.0 != op.g
    {
      Listed(chat, host, pair);
      Listed(dropped, host, pair);
    }
  }

  lemma Listed(chat: Chat, host: Host, pair: (u64, u64))
    ensures pair in ListedFrom(chat, host) <==> Entry(pair.0, pair.1, host) in chat.lists
  {
    if Entry(pair.0, pair.1, host) in chat.lists {
      var e := Entry(pair.0, pair.1, host);
      assert (e.user, e.guild) in ListedFrom(chat, host);
    }
  }

  lemma {:induction false} NotifyKeepsListed(chat: Chat, actor: u64, g: u64, members: seq<u64>, host: Host)
    requires host != []
    ensures ListedFrom(NotifyDeleted(chat, actor, g, members), host) == ListedFrom(chat, host)
  {
    if |members| > 0 {
      NotifyKeepsListed(chat, actor, g, members[..|members| - 1], host);
    }
  }
}
