/**
 * The guild lists of a server's own users (`dispatch_guild_join`,
 * `dispatch_guild_leave` and the handlers that call them): when a list says
 * exactly which guilds its user is a member of.
 */
module GuildLists {
  import opened Wrappers
  import opened Bytes
  import opened Membership

  /** The entry and the member row of a user of this server say the same. */
  ghost predicate ListedRightly(chat: Chat, g: u64, user: u64) {
    user in chat.foreign || (Entry(user, g, []) in chat.lists <==> (g, user) in chat.members)
  }

  ghost predicate ListsTrue(chat: Chat) {
    forall g: u64, user: u64 :: ListedRightly(chat, g, user)
  }

  /** What a request would have to see to beforehand. */
  ghost predicate Lists(chat: Chat, op: Op) {
    match op
    case CreateGuild(user, g) => user != 0 || 0 in chat.foreign || (g, 0) in chat.members
    case DeleteGuild(actor, g) =>
      Allowed(chat, op) ==>
        && (forall user: u64 | (g, user) in chat.members && user !in chat.foreign :: user == actor || user == g)
        && (g in chat.foreign || forall other: u64 | (other, g) in chat.members :: other == g)
    case Join(user, name) =>
      LetsIn(chat, user, name) ==> user in chat.foreign || chat.invites[name].g in chat.defaultRoles
    case _ => true
  }

  lemma DeletionLists(chat: Chat, actor: u64, g: u64, h: u64, user: u64)
    requires ListsTrue(chat) && Allowed(chat, DeleteGuild(actor, g))
    ensures ListedRightly(After(chat, DeleteGuild(actor, g)), h, user) <==>
              || user in chat.foreign
              || (h == g && ((g, user) in chat.members ==> user == actor || user == g))
              || (h != g && ((h, user) in chat.members ==> user != g))
  {
    var dropped, ids := DropGuild(chat, g), MemberIds(chat, g);
    NotifyFrame(dropped, actor, g, ids);
    NotifiedLists(dropped, actor, g, ids);
    assert ListedRightly(chat, h, user);
    forall m: u64
      ensures m in ids <==> (g, m) in chat.members
    {
      assert (g, m).0 == g && (g, m).1 == m;
    }
    if user !in chat.foreign && user == actor {
      assert user in ids;
    }
  }

  /** A request leaves the lists of its own users true exactly when it sees to that. */
  lemma ListsKeptIff(chat: Chat, op: Op)
    requires ListsTrue(chat)
    ensures ListsTrue(After(chat, op)) <==> Lists(chat, op)
  {
    var after := After(chat, op);
    SucceedsIff(chat, op);
    match op
    case DeleteGuild(actor, g) =>
      if Allowed(chat, op) {
        NotifyFrame(DropGuild(chat, g), actor, g, MemberIds(chat, g));
        forall h: u64, user: u64
          ensures ListedRightly(after, h, user) <==>
                    || user in chat.foreign
                    || (h == g && ((g, user) in chat.members ==> user == actor || user == g))
                    || (h != g && ((h, user) in chat.members ==> user != g))
        {
          DeletionLists(chat, actor, g, h, user);
        }
      }
    case Join(user, name) => JoinLists(chat, user, name);
    case CreateGuild(user, g) => CreationLists(chat, user, g);
    case _ =>
      forall h: u64, user: u64
        ensures ListedRightly(after, h, user)
      {
        assert ListedRightly(chat, h, user);
      }
  }

  lemma JoinLists(chat: Chat, user: u64, name: Name)
    requires ListsTrue(chat)
    ensures ListsTrue(After(chat, Join(user, name))) <==> Lists(chat, Join(user, name))
  {
    var after := After(chat, Join(user, name));
    SucceedsIff(chat, Join(user, name));
    if LetsIn(chat, user, name) {
      var g := chat.invites[name].g;
      assert ListedRightly(chat, g, user);
      forall h: u64, other: u64 | (h, other) != (g, user)
        ensures ListedRightly(after, h, other)
      {
        assert ListedRightly(chat, h, other);
      }
      assert ListedRightly(after, g, user) <==> Lists(chat, Join(user, name));
    } else {
      assert after == chat;
    }
  }

  lemma CreationLists(chat: Chat, user: u64, g: u64)
    requires ListsTrue(chat)
    ensures ListsTrue(After(chat, CreateGuild(user, g))) <==> Lists(chat, CreateGuild(user, g))
  {
    var after := After(chat, CreateGuild(user, g));
    forall h: u64, other: u64 | (h, other) != (g, user)
      ensures ListedRightly(after, h, other)
    {
      assert ListedRightly(chat, h, other);
    }
    assert ListedRightly(after, g, user) <==> Lists(chat, CreateGuild(user, g));
  }

  // ---- runs ----

  ghost predicate ListsRun(chat: Chat, ops: seq<Op>)
    decreases |ops|
  {
    |ops| == 0 || (Lists(chat, ops[0]) && ListsRun(After(chat, ops[0]), ops[1..]))
  }

  ghost predicate TrueThroughout(chat: Chat, ops: seq<Op>)
    decreases |ops|
  {
    ListsTrue(chat) && (|ops| > 0 ==> TrueThroughout(After(chat, ops[0]), ops[1..]))
  }

  /** The lists are true in every state of a run exactly when each of its requests sees to it. */
  lemma {:induction false} ListsRunIff(chat: Chat, ops: seq<Op>)
    requires ListsTrue(chat)
    ensures TrueThroughout(chat, ops) <==> ListsRun(chat, ops)
    decreases |ops|
  {
    if |ops| > 0 {
      ListsKeptIff(chat, ops[0]);
      if Lists(chat, ops[0]) {
        ListsRunIff(After(chat, ops[0]), ops[1..]);
      }
    }
  }

  /** From an empty server on. */
  lemma ListsOverRuns(ops: seq<Op>)
    ensures TrueThroughout(EmptyChat, ops) <==> ListsRun(EmptyChat, ops)
  {
    ListsRunIff(EmptyChat, ops);
  }

  // ---- guild lists after a deletion ----

  /**
   * Deleting a guild clears its entries in the local users' lists exactly when
   * every such entry is of a user with the guild's number, whose list goes with
   * the guild's rows, or is the caller's and some member is local.
   */
  lemma DeletionClearsListsIff(chat: Chat, actor: u64, g: u64)
    requires CheckGuildUser(chat, g, actor).None?
    ensures (forall e | e in After(chat, DeleteGuild(actor, g)).lists :: !(e.guild == g && e.host == []))
       <==> (forall e | e in chat.lists && e.guild == g && e.host == [] ::
               e.user == g || (e.user == actor && exists m :: (g, m) in chat.members && m !in chat.foreign))
  {
    var dropped, ids := DropGuild(chat, g), MemberIds(chat, g);
    NotifiedLists(dropped, actor, g, ids);
    var after := After(chat, DeleteGuild(actor, g));
    forall m: u64
      ensures m in ids <==> (g, m) in chat.members
    {
      assert (g, m).0 == g && (g, m).1 == m;
    }
    var edited := exists m :: (g, m) in chat.members && m !in chat.foreign;
    assert edited <==> exists m | m in ids :: m !in dropped.foreign;
    forall e
      ensures e in after.lists && e.guild == g && e.host == [] <==>
                e in chat.lists && e.guild == g && e.host == [] && e.user != g && !(e.user == actor && edited)
    {
      if e.user == actor && e.guild == g && e.host == [] {
        assert e == Entry(actor, g, []);
      }
    }
  }

  lemma {:induction false} NotifiedLists(chat: Chat, actor: u64, g: u64, members: seq<u64>)
    ensures NotifyDeleted(chat, actor, g, members).lists
         == if exists m | m in members :: m !in chat.foreign then chat.lists - {Entry(actor, g, [])} else chat.lists
  {
    if |members| > 0 {
      NotifiedLists(chat, actor, g, members[..|members| - 1]);
      assert forall m :: m in members <==> m in members[..|members| - 1] || m == members[|members| - 1];
    }
  }

  const TwoMembers := EmptyChat.(
    guilds := map[5 := {1}], defaultRoles := {5}, members := {(5, 1), (5, 2)},
    lists := {Entry(1, 5, []), Entry(2, 5, [])}, invites := map[[9] := Invite(5, 0, 1)])

  lemma TwoMembersReached()
    ensures After(After(After(EmptyChat, CreateGuild(1, 5)), CreateInvite(1, 5, [9], 0)), Join(2, [9])) == TwoMembers
  {
    var one := EmptyChat.(guilds := map[5 := {1}], defaultRoles := {5}, members := {(5, 1)}, lists := {Entry(1, 5, [])});
    var two := one.(invites := map[[9] := Invite(5, 0, 0)]);
    assert After(EmptyChat, CreateGuild(1, 5)) == one;
    assert After(one, CreateInvite(1, 5, [9], 0)) == two;
  }

  /** Two local members; the owner deletes the guild, and the other one still has it listed. */
  lemma DeletedGuildStaysListed()
    ensures var ops := [CreateGuild(1, 5), CreateInvite(1, 5, [9], 0), Join(2, [9]), DeleteGuild(1, 5)];
            FreshRun(EmptyChat, ops) && Entry(2, 5, []) in Run(EmptyChat, ops).lists
  {
    var ops := [CreateGuild(1, 5), CreateInvite(1, 5, [9], 0), Join(2, [9]), DeleteGuild(1, 5)];
    TwoMembersReached();
    hide Handle;
    assert ops[1..][1..] == ops[2..] && ops[2..][1..] == ops[3..] && ops[3..][1..] == [];
    assert Run(TwoMembers, ops[3..]) == After(TwoMembers, DeleteGuild(1, 5));
    assert Run(EmptyChat, ops) == After(TwoMembers, DeleteGuild(1, 5));
    NoGuildsCreated(After(EmptyChat, ops[0]), ops[1..]);
    OtherListKept();
  }

  lemma OtherListKept()
    ensures Entry(2, 5, []) in After(TwoMembers, DeleteGuild(1, 5)).lists
  {
    NotifiedLists(DropGuild(TwoMembers, 5), 1, 5, MemberIds(TwoMembers, 5));
  }
}
