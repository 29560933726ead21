/**
 * Guild membership, bans and invites of one server (`src/impls/chat/guilds`,
 * `src/impls/chat/moderation` and the join/leave dispatch of
 * `src/impls/chat/mod.rs`), with the federation events each handler emits.
 */
module Membership {
  import opened Wrappers
  import opened Bytes

  type Host = bytes

  type Name = bytes

  type u32 = n: int | 0 <= n < 0x1_0000_0000

  datatype Invite = Invite(g: u64, possible: u32, used: u32)

  /** What another server is told about one of its users. */
  datatype Event = Added(user: u64, guild: u64) | Removed(user: u64, guild: u64)

  datatype Dispatch = Dispatch(host: Host, event: Event)

  /** An entry of a user's guild list; the host is empty for guilds of this server. */
  datatype Entry = Entry(user: u64, guild: u64, host: Host)

  datatype Chat = Chat(
    guilds: map<u64, set<u64>>,         // guild rows, with their owners
    defaultRoles: set<u64>,             // guilds whose role 0 is stored
    members: set<(u64, u64)>,           // (guild, user)
    bans: set<(u64, u64)>,
    invites: map<Name, Invite>,
    foreign: map<u64, (u64, Host)>,     // local id -> foreign id and host
    accounts: map<(u64, Host), u64>,    // foreign id and host -> local id
    lists: set<Entry>,
    outbox: seq<Dispatch>)              // events handed to the federation task

  const EmptyChat := Chat(map[], {}, {}, {}, map[], map[], map[], {}, [])

  datatype Error =
    | NoSuchInvite | UserBanned | UserAlreadyInGuild | InviteExpired | NoSuchRole
    | NoSuchGuild | UserNotInGuild | OwnerCantLeave | CantKickOrBanYourself
    | InviteNameEmpty | InviteExists

  datatype Op =
    | CreateGuild(user: u64, g: u64)               // g is the drawn id
    | DeleteGuild(actor: u64, g: u64)
    | CreateInvite(actor: u64, g: u64, name: Name, possible: u32)
    | DeleteInvite(actor: u64, g: u64, name: Name)
    | Join(user: u64, name: Name)
    | Leave(user: u64, g: u64)
    | Kick(actor: u64, g: u64, user: u64)
    | Ban(actor: u64, g: u64, user: u64)
    | Unban(actor: u64, g: u64, user: u64)
    | DeleteDefaultRole(actor: u64, g: u64)
    | Login(foreignId: u64, host: Host, local: u64) // local is the drawn id

  // ---- the checks in front of each handler ----

  function CheckGuildUser(chat: Chat, g: u64, user: u64): Option<Error> {
    if g !in chat.guilds then Some(NoSuchGuild)
    else if (g, user) !in chat.members then Some(UserNotInGuild)
    else None
  }

  predicate Infinite(invite: Invite) {
    invite.possible == 0
  }

  function CheckJoin(chat: Chat, user: u64, name: Name): Option<Error> {
    if name !in chat.invites then Some(NoSuchInvite)
    else
      var invite := chat.invites[name];
      if (invite.g, user) in chat.bans then Some(UserBanned)
      else if (invite.g, user) in chat.members then Some(UserAlreadyInGuild)
      else if !Infinite(invite) && invite.used >= invite.possible then Some(InviteExpired)
      else None
  }

  predicate IsOwner(chat: Chat, g: u64, user: u64)
    requires g in chat.guilds
  {
    user == 0 || user in chat.guilds[g]
  }

  function CheckRemoval(chat: Chat, actor: u64, g: u64, user: u64): Option<Error> {
    if actor == user then Some(CantKickOrBanYourself)
    else if CheckGuildUser(chat, g, actor).Some? then CheckGuildUser(chat, g, actor)
    else if (g, user) !in chat.members then Some(UserNotInGuild)
    else None
  }

  // ---- what the handlers write ----

  /** `dispatch_guild_join`. */
  function DispatchJoin(chat: Chat, g: u64, user: u64): Chat {
    if user in chat.foreign then
      var (id, host) := chat.foreign[user];
      chat.(outbox := chat.outbox + [Dispatch(host, Added(id, g))])
    else
      chat.(lists := chat.lists + {Entry(user, g, [])})
  }

  /** `dispatch_guild_leave`. */
  function DispatchLeave(chat: Chat, g: u64, user: u64): Chat {
    if user in chat.foreign then
      var (id, host) := chat.foreign[user];
      chat.(outbox := chat.outbox + [Dispatch(host, Removed(id, g))])
    else
      chat.(lists := chat.lists - {Entry(user, g, [])})
  }

  function Admit(chat: Chat, g: u64, user: u64): Chat {
    chat.(members := chat.members + {(g, user)})
  }

  function Evict(chat: Chat, g: u64, user: u64): Chat {
    DispatchLeave(chat.(members := chat.members - {(g, user)}), g, user)
  }

  function UseInvite(chat: Chat, name: Name): Chat
    requires name in chat.invites
  {
    var invite := chat.invites[name];
    var used := (invite.used + 1) % 0x1_0000_0000;
    if !Infinite(invite) && used >= invite.possible then chat.(invites := chat.invites - {name})
    else chat.(invites := chat.invites[name := invite.(used := used)])
  }

  /** The ids of a guild's members, in key order. */
  ghost function MemberIds(chat: Chat, g: u64): seq<u64> {
    SortedIds(set m | m in chat.members && m.0 == g :: m.1)
  }

  ghost function SortedIds(ids: set<u64>): (sorted: seq<u64>)
    ensures forall x :: x in sorted <==> x in ids
  {
    if ids == {} then []
    else
      var least := LeastId(ids, 0);
      [least] + SortedIds(ids - {least})
  }

  ghost function LeastId(ids: set<u64>, start: nat): (least: u64)
    requires ids != {} && forall x | x in ids :: start <= x
    ensures least in ids && forall x | x in ids :: least <= x
    decreases TWO_64 - start
  {
    var some :| some in ids;
    if start in ids then start else LeastId(ids, start + 1)
  }

  /** Every row under the guild's id goes, the guild list of a user with that number included. */
  ghost function DropGuild(chat: Chat, g: u64): Chat {
    chat.(
      guilds := chat.guilds - {g},
      defaultRoles := chat.defaultRoles - {g},
      members := (set m | m in chat.members && m.0 != g),
      bans := (set b | b in chat.bans && b.0 != g),
      lists := (set e | e in chat.lists && e.user != g))
  }

  /** The notification loop of `delete_guild.rs`; for local members it edits the caller's own list. */
  function NotifyDeleted(chat: Chat, actor: u64, g: u64, members: seq<u64>): Chat {
    if |members| == 0 then chat
    else
      var before := NotifyDeleted(chat, actor, g, members[..|members| - 1]);
      var member := members[|members| - 1];
      if member in chat.foreign then
        var (id, host) := chat.foreign[member];
        before.(outbox := before.outbox + [Dispatch(host, Removed(id, g))])
      else
        before.(lists := before.lists - {Entry(actor, g, [])})
  }

  // ---- one request ----

  ghost function Handle(chat: Chat, op: Op): (Chat, Option<Error>) {
    match op
    case CreateGuild(user, g) =>
      var created := chat.(guilds := chat.guilds[g := {user}], defaultRoles := chat.defaultRoles + {g});
      (DispatchJoin(if user != 0 then Admit(created, g, user) else created, g, user), None)
    case DeleteGuild(actor, g) =>
      var refused := CheckGuildUser(chat, g, actor);
      if refused.Some? then (chat, refused)
      else (NotifyDeleted(DropGuild(chat, g), actor, g, MemberIds(chat, g)), None)
    case CreateInvite(actor, g, name, possible) =>
      var refused := CheckGuildUser(chat, g, actor);
      if refused.Some? then (chat, refused)
      else if name == [] then (chat, Some(InviteNameEmpty))
      else if name in chat.invites then (chat, Some(InviteExists))
      else (chat.(invites := chat.invites[name := Invite(g, possible, 0)]), None)
    case DeleteInvite(actor, g, name) =>
      var refused := CheckGuildUser(chat, g, actor);
      if refused.Some? then (chat, refused) else (chat.(invites := chat.invites - {name}), None)
    case Join(user, name) =>
      var refused := CheckJoin(chat, user, name);
      if refused.Some? then (chat, refused)
      else
        var g := chat.invites[name].g;
        var admitted := Admit(chat, g, user);
        // the member row is already stored when the role check fails
        if g !in chat.defaultRoles then (admitted, Some(NoSuchRole))
        else (DispatchJoin(UseInvite(admitted, name), g, user), None)
    case Leave(user, g) =>
      var refused := CheckGuildUser(chat, g, user);
      if refused.Some? then (chat, refused)
      else if IsOwner(chat, g, user) then (chat, Some(OwnerCantLeave))
      else (Evict(chat, g, user), None)
    case Kick(actor, g, user) =>
      var refused := CheckRemoval(chat, actor, g, user);
      if refused.Some? then (chat, refused) else (Evict(chat, g, user), None)
    case Ban(actor, g, user) =>
      var refused := CheckRemoval(chat, actor, g, user);
      if refused.Some? then (chat, refused)
      else (Evict(chat.(bans := chat.bans + {(g, user)}), g, user), None)
    case Unban(actor, g, user) =>
      var refused := CheckGuildUser(chat, g, actor);
      if refused.Some? then (chat, refused) else (chat.(bans := chat.bans - {(g, user)}), None)
    case DeleteDefaultRole(actor, g) =>
      var refused := CheckGuildUser(chat, g, actor);
      if refused.Some? then (chat, refused)
      else if g !in chat.defaultRoles then (chat, Some(NoSuchRole))
      else (chat.(defaultRoles := chat.defaultRoles - {g}), None)
    case Login(id, host, local) =>
      if (id, host) in chat.accounts then (chat, None)
      else
        (chat.(foreign := chat.foreign[local := (id, host)], accounts := chat.accounts[(id, host) := local]), None)
  }

  ghost function After(chat: Chat, op: Op): Chat {
    Handle(chat, op).0
  }

  /** The ids drawn for federated users start at 1. */
  predicate Drawable(op: Op) {
    op.Login? ==> op.local != 0
  }

  /** A drawn guild id has no guild row yet; the source draws until that is so. */
  predicate Fresh(chat: Chat, op: Op) {
    Drawable(op) && (op.CreateGuild? ==> op.g !in chat.guilds)
  }

  // ---- what every run keeps ----

  ghost predicate NeverBoth(chat: Chat) {
    chat.members !! chat.bans
  }

  ghost predicate BansHaveGuilds(chat: Chat) {
    forall b | b in chat.bans :: b.0 in chat.guilds
  }

  ghost predicate InvitesOpen(chat: Chat) {
    forall n | n in chat.invites && !Infinite(chat.invites[n]) :: chat.invites[n].used < chat.invites[n].possible
  }

  /** Every linked id is the one its account resolves to, so no account has two; an account may resolve to an id it lost. */
  ghost predicate LinksMatch(chat: Chat) {
    forall l | l in chat.foreign :: chat.foreign[l] in chat.accounts && chat.accounts[chat.foreign[l]] == l
  }

  ghost predicate LinksSound(chat: Chat) {
    LinksMatch(chat) && 0 !in chat.foreign
  }

  ghost predicate Sound(chat: Chat) {
    NeverBoth(chat) && BansHaveGuilds(chat) && InvitesOpen(chat) && LinksSound(chat)
  }

  lemma {:induction false} NotifyFrame(chat: Chat, actor: u64, g: u64, members: seq<u64>)
    ensures var after := NotifyDeleted(chat, actor, g, members);
            after.(lists := chat.lists, outbox := chat.outbox) == chat
  {
    if |members| > 0 {
      NotifyFrame(chat, actor, g, members[..|members| - 1]);
    }
  }

  /** No handler makes a user both member and banned, leaves a used-up invite, or links an account twice. */
  lemma HandleKeepsSound(chat: Chat, op: Op)
    requires Sound(chat) && Fresh(chat, op)
    ensures Sound(After(chat, op))
  {
    match op
    case DeleteGuild(actor, g) => DeleteKeepsSound(chat, actor, g);
    case Leave(user, g) => EvictKeepsSound(chat, g, user);
    case Kick(_, g, user) => EvictKeepsSound(chat, g, user);
    case Ban(_, g, user) => EvictKeepsSound(chat, g, user);
    case Join(user, name) => JoinKeepsSound(chat, user, name);
    case _ =>
  }

  lemma EvictKeepsSound(chat: Chat, g: u64, user: u64)
    requires Sound(chat)
    ensures Sound(Evict(chat, g, user))
    ensures g in chat.guilds ==> Sound(Evict(chat.(bans := chat.bans + {(g, user)}), g, user))
  {
  }

  lemma JoinKeepsSound(chat: Chat, user: u64, name: Name)
    requires Sound(chat)
    ensures Sound(After(chat, Join(user, name)))
  {
  }

  lemma DeleteKeepsSound(chat: Chat, actor: u64, g: u64)
    requires Sound(chat)
    ensures Sound(After(chat, DeleteGuild(actor, g)))
  {
    NotifyFrame(DropGuild(chat, g), actor, g, MemberIds(chat, g));
  }

  ghost predicate FreshRun(chat: Chat, ops: seq<Op>)
    decreases |ops|
  {
    |ops| == 0 || (Fresh(chat, ops[0]) && FreshRun(After(chat, ops[0]), ops[1..]))
  }

  ghost function Run(chat: Chat, ops: seq<Op>): Chat
    decreases |ops|
  {
    if |ops| == 0 then chat else Run(After(chat, ops[0]), ops[1..])
  }

  lemma {:induction false} RunKeepsSound(chat: Chat, ops: seq<Op>)
    requires Sound(chat) && FreshRun(chat, ops)
    ensures Sound(Run(chat, ops))
    decreases |ops|
  {
    if |ops| > 0 {
      HandleKeepsSound(chat, ops[0]);
      RunKeepsSound(After(chat, ops[0]), ops[1..]);
    }
  }

  /** Over every run, nobody is ever member and banned, and a limited invite is below its limit. */
  lemma NeverMemberAndBanned(ops: seq<Op>, g: u64, user: u64, name: Name)
    requires FreshRun(EmptyChat, ops)
    ensures var chat := Run(EmptyChat, ops);
            && !((g, user) in chat.members && (g, user) in chat.bans)
            && (name in chat.invites && chat.invites[name].possible > 0 ==>
                  chat.invites[name].used < chat.invites[name].possible)
  {
    RunKeepsSound(EmptyChat, ops);
  }

  // ---- what each request changes ----

  predicate MemberOf(chat: Chat, g: u64, user: u64) {
    g in chat.guilds && (g, user) in chat.members
  }

  /** The invite exists, does not keep the user out, and has uses left. */
  predicate LetsIn(chat: Chat, user: u64, name: Name) {
    && name in chat.invites
    && (chat.invites[name].g, user) !in chat.bans
    && (chat.invites[name].g, user) !in chat.members
    && (chat.invites[name].possible == 0 || chat.invites[name].used < chat.invites[name].possible)
  }

  /** What a request asks of the stored rows. */
  predicate Allowed(chat: Chat, op: Op) {
    match op
    case CreateGuild(_, _) => true
    case DeleteGuild(actor, g) => MemberOf(chat, g, actor)
    case CreateInvite(actor, g, name, _) => MemberOf(chat, g, actor) && name != [] && name !in chat.invites
    case DeleteInvite(actor, g, _) => MemberOf(chat, g, actor)
    case Join(user, name) => LetsIn(chat, user, name) && chat.invites[name].g in chat.defaultRoles
    case Leave(user, g) => MemberOf(chat, g, user) && user != 0 && user !in chat.guilds[g]
    case Kick(actor, g, user) => actor != user && MemberOf(chat, g, actor) && (g, user) in chat.members
    case Ban(actor, g, user) => actor != user && MemberOf(chat, g, actor) && (g, user) in chat.members
    case Unban(actor, g, _) => MemberOf(chat, g, actor)
    case DeleteDefaultRole(actor, g) => MemberOf(chat, g, actor) && g in chat.defaultRoles
    case Login(_, _, _) => true
  }

  /** A request succeeds exactly when it is allowed, and a refused one changes nothing but for a join without the role. */
  lemma SucceedsIff(chat: Chat, op: Op)
    ensures Handle(chat, op).1.None? <==> Allowed(chat, op)
    ensures Handle(chat, op).1.Some? && !(op.Join? && LetsIn(chat, op.user, op.name)) ==> After(chat, op) == chat
    ensures forall name :: Admits(chat, op, name) <==> op.Join? && op.name == name && LetsIn(chat, op.user, name)
  {
  }

  /** Who is told what, where one of several checks failed. */
  lemma RefusalReasons(chat: Chat, op: Op)
    ensures var error := Handle(chat, op).1;
            && (error == Some(OwnerCantLeave) <==>
                  op.Leave? && MemberOf(chat, op.g, op.user) && (op.user == 0 || op.user in chat.guilds[op.g]))
            && (error == Some(CantKickOrBanYourself) <==> (op.Kick? || op.Ban?) && op.actor == op.user)
            && (error == Some(NoSuchInvite) <==> op.Join? && op.name !in chat.invites)
            && (error == Some(UserBanned) <==>
                  op.Join? && op.name in chat.invites && (chat.invites[op.name].g, op.user) in chat.bans)
            && (error == Some(NoSuchGuild) <==>
                  || (op.Leave? && op.g !in chat.guilds)
                  || ((op.Kick? || op.Ban?) && op.actor != op.user && op.g !in chat.guilds)
                  || ((op.DeleteGuild? || op.CreateInvite? || op.DeleteInvite? || op.Unban? || op.DeleteDefaultRole?)
                      && op.g !in chat.guilds))
            && (error == Some(InviteExists) <==>
                  op.CreateInvite? && MemberOf(chat, op.g, op.actor) && op.name != [] && op.name in chat.invites)
  {
  }

  /** Who is banned after a request. */
  lemma BansChange(chat: Chat, op: Op, g: u64, user: u64)
    ensures (g, user) in After(chat, op).bans <==>
              if !Allowed(chat, op) then (g, user) in chat.bans
              else if op.Ban? && (op.g, op.user) == (g, user) then true
              else if (op.Unban? && (op.g, op.user) == (g, user)) || (op.DeleteGuild? && op.g == g) then false
              else (g, user) in chat.bans
  {
    hide NotifyDeleted, MemberIds, CheckRemoval, CheckGuildUser;
    SucceedsIff(chat, op);
    if op.DeleteGuild? {
      NotifyFrame(DropGuild(chat, op.g), op.actor, op.g, MemberIds(chat, op.g));
    }
  }

  /** Who is a member after a request. */
  lemma MembersChange(chat: Chat, op: Op, g: u64, user: u64)
    ensures (g, user) in After(chat, op).members <==>
              if op.Join? && LetsIn(chat, op.user, op.name) && (chat.invites[op.name].g, op.user) == (g, user) then true
              else if !Allowed(chat, op) then (g, user) in chat.members
              else if op.CreateGuild? && (op.g, op.user) == (g, user) && user != 0 then true
              else if (op.Leave? || op.Kick? || op.Ban?) && (op.g, op.user) == (g, user) then false
              else if op.DeleteGuild? && op.g == g then false
              else (g, user) in chat.members
  {
    hide NotifyDeleted, MemberIds, CheckRemoval, CheckGuildUser;
    SucceedsIff(chat, op);
    if op.DeleteGuild? {
      NotifyFrame(DropGuild(chat, op.g), op.actor, op.g, MemberIds(chat, op.g));
    }
  }

  /** Which guilds there are after a request, and who owns them. */
  lemma GuildsChange(chat: Chat, op: Op, g: u64)
    ensures var after, ok := After(chat, op), Allowed(chat, op);
            && (g in after.guilds <==>
                  if op.CreateGuild? && op.g == g then true
                  else if ok && op.DeleteGuild? && op.g == g then false
                  else g in chat.guilds)
            && (g in after.guilds ==>
                  after.guilds[g] == if op.CreateGuild? && op.g == g then {op.user} else chat.guilds[g])
  {
    hide NotifyDeleted, MemberIds, CheckRemoval, CheckGuildUser;
    SucceedsIff(chat, op);
    if op.DeleteGuild? {
      NotifyFrame(DropGuild(chat, op.g), op.actor, op.g, MemberIds(chat, op.g));
    }
  }

  /** Which guilds hold the default role after a request. */
  lemma DefaultRolesChange(chat: Chat, op: Op, g: u64)
    ensures g in After(chat, op).defaultRoles <==>
              if op.CreateGuild? && op.g == g then true
              else if Allowed(chat, op) && (op.DeleteGuild? || op.DeleteDefaultRole?) && op.g == g then false
              else g in chat.defaultRoles
  {
    hide NotifyDeleted, MemberIds, CheckRemoval, CheckGuildUser;
    SucceedsIff(chat, op);
    if op.DeleteGuild? {
      NotifyFrame(DropGuild(chat, op.g), op.actor, op.g, MemberIds(chat, op.g));
    }
  }

  /** Which invites there are after a request: deleting a guild leaves its invites behind. */
  lemma InvitesChange(chat: Chat, op: Op, name: Name)
    requires InvitesOpen(chat)
    ensures var after, ok := After(chat, op), Allowed(chat, op);
            if ok && op.CreateInvite? && op.name == name then
              name in after.invites && after.invites[name] == Invite(op.g, op.possible, 0)
            else if ok && op.DeleteInvite? && op.name == name then
              name !in after.invites
            else if ok && op.Join? && op.name == name then
              var invite := chat.invites[name];
              && (name in after.invites <==> invite.possible == 0 || invite.used + 1 < invite.possible)
              && (name in after.invites ==>
                    after.invites[name] == invite.(used := (invite.used + 1) % 0x1_0000_0000))
            else
              && (name in after.invites <==> name in chat.invites)
              && (name in after.invites ==> after.invites[name] == chat.invites[name])
  {
    hide NotifyDeleted, MemberIds, CheckRemoval, CheckGuildUser;
    SucceedsIff(chat, op);
    if op.DeleteGuild? {
      NotifyFrame(DropGuild(chat, op.g), op.actor, op.g, MemberIds(chat, op.g));
    }
  }

  /** Only a login of an unknown account changes the links: the account gets the drawn id, whoever had it before. */
  lemma LinksChange(chat: Chat, op: Op, local: u64, id: u64, host: Host)
    ensures var after := After(chat, op);
            var links := op.Login? && (op.foreignId, op.host) !in chat.accounts;
            && (local in after.foreign <==> local in chat.foreign || (links && op.local == local))
            && (local in after.foreign ==>
                  after.foreign[local] == if links && op.local == local then (op.foreignId, op.host) else chat.foreign[local])
            && ((id, host) in after.accounts <==>
                  (id, host) in chat.accounts || (op.Login? && (op.foreignId, op.host) == (id, host)))
            && ((id, host) in chat.accounts ==> after.accounts[(id, host)] == chat.accounts[(id, host)])
            && (links ==> after.accounts[(op.foreignId, op.host)] == op.local)
  {
    if op.DeleteGuild? {
      NotifyFrame(DropGuild(chat, op.g), op.actor, op.g, MemberIds(chat, op.g));
    }
  }

  // ---- bans over runs ----

  /** What a request says about a user's ban, if anything. */
  predicate PassesSentence(chat: Chat, op: Op, g: u64, user: u64) {
    && Allowed(chat, op)
    && (|| ((op.Ban? || op.Unban?) && (op.g, op.user) == (g, user))
        || (op.DeleteGuild? && op.g == g))
  }

  /** The last word of a run about a user's ban: only bans ban, and an unban or the guild's deletion ends it. */
  ghost function LastSentence(chat: Chat, ops: seq<Op>, g: u64, user: u64): Option<bool>
    decreases |ops|
  {
    if |ops| == 0 then None
    else
      var rest := LastSentence(After(chat, ops[0]), ops[1..], g, user);
      if rest.Some? then rest
      else if PassesSentence(chat, ops[0], g, user) then Some(ops[0].Ban?)
      else None
  }

  lemma {:induction false} BannedByHistory(chat: Chat, ops: seq<Op>, g: u64, user: u64)
    ensures (g, user) in Run(chat, ops).bans <==>
              match LastSentence(chat, ops, g, user)
              case Some(banned) => banned
              case None => (g, user) in chat.bans
    decreases |ops|
  {
    if |ops| > 0 {
      BansChange(chat, ops[0], g, user);
      BannedByHistory(After(chat, ops[0]), ops[1..], g, user);
    }
  }

  /** After a ban, and until it is lifted, the user is no member and no invite of the guild lets it in. */
  lemma BannedStaysOut(chat: Chat, actor: u64, g: u64, user: u64, ops: seq<Op>, name: Name)
    requires Sound(chat) && Allowed(chat, Ban(actor, g, user))
    requires FreshRun(After(chat, Ban(actor, g, user)), ops)
    requires LastSentence(After(chat, Ban(actor, g, user)), ops, g, user) != Some(false)
    ensures var end := Run(After(chat, Ban(actor, g, user)), ops);
            && (g, user) in end.bans && (g, user) !in end.members
            && (name in end.invites && end.invites[name].g == g ==>
                  Handle(end, Join(user, name)) == (end, Some(UserBanned)))
  {
    hide Handle, After, Sound, Allowed;
    var banned := After(chat, Ban(actor, g, user));
    BansChange(chat, Ban(actor, g, user), g, user);
    BannedByHistory(banned, ops, g, user);
    var end := Run(banned, ops);
    SoundAfterBan(chat, actor, g, user);
    RunKeepsSound(banned, ops);
    MemberOrBanned(end, g, user);
    RefusalReasons(end, Join(user, name));
    if name in end.invites && end.invites[name].g == g {
      RefusedJoin(end, user, name);
    }
  }

  lemma SoundAfterBan(chat: Chat, actor: u64, g: u64, user: u64)
    requires Sound(chat)
    ensures Sound(After(chat, Ban(actor, g, user)))
  {
    hide Handle, Sound;
    HandleKeepsSound(chat, Ban(actor, g, user));
  }

  lemma MemberOrBanned(chat: Chat, g: u64, user: u64)
    requires Sound(chat) && (g, user) in chat.bans
    ensures (g, user) !in chat.members
  {
  }

  lemma RefusedJoin(chat: Chat, user: u64, name: Name)
    requires Handle(chat, Join(user, name)).1 == Some(UserBanned)
    ensures Handle(chat, Join(user, name)) == (chat, Some(UserBanned))
  {
  }

  // ---- the life of an invite ----

  /** The invite lets the user in: a member row is written. */
  predicate Admits(chat: Chat, op: Op, name: Name) {
    op.Join? && op.name == name && CheckJoin(chat, op.user, name).None?
  }

  /** Members written through `name` while it exists; the end of the invite ends the count. */
  ghost function AdmittedVia(chat: Chat, ops: seq<Op>, name: Name): nat
    decreases |ops|
  {
    if |ops| == 0 || name !in chat.invites then 0
    else (if Admits(chat, ops[0], name) then 1 else 0) + AdmittedVia(After(chat, ops[0]), ops[1..], name)
  }

  /** Joins through `name` that are reported as successful. */
  ghost function JoinsVia(chat: Chat, ops: seq<Op>, name: Name): nat
    decreases |ops|
  {
    if |ops| == 0 || name !in chat.invites then 0
    else
      (if Admits(chat, ops[0], name) && Handle(chat, ops[0]).1.None? then 1 else 0)
      + JoinsVia(After(chat, ops[0]), ops[1..], name)
  }

  /** A handler either removes the invite, counts one use of it, or leaves it alone. */
  lemma InviteStep(chat: Chat, op: Op, name: Name)
    requires name in chat.invites && InvitesOpen(chat)
    ensures var (after, error) := Handle(chat, op);
            var invite := chat.invites[name];
            var counted := Admits(chat, op, name) && error.None?;
            && (name in after.invites ==>
                  after.invites[name] == if counted then invite.(used := (invite.used + 1) % 0x1_0000_0000) else invite)
            && (counted && name !in after.invites ==> !Infinite(invite) && invite.used + 1 == invite.possible)
  {
    if op.DeleteGuild? {
      NotifyFrame(DropGuild(chat, op.g), op.actor, op.g, MemberIds(chat, op.g));
    }
  }

  /** An invite with a limit succeeds at most as often as it has uses left. */
  lemma {:induction false} InviteLimit(chat: Chat, ops: seq<Op>, name: Name)
    requires Sound(chat) && FreshRun(chat, ops)
    requires name in chat.invites && !Infinite(chat.invites[name])
    ensures JoinsVia(chat, ops, name) <= chat.invites[name].possible - chat.invites[name].used
    decreases |ops|
  {
    hide Handle, NeverBoth, BansHaveGuilds, LinksSound;
    if |ops| > 0 {
      HandleKeepsSound(chat, ops[0]);
      InviteStep(chat, ops[0], name);
      if name in After(chat, ops[0]).invites {
        InviteLimit(After(chat, ops[0]), ops[1..], name);
      }
    }
  }

  lemma OneMore(n: nat, m: nat)
    ensures ((n + 1) % 0x1_0000_0000 + m) % 0x1_0000_0000 == (n + 1 + m) % 0x1_0000_0000
  {
  }

  /** While the invite exists, its stored count is the successful joins so far, modulo its width if they are unlimited. */
  lemma {:induction false} InviteCounts(chat: Chat, ops: seq<Op>, name: Name)
    requires Sound(chat) && FreshRun(chat, ops) && name in chat.invites
    requires forall i | 0 <= i <= |ops| :: name in Run(chat, ops[..i]).invites
    ensures name in Run(chat, ops).invites
    ensures Run(chat, ops).invites[name].used == (chat.invites[name].used + JoinsVia(chat, ops, name)) % 0x1_0000_0000
    ensures !Infinite(chat.invites[name]) ==>
              Run(chat, ops).invites[name].used == chat.invites[name].used + JoinsVia(chat, ops, name)
    decreases |ops|
  {
    hide Handle, NeverBoth, BansHaveGuilds, LinksSound;
    assert ops[..|ops|] == ops;
    if |ops| > 0 {
      var next := After(chat, ops[0]);
      HandleKeepsSound(chat, ops[0]);
      InviteStep(chat, ops[0], name);
      forall i | 0 <= i <= |ops| - 1
        ensures name in Run(next, ops[1..][..i]).invites
      {
        assert ops[..i + 1][1..] == ops[1..][..i];
      }
      assert ops[1..][..0] == [];
      InviteCounts(next, ops[1..], name);
      OneMore(chat.invites[name].used, JoinsVia(next, ops[1..], name));
    }
  }

  /** An admitted member is counted exactly when the guild still has its default role. */
  lemma AdmissionIsCountedIff(chat: Chat, user: u64, name: Name)
    requires CheckJoin(chat, user, name).None?
    ensures (chat.invites[name].g, user) in After(chat, Join(user, name)).members
    ensures Handle(chat, Join(user, name)).1.None? <==> chat.invites[name].g in chat.defaultRoles
    ensures chat.invites[name].g !in chat.defaultRoles ==>
              After(chat, Join(user, name)).invites == chat.invites
  {
  }

  /** While the invite exists, the default role is stored whenever it admits somebody. */
  ghost predicate RolesKept(chat: Chat, ops: seq<Op>, name: Name)
    decreases |ops|
  {
    |ops| == 0 || name !in chat.invites
    || (&& (Admits(chat, ops[0], name) ==> chat.invites[name].g in chat.defaultRoles)
        && RolesKept(After(chat, ops[0]), ops[1..], name))
  }

  lemma {:induction false} JoinsAreAdmissions(chat: Chat, ops: seq<Op>, name: Name)
    ensures JoinsVia(chat, ops, name) <= AdmittedVia(chat, ops, name)
    decreases |ops|
  {
    if |ops| > 0 {
      JoinsAreAdmissions(After(chat, ops[0]), ops[1..], name);
    }
  }

  /** The members written through an invite are the joins counted exactly when the default role was there for each of them. */
  lemma {:induction false} AdmissionsAreCountedIff(chat: Chat, ops: seq<Op>, name: Name)
    ensures AdmittedVia(chat, ops, name) == JoinsVia(chat, ops, name) <==> RolesKept(chat, ops, name)
    decreases |ops|
  {
    if |ops| > 0 && name in chat.invites {
      JoinsAreAdmissions(After(chat, ops[0]), ops[1..], name);
      AdmissionsAreCountedIff(After(chat, ops[0]), ops[1..], name);
    }
  }

  /** So with the default role in place at every admission the limit holds for the members written. */
  lemma InviteAdmitsAtMost(chat: Chat, ops: seq<Op>, name: Name)
    requires Sound(chat) && FreshRun(chat, ops) && RolesKept(chat, ops, name)
    requires name in chat.invites && !Infinite(chat.invites[name])
    ensures AdmittedVia(chat, ops, name) <= chat.invites[name].possible - chat.invites[name].used
  {
    AdmissionsAreCountedIff(chat, ops, name);
    InviteLimit(chat, ops, name);
  }

  /** A guild with a single-use invite whose default role is then deleted, and two users who use the invite. */
  const RolelessJoins: seq<Op> :=
    [CreateGuild(1, 5), CreateInvite(1, 5, [7], 1), DeleteDefaultRole(1, 5), Join(10, [7]), Join(11, [7])]

  const RolelessGuild := EmptyChat.(
    guilds := map[5 := {1}], members := {(5, 1)}, lists := {Entry(1, 5, [])}, invites := map[[7] := Invite(5, 1, 0)])

  lemma RolelessGuildReached()
    ensures Run(EmptyChat, RolelessJoins[..3]) == RolelessGuild
    ensures FreshRun(EmptyChat, RolelessJoins)
  {
    var ops, one := RolelessJoins[..3], After(EmptyChat, RolelessJoins[0]);
    var two := After(one, ops[1]);
    assert one == EmptyChat.(guilds := map[5 := {1}], defaultRoles := {5}, members := {(5, 1)}, lists := {Entry(1, 5, [])});
    assert two == one.(invites := map[[7] := Invite(5, 1, 0)]);
    assert After(two, ops[2]) == RolelessGuild;
    assert ops[1..] == [ops[1], ops[2]] && ops[1..][1..] == [ops[2]] && ops[1..][1..][1..] == [];
    assert Run(two, [ops[2]]) == RolelessGuild;
    NoGuildsCreated(one, RolelessJoins[1..]);
  }

  lemma {:induction false} NoGuildsCreated(chat: Chat, ops: seq<Op>)
    requires forall i | 0 <= i < |ops| :: !ops[i].CreateGuild? && Drawable(ops[i])
    ensures FreshRun(chat, ops)
    decreases |ops|
  {
    if |ops| > 0 {
      NoGuildsCreated(After(chat, ops[0]), ops[1..]);
    }
  }

  /** From an empty server on, a single-use invite lets two users in. */
  lemma InviteLimitNeedsRole()
    ensures FreshRun(EmptyChat, RolelessJoins)
    ensures var chat := Run(EmptyChat, RolelessJoins[..3]);
            && [7] in chat.invites && chat.invites[[7]] == Invite(5, 1, 0)
            && AdmittedVia(chat, RolelessJoins[3..], [7]) == 2
            && JoinsVia(chat, RolelessJoins[3..], [7]) == 0
  {
    RolelessGuildReached();
    var joins := [Join(10, [7]), Join(11, [7])];
    assert RolelessJoins[3..] == joins;
    var next := RolelessGuild.(members := RolelessGuild.members + {(5, 10)});
    var last := next.(members := next.members + {(5, 11)});
    assert After(RolelessGuild, joins[0]) == next && After(next, joins[1]) == last;
    assert joins[1..] == [joins[1]] && joins[1..][1..] == [];
    assert AdmittedVia(last, [], [7]) == 0 && JoinsVia(last, [], [7]) == 0;
    assert AdmittedVia(next, [joins[1]], [7]) == 1 && JoinsVia(next, [joins[1]], [7]) == 0;
  }
}
