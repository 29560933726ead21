/**
 * The guild and moderation handlers of one server (`src/impls/chat/guilds`,
 * `src/impls/chat/moderation`), run on the byte-level chat and profile trees.
 * `RowsChat` reads members, bans, guild lists, guilds and default roles out of
 * the stored rows; each method is proved to be `Membership.Handle` of its
 * request on what is read. Permission checks other than membership and
 * ownership only refuse requests; they are not modelled.
 */
module ChatServers {
  import opened Wrappers
  import opened Bytes
  import opened Store
  import opened ChatKeys
  import opened ChatStore
  import opened Membership
  import Channels
  import ChatTrees
  import Ordering
  import Permissions
  import Profiles
  import Sync

  // ---- what the chat rows say ----

  /** Reads the owners out of a stored guild record. */
  type Owners = bytes -> set<u64>

  ghost function GuildsOf(typed: Typed, owners: Owners): map<u64, set<u64>> {
    map g: u64 | 0 <= g < TWO_64 && Guild(g) in typed :: owners(typed[Guild(g)])
  }

  ghost function DefaultRolesOf(typed: Typed): set<u64> {
    set k | k in typed && k.Role? && k.role == 0 :: k.g
  }

  ghost function MembersOf(typed: Typed): set<(u64, u64)> {
    set k | k in typed && k.Member? :: (k.g, k.user)
  }

  ghost function BansOf(typed: Typed): set<(u64, u64)> {
    set k | k in typed && k.Ban? :: (k.g, k.user)
  }

  ghost function ListsOf(typed: Typed): set<Entry> {
    set k | k in typed && k.GuildList? :: Entry(k.g, k.guild, k.host)
  }

  /** The part of the chat state that lives in the chat rows. */
  ghost function RowsChat(typed: Typed, owners: Owners): Chat {
    Chat(GuildsOf(typed, owners), DefaultRolesOf(typed), MembersOf(typed), BansOf(typed),
         map[], map[], map[], ListsOf(typed), [])
  }

  /** Membership of each part is one row. */
  lemma RowsChatHas(typed: Typed, owners: Owners, a: u64, b: u64, host: Host)
    ensures var chat := RowsChat(typed, owners);
            && (a in chat.guilds <==> Guild(a) in typed)
            && (a in chat.guilds ==> chat.guilds[a] == owners(typed[Guild(a)]))
            && (a in chat.defaultRoles <==> Role(a, 0) in typed)
            && ((a, b) in chat.members <==> Member(a, b) in typed)
            && ((a, b) in chat.bans <==> ChatKey.Ban(a, b) in typed)
            && (Entry(a, b, host) in chat.lists <==> GuildList(a, b, host) in typed)
            && chat.invites == map[] && chat.foreign == map[] && chat.accounts == map[] && chat.outbox == []
  {
    if Role(a, 0) in typed {
      assert Role(a, 0).g in DefaultRolesOf(typed);
    }
    if Member(a, b) in typed {
      assert (Member(a, b).g, Member(a, b).user) in MembersOf(typed);
    }
    if ChatKey.Ban(a, b) in typed {
      var k := ChatKey.Ban(a, b);
      assert (k.g, k.user) in BansOf(typed);
    }
    if GuildList(a, b, host) in typed {
      var k := GuildList(a, b, host);
      assert Entry(k.g, k.guild, k.host) in ListsOf(typed);
    }
  }

  ghost predicate SameParts(chat: Chat, other: Chat, a: u64, b: u64, host: Host) {
    && (a in chat.guilds <==> a in other.guilds)
    && (a in chat.guilds ==> chat.guilds[a] == other.guilds[a])
    && (a in chat.defaultRoles <==> a in other.defaultRoles)
    && ((a, b) in chat.members <==> (a, b) in other.members)
    && ((a, b) in chat.bans <==> (a, b) in other.bans)
    && (Entry(a, b, host) in chat.lists <==> Entry(a, b, host) in other.lists)
  }

  lemma SameChat(chat: Chat, other: Chat)
    requires forall a: u64, b: u64, host: Host :: SameParts(chat, other, a, b, host)
    requires chat.invites == other.invites && chat.outbox == other.outbox
    requires chat.foreign == other.foreign && chat.accounts == other.accounts
    ensures chat == other
  {
    forall a: u64
      ensures a in chat.guilds <==> a in other.guilds
      ensures a in chat.guilds ==> chat.guilds[a] == other.guilds[a]
      ensures a in chat.defaultRoles <==> a in other.defaultRoles
    {
      assert SameParts(chat, other, a, 0, []);
    }
    forall a: u64, b: u64
      ensures (a, b) in chat.members <==> (a, b) in other.members
      ensures (a, b) in chat.bans <==> (a, b) in other.bans
    {
      assert SameParts(chat, other, a, b, []);
    }
    forall e
      ensures e in chat.lists <==> e in other.lists
    {
      assert SameParts(chat, other, e.user, e.guild, e.host);
    }
    assert chat.guilds == other.guilds && chat.defaultRoles == other.defaultRoles;
    forall m: (u64, u64)
      ensures m in chat.members <==> m in other.members
      ensures m in chat.bans <==> m in other.bans
    {
      assert (m.0, m.1) == m;
    }
  }

  function AfterPut(chat: Chat, owners: Owners, k: ChatKey, value: bytes): Chat {
    match k
    case Guild(g) => chat.(guilds := chat.guilds[g := owners(value)])
    case Role(g, 0) => chat.(defaultRoles := chat.defaultRoles + {g})
    case Member(g, user) => chat.(members := chat.members + {(g, user)})
    case Ban(g, user) => chat.(bans := chat.bans + {(g, user)})
    case GuildList(user, guild, host) => chat.(lists := chat.lists + {Entry(user, guild, host)})
    case _ => chat
  }

  function AfterDrop(chat: Chat, k: ChatKey): Chat {
    match k
    case Guild(g) => chat.(guilds := chat.guilds - {g})
    case Role(g, 0) => chat.(defaultRoles := chat.defaultRoles - {g})
    case Member(g, user) => chat.(members := chat.members - {(g, user)})
    case Ban(g, user) => chat.(bans := chat.bans - {(g, user)})
    case GuildList(user, guild, host) => chat.(lists := chat.lists - {Entry(user, guild, host)})
    case _ => chat
  }

  lemma PutRow(typed: Typed, owners: Owners, k: ChatKey, value: bytes)
    ensures RowsChat(typed[k := value], owners) == AfterPut(RowsChat(typed, owners), owners, k, value)
  {
    hide RowsChat;
    var before, after := RowsChat(typed, owners), RowsChat(typed[k := value], owners);
    RowsChatHas(typed, owners, 0, 0, []);
    forall a: u64, b: u64, host: Host
      ensures SameParts(after, AfterPut(before, owners, k, value), a, b, host)
    {
      RowsChatHas(typed, owners, a, b, host);
      RowsChatHas(typed[k := value], owners, a, b, host);
    }
    RowsChatHas(typed[k := value], owners, 0, 0, []);
    SameChat(after, AfterPut(before, owners, k, value));
  }

  lemma DropRow(typed: Typed, owners: Owners, k: ChatKey)
    ensures RowsChat(typed - {k}, owners) == AfterDrop(RowsChat(typed, owners), k)
  {
    hide RowsChat;
    var before, after := RowsChat(typed, owners), RowsChat(typed - {k}, owners);
    RowsChatHas(typed, owners, 0, 0, []);
    forall a: u64, b: u64, host: Host
      ensures SameParts(after, AfterDrop(before, k), a, b, host)
    {
      RowsChatHas(typed, owners, a, b, host);
      RowsChatHas(typed - {k}, owners, a, b, host);
    }
    RowsChatHas(typed - {k}, owners, 0, 0, []);
    SameChat(after, AfterDrop(before, k));
  }

  /** Deleting every row under a guild's id is the deletion of the model, the guild list of an equal user id included. */
  lemma DropRootRows(typed: Typed, owners: Owners, g: u64)
    ensures RowsChat(DropRoot(typed, g), owners) == DropGuild(RowsChat(typed, owners), g)
  {
    hide RowsChat;
    var before, after := RowsChat(typed, owners), RowsChat(DropRoot(typed, g), owners);
    RowsChatHas(typed, owners, 0, 0, []);
    forall a: u64, b: u64, host: Host
      ensures SameParts(after, DropGuild(before, g), a, b, host)
    {
      RowsChatHas(typed, owners, a, b, host);
      RowsChatHas(DropRoot(typed, g), owners, a, b, host);
    }
    RowsChatHas(DropRoot(typed, g), owners, 0, 0, []);
    SameChat(after, DropGuild(before, g));
  }

  lemma {:induction false} GrantedRows(typed: Typed, owners: Owners, scope: Permissions.Scope, perms: seq<Permissions.Permission>)
    ensures RowsChat(Permissions.Granted(typed, scope, perms), owners) == RowsChat(typed, owners)
  {
    hide RowsChat;
    if |perms| > 0 {
      var before, last := perms[..|perms| - 1], perms[|perms| - 1];
      GrantedRows(typed, owners, scope, before);
      PutRow(Permissions.Granted(typed, scope, before), owners,
             Permissions.PermKey(scope, last.matches), Permissions.FlagByte(last.ok));
    }
  }

  lemma CreatedChannelRows(typed: Typed, owners: Owners, op: Channels.Op)
    requires op.CreateChannel? && Channels.Accepted(typed, op)
    ensures RowsChat(Channels.Performed(typed, op), owners) == RowsChat(typed, owners)
  {
    hide RowsChat;
    var one := typed[Channel(op.g, op.c) := op.channel];
    var two := one[NextId(op.g, op.c) := Id(1)];
    PutRow(typed, owners, Channel(op.g, op.c), op.channel);
    PutRow(one, owners, NextId(op.g, op.c), Id(1));
    PutRow(two, owners, ChannelOrder(op.g),
           EncodeIds(Ordering.Reordered(Channels.Order(typed, op.g), op.c, op.position)));
  }

  lemma TwoRemovals(rows: Rows, j: ChatKey, k: ChatKey)
    ensures var batch: seq<Update> := [(Encode(j), None), (Encode(k), None)];
            View(Applied(rows, batch)) == View(rows) - {j} - {k}
  {
    var first: seq<Update>, batch: seq<Update> := [(Encode(j), None)], [(Encode(j), None), (Encode(k), None)];
    assert batch[..1] == first && first[..0] == [];
    assert Applied(rows, first) == rows - {Encode(j)};
    assert Applied(rows, batch) == rows - {Encode(j)} - {Encode(k)};
    ViewRemove(rows, j);
    ViewRemove(rows - {Encode(j)}, k);
  }

  // ---- the member scan ----

  /** A key under the member prefix that is too long for a member key. */
  ghost predicate OddMemberKey(rows: Rows, g: u64) {
    exists s | s in WithPrefix(rows, GuildMemPrefix(g)) :: |s| != 17
  }

  /** Where only built keys are stored under the member prefix there is none. */
  lemma MemberKeysAreRegular(rows: Rows, g: u64)
    requires Keyed(rows, GuildMemPrefix(g))
    ensures !OddMemberKey(rows, g)
  {
    forall s | s in WithPrefix(rows, GuildMemPrefix(g))
      ensures |s| == 17
    {
      EncodeDecode(s);
      GuildMemPrefixCovers(g, Decode(s).value);
    }
  }

  ghost predicate AscendingIds(ids: seq<u64>) {
    forall i, j | 0 <= i < j < |ids| :: ids[i] < ids[j]
  }

  lemma {:induction false} RowIdsAt(items: seq<Row>)
    requires forall i | 0 <= i < |items| :: |items[i].0| == 17
    ensures var ids := ChatTrees.RowIds(items);
            |ids| == |items| && forall i | 0 <= i < |items| :: ids[i] == ReadId(items[i].0[9..])
  {
    if |items| > 0 {
      RowIdsAt(items[..|items| - 1]);
    }
  }

  lemma RowIdsAscend(items: seq<Row>, prefix: bytes)
    requires |prefix| == 9 && Ascending(items)
    requires forall i | 0 <= i < |items| :: prefix <= items[i].0 && |items[i].0| == 17
    ensures AscendingIds(ChatTrees.RowIds(items))
  {
    RowIdsAt(items);
    var ids := ChatTrees.RowIds(items);
    forall i, j | 0 <= i < j < |ids|
      ensures ids[i] < ids[j]
    {
      KeyIsPrefixed(items[i].0, prefix, ids[i]);
      KeyIsPrefixed(items[j].0, prefix, ids[j]);
      LessUnderPrefix(prefix, Id(ids[i]), Id(ids[j]));
      IdMonotone(ids[i], ids[j]);
    }
  }

  lemma KeyIsPrefixed(key: bytes, prefix: bytes, id: u64)
    requires |prefix| == 9 && prefix <= key && |key| == 17 && id == ReadId(key[9..])
    ensures key == prefix + Id(id)
  {
    ReadIdInverse(key[9..]);
    assert key == prefix + key[9..];
  }

  /** There is only one ascending list of a set of ids. */
  lemma {:induction false} SortedIsUnique(list: seq<u64>, ids: set<u64>)
    requires AscendingIds(list) && forall x :: x in list <==> x in ids
    ensures list == SortedIds(ids)
    decreases |list|
  {
    if list == [] {
      assert ids == {};
    } else {
      assert list[0] in ids;
      var least := LeastId(ids, 0);
      assert least in list && list[0] == least;
      var tail := list[1..];
      forall x
        ensures x in tail <==> x in ids - {least}
      {
        if x in tail {
          var i :| 0 <= i < |tail| && tail[i] == x;
          assert list[0] < list[i + 1];
        }
        if x in ids - {least} {
          var i :| 0 <= i < |list| && list[i] == x;
          assert tail[i - 1] == x;
        }
      }
      SortedIsUnique(tail, ids - {least});
      assert list == [least] + tail;
    }
  }

  lemma MemberScan(rows: Rows, owners: Owners, g: u64)
    requires !OddMemberKey(rows, g)
    ensures ChatTrees.RowIds(Listing(WithPrefix(rows, GuildMemPrefix(g)))) == MemberIds(RowsChat(View(rows), owners), g)
  {
    var selected, chat := WithPrefix(rows, GuildMemPrefix(g)), RowsChat(View(rows), owners);
    var items := Listing(selected);
    assert forall i | 0 <= i < |items| :: items[i].0 in selected;
    RowIdsAscend(items, GuildMemPrefix(g));
    var ids := set m | m in chat.members && m.0 == g :: m.1;
    forall u: u64
      ensures u in ChatTrees.RowIds(items) <==> u in ids
    {
      MemberRowListed(rows, owners, g, u);
      assert (g, u).0 == g && (g, u).1 == u;
    }
    SortedIsUnique(ChatTrees.RowIds(items), ids);
  }

  lemma MemberRowListed(rows: Rows, owners: Owners, g: u64, u: u64)
    ensures u in ChatTrees.RowIds(Listing(WithPrefix(rows, GuildMemPrefix(g))))
       <==> (g, u) in RowsChat(View(rows), owners).members
  {
    ChatTrees.ScannedIds(rows, GuildMemPrefix(g), u);
    ViewLookup(rows, Member(g, u));
    RowsChatHas(View(rows), owners, g, u, []);
  }

  lemma OddKeysListed(rows: Rows, g: u64)
    ensures OddMemberKey(rows, g)
       <==> exists i | 0 <= i < |Listing(WithPrefix(rows, GuildMemPrefix(g)))| ::
              |Listing(WithPrefix(rows, GuildMemPrefix(g)))[i].0| != 17
  {
    var selected := WithPrefix(rows, GuildMemPrefix(g));
    if s :| s in selected && |s| != 17 {
      ListingHasKey(selected, s);
    }
    if i :| 0 <= i < |Listing(selected)| && |Listing(selected)[i].0| != 17 {
      assert Listing(selected)[i].0 in selected;
    }
  }

  /** The fold of the member scan, which reads an id from every key. */
  method ReadIds(items: seq<Row>) returns (ids: Option<seq<u64>>)
    ensures ids.None? <==> exists i | 0 <= i < |items| :: |items[i].0| != 17
    ensures ids.Some? ==> ids.value == ChatTrees.RowIds(items)
  {
    var all: seq<u64> := [];
    for i := 0 to |items|
      invariant forall j | 0 <= j < i :: |items[j].0| == 17
      invariant all == ChatTrees.RowIds(items[..i])
    {
      assert items[..i + 1][..i] == items[..i];
      var key := items[i].0;
      if |key| != 17 {
        return None;
      }
      all := all + [ReadId(key[9..])];
    }
    assert items[..|items|] == items;
    ids := Some(all);
  }

  // ---- the links of federated users ----

  ghost function LinksOf(rows: Rows): map<u64, (u64, Host)> {
    map l: u64 | 0 <= l < TWO_64 && Profiles.LocalToForeign(rows, l).Some? :: Profiles.LocalToForeign(rows, l).value
  }

  lemma LinkOf(rows: Rows, l: u64)
    requires Profiles.LinksReadable(rows)
    ensures Profiles.LocalToForeignKey(l) in rows ==> |rows[Profiles.LocalToForeignKey(l)]| >= 8
    ensures l in LinksOf(rows) <==> Profiles.LocalToForeign(rows, l).Some?
    ensures l in LinksOf(rows) ==> Profiles.LocalToForeign(rows, l) == Some(LinksOf(rows)[l])
  {
  }

  /** A key that leads from an account of a named host to its local id. */
  predicate IsAccountKey(key: bytes) {
    |key| > 15 && key[..7] == Profiles.FOREIGN_PREFIX + [2]
  }

  function AccountAt(key: bytes): (u64, Host)
    requires IsAccountKey(key)
  {
    (ReadId(key[7..15]), key[15..])
  }

  lemma AccountKeyBuilt(key: bytes)
    requires IsAccountKey(key)
    ensures key == Profiles.ForeignToLocalKey(AccountAt(key).0, AccountAt(key).1)
  {
    ReadIdInverse(key[7..15]);
    assert key == key[..7] + key[7..15] + key[15..];
  }

  lemma BuiltAccountKey(id: u64, host: Host)
    requires host != []
    ensures IsAccountKey(Profiles.ForeignToLocalKey(id, host))
    ensures AccountAt(Profiles.ForeignToLocalKey(id, host)) == (id, host)
  {
    var key := Profiles.ForeignToLocalKey(id, host);
    assert key[..7] == Profiles.FOREIGN_PREFIX + [2] && key[7..15] == Id(id) && key[15..] == host;
  }

  lemma AccountKeysDiffer()
    ensures forall j, k | IsAccountKey(j) && IsAccountKey(k) && AccountAt(j) == AccountAt(k) :: j == k
  {
    forall j, k | IsAccountKey(j) && IsAccountKey(k) && AccountAt(j) == AccountAt(k)
      ensures j == k
    {
      AccountKeyBuilt(j);
      AccountKeyBuilt(k);
    }
  }

  ghost function AccountsOf(rows: Rows): map<(u64, Host), u64> {
    AccountKeysDiffer();
    map k | k in rows && IsAccountKey(k) && |rows[k]| == 8 :: AccountAt(k) := ReadId(rows[k])
  }

  /** For named hosts the map is the lookup. */
  lemma AccountOf(rows: Rows, id: u64, host: Host)
    ensures host == [] ==> (id, host) !in AccountsOf(rows)
    ensures host != [] ==> ((id, host) in AccountsOf(rows) <==> Profiles.ForeignToLocal(rows, id, host).Some?)
    ensures (id, host) in AccountsOf(rows) ==> Profiles.ForeignToLocal(rows, id, host) == Some(AccountsOf(rows)[(id, host)])
  {
    AccountKeysDiffer();
    if host != [] {
      BuiltAccountKey(id, host);
      var key := Profiles.ForeignToLocalKey(id, host);
      if key in rows && |rows[key]| == 8 {
        assert AccountsOf(rows)[AccountAt(key)] == ReadId(rows[key]);
      }
    }
    if (id, host) in AccountsOf(rows) {
      var k :| k in rows && IsAccountKey(k) && |rows[k]| == 8 && AccountAt(k) == (id, host);
      AccountKeyBuilt(k);
    }
  }

  lemma EmptyRows(owners: Owners)
    ensures RowsChat(map[], owners) == EmptyChat
  {
    hide RowsChat;
    RowsChatHas(map[], owners, 0, 0, []);
    forall a: u64, b: u64, host: Host
      ensures SameParts(RowsChat(map[], owners), EmptyChat, a, b, host)
    {
      RowsChatHas(map[], owners, a, b, host);
    }
    SameChat(RowsChat(map[], owners), EmptyChat);
  }

  lemma NoAccounts()
    ensures AccountsOf(map[]) == map[]
  {
    hide AccountsOf;
    forall account: (u64, Host)
      ensures account !in AccountsOf(map[])
    {
      AccountOf(map[], account.0, account.1);
      assert (account.0, account.1) == account;
    }
  }

  lemma NoLinks()
    ensures LinksOf(map[]) == map[] && Profiles.LinksReadable(map[])
  {
    hide Profiles.LocalToForeignKey, Profiles.ForeignToLocalKey;
  }

  lemma EmptyTrees(owners: Owners)
    ensures RowsChat(View(map[]), owners) == EmptyChat
    ensures LinksOf(map[]) == map[] && AccountsOf(map[]) == map[] && Profiles.LinksReadable(map[])
  {
    hide RowsChat, LinksOf, AccountsOf, ChatStore.View, Profiles.LinksReadable;
    NoLinks();
    NoAccounts();
    EmptyView();
    EmptyRows(owners);
  }

  lemma KnownIff(rows: Rows, foreign: u64, host: Host)
    requires Profiles.LinksReadable(rows) && host != []
    ensures Profiles.ForeignToLocalKey(foreign, host) in rows <==> (foreign, host) in AccountsOf(rows)
  {
    hide AccountsOf;
    AccountOf(rows, foreign, host);
  }

  lemma NewLinks(rows: Rows, foreign: u64, host: Host, local: u64, profile: bytes)
    requires Profiles.ForeignToLocalKey(foreign, host) !in rows && host != []
    ensures LinksOf(Profiles.LoggedIn(rows, foreign, host, local, profile)) == LinksOf(rows)[local := (foreign, host)]
  {
    var after := Profiles.LoggedIn(rows, foreign, host, local, profile);
    hide Profiles.LoggedIn, Profiles.LocalToForeign;
    forall l: u64
      ensures Profiles.LocalToForeign(after, l)
           == if l == local then Some((foreign, host)) else Profiles.LocalToForeign(rows, l)
    {
      Profiles.OtherLinkKept(rows, foreign, host, local, profile, l);
    }
  }

  lemma NewAccounts(rows: Rows, foreign: u64, host: Host, local: u64, profile: bytes)
    requires Profiles.ForeignToLocalKey(foreign, host) !in rows && host != []
    ensures AccountsOf(Profiles.LoggedIn(rows, foreign, host, local, profile)) == AccountsOf(rows)[(foreign, host) := local]
  {
    var after := Profiles.LoggedIn(rows, foreign, host, local, profile);
    hide Profiles.LoggedIn, Profiles.ForeignToLocal, AccountsOf;
    forall account: (u64, Host)
      ensures account in AccountsOf(after) <==> account == (foreign, host) || account in AccountsOf(rows)
      ensures account in AccountsOf(after) ==>
                AccountsOf(after)[account] == if account == (foreign, host) then local else AccountsOf(rows)[account]
    {
      AccountOf(rows, account.0, account.1);
      AccountOf(after, account.0, account.1);
      assert (account.0, account.1) == account;
      if account.1 != [] {
        Profiles.NewLink(rows, foreign, host, local, profile, local, account.0, account.1);
      }
    }
  }

  /** A login from a named host on the profile rows is the login of the model. */
  lemma LoginLinks(rows: Rows, foreign: u64, host: Host, local: u64, profile: bytes, chat: Chat)
    requires Profiles.LinksReadable(rows) && host != []
    requires chat.foreign == LinksOf(rows) && chat.accounts == AccountsOf(rows)
    ensures var after := Profiles.LoggedIn(rows, foreign, host, local, profile);
            && LinksOf(after) == After(chat, Login(foreign, host, local)).foreign
            && AccountsOf(after) == After(chat, Login(foreign, host, local)).accounts
  {
    hide LinksOf, AccountsOf, Profiles.LinksReadable;
    KnownIff(rows, foreign, host);
    if Profiles.ForeignToLocalKey(foreign, host) !in rows {
      NewLinks(rows, foreign, host, local, profile);
      NewAccounts(rows, foreign, host, local, profile);
    }
  }

  // ---- the rows that requests write ----

  /** "messages.send", "messages.view", "roles.get", "roles.user.get" */
  const DEFAULT_PERMISSIONS: seq<Permissions.Permission> := [
    Permissions.Permission([109, 101, 115, 115, 97, 103, 101, 115, 46, 115, 101, 110, 100], true),
    Permissions.Permission([109, 101, 115, 115, 97, 103, 101, 115, 46, 118, 105, 101, 119], true),
    Permissions.Permission([114, 111, 108, 101, 115, 46, 103, 101, 116], true),
    Permissions.Permission([114, 111, 108, 101, 115, 46, 117, 115, 101, 114, 46, 103, 101, 116], true)
  ]

  /** The guild list row of a user of this server, written or removed by a dispatch. */
  function WithListRow(typed: Typed, chat: Chat, g: u64, user: u64): Typed {
    if user in chat.foreign then typed else typed[GuildList(user, g, []) := []]
  }

  function WithoutListRow(typed: Typed, chat: Chat, g: u64, user: u64): Typed {
    if user in chat.foreign then typed else typed - {GuildList(user, g, [])}
  }

  ghost predicate SameRow(typed: Typed, after: Typed, k: ChatKey) {
    && (k in after <==> k in typed)
    && (k in typed ==> after[k] == typed[k])
  }

  /** An id list grown by one. */
  function Appended(typed: Typed, k: ChatKey, id: u64): Typed {
    typed[k := EncodeIds(Channels.ListAt(typed, k) + [id])]
  }

  /** The guild, the creator's member row, the default role and its place in both role lists. */
  function GuildRows(typed: Typed, user: u64, g: u64, record: bytes, role: bytes): Typed {
    var recorded := typed[Guild(g) := record];
    var joined := if user != 0 then recorded[Member(g, user) := []] else recorded;
    var ordered := Appended(joined[Role(g, 0) := role], RoleOrder(g), 0);
    if user != 0 then Appended(ordered, UserRoles(g, user), 0) else ordered
  }

  /** The default permissions and a first channel that has them, too. */
  ghost function Furnished(typed: Typed, g: u64, perms: seq<Permissions.Permission>, c: u64, channel: bytes): Typed {
    var granted := Permissions.Granted(typed, Permissions.Scope(g, None, 0), perms);
    var created := Appended(granted[Channel(g, c) := channel][NextId(g, c) := Id(1)], ChannelOrder(g), c);
    Permissions.Granted(created, Permissions.Scope(g, Some(c), 0), perms)
  }

  /** The flag a request for `perms` leaves behind. */
  ghost function FlagOf(perms: seq<Permissions.Permission>, typed: Typed, scope: Permissions.Scope, m: bytes): Option<bool> {
    if Permissions.LastWord(perms, m).Some? then Permissions.LastWord(perms, m) else Permissions.Flag(typed, scope, m)
  }

  lemma {:induction false} GrantedKeeps(typed: Typed, scope: Permissions.Scope, perms: seq<Permissions.Permission>, k: ChatKey)
    requires !k.GuildPerm? && !k.ChannelPerm?
    ensures var after := Permissions.Granted(typed, scope, perms);
            && (k in after <==> k in typed)
            && (k in typed ==> after[k] == typed[k])
  {
    Permissions.GrantedElsewhere(typed, scope, perms, k);
  }

  /** A row of a new guild that is no permission is the one that was written for it. */
  lemma FurnishedRow(typed: Typed, g: u64, perms: seq<Permissions.Permission>, c: u64, channel: bytes, k: ChatKey)
    requires !k.GuildPerm? && !k.ChannelPerm?
    ensures var created := Appended(typed[Channel(g, c) := channel][NextId(g, c) := Id(1)], ChannelOrder(g), c);
            var after := Furnished(typed, g, perms, c, channel);
            && (k in after <==> k in created)
            && (k in created ==> after[k] == created[k])
  {
    hide Permissions.Granted;
    var granted := Permissions.Granted(typed, Permissions.Scope(g, None, 0), perms);
    GrantedKeeps(typed, Permissions.Scope(g, None, 0), perms, k);
    GrantedKeeps(typed, Permissions.Scope(g, None, 0), perms, ChannelOrder(g));
    var created := Appended(granted[Channel(g, c) := channel][NextId(g, c) := Id(1)], ChannelOrder(g), c);
    GrantedKeeps(created, Permissions.Scope(g, Some(c), 0), perms, k);
  }

  lemma FurnishedFlags(typed: Typed, g: u64, perms: seq<Permissions.Permission>, c: u64, channel: bytes, m: bytes)
    ensures var after := Furnished(typed, g, perms, c, channel);
            && Permissions.Flag(after, Permissions.Scope(g, None, 0), m) == FlagOf(perms, typed, Permissions.Scope(g, None, 0), m)
            && Permissions.Flag(after, Permissions.Scope(g, Some(c), 0), m)
               == FlagOf(perms, typed, Permissions.Scope(g, Some(c), 0), m)
  {
    hide Permissions.Granted;
    var inGuild, inChannel := Permissions.Scope(g, None, 0), Permissions.Scope(g, Some(c), 0);
    var granted := Permissions.Granted(typed, inGuild, perms);
    var created := Appended(granted[Channel(g, c) := channel][NextId(g, c) := Id(1)], ChannelOrder(g), c);
    Permissions.GrantedFlags(typed, inGuild, perms, inGuild, m);
    Permissions.GrantedFlags(typed, inGuild, perms, inChannel, m);
    Permissions.GrantedFlags(created, inChannel, perms, inGuild, m);
    Permissions.GrantedFlags(created, inChannel, perms, inChannel, m);
  }

  /** The rows a new guild starts with, before it has permissions and a channel. */
  lemma GuildRowsHold(typed: Typed, user: u64, g: u64, record: bytes, role: bytes)
    ensures var rows := GuildRows(typed, user, g, record, role);
            && Guild(g) in rows && rows[Guild(g)] == record
            && Role(g, 0) in rows && rows[Role(g, 0)] == role
            && RoleOrder(g) in rows
            && rows[RoleOrder(g)] == EncodeIds(Channels.ListAt(typed, RoleOrder(g)) + [0])
            && (user != 0 ==>
                  && Member(g, user) in rows && UserRoles(g, user) in rows
                  && rows[UserRoles(g, user)] == EncodeIds(Channels.ListAt(typed, UserRoles(g, user)) + [0]))
  {
    hide EncodeIds, DecodeIds;
  }

  lemma GuildRowsElsewhere(typed: Typed, user: u64, g: u64, record: bytes, role: bytes, k: ChatKey)
    requires k.g != g || k.ChannelOrder? || k.Channel? || k.GuildPerm? || k.ChannelPerm?
    ensures var rows := GuildRows(typed, user, g, record, role);
            && (k in rows <==> k in typed)
            && (k in typed ==> rows[k] == typed[k])
  {
  }

  lemma SameList(typed: Typed, rows: Typed, k: ChatKey)
    requires k in rows <==> k in typed
    requires k in typed ==> rows[k] == typed[k]
    ensures Channels.ListAt(rows, k) == Channels.ListAt(typed, k)
  {
  }

  lemma ListIs(rows: Typed, k: ChatKey, list: seq<u64>)
    requires k in rows && rows[k] == EncodeIds(list)
    ensures Channels.ListAt(rows, k) == list
  {
    IdsRoundTrip(list);
  }

  lemma FirstChannel(typed: Typed, g: u64, perms: seq<Permissions.Permission>, c: u64, channel: bytes)
    ensures var after := Furnished(typed, g, perms, c, channel);
            && Channel(g, c) in after && after[Channel(g, c)] == channel
            && Channels.HasCounter(after, g, c) && Channels.Counter(after, g, c) == 1
            && Channels.Order(after, g) == Channels.Order(typed, g) + [c]
  {
    hide Furnished, EncodeIds, DecodeIds;
    FurnishedRow(typed, g, perms, c, channel, Channel(g, c));
    FurnishedRow(typed, g, perms, c, channel, NextId(g, c));
    FurnishedRow(typed, g, perms, c, channel, ChannelOrder(g));
    assert ReadId(Id(1)) == 1;
    ListIs(Furnished(typed, g, perms, c, channel), ChannelOrder(g), Channels.Order(typed, g) + [c]);
  }

  lemma KeptByFurnishing(typed: Typed, g: u64, perms: seq<Permissions.Permission>, c: u64, channel: bytes, k: ChatKey)
    requires k.Guild? || k.Role? || k.RoleOrder? || k.Member? || k.UserRoles?
    ensures var after := Furnished(typed, g, perms, c, channel);
            && (k in after <==> k in typed)
            && (k in typed ==> after[k] == typed[k])
  {
    hide Furnished, EncodeIds, DecodeIds;
    FurnishedRow(typed, g, perms, c, channel, k);
  }

  /** The chat rows after a guild was created, up to the guild list of its creator. */
  ghost function Founded(typed: Typed, user: u64, g: u64, record: bytes, role: bytes, c: u64, channel: bytes): Typed {
    Furnished(GuildRows(typed, user, g, record, role), g, DEFAULT_PERMISSIONS, c, channel)
  }

  /**
   * A new guild: its creator, unless it is user 0, is a member with the default
   * role, which comes last in the guild's order of roles; the first channel
   * comes last in the order of channels and counts its messages from 1.
   */
  lemma FoundedGuild(typed: Typed, user: u64, g: u64, record: bytes, role: bytes, c: u64, channel: bytes)
    ensures var after := Founded(typed, user, g, record, role, c, channel);
            && Guild(g) in after && after[Guild(g)] == record
            && Role(g, 0) in after && after[Role(g, 0)] == role
            && Channels.ListAt(after, RoleOrder(g)) == Channels.ListAt(typed, RoleOrder(g)) + [0]
            && (user != 0 ==>
                  && Member(g, user) in after
                  && Channels.ListAt(after, UserRoles(g, user)) == Channels.ListAt(typed, UserRoles(g, user)) + [0])
            && Channel(g, c) in after && after[Channel(g, c)] == channel
            && Channels.HasCounter(after, g, c) && Channels.Counter(after, g, c) == 1
            && Channels.Order(after, g) == Channels.Order(typed, g) + [c]
  {
    hide Furnished, GuildRows, EncodeIds, DecodeIds, Channels.ListAt;
    var rows := GuildRows(typed, user, g, record, role);
    var after := Founded(typed, user, g, record, role, c, channel);
    GuildRowsHold(typed, user, g, record, role);
    KeptByFurnishing(rows, g, DEFAULT_PERMISSIONS, c, channel, Guild(g));
    KeptByFurnishing(rows, g, DEFAULT_PERMISSIONS, c, channel, Role(g, 0));
    KeptByFurnishing(rows, g, DEFAULT_PERMISSIONS, c, channel, RoleOrder(g));
    ListIs(after, RoleOrder(g), Channels.ListAt(typed, RoleOrder(g)) + [0]);
    if user != 0 {
      KeptByFurnishing(rows, g, DEFAULT_PERMISSIONS, c, channel, Member(g, user));
      KeptByFurnishing(rows, g, DEFAULT_PERMISSIONS, c, channel, UserRoles(g, user));
      ListIs(after, UserRoles(g, user), Channels.ListAt(typed, UserRoles(g, user)) + [0]);
    }
    FirstChannel(rows, g, DEFAULT_PERMISSIONS, c, channel);
    GuildRowsElsewhere(typed, user, g, record, role, ChannelOrder(g));
    SameList(typed, rows, ChannelOrder(g));
  }

  /** The default role of a new guild is granted the default permissions, in the guild and in its first channel. */
  lemma FoundedPermissions(typed: Typed, user: u64, g: u64, record: bytes, role: bytes, c: u64, channel: bytes, m: bytes)
    ensures var after := Founded(typed, user, g, record, role, c, channel);
            forall scope | scope == Permissions.Scope(g, None, 0) || scope == Permissions.Scope(g, Some(c), 0) ::
              Permissions.Flag(after, scope, m)
              == if exists perm | perm in DEFAULT_PERMISSIONS :: perm.matches == m then Some(true)
                 else Permissions.Flag(typed, scope, m)
  {
    hide Furnished, GuildRows;
    DefaultWords(m);
    FurnishedFlags(GuildRows(typed, user, g, record, role), g, DEFAULT_PERMISSIONS, c, channel, m);
    GuildRowsElsewhere(typed, user, g, record, role, GuildPerm(g, 0, m));
    GuildRowsElsewhere(typed, user, g, record, role, ChannelPerm(g, c, 0, m));
  }

  lemma DefaultWords(m: bytes)
    ensures Permissions.LastWord(DEFAULT_PERMISSIONS, m)
         == if exists perm | perm in DEFAULT_PERMISSIONS :: perm.matches == m then Some(true) else None
  {
    var word := Permissions.LastWord(DEFAULT_PERMISSIONS, m);
    assert forall perm | perm in DEFAULT_PERMISSIONS :: perm.ok;
    if word.Some? {
      assert Permissions.Permission(m, word.value) in DEFAULT_PERMISSIONS;
      assert word.value;
    }
  }

  /** A new guild touches no row of another root. */
  lemma FoundedElsewhere(typed: Typed, user: u64, g: u64, record: bytes, role: bytes, c: u64, channel: bytes, k: ChatKey)
    requires k.g != g
    ensures SameRow(typed, Founded(typed, user, g, record, role, c, channel), k)
  {
    hide Permissions.Granted, GuildRows, EncodeIds, DecodeIds;
    var rows := GuildRows(typed, user, g, record, role);
    GuildRowsElsewhere(typed, user, g, record, role, k);
    var granted := Permissions.Granted(rows, Permissions.Scope(g, None, 0), DEFAULT_PERMISSIONS);
    Permissions.GrantedElsewhere(rows, Permissions.Scope(g, None, 0), DEFAULT_PERMISSIONS, k);
    var created := Appended(granted[Channel(g, c) := channel][NextId(g, c) := Id(1)], ChannelOrder(g), c);
    Permissions.GrantedElsewhere(created, Permissions.Scope(g, Some(c), 0), DEFAULT_PERMISSIONS, k);
  }

  lemma GrantsKeepConsistent(typed: Typed, scope: Permissions.Scope, perms: seq<Permissions.Permission>)
    requires Channels.Consistent(typed)
    ensures Channels.Consistent(Permissions.Granted(typed, scope, perms))
  {
    hide Channels.Consistent, Permissions.Granted;
    var after := Permissions.Granted(typed, scope, perms);
    forall k: ChatKey | !k.GuildPerm? && !k.ChannelPerm?
      ensures k in after <==> k in typed
      ensures k in typed ==> after[k] == typed[k]
    {
      GrantedKeeps(typed, scope, perms, k);
    }
    Channels.OtherKeeps(typed, after);
  }

  lemma GuildRowsKeepConsistent(typed: Typed, user: u64, g: u64, record: bytes, role: bytes)
    requires Channels.Consistent(typed)
    ensures Channels.Consistent(GuildRows(typed, user, g, record, role))
  {
    hide Channels.Consistent, EncodeIds, DecodeIds;
    Channels.OtherKeeps(typed, GuildRows(typed, user, g, record, role));
  }

  /** Creating a guild is as good as any channel request: orderings and counters stay right. */
  lemma FoundedKeepsConsistent(typed: Typed, user: u64, g: u64, record: bytes, role: bytes, c: u64, channel: bytes)
    requires Channels.Consistent(typed) && c != 0 && Channel(g, c) !in typed
    ensures Channels.Consistent(Founded(typed, user, g, record, role, c, channel))
  {
    hide Channels.Consistent, GuildRows, Permissions.Granted, EncodeIds, DecodeIds;
    var rows := GuildRows(typed, user, g, record, role);
    var granted := Permissions.Granted(rows, Permissions.Scope(g, None, 0), DEFAULT_PERMISSIONS);
    GuildRowsKeepConsistent(typed, user, g, record, role);
    GrantsKeepConsistent(rows, Permissions.Scope(g, None, 0), DEFAULT_PERMISSIONS);
    GuildRowsElsewhere(typed, user, g, record, role, Channel(g, c));
    GrantedKeeps(rows, Permissions.Scope(g, None, 0), DEFAULT_PERMISSIONS, Channel(g, c));
    Channels.CreateKeeps(granted, Channels.Op.CreateChannel(g, c, channel, None));
    Channels.AppendedLast(Channels.Order(granted, g), c);
    GrantsKeepConsistent(Channels.Performed(granted, Channels.Op.CreateChannel(g, c, channel, None)),
                         Permissions.Scope(g, Some(c), 0), DEFAULT_PERMISSIONS);
  }

  // ---- the server ----

  datatype Reply = Panicked | Done(error: Option<Error>)

  class ChatServer {
    const store: ChatTrees.ChatTree
    const profiles: Profiles.ProfileTree
    const owners: Owners
    var invites: map<Name, Invite>
    var outbox: seq<Dispatch>

    /** The two trees are different ones, and the links of federated accounts can be read. */
    ghost predicate Valid()
      reads profiles.tree
    {
      store.tree != profiles.tree && Profiles.LinksReadable(profiles.tree.rows)
    }

    ghost function View(): Chat
      reads this, store.tree, profiles.tree
    {
      RowsChat(store.Now(), owners).(
        invites := invites, outbox := outbox,
        foreign := LinksOf(profiles.tree.rows), accounts := AccountsOf(profiles.tree.rows))
    }

    constructor (store: ChatTrees.ChatTree, profiles: Profiles.ProfileTree, owners: Owners)
      requires store.tree != profiles.tree && store.tree.rows == map[] && profiles.tree.rows == map[]
      ensures Valid() && View() == EmptyChat
      ensures this.store == store && this.profiles == profiles && this.owners == owners
    {
      hide RowsChat, LinksOf, AccountsOf, ChatStore.View, Profiles.LinksReadable;
      this.store, this.profiles, this.owners := store, profiles, owners;
      this.invites, this.outbox := map[], [];
      new;
      EmptyTrees(owners);
    }

    method GuildUserError(g: u64, user: u64) returns (error: Option<Error>)
      ensures error == CheckGuildUser(View(), g, user)
    {
      hide RowsChat, LinksOf, AccountsOf, ChatStore.View, Profiles.LinksReadable;
      RowsChatHas(store.Now(), owners, g, user, []);
      var found := store.Has(Guild(g));
      if !found {
        return Some(NoSuchGuild);
      }
      found := store.Has(Member(g, user));
      if !found {
        return Some(UserNotInGuild);
      }
      error := None;
    }

    method ForeignOf(user: u64) returns (link: Option<(u64, Host)>)
      requires Valid()
      ensures link.Some? <==> user in View().foreign
      ensures link.Some? ==> link.value == View().foreign[user]
    {
      hide RowsChat, LinksOf, AccountsOf, ChatStore.View, Profiles.LinksReadable;
      LinkOf(profiles.tree.rows, user);
      var found := profiles.LocalToForeignId(user);
      link := found.value;
    }

    /** A row written to the chat tree. */
    method Put(k: ChatKey, value: bytes)
      requires Valid()
      modifies store.tree
      ensures Valid() && View() == AfterPut(old(View()), owners, k, value)
      ensures store.Now() == old(store.Now())[k := value]
    {
      hide RowsChat, LinksOf, AccountsOf, ChatStore.View, Profiles.LinksReadable;
      PutRow(store.Now(), owners, k, value);
      store.Put(k, value);
    }

    method Drop(k: ChatKey)
      requires Valid()
      modifies store.tree
      ensures Valid() && View() == AfterDrop(old(View()), k)
      ensures store.Now() == old(store.Now()) - {k}
    {
      hide RowsChat, LinksOf, AccountsOf, ChatStore.View, Profiles.LinksReadable;
      DropRow(store.Now(), owners, k);
      store.Drop(k);
    }

    /** `dispatch_guild_join`. */
    method NotifyJoin(g: u64, user: u64)
      requires Valid()
      modifies this`outbox, store.tree
      ensures Valid() && View() == DispatchJoin(old(View()), g, user)
      ensures store.Now() == WithListRow(old(store.Now()), old(View()), g, user)
    {
      hide RowsChat, LinksOf, AccountsOf, ChatStore.View, Profiles.LinksReadable;
      var link := ForeignOf(user);
      match link {
        case Some((id, host)) => outbox := outbox + [Dispatch(host, Added(id, g))];
        case None => Put(GuildList(user, g, []), []);
      }
    }

    /** `dispatch_guild_leave`. */
    method NotifyLeave(g: u64, user: u64)
      requires Valid()
      modifies this`outbox, store.tree
      ensures Valid() && View() == DispatchLeave(old(View()), g, user)
      ensures store.Now() == WithoutListRow(old(store.Now()), old(View()), g, user)
    {
      hide RowsChat, LinksOf, AccountsOf, ChatStore.View, Profiles.LinksReadable;
      var link := ForeignOf(user);
      match link {
        case Some((id, host)) => outbox := outbox + [Dispatch(host, Removed(id, g))];
        case None => Drop(GuildList(user, g, []));
      }
    }

    /** `add_default_role_to`: the user's role list grows by role 0 if that role is stored. */
    method AddDefaultRoleTo(g: u64, user: u64) returns (error: Option<Error>)
      requires Valid()
      modifies store.tree
      ensures Valid() && View() == old(View())
      ensures error == if Role(g, 0) in old(store.Now()) then None else Some(NoSuchRole)
      ensures error.None? ==> store.Now() == Appended(old(store.Now()), UserRoles(g, user), 0)
      ensures error.Some? ==> store.Now() == old(store.Now())
    {
      hide RowsChat, LinksOf, AccountsOf, ChatStore.View, Profiles.LinksReadable;
      var roles := store.GetList(UserRoles(g, user));
      var found := store.Has(Role(g, 0));
      if !found {
        return Some(NoSuchRole);
      }
      Put(UserRoles(g, user), EncodeIds(roles + [0]));
      error := None;
    }

    /** `set_permissions_logic` touches no member, ban, list or role row. */
    method SetPermissions(scope: Permissions.Scope, perms: seq<Permissions.Permission>)
      requires Valid()
      modifies store.tree
      ensures Valid() && View() == old(View())
      ensures store.Now() == Permissions.Granted(old(store.Now()), scope, perms)
    {
      hide RowsChat, LinksOf, AccountsOf, ChatStore.View, Profiles.LinksReadable;
      GrantedRows(store.Now(), owners, scope, perms);
      Permissions.SetPermissions(store.tree, scope, perms);
    }

    /** The "general" channel of a new guild. */
    method AddChannel(g: u64, c: u64, channel: bytes)
      requires Valid() && c != 0 && Channel(g, c) !in store.Now()
      modifies store.tree
      ensures Valid() && View() == old(View())
      ensures store.Now() == Appended(old(store.Now())[Channel(g, c) := channel][NextId(g, c) := Id(1)], ChannelOrder(g), c)
    {
      hide RowsChat, LinksOf, AccountsOf, ChatStore.View, Profiles.LinksReadable;
      CreatedChannelRows(store.Now(), owners, Channels.Op.CreateChannel(g, c, channel, None));
      var created := store.CreateChannel(g, c, channel, None);
    }

    /** The guild, member and role rows of a new guild. */
    method PutGuild(user: u64, g: u64, record: bytes, role: bytes)
      requires Valid() && owners(record) == {user}
      modifies store.tree
      ensures Valid()
      ensures View() == (var created := old(View()).(guilds := old(View()).guilds[g := {user}],
                                                     defaultRoles := old(View()).defaultRoles + {g});
                         if user != 0 then Admit(created, g, user) else created)
      ensures store.Now() == GuildRows(old(store.Now()), user, g, record, role)
    {
      hide RowsChat, LinksOf, AccountsOf, ChatStore.View, Profiles.LinksReadable;
      Put(Guild(g), record);
      if user != 0 {
        Put(Member(g, user), []);
      }
      Put(Role(g, 0), role);
      AppendRole(g);
      if user != 0 {
        var error := AddDefaultRoleTo(g, user);
      }
    }

    /** The default permissions and the "general" channel. */
    method FurnishGuild(g: u64, perms: seq<Permissions.Permission>, c: u64, channel: bytes)
      requires Valid() && c != 0 && Channel(g, c) !in store.Now()
      modifies store.tree
      ensures Valid() && View() == old(View())
      ensures store.Now() == Furnished(old(store.Now()), g, perms, c, channel)
    {
      hide RowsChat, LinksOf, AccountsOf, ChatStore.View, Profiles.LinksReadable;
      hide Permissions.Granted;
      GrantedKeeps(store.Now(), Permissions.Scope(g, None, 0), perms, Channel(g, c));
      SetPermissions(Permissions.Scope(g, None, 0), perms);
      AddChannel(g, c, channel);
      SetPermissions(Permissions.Scope(g, Some(c), 0), perms);
    }

    /**
     * `create_guild_logic` and its dispatch. `g` and `c` are the drawn ids,
     * `record`, `role` and `channel` the serialised guild, role and channel.
     */
    method HandleCreateGuild(user: u64, g: u64, record: bytes, role: bytes, c: u64, channel: bytes)
      requires Valid() && Guild(g) !in store.Now() && owners(record) == {user}
      requires c != 0 && Channel(g, c) !in store.Now()
      modifies this`outbox, store.tree
      ensures Valid() && (View(), None) == Handle(old(View()), CreateGuild(user, g))
      ensures store.Now() == WithListRow(Founded(old(store.Now()), user, g, record, role, c, channel), old(View()), g, user)
    {
      hide RowsChat, LinksOf, AccountsOf, ChatStore.View, Profiles.LinksReadable;
      PutGuild(user, g, record, role);
      FurnishGuild(g, DEFAULT_PERMISSIONS, c, channel);
      NotifyJoin(g, user);
    }

    /** `move_role_logic` of the new role 0, which appends it to the role ordering. */
    method AppendRole(g: u64)
      requires Valid()
      modifies store.tree
      ensures Valid() && View() == old(View())
      ensures store.Now() == Appended(old(store.Now()), RoleOrder(g), 0)
    {
      hide RowsChat, LinksOf, AccountsOf, ChatStore.View, Profiles.LinksReadable;
      PutRow(store.Now(), owners, RoleOrder(g), EncodeIds(Channels.ListAt(store.Now(), RoleOrder(g)) + [0]));
      store.UpdateOrder(RoleOrder(g), 0, None);
    }

    /** `create_invite_logic` behind the membership check. */
    method HandleCreateInvite(actor: u64, g: u64, name: Name, possible: u32) returns (error: Option<Error>)
      modifies this`invites
      ensures (View(), error) == Handle(old(View()), CreateInvite(actor, g, name, possible))
    {
      hide RowsChat, LinksOf, AccountsOf, ChatStore.View, Profiles.LinksReadable;
      error := GuildUserError(g, actor);
      if error.Some? {
        return;
      }
      if name == [] {
        return Some(InviteNameEmpty);
      }
      if name in invites {
        return Some(InviteExists);
      }
      invites := invites[name := Invite(g, possible, 0)];
    }

    /** The checks of `join_guild.rs`, in its order. */
    method JoinError(user: u64, name: Name) returns (error: Option<Error>)
      ensures error == CheckJoin(View(), user, name)
    {
      hide RowsChat, LinksOf, AccountsOf, ChatStore.View, Profiles.LinksReadable;
      if name !in invites {
        return Some(NoSuchInvite);
      }
      var invite := invites[name];
      RowsChatHas(store.Now(), owners, invite.g, user, []);
      var found := store.Has(ChatKey.Ban(invite.g, user));
      if found {
        return Some(UserBanned);
      }
      found := store.Has(Member(invite.g, user));
      if found {
        return Some(UserAlreadyInGuild);
      }
      if invite.possible != 0 && invite.used >= invite.possible {
        return Some(InviteExpired);
      }
      error := None;
    }

    /** The part of `join_guild.rs` after the user was admitted: count the use, drop a used-up invite, notify. */
    method CountAndNotify(user: u64, name: Name)
      requires Valid() && name in invites
      modifies this, store.tree
      ensures Valid() && View() == DispatchJoin(UseInvite(old(View()), name), old(invites[name].g), user)
      ensures store.Now() == WithListRow(old(store.Now()), old(View()), old(invites[name].g), user)
    {
      hide RowsChat, LinksOf, AccountsOf, ChatStore.View, Profiles.LinksReadable;
      var invite := invites[name];
      var isInfinite := invite.possible == 0;
      invite := invite.(used := (invite.used + 1) % 0x1_0000_0000);
      var isConsumed := !isInfinite && invite.used >= invite.possible;
      if isConsumed {
        invites := invites - {name};
      }
      NotifyJoin(invite.g, user);
      if !isConsumed {
        invites := invites[name := invite];
      }
    }

    /** `join_guild.rs`. */
    method HandleJoin(user: u64, name: Name) returns (error: Option<Error>)
      requires Valid()
      modifies this, store.tree
      ensures Valid() && (View(), error) == Handle(old(View()), Join(user, name))
      ensures error.None? ==>
                && name in old(invites)
                && var g := old(invites[name].g);
                   store.Now() == WithListRow(Appended(old(store.Now())[Member(g, user) := []], UserRoles(g, user), 0),
                                              old(View()), g, user)
      ensures error == Some(NoSuchRole) ==>
                name in old(invites) && store.Now() == old(store.Now())[Member(old(invites[name].g), user) := []]
      ensures error.Some? && error != Some(NoSuchRole) ==> store.Now() == old(store.Now())
    {
      hide RowsChat, LinksOf, AccountsOf, ChatStore.View, Profiles.LinksReadable;
      error := JoinError(user, name);
      if error.Some? {
        return;
      }
      var g := invites[name].g;
      Put(Member(g, user), []);
      RowsChatHas(store.Now(), owners, g, user, []);
      error := AddDefaultRoleTo(g, user);
      if error.Some? {
        return;
      }
      CountAndNotify(user, name);
    }

    method IsUserGuildOwner(g: u64, user: u64) returns (owner: bool)
      requires Guild(g) in store.Now()
      ensures g in View().guilds && (owner <==> IsOwner(View(), g, user))
    {
      hide RowsChat, LinksOf, AccountsOf, ChatStore.View, Profiles.LinksReadable;
      RowsChatHas(store.Now(), owners, g, user, []);
      if user == 0 {
        return true;
      }
      ViewLookup(store.tree.rows, Guild(g));
      var raw := store.tree.Get(Encode(Guild(g)));
      owner := user in owners(raw.value);
    }

    /** `leave_guild.rs`. */
    method HandleLeave(user: u64, g: u64) returns (error: Option<Error>)
      requires Valid()
      modifies this`outbox, store.tree
      ensures Valid() && (View(), error) == Handle(old(View()), Leave(user, g))
      ensures store.Now() == if error.Some? then old(store.Now())
                             else WithoutListRow(old(store.Now()) - {Member(g, user)}, old(View()), g, user)
    {
      hide RowsChat, LinksOf, AccountsOf, ChatStore.View, Profiles.LinksReadable;
      error := GuildUserError(g, user);
      if error.Some? {
        return;
      }
      RowsChatHas(store.Now(), owners, g, user, []);
      var owner := IsUserGuildOwner(g, user);
      if owner {
        return Some(OwnerCantLeave);
      }
      Drop(Member(g, user));
      NotifyLeave(g, user);
    }

    method RemovalError(actor: u64, g: u64, user: u64) returns (error: Option<Error>)
      ensures error == CheckRemoval(View(), actor, g, user)
    {
      hide RowsChat, LinksOf, AccountsOf, ChatStore.View, Profiles.LinksReadable;
      if actor == user {
        return Some(CantKickOrBanYourself);
      }
      error := GuildUserError(g, actor);
      if error.None? {
        RowsChatHas(store.Now(), owners, g, user, []);
        var found := store.Has(Member(g, user));
        if !found {
          error := Some(UserNotInGuild);
        }
      }
    }

    /** `kick_user_logic`: the member row and the user's role list, in one batch. */
    method RemoveMember(g: u64, user: u64)
      requires Valid()
      modifies store.tree
      ensures Valid() && View() == old(View()).(members := old(View()).members - {(g, user)})
      ensures store.Now() == old(store.Now()) - {Member(g, user)} - {UserRoles(g, user)}
    {
      hide RowsChat, LinksOf, AccountsOf, ChatStore.View, Profiles.LinksReadable;
      TwoRemovals(store.tree.rows, Member(g, user), UserRoles(g, user));
      DropRow(store.Now(), owners, Member(g, user));
      DropRow(store.Now() - {Member(g, user)}, owners, UserRoles(g, user));
      store.tree.ApplyBatch([(Encode(Member(g, user)), None), (Encode(UserRoles(g, user)), None)]);
    }

    /** `kick_user.rs`. */
    method HandleKick(actor: u64, g: u64, user: u64) returns (error: Option<Error>)
      requires Valid()
      modifies this`outbox, store.tree
      ensures Valid() && (View(), error) == Handle(old(View()), Kick(actor, g, user))
      ensures store.Now() == if error.Some? then old(store.Now())
                             else WithoutListRow(old(store.Now()) - {Member(g, user)} - {UserRoles(g, user)},
                                                 old(View()), g, user)
    {
      hide RowsChat, LinksOf, AccountsOf, ChatStore.View, Profiles.LinksReadable;
      error := RemovalError(actor, g, user);
      if error.Some? {
        return;
      }
      RemoveMember(g, user);
      NotifyLeave(g, user);
    }

    /** `ban_user.rs`; `time` is the serialised time of the ban. */
    method HandleBan(actor: u64, g: u64, user: u64, time: bytes) returns (error: Option<Error>)
      requires Valid()
      modifies this`outbox, store.tree
      ensures Valid() && (View(), error) == Handle(old(View()), Op.Ban(actor, g, user))
      ensures error.None? ==> (g, user) in View().bans && (g, user) !in View().members
      ensures store.Now() == if error.Some? then old(store.Now())
                             else WithoutListRow((old(store.Now()) - {Member(g, user)} - {UserRoles(g, user)})
                                                   [ChatKey.Ban(g, user) := time],
                                                 old(View()), g, user)
    {
      hide RowsChat, LinksOf, AccountsOf, ChatStore.View, Profiles.LinksReadable;
      error := RemovalError(actor, g, user);
      if error.Some? {
        return;
      }
      RemoveMember(g, user);
      Put(ChatKey.Ban(g, user), time);
      NotifyLeave(g, user);
    }

    /** `unban_user.rs`. */
    method HandleUnban(actor: u64, g: u64, user: u64) returns (error: Option<Error>)
      requires Valid()
      modifies store.tree
      ensures Valid() && (View(), error) == Handle(old(View()), Unban(actor, g, user))
      ensures store.Now() == if error.Some? then old(store.Now()) else old(store.Now()) - {ChatKey.Ban(g, user)}
    {
      hide RowsChat, LinksOf, AccountsOf, ChatStore.View, Profiles.LinksReadable;
      error := GuildUserError(g, actor);
      if error.Some? {
        return;
      }
      Drop(ChatKey.Ban(g, user));
    }

    /** `delete_guild_role.rs` for role 0. */
    method HandleDeleteDefaultRole(actor: u64, g: u64) returns (error: Option<Error>)
      requires Valid()
      modifies store.tree
      ensures Valid() && (View(), error) == Handle(old(View()), DeleteDefaultRole(actor, g))
      ensures store.Now() == if error.Some? then old(store.Now()) else old(store.Now()) - {Role(g, 0)}
    {
      hide RowsChat, LinksOf, AccountsOf, ChatStore.View, Profiles.LinksReadable;
      error := GuildUserError(g, actor);
      if error.Some? {
        return;
      }
      RowsChatHas(store.Now(), owners, g, 0, []);
      var found := store.Has(Role(g, 0));
      Drop(Role(g, 0));
      if !found {
        assert old(View()).defaultRoles - {g} == old(View()).defaultRoles;
        error := Some(NoSuchRole);
      }
    }

    /** `get_guild_members_logic`: `None` is the panic on a key that is no member key. */
    method ScanMembers(g: u64) returns (ids: Option<seq<u64>>)
      ensures ids.None? <==> OddMemberKey(store.tree.rows, g)
      ensures ids.Some? ==> ids.value == MemberIds(View(), g)
    {
      hide RowsChat, LinksOf, AccountsOf, ChatStore.View, Profiles.LinksReadable;
      var items := store.tree.ScanPrefix(GuildMemPrefix(g));
      OddKeysListed(store.tree.rows, g);
      ids := ReadIds(items);
      if ids.Some? {
        MemberScan(store.tree.rows, owners, g);
      }
    }

    method DropRows(g: u64)
      requires Valid()
      modifies store.tree
      ensures Valid() && View() == DropGuild(old(View()), g)
      ensures store.Now() == DropRoot(old(store.Now()), g)
    {
      hide RowsChat, LinksOf, AccountsOf, ChatStore.View, Profiles.LinksReadable;
      ViewDropRoot(store.tree.rows, g);
      DropRootRows(store.Now(), owners, g);
      store.tree.DeletePrefix(Id(g));
    }

    /** The notification loop of `delete_guild.rs`. */
    method NotifyMembers(actor: u64, g: u64, members: seq<u64>)
      requires Valid()
      modifies this`outbox, store.tree
      ensures Valid() && View() == NotifyDeleted(old(View()), actor, g, members)
      ensures store.Now() == old(store.Now()) || store.Now() == old(store.Now()) - {GuildList(actor, g, [])}
    {
      hide RowsChat, LinksOf, AccountsOf, ChatStore.View, Profiles.LinksReadable;
      for i := 0 to |members|
        invariant Valid() && View() == NotifyDeleted(old(View()), actor, g, members[..i])
        invariant View().foreign == old(View()).foreign
        invariant store.Now() == old(store.Now()) || store.Now() == old(store.Now()) - {GuildList(actor, g, [])}
      {
        assert members[..i + 1][..i] == members[..i];
        var link := ForeignOf(members[i]);
        match link {
          case Some((id, host)) => outbox := outbox + [Dispatch(host, Removed(id, g))];
          case None => Drop(GuildList(actor, g, []));
        }
      }
      assert members[..|members|] == members;
    }

    /** `delete_guild.rs`; it panics before it writes if the member scan does. */
    method HandleDeleteGuild(actor: u64, g: u64) returns (reply: Reply)
      requires Valid()
      modifies this`outbox, store.tree
      ensures Valid()
      ensures reply.Done? ==> (View(), reply.error) == Handle(old(View()), DeleteGuild(actor, g))
      ensures reply.Panicked? || reply.error.Some? ==> store.Now() == old(store.Now())
      ensures reply == Done(None) ==>
                var rest := DropRoot(old(store.Now()), g);
                store.Now() == rest || store.Now() == rest - {GuildList(actor, g, [])}
      ensures reply.Panicked? ==> View() == old(View())
      ensures reply.Panicked? <==> old(CheckGuildUser(View(), g, actor)).None? && old(OddMemberKey(store.tree.rows, g))
    {
      hide RowsChat, LinksOf, AccountsOf, ChatStore.View, Profiles.LinksReadable, OddMemberKey, DropGuild, NotifyDeleted,
        MemberIds, CheckGuildUser;
      var error := GuildUserError(g, actor);
      if error.Some? {
        return Done(error);
      }
      var members := ScanMembers(g);
      if members.None? {
        return Panicked;
      }
      DropRows(g);
      NotifyMembers(actor, g, members.value);
      reply := Done(None);
    }

    /** `login_federated.rs`. From a named host it is the login of the model, whatever id is drawn. */
    method HandleLogin(foreign: u64, host: Host, drawn: u64, profile: bytes) returns (r: Result<u64, Profiles.BadIdLength>)
      requires Valid()
      modifies profiles.tree
      ensures Valid()
      ensures profiles.tree.rows == Profiles.LoggedIn(old(profiles.tree.rows), foreign, host, drawn, profile)
      ensures host != [] ==> (View(), None) == Handle(old(View()), Login(foreign, host, drawn))
    {
      hide RowsChat, LinksOf, AccountsOf, ChatStore.View, Profiles.LinksReadable;
      if host != [] {
        LoginLinks(profiles.tree.rows, foreign, host, drawn, profile, View());
      }
      Profiles.LoginKeepsReadable(profiles.tree.rows, foreign, host, drawn, profile);
      r := profiles.LoginFederated(foreign, host, drawn, profile);
    }

    /** `push_logic` of `src/impls/sync/mod.rs`: an event from another server edits the guild list of its user. */
    method ApplyEvent(from: Host, event: Event)
      requires Valid()
      modifies store.tree
      ensures Valid() && View() == Sync.PushLogic(old(View()), from, event)
    {
      hide RowsChat, LinksOf, AccountsOf, ChatStore.View, Profiles.LinksReadable;
      match event {
        case Added(user, guild) => Put(GuildList(user, guild, from), []);
        case Removed(user, guild) => Drop(GuildList(user, guild, from));
      }
    }
  }

}
