/**
 * Permission rows (`set_permissions_logic`, `get_permissions_logic` and
 * `query_has_permission_logic` in `src/impls/chat/mod.rs`). Each combination of
 * guild, optional channel and role owns one map from match strings to a flag.
 */
module Permissions {
  import opened Wrappers
  import opened Bytes
  import opened Store
  import opened ChatKeys
  import opened ChatStore
  import opened Channels

  datatype Scope = Scope(g: u64, channel: Option<u64>, role: u64)

  datatype Permission = Permission(matches: bytes, ok: bool)

  /** `permission::has_permission`, which is not part of this model. */
  type Decider = (seq<Permission>, bytes) -> Option<bool>

  function PermKey(scope: Scope, matches: bytes): ChatKey {
    match scope.channel
    case None => GuildPerm(scope.g, scope.role, matches)
    case Some(c) => ChannelPerm(scope.g, c, scope.role, matches)
  }

  function PermPrefix(scope: Scope): bytes {
    match scope.channel
    case None => GuildPermPrefix(scope.g, scope.role)
    case Some(c) => ChannelPermPrefix(scope.g, c, scope.role)
  }

  predicate InScope(k: ChatKey, scope: Scope) {
    (k.GuildPerm? || k.ChannelPerm?) && k == PermKey(scope, k.matches)
  }

  lemma ScopePrefix(scope: Scope, k: ChatKey)
    ensures PermPrefix(scope) <= Encode(k) <==> InScope(k, scope)
    ensures InScope(k, scope) ==> Encode(k) == PermPrefix(scope) + k.matches
  {
    match scope.channel
    case None => GuildPermPrefixCovers(scope.g, scope.role, k);
    case Some(c) => ChannelPermPrefixCovers(scope.g, c, scope.role, k);
  }

  // ---- the stored flags ----

  /** Permission rows hold at least one byte; reading an empty one would panic. */
  ghost predicate FlagsStored(typed: Typed) {
    forall k: ChatKey | k in typed && (k.GuildPerm? || k.ChannelPerm?) :: |typed[k]| > 0
  }

  function FlagByte(ok: bool): bytes {
    if ok then [1] else [0]
  }

  /** The flag a scope holds for a match string. */
  ghost function Flag(typed: Typed, scope: Scope, matches: bytes): Option<bool> {
    var k := PermKey(scope, matches);
    if k in typed && |typed[k]| > 0 then Some(typed[k][0] != 0) else None
  }

  // ---- writing ----

  /** What the request says about a match string; its last word counts. */
  function LastWord(perms: seq<Permission>, matches: bytes): (word: Option<bool>)
    ensures word.None? <==> forall i | 0 <= i < |perms| :: perms[i].matches != matches
    ensures word.Some? ==> Permission(matches, word.value) in perms
  {
    if |perms| == 0 then None
    else if perms[|perms| - 1].matches == matches then Some(perms[|perms| - 1].ok)
    else LastWord(perms[..|perms| - 1], matches)
  }

  ghost function Granted(typed: Typed, scope: Scope, perms: seq<Permission>): Typed {
    if |perms| == 0 then typed
    else
      var last := perms[|perms| - 1];
      Granted(typed, scope, perms[..|perms| - 1])[PermKey(scope, last.matches) := FlagByte(last.ok)]
  }

  lemma {:induction false} GrantedStaysStored(typed: Typed, scope: Scope, perms: seq<Permission>)
    requires FlagsStored(typed)
    ensures FlagsStored(Granted(typed, scope, perms))
  {
    if |perms| > 0 {
      GrantedStaysStored(typed, scope, perms[..|perms| - 1]);
    }
  }

  /** What every scope holds after a grant: the request's last word in its own scope, else what it held. */
  ghost function FlagAfter(typed: Typed, scope: Scope, perms: seq<Permission>, other: Scope, m: bytes): Option<bool> {
    if other == scope && LastWord(perms, m).Some? then LastWord(perms, m) else Flag(typed, other, m)
  }

  /** A grant overrides its own scope's flags left to right and leaves every other scope alone. */
  lemma {:induction false} GrantedFlags(typed: Typed, scope: Scope, perms: seq<Permission>, other: Scope, m: bytes)
    ensures Flag(Granted(typed, scope, perms), other, m) == FlagAfter(typed, scope, perms, other, m)
  {
    if |perms| > 0 {
      var before, last := perms[..|perms| - 1], perms[|perms| - 1];
      GrantedFlags(typed, scope, before, other, m);
    }
  }

  /** No row outside the permission families is touched. */
  lemma {:induction false} GrantedElsewhere(typed: Typed, scope: Scope, perms: seq<Permission>, k: ChatKey)
    requires !InScope(k, scope)
    ensures k in Granted(typed, scope, perms) <==> k in typed
    ensures k in typed ==> Granted(typed, scope, perms)[k] == typed[k]
  {
    if |perms| > 0 {
      GrantedElsewhere(typed, scope, perms[..|perms| - 1], k);
    }
  }

  function PermBatch(scope: Scope, perms: seq<Permission>): (batch: seq<Update>)
    ensures |batch| == |perms|
  {
    seq(|perms|, i requires 0 <= i < |perms| =>
      (Encode(PermKey(scope, perms[i].matches)), Some(FlagByte(perms[i].ok))))
  }

  lemma {:induction false} ApplyPermBatch(rows: Rows, scope: Scope, perms: seq<Permission>)
    ensures View(Applied(rows, PermBatch(scope, perms))) == Granted(View(rows), scope, perms)
  {
    if |perms| > 0 {
      var before, last := perms[..|perms| - 1], perms[|perms| - 1];
      ApplyPermBatch(rows, scope, before);
      assert PermBatch(scope, perms)[..|perms| - 1] == PermBatch(scope, before);
      ViewInsert(Applied(rows, PermBatch(scope, before)), PermKey(scope, last.matches), FlagByte(last.ok));
    }
  }

  /** `set_permissions_logic`. */
  method SetPermissions(tree: Tree, scope: Scope, perms: seq<Permission>)
    modifies tree
    ensures tree.rows == Applied(old(tree.rows), PermBatch(scope, perms))
    ensures View(tree.rows) == Granted(old(View(tree.rows)), scope, perms)
  {
    var batch := [];
    for i := 0 to |perms|
      invariant batch == PermBatch(scope, perms[..i])
    {
      var value := if perms[i].ok then [1] else [0];
      batch := batch + [(Encode(PermKey(scope, perms[i].matches)), Some(value))];
    }
    assert perms[..|perms|] == perms;
    ApplyPermBatch(tree.rows, scope, perms);
    tree.ApplyBatch(batch);
  }

  // ---- reading ----

  /** `perms` lists the flags once each, in the byte order of the match strings. */
  ghost predicate ListsFlags(perms: seq<Permission>, flags: bytes -> Option<bool>) {
    && (forall i, j | 0 <= i < j < |perms| :: Less(perms[i].matches, perms[j].matches))
    && (forall i | 0 <= i < |perms| :: flags(perms[i].matches) == Some(perms[i].ok))
    && (forall m | flags(m).Some? :: Permission(m, flags(m).value) in perms)
  }

  function PermOfRow(scope: Scope, row: Row): Permission
    requires |PermPrefix(scope)| <= |row.0| && |row.1| > 0
  {
    Permission(row.0[|PermPrefix(scope)|..], row.1[0] != 0)
  }

  /** One scanned row is one stored flag of the scope. */
  lemma RowIsFlag(rows: Rows, scope: Scope, s: bytes)
    requires s in rows && PermPrefix(scope) <= s
    ensures var k := PermKey(scope, s[|PermPrefix(scope)|..]);
            s == PermPrefix(scope) + k.matches && k in View(rows) && View(rows)[k] == rows[s]
  {
    var k := PermKey(scope, s[|PermPrefix(scope)|..]);
    ScopePrefix(scope, k);
    assert Encode(k) == s;
    ViewLookup(rows, k);
  }

  lemma FlagIsRow(rows: Rows, scope: Scope, matches: bytes)
    requires PermKey(scope, matches) in View(rows)
    ensures var s := PermPrefix(scope) + matches;
            s in WithPrefix(rows, PermPrefix(scope)) && rows[s] == View(rows)[PermKey(scope, matches)]
  {
    ScopePrefix(scope, PermKey(scope, matches));
    ViewLookup(rows, PermKey(scope, matches));
  }

  function PermRows(rows: Rows, scope: Scope): seq<Row> {
    Listing(WithPrefix(rows, PermPrefix(scope)))
  }

  ghost predicate Readable(rows: Rows, scope: Scope) {
    forall i | 0 <= i < |PermRows(rows, scope)| ::
      |PermPrefix(scope)| <= |PermRows(rows, scope)[i].0| && |PermRows(rows, scope)[i].1| > 0
  }

  ghost function PermList(rows: Rows, scope: Scope): seq<Permission>
    requires Readable(rows, scope)
  {
    seq(|PermRows(rows, scope)|, i requires 0 <= i < |PermRows(rows, scope)| => PermOfRow(scope, PermRows(rows, scope)[i]))
  }

  lemma AlwaysReadable(rows: Rows, scope: Scope)
    requires FlagsStored(View(rows))
    ensures Readable(rows, scope)
  {
    var items := PermRows(rows, scope);
    forall i | 0 <= i < |items|
      ensures |PermPrefix(scope)| <= |items[i].0| && |items[i].1| > 0
    {
      RowIsFlag(rows, scope, items[i].0);
    }
  }

  lemma PermAt(rows: Rows, scope: Scope, i: nat)
    requires Readable(rows, scope) && i < |PermRows(rows, scope)|
    ensures var perm := PermList(rows, scope)[i];
            && PermRows(rows, scope)[i].0 == PermPrefix(scope) + perm.matches
            && Flag(View(rows), scope, perm.matches) == Some(perm.ok)
  {
    RowIsFlag(rows, scope, PermRows(rows, scope)[i].0);
  }

  lemma FlagIsListed(rows: Rows, scope: Scope, m: bytes)
    requires Readable(rows, scope) && Flag(View(rows), scope, m).Some?
    ensures Permission(m, Flag(View(rows), scope, m).value) in PermList(rows, scope)
  {
    var items, perms := PermRows(rows, scope), PermList(rows, scope);
    FlagIsRow(rows, scope, m);
    ListingHasKey(WithPrefix(rows, PermPrefix(scope)), PermPrefix(scope) + m);
    var i :| 0 <= i < |items| && items[i].0 == PermPrefix(scope) + m;
    PermAt(rows, scope, i);
    assert perms[i].matches == m;
  }

  /** What is read back is exactly the scope's flags, in byte order, whatever else is stored. */
  lemma PermListExact(rows: Rows, scope: Scope)
    requires Readable(rows, scope)
    ensures ListsFlags(PermList(rows, scope), m => Flag(View(rows), scope, m))
  {
    var items, perms := PermRows(rows, scope), PermList(rows, scope);
    forall i | 0 <= i < |perms|
      ensures items[i].0 == PermPrefix(scope) + perms[i].matches
      ensures Flag(View(rows), scope, perms[i].matches) == Some(perms[i].ok)
    {
      PermAt(rows, scope, i);
    }
    forall i, j | 0 <= i < j < |perms|
      ensures Less(perms[i].matches, perms[j].matches)
    {
      LessUnderPrefix(PermPrefix(scope), perms[i].matches, perms[j].matches);
    }
    forall m | Flag(View(rows), scope, m).Some?
      ensures Permission(m, Flag(View(rows), scope, m).value) in perms
    {
      FlagIsListed(rows, scope, m);
    }
  }

  /** `get_permissions_logic`: `None` is the panic on an empty value. */
  method GetPermissions(tree: Tree, scope: Scope) returns (perms: Option<seq<Permission>>)
    ensures perms.Some? <==> Readable(tree.rows, scope)
    ensures perms.Some? ==> perms.value == PermList(tree.rows, scope)
  {
    var prefix := PermPrefix(scope);
    var items := tree.ScanPrefix(prefix);
    assert items == PermRows(tree.rows, scope);
    forall i | 0 <= i < |items|
      ensures |prefix| <= |items[i].0|
    {
      assert items[i].0 in WithPrefix(tree.rows, prefix);
    }
    perms := DecodePerms(items, |prefix|);
    if perms.Some? {
      assert Readable(tree.rows, scope);
      assert perms.value == PermList(tree.rows, scope);
    }
  }

  /** The fold of `get_permissions_logic`: the key after the prefix, and whether the first value byte is set. */
  method DecodePerms(items: seq<Row>, skip: nat) returns (perms: Option<seq<Permission>>)
    requires forall i | 0 <= i < |items| :: skip <= |items[i].0|
    ensures perms.Some? <==> forall i | 0 <= i < |items| :: |items[i].1| > 0
    ensures perms.Some? ==>
              && |perms.value| == |items|
              && forall i | 0 <= i < |items| :: perms.value[i] == Permission(items[i].0[skip..], items[i].1[0] != 0)
  {
    var all: seq<Permission> := [];
    for i := 0 to |items|
      invariant forall j | 0 <= j < i :: |items[j].1| > 0
      invariant |all| == i
      invariant forall j | 0 <= j < i :: all[j] == Permission(items[j].0[skip..], items[j].1[0] != 0)
    {
      var (key, value) := items[i];
      if value == [] {
        return None;
      }
      all := all + [Permission(key[skip..], value[0] != 0)];
    }
    perms := Some(all);
  }

  /** Reading after writing gives the old flags overridden by the request, in byte order. */
  lemma SetThenGet(rows: Rows, scope: Scope, request: seq<Permission>, other: Scope)
    requires FlagsStored(View(rows))
    ensures var after := Applied(rows, PermBatch(scope, request));
            && Readable(after, other)
            && ListsFlags(PermList(after, other), m => FlagAfter(View(rows), scope, request, other, m))
  {
    var after := Applied(rows, PermBatch(scope, request));
    var before, granted := View(rows), View(after);
    ApplyPermBatch(rows, scope, request);
    GrantedStaysStored(before, scope, request);
    AlwaysReadable(after, other);
    PermListExact(after, other);
    forall m
      ensures Flag(granted, other, m) == FlagAfter(before, scope, request, other, m)
    {
      GrantedFlags(before, scope, request, other, m);
    }
    SameFlags(PermList(after, other), granted, other, m => FlagAfter(before, scope, request, other, m));
  }

  lemma SameFlags(perms: seq<Permission>, typed: Typed, scope: Scope, flags: bytes -> Option<bool>)
    requires ListsFlags(perms, m => Flag(typed, scope, m))
    requires forall m :: Flag(typed, scope, m) == flags(m)
    ensures ListsFlags(perms, flags)
  {
    var stored := m => Flag(typed, scope, m);
    forall m | flags(m).Some?
      ensures Permission(m, flags(m).value) in perms
    {
      assert stored(m) == flags(m);
    }
  }

  // ---- querying ----

  ghost predicate GrantedBy(rows: Rows, decide: Decider, scope: Scope, checkFor: bytes)
    requires Readable(rows, scope)
  {
    decide(PermList(rows, scope), checkFor) == Some(true)
  }

  ghost predicate AllReadable(rows: Rows) {
    forall scope :: Readable(rows, scope)
  }

  function ScopesOf(g: u64, channel: Option<u64>, roles: seq<u64>): (scopes: seq<Scope>)
    ensures |scopes| == |roles| && forall i | 0 <= i < |roles| :: scopes[i] == Scope(g, channel, roles[i])
  {
    seq(|roles|, i requires 0 <= i < |roles| => Scope(g, channel, roles[i]))
  }

  /** The scopes a query asks, in order: of every role in the channel, then of every role in the guild. */
  function Asked(g: u64, channel: Option<u64>, roles: seq<u64>): seq<Scope> {
    (if channel.Some? then ScopesOf(g, channel, roles) else []) + ScopesOf(g, None, roles)
  }

  /** The query ends at the first scope that grants, and panics on an unreadable one before that. */
  ghost function Queried(rows: Rows, decide: Decider, scopes: seq<Scope>, checkFor: bytes): Option<bool> {
    if |scopes| == 0 then Some(false)
    else if !Readable(rows, scopes[0]) then None
    else if GrantedBy(rows, decide, scopes[0], checkFor) then Some(true)
    else Queried(rows, decide, scopes[1..], checkFor)
  }

  lemma {:induction false} QueriedConcat(rows: Rows, decide: Decider, a: seq<Scope>, b: seq<Scope>, checkFor: bytes)
    ensures Queried(rows, decide, a + b, checkFor)
         == if Queried(rows, decide, a, checkFor) == Some(false) then Queried(rows, decide, b, checkFor)
            else Queried(rows, decide, a, checkFor)
  {
    if |a| == 0 {
      assert a + b == b;
    } else {
      assert (a + b)[0] == a[0] && (a + b)[1..] == a[1..] + b;
      QueriedConcat(rows, decide, a[1..], b, checkFor);
    }
  }

  ghost predicate Passes(rows: Rows, decide: Decider, scope: Scope, checkFor: bytes) {
    Readable(rows, scope) && !GrantedBy(rows, decide, scope, checkFor)
  }

  /** The first `n` scopes neither grant nor panic. */
  ghost predicate PassesUpTo(rows: Rows, decide: Decider, scopes: seq<Scope>, n: nat, checkFor: bytes)
    requires n <= |scopes|
  {
    forall i | 0 <= i < n :: Passes(rows, decide, scopes[i], checkFor)
  }

  /** The answer is given by the first scope that does not pass. */
  lemma {:induction false} QueryStops(rows: Rows, decide: Decider, scopes: seq<Scope>, checkFor: bytes) returns (n: nat)
    ensures n <= |scopes| && PassesUpTo(rows, decide, scopes, n, checkFor)
    ensures n < |scopes| ==> !Passes(rows, decide, scopes[n], checkFor)
    ensures Queried(rows, decide, scopes, checkFor)
         == if n == |scopes| then Some(false) else if Readable(rows, scopes[n]) then Some(true) else None
  {
    hide Readable, GrantedBy;
    n := 0;
    if |scopes| > 0 && Passes(rows, decide, scopes[0], checkFor) {
      var m := QueryStops(rows, decide, scopes[1..], checkFor);
      forall i | 0 < i <= m
        ensures Passes(rows, decide, scopes[i], checkFor)
      {
        assert scopes[1..][i - 1] == scopes[i];
      }
      n := m + 1;
    }
  }

  /** A query panics exactly when it comes to an unreadable scope, and grants exactly when it comes to a granting one. */
  lemma QueriedIff(rows: Rows, decide: Decider, scopes: seq<Scope>, checkFor: bytes)
    ensures var r := Queried(rows, decide, scopes, checkFor);
            && (r.None? <==> exists i | 0 <= i < |scopes| ::
                  PassesUpTo(rows, decide, scopes, i, checkFor) && !Readable(rows, scopes[i]))
            && (r == Some(true) <==> exists i | 0 <= i < |scopes| ::
                  && PassesUpTo(rows, decide, scopes, i, checkFor)
                  && Readable(rows, scopes[i]) && GrantedBy(rows, decide, scopes[i], checkFor))
  {
    hide Readable, GrantedBy, Queried;
    var n := QueryStops(rows, decide, scopes, checkFor);
    assert forall i | 0 <= i < |scopes| && PassesUpTo(rows, decide, scopes, i, checkFor) ::
        i <= n && (!Passes(rows, decide, scopes[i], checkFor) ==> i == n);
  }

  /** The query stops at the `i`-th role, on the given level. */
  ghost predicate StopsAt(rows: Rows, decide: Decider, g: u64, channel: Option<u64>, roles: seq<u64>, i: nat, checkFor: bytes) {
    && i < |roles|
    && !Passes(rows, decide, Scope(g, channel, roles[i]), checkFor)
    && forall j | 0 <= j < i :: Passes(rows, decide, Scope(g, channel, roles[j]), checkFor)
  }

  /** What the first role that does not pass on a level says: grant, or panic. */
  ghost predicate LevelSays(rows: Rows, decide: Decider, g: u64, channel: Option<u64>, roles: seq<u64>, checkFor: bytes,
                            grants: bool)
  {
    exists i | 0 <= i < |roles| ::
      StopsAt(rows, decide, g, channel, roles, i, checkFor) && (Readable(rows, Scope(g, channel, roles[i])) <==> grants)
  }

  lemma LevelIsQueried(rows: Rows, decide: Decider, g: u64, channel: Option<u64>, roles: seq<u64>, checkFor: bytes)
    ensures var r := Queried(rows, decide, ScopesOf(g, channel, roles), checkFor);
            && (r == Some(true) <==> LevelSays(rows, decide, g, channel, roles, checkFor, true))
            && (r.None? <==> LevelSays(rows, decide, g, channel, roles, checkFor, false))
  {
    hide Readable, GrantedBy, Queried;
    var scopes := ScopesOf(g, channel, roles);
    var n := QueryStops(rows, decide, scopes, checkFor);
    forall i | 0 <= i < |roles|
      ensures StopsAt(rows, decide, g, channel, roles, i, checkFor) <==> i == n
    {
      assert forall j | 0 <= j < |roles| :: scopes[j] == Scope(g, channel, roles[j]);
      assert i > n ==> !Passes(rows, decide, scopes[n], checkFor);
      assert i < n ==> Passes(rows, decide, scopes[i], checkFor);
    }
  }

  /** The flags of the channel are asked first, of every role in order; those of the guild only if none of them decides. */
  lemma ChannelComesFirst(rows: Rows, decide: Decider, g: u64, channel: Option<u64>, roles: seq<u64>, checkFor: bytes)
    ensures var r := Queried(rows, decide, Asked(g, channel, roles), checkFor);
            var granted := channel.Some? && LevelSays(rows, decide, g, channel, roles, checkFor, true);
            var panicked := channel.Some? && LevelSays(rows, decide, g, channel, roles, checkFor, false);
            && (r == Some(true) <==>
                  granted || (!panicked && LevelSays(rows, decide, g, None, roles, checkFor, true)))
            && (r.None? <==>
                  panicked || (!granted && LevelSays(rows, decide, g, None, roles, checkFor, false)))
  {
    hide LevelSays, Queried;
    var first := if channel.Some? then ScopesOf(g, channel, roles) else [];
    QueriedConcat(rows, decide, first, ScopesOf(g, None, roles), checkFor);
    LevelIsQueried(rows, decide, g, channel, roles, checkFor);
    LevelIsQueried(rows, decide, g, None, roles, checkFor);
    NothingQueried(rows, decide, checkFor);
    OneOfThree(Queried(rows, decide, first, checkFor));
  }

  lemma OneOfThree(answer: Option<bool>)
    ensures answer == None || answer == Some(true) || answer == Some(false)
  {
    if answer.Some? && answer.value {
      assert answer == Some(true);
    } else if answer.Some? {
      assert answer == Some(false);
    }
  }

  lemma NothingQueried(rows: Rows, decide: Decider, checkFor: bytes)
    ensures Queried(rows, decide, [], checkFor) == Some(false)
  {
  }

  method AnyRoleGrants(tree: Tree, decide: Decider, scopes: seq<Scope>, checkFor: bytes) returns (granted: Option<bool>)
    ensures granted == Queried(tree.rows, decide, scopes, checkFor)
  {
    for i := 0 to |scopes|
      invariant Queried(tree.rows, decide, scopes, checkFor) == Queried(tree.rows, decide, scopes[i..], checkFor)
    {
      var perms := GetPermissions(tree, scopes[i]);
      assert scopes[i..][0] == scopes[i] && scopes[i..][1..] == scopes[i + 1..];
      if perms.None? {
        return None;
      }
      if decide(perms.value, checkFor) == Some(true) {
        return Some(true);
      }
    }
    granted := Some(false);
  }

  /** `query_has_permission_logic` on any store: channel flags of every role first, then guild flags of every role. */
  method QueryHasPermission(tree: Tree, decide: Decider, g: u64, channel: Option<u64>, user: u64, checkFor: bytes)
    returns (granted: Option<bool>)
    ensures var roles := ListAt(View(tree.rows), UserRoles(g, user));
            granted == Queried(tree.rows, decide, Asked(g, channel, roles), checkFor)
    ensures AllReadable(tree.rows) ==>
              && granted.Some?
              && (granted.value <==> exists role | role in ListAt(View(tree.rows), UserRoles(g, user)) ::
                    || (channel.Some? && GrantedBy(tree.rows, decide, Scope(g, channel, role), checkFor))
                    || GrantedBy(tree.rows, decide, Scope(g, None, role), checkFor))
  {
    ViewLookup(tree.rows, UserRoles(g, user));
    var raw := tree.Get(Encode(UserRoles(g, user)));
    var roles := if raw.Some? then DecodeIds(raw.value) else [];
    if AllReadable(tree.rows) {
      AskedGrants(tree.rows, decide, g, channel, roles, checkFor);
    }
    QueriedConcat(tree.rows, decide, if channel.Some? then ScopesOf(g, channel, roles) else [],
                  ScopesOf(g, None, roles), checkFor);
    if channel.Some? {
      granted := AnyRoleGrants(tree, decide, ScopesOf(g, channel, roles), checkFor);
      if granted != Some(false) {
        return;
      }
    }
    granted := AnyRoleGrants(tree, decide, ScopesOf(g, None, roles), checkFor);
  }

  /** Where everything can be read, the order of the scopes does not matter. */
  lemma AskedGrants(rows: Rows, decide: Decider, g: u64, channel: Option<u64>, roles: seq<u64>, checkFor: bytes)
    requires AllReadable(rows)
    ensures var r := Queried(rows, decide, Asked(g, channel, roles), checkFor);
            && r.Some?
            && (r.value <==> exists role | role in roles ::
                  || (channel.Some? && GrantedBy(rows, decide, Scope(g, channel, role), checkFor))
                  || GrantedBy(rows, decide, Scope(g, None, role), checkFor))
  {
    var first := if channel.Some? then ScopesOf(g, channel, roles) else [];
    QueriedConcat(rows, decide, first, ScopesOf(g, None, roles), checkFor);
    QueriedWhenReadable(rows, decide, first, checkFor);
    QueriedWhenReadable(rows, decide, ScopesOf(g, None, roles), checkFor);
    forall role | role in roles
      ensures Scope(g, None, role) in ScopesOf(g, None, roles)
      ensures channel.Some? ==> Scope(g, channel, role) in first
    {
      var i :| 0 <= i < |roles| && roles[i] == role;
      assert ScopesOf(g, None, roles)[i] == Scope(g, None, role);
      assert channel.Some? ==> first[i] == Scope(g, channel, role);
    }
    forall scope | scope in ScopesOf(g, None, roles)
      ensures scope.role in roles && scope == Scope(g, None, scope.role)
    {
    }
    forall scope | scope in first
      ensures scope.role in roles && scope == Scope(g, channel, scope.role)
    {
    }
  }

  lemma {:induction false} QueriedWhenReadable(rows: Rows, decide: Decider, scopes: seq<Scope>, checkFor: bytes)
    requires AllReadable(rows)
    ensures Queried(rows, decide, scopes, checkFor)
         == Some(exists scope | scope in scopes :: GrantedBy(rows, decide, scope, checkFor))
  {
    if |scopes| > 0 {
      assert forall scope :: scope in scopes <==> scope == scopes[0] || scope in scopes[1..];
      QueriedWhenReadable(rows, decide, scopes[1..], checkFor);
    }
  }

  /** A store of valid permission rows can always be queried. */
  lemma QueriesAreDefined(rows: Rows)
    requires FlagsStored(View(rows))
    ensures AllReadable(rows)
  {
    forall scope
      ensures Readable(rows, scope)
    {
      AlwaysReadable(rows, scope);
    }
  }
}
