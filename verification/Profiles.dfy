/**
 * Federated accounts (`src/impls/auth/login_federated.rs`,
 * `src/impls/profile/mod.rs` and the profile keys of `src/db/mod.rs`): the two
 * rows that tie a local id to a foreign id and its host, and the proof that
 * over any run of logins they stay inverse to each other.
 */
module Profiles {
  import opened Wrappers
  import opened Bytes
  import opened Store

  // ---- keys ----

  /** "user_" */
  const USER_PREFIX: bytes := [117, 115, 101, 114, 95]

  /** "fuser_" */
  const FOREIGN_PREFIX: bytes := [102, 117, 115, 101, 114, 95]

  function LocalToForeignKey(local: u64): (s: bytes)
    ensures |s| == 15
  {
    FOREIGN_PREFIX + Id(local) + [2]
  }

  function ForeignToLocalKey(foreign: u64, host: bytes): (s: bytes)
    ensures |s| == 15 + |host|
  {
    FOREIGN_PREFIX + [2] + Id(foreign) + host
  }

  function ProfileKey(user: u64): bytes {
    USER_PREFIX + Id(user)
  }

  function MetadataPrefix(user: u64): bytes {
    ProfileKey(user) + [1]
  }

  function MetadataKey(user: u64, app: bytes): bytes {
    MetadataPrefix(user) + app
  }

  /** The link families: everything else in the tree starts with "user_". */
  predicate IsLink(key: bytes) {
    FOREIGN_PREFIX <= key
  }

  lemma OwnKeysAreNotLinks(user: u64, app: bytes)
    ensures !IsLink(ProfileKey(user)) && !IsLink(MetadataKey(user, app))
    ensures forall key: bytes | MetadataPrefix(user) <= key :: !IsLink(key)
  {
    assert ProfileKey(user)[0] == 117 && MetadataKey(user, app)[0] == 117;
    forall key: bytes | MetadataPrefix(user) <= key
      ensures !IsLink(key)
    {
      assert key[0] == MetadataPrefix(user)[0] == 117;
    }
  }

  lemma LocalKeyInjective(a: u64, b: u64)
    ensures LocalToForeignKey(a) == LocalToForeignKey(b) <==> a == b
  {
    assert LocalToForeignKey(a)[6..14] == Id(a);
    assert LocalToForeignKey(b)[6..14] == Id(b);
  }

  lemma ForeignKeyInjective(f: u64, h: bytes, f': u64, h': bytes)
    ensures ForeignToLocalKey(f, h) == ForeignToLocalKey(f', h') <==> f == f' && h == h'
  {
    assert ForeignToLocalKey(f, h)[7..15] == Id(f) && ForeignToLocalKey(f, h)[15..] == h;
    assert ForeignToLocalKey(f', h')[7..15] == Id(f') && ForeignToLocalKey(f', h')[15..] == h';
  }

  /** The two link families overlap exactly when the host is empty and the ids line up around the tag byte. */
  lemma LinkKeysCollideIff(local: u64, foreign: u64, host: bytes)
    ensures LocalToForeignKey(local) == ForeignToLocalKey(foreign, host)
       <==> host == [] && Id(local) + [2] == [2] + Id(foreign)
  {
    var a, b := LocalToForeignKey(local), ForeignToLocalKey(foreign, host);
    assert a[6..] == Id(local) + [2];
    if host == [] {
      assert b[6..] == [2] + Id(foreign);
      assert a == FOREIGN_PREFIX + a[6..] && b == FOREIGN_PREFIX + b[6..];
    }
  }

  /** Such ids exist, so an empty host would really mix the families. */
  lemma LinkKeysCanCollide()
    ensures exists id: u64 :: LocalToForeignKey(id) == ForeignToLocalKey(id, [])
  {
    var twos: bytes := [2, 2, 2, 2, 2, 2, 2, 2];
    var id := ReadId(twos);
    ReadIdInverse(twos);
    LinkKeysCollideIff(id, id, []);
    assert LocalToForeignKey(id) == ForeignToLocalKey(id, []);
  }

  // ---- lookups ----

  /** The panic of `deser_id` and `split_at` on a stored value of the wrong length. */
  datatype BadIdLength = BadIdLength

  /** `local_to_foreign_id`; the source panics on a value shorter than an id. */
  function LocalToForeign(rows: Rows, local: u64): Option<(u64, bytes)> {
    var key := LocalToForeignKey(local);
    if key in rows && |rows[key]| >= 8 then Some((ReadId(rows[key][..8]), rows[key][8..])) else None
  }

  /** `foreign_to_local_id`; the source panics on a value that is not an id. */
  function ForeignToLocal(rows: Rows, foreign: u64, host: bytes): Option<u64> {
    var key := ForeignToLocalKey(foreign, host);
    if key in rows && |rows[key]| == 8 then Some(ReadId(rows[key])) else None
  }

  /** Every stored link has a value the lookups can read. */
  ghost predicate LinksReadable(rows: Rows) {
    && (forall l: u64 | LocalToForeignKey(l) in rows :: |rows[LocalToForeignKey(l)]| >= 8)
    && (forall f: u64, h: bytes | h != [] && ForeignToLocalKey(f, h) in rows :: |rows[ForeignToLocalKey(f, h)]| == 8)
  }

  /** The two lookups are inverse to each other, for every named host. */
  ghost predicate Paired(rows: Rows) {
    && LinksReadable(rows)
    && forall l: u64, f: u64, h: bytes | h != [] ::
         ForeignToLocal(rows, f, h) == Some(l) <==> LocalToForeign(rows, l) == Some((f, h))
  }

  // ---- a login ----

  function LoginBatch(local: u64, foreign: u64, host: bytes, profile: bytes): seq<Update> {
    [ (LocalToForeignKey(local), Some(Id(foreign) + host)),
      (ForeignToLocalKey(foreign, host), Some(Id(local))),
      (ProfileKey(local), Some(profile)) ]
  }

  /** The tree after a login that draws `local` if it needs a new id; a malformed row of the account makes it panic. */
  function LoggedIn(rows: Rows, foreign: u64, host: bytes, local: u64, profile: bytes): Rows {
    if ForeignToLocalKey(foreign, host) in rows then rows
    else rows[LocalToForeignKey(local) := Id(foreign) + host]
             [ForeignToLocalKey(foreign, host) := Id(local)]
             [ProfileKey(local) := profile]
  }

  lemma ApplyLoginBatch(rows: Rows, foreign: u64, host: bytes, local: u64, profile: bytes)
    ensures Applied(rows, LoginBatch(local, foreign, host, profile))
         == rows[LocalToForeignKey(local) := Id(foreign) + host]
                [ForeignToLocalKey(foreign, host) := Id(local)]
                [ProfileKey(local) := profile]
  {
    var batch := LoginBatch(local, foreign, host, profile);
    assert batch[..2][..1] == batch[..1];
    assert Applied(rows, batch[..1]) == rows[LocalToForeignKey(local) := Id(foreign) + host];
    assert Applied(rows, batch[..2]) == Written(Applied(rows, batch[..1]), batch[1]);
  }

  /** What the two lookups answer about named hosts after a new account was linked. */
  lemma NewLink(rows: Rows, foreign: u64, host: bytes, local: u64, profile: bytes, l: u64, f: u64, h: bytes)
    requires h != [] && ForeignToLocalKey(foreign, host) !in rows
    ensures var after := LoggedIn(rows, foreign, host, local, profile);
            && (LocalToForeign(after, l) == Some((f, h)) <==>
                  if l == local then (foreign, host) == (f, h) else LocalToForeign(rows, l) == Some((f, h)))
            && (ForeignToLocal(after, f, h)
                == if (f, h) == (foreign, host) then Some(local) else ForeignToLocal(rows, f, h))
  {
    OwnKeysAreNotLinks(local, []);
    assert IsLink(LocalToForeignKey(l)) && IsLink(ForeignToLocalKey(f, h));
    LinkKeysCollideIff(local, f, h);
    LocalKeyInjective(l, local);
    ForeignKeyInjective(f, h, foreign, host);
    assert (Id(foreign) + host)[..8] == Id(foreign) && (Id(foreign) + host)[8..] == host;
  }

  /** A login from a named host links the drawn id and leaves every other local id's link alone. */
  lemma OtherLinkKept(rows: Rows, foreign: u64, host: bytes, local: u64, profile: bytes, l: u64)
    requires host != [] && ForeignToLocalKey(foreign, host) !in rows
    ensures LocalToForeign(LoggedIn(rows, foreign, host, local, profile), l)
         == if l == local then Some((foreign, host)) else LocalToForeign(rows, l)
  {
    OwnKeysAreNotLinks(local, []);
    assert IsLink(LocalToForeignKey(l));
    LinkKeysCollideIff(l, foreign, host);
    LocalKeyInjective(l, local);
    assert (Id(foreign) + host)[..8] == Id(foreign) && (Id(foreign) + host)[8..] == host;
  }

  lemma LoginKeepsReadable(rows: Rows, foreign: u64, host: bytes, local: u64, profile: bytes)
    requires LinksReadable(rows)
    ensures LinksReadable(LoggedIn(rows, foreign, host, local, profile))
  {
    var after := LoggedIn(rows, foreign, host, local, profile);
    OwnKeysAreNotLinks(local, []);
    forall l: u64 | LocalToForeignKey(l) in after
      ensures |after[LocalToForeignKey(l)]| >= 8
    {
      assert IsLink(LocalToForeignKey(l));
    }
    forall f: u64, h: bytes | h != [] && ForeignToLocalKey(f, h) in after
      ensures |after[ForeignToLocalKey(f, h)]| == 8
    {
      assert IsLink(ForeignToLocalKey(f, h));
      LinkKeysCollideIff(local, f, h);
    }
  }

  /** The id is linked to no account of a named host. */
  predicate Unlinked(rows: Rows, local: u64) {
    var link := LocalToForeign(rows, local);
    link.None? || link.value.1 == []
  }

  /** The login stops before it draws an id: the account is known, or its row cannot be read as an id. */
  predicate Settled(rows: Rows, foreign: u64, host: bytes) {
    ForeignToLocalKey(foreign, host) in rows
  }

  /**
   * A login, from whatever host, keeps the lookups inverse exactly when it draws
   * no id or one that is unlinked: the source does not check the latter.
   */
  lemma LoginKeepsPairedIff(rows: Rows, foreign: u64, host: bytes, local: u64, profile: bytes)
    requires Paired(rows)
    ensures Paired(LoggedIn(rows, foreign, host, local, profile)) <==> Settled(rows, foreign, host) || Unlinked(rows, local)
  {
    var after := LoggedIn(rows, foreign, host, local, profile);
    LoginKeepsReadable(rows, foreign, host, local, profile);
    if !Settled(rows, foreign, host) {
      if Unlinked(rows, local) {
        forall l: u64, f: u64, h: bytes | h != []
          ensures ForeignToLocal(after, f, h) == Some(l) <==> LocalToForeign(after, l) == Some((f, h))
        {
          NewLink(rows, foreign, host, local, profile, l, f, h);
          assert ForeignToLocal(rows, f, h) == Some(l) <==> LocalToForeign(rows, l) == Some((f, h));
        }
      } else {
        var (f, h) := LocalToForeign(rows, local).value;
        assert ForeignToLocal(rows, f, h) == Some(local);
        NewLink(rows, foreign, host, local, profile, local, f, h);
      }
    }
  }

  /** Two logins that draw the same id: the second takes the id over, the first account still resolves to it. */
  lemma ReusedIdIsTakenOver(f1: u64, f2: u64, host: bytes, local: u64, profile: bytes)
    requires host != [] && f1 != f2
    ensures var first := LoggedIn(map[], f1, host, local, profile);
            var second := LoggedIn(first, f2, host, local, profile);
            && Paired(first) && !Paired(second)
            && ForeignToLocal(second, f1, host) == Some(local) && LocalToForeign(second, local) == Some((f2, host))
  {
    var first := LoggedIn(map[], f1, host, local, profile);
    LoginKeepsPairedIff(map[], f1, host, local, profile);
    OwnKeysAreNotLinks(local, []);
    ForeignKeyInjective(f1, host, f2, host);
    LinkKeysCollideIff(local, f2, host);
    NewLink(map[], f1, host, local, profile, local, f1, host);
    assert IsLink(ForeignToLocalKey(f2, host)) && ForeignToLocalKey(f2, host) !in first;
    NewLink(first, f2, host, local, profile, local, f1, host);
    NewLink(first, f2, host, local, profile, local, f2, host);
  }

  // ---- runs ----

  datatype Op =
    | Login(foreign: u64, host: bytes, local: u64, profile: bytes)
    | UpdateProfile(user: u64, profile: bytes)
    | SetMetadata(user: u64, app: bytes, value: bytes)
    | DeleteMetadata(user: u64)

  function Step(rows: Rows, op: Op): Rows {
    match op
    case Login(foreign, host, local, profile) => LoggedIn(rows, foreign, host, local, profile)
    case UpdateProfile(user, profile) => rows[ProfileKey(user) := profile]
    case SetMetadata(user, app, value) => rows[MetadataKey(user, app) := value]
    case DeleteMetadata(user) => WithoutPrefix(rows, MetadataPrefix(user))
  }

  /** What the handlers do not check themselves: that a drawn id is nobody's yet. */
  predicate Sound(rows: Rows, op: Op) {
    op.Login? ==> Settled(rows, op.foreign, op.host) || Unlinked(rows, op.local)
  }

  predicate SoundRun(rows: Rows, ops: seq<Op>)
    decreases |ops|
  {
    |ops| == 0 || (Sound(rows, ops[0]) && SoundRun(Step(rows, ops[0]), ops[1..]))
  }

  function Run(rows: Rows, ops: seq<Op>): Rows
    decreases |ops|
  {
    if |ops| == 0 then rows else Run(Step(rows, ops[0]), ops[1..])
  }

  /** Writes to profile and metadata rows cannot be seen through the lookups. */
  lemma SameLinks(rows: Rows, after: Rows)
    requires Paired(rows)
    requires forall key | IsLink(key) :: Lookup(rows, key) == Lookup(after, key)
    ensures Paired(after)
  {
    forall l: u64
      ensures Lookup(rows, LocalToForeignKey(l)) == Lookup(after, LocalToForeignKey(l))
    {
      assert IsLink(LocalToForeignKey(l));
    }
    forall f: u64, h: bytes
      ensures Lookup(rows, ForeignToLocalKey(f, h)) == Lookup(after, ForeignToLocalKey(f, h))
    {
      assert IsLink(ForeignToLocalKey(f, h));
    }
    forall l: u64, f: u64, h: bytes | h != []
      ensures ForeignToLocal(after, f, h) == Some(l) <==> LocalToForeign(after, l) == Some((f, h))
    {
      assert ForeignToLocal(after, f, h) == ForeignToLocal(rows, f, h);
      assert LocalToForeign(after, l) == LocalToForeign(rows, l);
    }
  }

  lemma StepKeepsPaired(rows: Rows, op: Op)
    requires Paired(rows) && Sound(rows, op)
    ensures Paired(Step(rows, op))
  {
    match op
    case Login(foreign, host, local, profile) => LoginKeepsPairedIff(rows, foreign, host, local, profile);
    case UpdateProfile(user, _) =>
      OwnKeysAreNotLinks(user, []);
      SameLinks(rows, Step(rows, op));
    case SetMetadata(user, app, _) =>
      OwnKeysAreNotLinks(user, app);
      SameLinks(rows, Step(rows, op));
    case DeleteMetadata(user) =>
      OwnKeysAreNotLinks(user, []);
      SameLinks(rows, Step(rows, op));
  }

  lemma {:induction false} RunKeepsPaired(rows: Rows, ops: seq<Op>)
    requires Paired(rows) && SoundRun(rows, ops)
    ensures Paired(Run(rows, ops))
    decreases |ops|
  {
    if |ops| > 0 {
      StepKeepsPaired(rows, ops[0]);
      RunKeepsPaired(Step(rows, ops[0]), ops[1..]);
    }
  }

  /** Over all logins, converting an id there and back is the identity in both directions. */
  lemma IdsAreBijective(ops: seq<Op>, l: u64, f: u64, h: bytes)
    requires SoundRun(map[], ops) && h != []
    ensures var rows := Run(map[], ops);
            ForeignToLocal(rows, f, h) == Some(l) <==> LocalToForeign(rows, l) == Some((f, h))
  {
    RunKeepsPaired(map[], ops);
  }

  // ---- the profile rows themselves ----

  lemma ProfileKeysDiffer(user: u64, other: u64, app: bytes, app': bytes)
    ensures ProfileKey(user) == ProfileKey(other) <==> user == other
    ensures ProfileKey(user) != MetadataKey(other, app)
    ensures MetadataKey(user, app) == MetadataKey(other, app') <==> user == other && app == app'
    ensures MetadataPrefix(user) <= MetadataKey(other, app) <==> user == other
    ensures !(MetadataPrefix(user) <= ProfileKey(other))
  {
    assert ProfileKey(user)[5..] == Id(user) && ProfileKey(other)[5..] == Id(other);
    assert MetadataKey(user, app)[5..13] == Id(user) && MetadataKey(other, app)[5..13] == Id(other);
    assert MetadataKey(other, app')[5..13] == Id(other);
    assert MetadataKey(user, app)[14..] == app && MetadataKey(other, app')[14..] == app';
    assert MetadataPrefix(user)[5..13] == Id(user);
    if user == other {
      assert MetadataKey(other, app)[..|MetadataPrefix(user)|] == MetadataPrefix(user);
    }
    if MetadataPrefix(user) <= MetadataKey(other, app) {
      assert MetadataKey(other, app)[5..13] == MetadataPrefix(user)[5..13];
    }
  }

  /** Whose profile a request writes: the profile of a new account is the one it logged in with. */
  lemma ProfilesChange(rows: Rows, op: Op, user: u64)
    ensures var written := match op
                           case Login(foreign, host, local, profile) =>
                             if !Settled(rows, foreign, host) && local == user then Some(profile) else None
                           case UpdateProfile(u, profile) => if u == user then Some(profile) else None
                           case _ => None;
            Lookup(Step(rows, op), ProfileKey(user)) == if written.Some? then written else Lookup(rows, ProfileKey(user))
  {
    OwnKeysAreNotLinks(user, []);
    match op
    case Login(foreign, host, local, profile) =>
      assert IsLink(LocalToForeignKey(local)) && IsLink(ForeignToLocalKey(foreign, host));
      ProfileKeysDiffer(user, local, [], []);
    case UpdateProfile(u, _) => ProfileKeysDiffer(user, u, [], []);
    case SetMetadata(u, app, _) => ProfileKeysDiffer(user, u, app, app);
    case DeleteMetadata(u) => ProfileKeysDiffer(u, user, [], []);
  }

  /** Metadata is written for one user and app, and deleted for one user and all apps. */
  lemma MetadataChange(rows: Rows, op: Op, user: u64, app: bytes)
    ensures Lookup(Step(rows, op), MetadataKey(user, app)) ==
              if op.SetMetadata? && (op.user, op.app) == (user, app) then Some(op.value)
              else if op.DeleteMetadata? && op.user == user then None
              else Lookup(rows, MetadataKey(user, app))
  {
    OwnKeysAreNotLinks(user, app);
    match op
    case Login(foreign, host, local, _) =>
      assert IsLink(LocalToForeignKey(local)) && IsLink(ForeignToLocalKey(foreign, host));
      ProfileKeysDiffer(local, user, app, app);
    case UpdateProfile(u, _) => ProfileKeysDiffer(u, user, app, app);
    case SetMetadata(u, other, _) => ProfileKeysDiffer(user, u, app, other);
    case DeleteMetadata(u) => ProfileKeysDiffer(u, user, app, app);
  }

  // ---- the handlers ----

  class ProfileTree {
    const tree: Tree

    constructor (tree: Tree)
      ensures this.tree == tree
    {
      this.tree := tree;
    }

    method LocalToForeignId(local: u64) returns (r: Result<Option<(u64, bytes)>, BadIdLength>)
      ensures r.Err? <==> LocalToForeignKey(local) in tree.rows && |tree.rows[LocalToForeignKey(local)]| < 8
      ensures r.Ok? ==> r.value == LocalToForeign(tree.rows, local)
    {
      var raw := tree.Get(LocalToForeignKey(local));
      if raw.None? {
        return Ok(None);
      }
      if |raw.value| < 8 {
        return Err(BadIdLength);
      }
      r := Ok(Some((ReadId(raw.value[..8]), raw.value[8..])));
    }

    method ForeignToLocalId(foreign: u64, host: bytes) returns (r: Result<Option<u64>, BadIdLength>)
      ensures r.Err? <==> var key := ForeignToLocalKey(foreign, host); key in tree.rows && |tree.rows[key]| != 8
      ensures r.Ok? ==> r.value == ForeignToLocal(tree.rows, foreign, host)
    {
      var raw := tree.Get(ForeignToLocalKey(foreign, host));
      if raw.None? {
        return Ok(None);
      }
      if |raw.value| != 8 {
        return Err(BadIdLength);
      }
      r := Ok(Some(ReadId(raw.value)));
    }

    /** `login_federated.rs` after the token checks; `drawn` is the random id, which the source does not check. */
    method LoginFederated(foreign: u64, host: bytes, drawn: u64, profile: bytes) returns (r: Result<u64, BadIdLength>)
      modifies tree
      ensures tree.rows == LoggedIn(old(tree.rows), foreign, host, drawn, profile)
      ensures r.Err? <==> old(Settled(tree.rows, foreign, host) && ForeignToLocal(tree.rows, foreign, host).None?)
      ensures r.Ok? ==> ForeignToLocal(tree.rows, foreign, host) == Some(r.value)
      ensures old(Paired(tree.rows)) ==>
                && (Paired(tree.rows) <==> old(Sound(tree.rows, Login(foreign, host, drawn, profile))))
                && (host != [] ==> r.Ok? && LocalToForeign(tree.rows, r.value) == Some((foreign, host)))
    {
      if Paired(tree.rows) {
        LoginKeepsPairedIff(tree.rows, foreign, host, drawn, profile);
      }
      var known := ForeignToLocalId(foreign, host);
      if known.Err? {
        return Err(BadIdLength);
      }
      if known.value.Some? {
        return Ok(known.value.value);
      }
      LinkedNow(tree.rows, foreign, host, drawn, profile);
      ApplyLoginBatch(tree.rows, foreign, host, drawn, profile);
      tree.ApplyBatch(LoginBatch(drawn, foreign, host, profile));
      r := Ok(drawn);
    }
  }

  lemma LinkedNow(rows: Rows, foreign: u64, host: bytes, local: u64, profile: bytes)
    requires ForeignToLocalKey(foreign, host) !in rows
    ensures var after := LoggedIn(rows, foreign, host, local, profile);
            && ForeignToLocal(after, foreign, host) == Some(local)
            && (host != [] ==> LocalToForeign(after, local) == Some((foreign, host)))
  {
    OwnKeysAreNotLinks(local, []);
    assert IsLink(ForeignToLocalKey(foreign, host));
    if host != [] {
      NewLink(rows, foreign, host, local, profile, local, foreign, host);
    }
  }
}
