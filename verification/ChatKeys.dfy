/**
 * The key layout of the chat tree (`src/db/mod.rs`, module `chat`).
 *
 * `ChatKey` names the row families whose keys start with a 64-bit id.
 * `Encode` is the family of builders, `Decode` reads a key back, and the two
 * are inverse to each other, so no two rows can share a key. Prefix scans and
 * prefix deletes are then characterised family by family.
 */
module ChatKeys {
  import opened Wrappers
  import opened Bytes

  datatype ChatKey =
    | Guild(g: u64)
    | Member(g: u64, user: u64)
    | Ban(g: u64, user: u64)
    | Role(g: u64, role: u64)
    | GuildPerm(g: u64, role: u64, matches: bytes)
    | UserRoles(g: u64, user: u64)
    | RoleOrder(g: u64)
    | ChannelOrder(g: u64)
    | GuildList(g: u64, guild: u64, host: bytes) // here the root id is a user
    | Channel(g: u64, c: u64)
    | Pins(g: u64, c: u64)
    | NextId(g: u64, c: u64)
    | ChannelPerm(g: u64, c: u64, role: u64, matches: bytes)
    | Message(g: u64, c: u64, m: u64)
    | Reaction(g: u64, c: u64, m: u64, user: u64, image: bytes)
  {
    predicate InChannel(guild: u64, channel: u64) {
      && (Channel? || Pins? || NextId? || ChannelPerm? || Message? || Reaction?)
      && g == guild
      && c == channel
    }
  }

  // ---- prefixes used by scans ----

  function GuildChanPrefix(g: u64): (s: bytes)
    ensures |s| == 9
  {
    Id(g) + [8]
  }

  function GuildMemPrefix(g: u64): (s: bytes)
    ensures |s| == 9
  {
    Id(g) + [9]
  }

  function ChanKey(g: u64, c: u64): (s: bytes)
    ensures |s| == 17
  {
    GuildChanPrefix(g) + Id(c)
  }

  function MsgPrefix(g: u64, c: u64): (s: bytes)
    ensures |s| == 18
  {
    ChanKey(g, c) + [9]
  }

  function MsgKey(g: u64, c: u64, m: u64): (s: bytes)
    ensures |s| == 26
  {
    MsgPrefix(g, c) + Id(m)
  }

  function GuildPermPrefix(g: u64, role: u64): (s: bytes)
    ensures |s| == 18
  {
    Id(g) + [5] + Id(role) + [9]
  }

  function ChannelPermPrefix(g: u64, c: u64, role: u64): (s: bytes)
    ensures |s| == 26
  {
    ChanKey(g, c) + [8] + Id(role)
  }

  function GuildListPrefix(user: u64): (s: bytes)
    ensures |s| == 10
  {
    Id(user) + [1, 2]
  }

  // ---- the codec ----

  function Encode(k: ChatKey): bytes {
    match k
    case Guild(g) => Id(g)
    case Member(g, user) => Id(g) + [9] + Id(user)
    case Ban(g, user) => Id(g) + [7] + Id(user)
    case Role(g, role) => Id(g) + [5] + Id(role)
    case GuildPerm(g, role, matches) => GuildPermPrefix(g, role) + matches
    case UserRoles(g, user) => Id(g) + [4] + Id(user)
    case RoleOrder(g) => Id(g) + [1, 3]
    case ChannelOrder(g) => Id(g) + [1, 1]
    case GuildList(user, guild, host) => GuildListPrefix(user) + Id(guild) + host
    case Channel(g, c) => ChanKey(g, c)
    case Pins(g, c) => ChanKey(g, c) + [6]
    case NextId(g, c) => ChanKey(g, c) + [7]
    case ChannelPerm(g, c, role, matches) => ChannelPermPrefix(g, c, role) + matches
    case Message(g, c, m) => MsgKey(g, c, m)
    case Reaction(g, c, m, user, image) => MsgKey(g, c, m) + [0] + Id(user) + image
  }

  function Decode(s: bytes): Option<ChatKey> {
    if |s| < 8 then None
    else if |s| == 8 then Some(Guild(ReadId(s)))
    else DecodeTagged(ReadId(s[..8]), s[8], s[9..])
  }

  function DecodeTagged(root: u64, tag: byte, rest: bytes): Option<ChatKey> {
    if tag == 8 && |rest| >= 8 then DecodeInChannel(root, ReadId(rest[..8]), rest[8..])
    else if tag == 9 && |rest| == 8 then Some(Member(root, ReadId(rest)))
    else if tag == 7 && |rest| == 8 then Some(Ban(root, ReadId(rest)))
    else if tag == 5 && |rest| == 8 then Some(Role(root, ReadId(rest)))
    else if tag == 5 && |rest| > 8 && rest[8] == 9 then Some(GuildPerm(root, ReadId(rest[..8]), rest[9..]))
    else if tag == 4 && |rest| == 8 then Some(UserRoles(root, ReadId(rest)))
    else if tag == 1 && rest == [3] then Some(RoleOrder(root))
    else if tag == 1 && rest == [1] then Some(ChannelOrder(root))
    else if tag == 1 && |rest| >= 9 && rest[0] == 2 then Some(GuildList(root, ReadId(rest[1..9]), rest[9..]))
    else None
  }

  function DecodeInChannel(g: u64, c: u64, rest: bytes): Option<ChatKey> {
    if rest == [] then Some(Channel(g, c))
    else if rest == [6] then Some(Pins(g, c))
    else if rest == [7] then Some(NextId(g, c))
    else if rest[0] == 8 && |rest| >= 9 then Some(ChannelPerm(g, c, ReadId(rest[1..9]), rest[9..]))
    else if rest[0] == 9 && |rest| == 9 then Some(Message(g, c, ReadId(rest[1..9])))
    else if rest[0] == 9 && |rest| >= 18 && rest[9] == 0 then
      Some(Reaction(g, c, ReadId(rest[1..9]), ReadId(rest[10..18]), rest[18..]))
    else None
  }

  lemma DecodeRooted(root: u64, tag: byte, rest: bytes)
    ensures Decode(Id(root) + [tag] + rest) == DecodeTagged(root, tag, rest)
  {
    var s := Id(root) + [tag] + rest;
    assert s[..8] == Id(root) && s[9..] == rest;
  }

  lemma DecodeChanKey(g: u64, c: u64, rest: bytes)
    ensures Decode(ChanKey(g, c) + rest) == DecodeInChannel(g, c, rest)
  {
    assert ChanKey(g, c) + rest == Id(g) + [8] + (Id(c) + rest);
    DecodeRooted(g, 8, Id(c) + rest);
    assert (Id(c) + rest)[..8] == Id(c) && (Id(c) + rest)[8..] == rest;
  }

  lemma DecodeEncodeChannelPerm(k: ChatKey)
    requires k.ChannelPerm?
    ensures Decode(Encode(k)) == Some(k)
  {
    var rest := [8] + Id(k.role) + k.matches;
    assert Encode(k) == ChanKey(k.g, k.c) + rest;
    DecodeChanKey(k.g, k.c, rest);
    assert rest[1..9] == Id(k.role) && rest[9..] == k.matches;
  }

  lemma DecodeEncodeMessage(k: ChatKey)
    requires k.Message?
    ensures Decode(Encode(k)) == Some(k)
  {
    var rest := [9] + Id(k.m);
    assert Encode(k) == ChanKey(k.g, k.c) + rest;
    DecodeChanKey(k.g, k.c, rest);
    assert rest[1..9] == Id(k.m);
  }

  lemma DecodeEncodeReaction(k: ChatKey)
    requires k.Reaction?
    ensures Decode(Encode(k)) == Some(k)
  {
    var tail := Id(k.user) + k.image;
    var rest := [9] + Id(k.m) + [0] + tail;
    assert Encode(k) == ChanKey(k.g, k.c) + rest;
    DecodeChanKey(k.g, k.c, rest);
    assert rest[1..9] == Id(k.m) && rest[10..] == tail;
    assert rest[10..18] == tail[..8] == Id(k.user);
    assert rest[18..] == tail[8..] == k.image;
  }

  lemma DecodeEncodeInChannel(k: ChatKey)
    requires k.Channel? || k.Pins? || k.NextId? || k.ChannelPerm? || k.Message? || k.Reaction?
    ensures Decode(Encode(k)) == Some(k)
  {
    match k
    case Channel(g, c) =>
      DecodeChanKey(g, c, []);
      assert ChanKey(g, c) + [] == Encode(k);
    case Pins(g, c) => DecodeChanKey(g, c, [6]);
    case NextId(g, c) => DecodeChanKey(g, c, [7]);
    case ChannelPerm(_, _, _, _) => DecodeEncodeChannelPerm(k);
    case Message(_, _, _) => DecodeEncodeMessage(k);
    case Reaction(_, _, _, _, _) => DecodeEncodeReaction(k);
  }

  /** The decoder undoes the builders ... */
  lemma DecodeEncode(k: ChatKey)
    ensures Decode(Encode(k)) == Some(k)
  {
    match k
    case Guild(_) =>
    case Member(g, user) => DecodeRooted(g, 9, Id(user));
    case Ban(g, user) => DecodeRooted(g, 7, Id(user));
    case Role(g, role) => DecodeRooted(g, 5, Id(role));
    case UserRoles(g, user) => DecodeRooted(g, 4, Id(user));
    case GuildPerm(g, role, matches) =>
      var rest := Id(role) + [9] + matches;
      assert Encode(k) == Id(g) + [5] + rest;
      DecodeRooted(g, 5, rest);
      assert rest[..8] == Id(role) && rest[9..] == matches;
    case RoleOrder(g) =>
      assert Encode(k) == Id(g) + [1] + [3];
      DecodeRooted(g, 1, [3]);
    case ChannelOrder(g) =>
      assert Encode(k) == Id(g) + [1] + [1];
      DecodeRooted(g, 1, [1]);
    case GuildList(user, guild, host) =>
      var rest := [2] + Id(guild) + host;
      assert Encode(k) == Id(user) + [1] + rest;
      DecodeRooted(user, 1, rest);
      assert rest[1..9] == Id(guild) && rest[9..] == host;
    case _ => DecodeEncodeInChannel(k);
  }

  /** ... and accepts nothing else: every decodable key is a built one. */
  lemma EncodeDecode(s: bytes)
    requires Decode(s).Some?
    ensures Encode(Decode(s).value) == s
  {
    if |s| == 8 {
      ReadIdInverse(s);
    } else {
      var rest := s[9..];
      ReadIdInverse(s[..8]);
      assert s == s[..8] + [s[8]] + rest;
      if s[8] == 8 {
        EncodeDecodeInChannel(s);
      } else if |rest| == 8 {
        ReadIdInverse(rest);
      } else if s[8] == 5 {
        ReadIdInverse(rest[..8]);
        assert s == s[..8] + [5] + rest[..8] + [9] + rest[9..];
      } else if |rest| >= 9 {
        ReadIdInverse(rest[1..9]);
        assert s == s[..8] + [1, 2] + rest[1..9] + rest[9..];
      } else {
        assert s == s[..8] + [1, rest[0]];
      }
    }
  }

  lemma EncodeDecodeInChannel(s: bytes)
    requires |s| > 8 && s[8] == 8 && Decode(s).Some?
    ensures Encode(Decode(s).value) == s
  {
    ReadIdInverse(s[..8]);
    ReadIdInverse(s[9..][..8]);
    var rest := s[9..][8..];
    var root := ChanKey(ReadId(s[..8]), ReadId(s[9..][..8]));
    assert s == root + rest;
    if |rest| <= 1 {
      assert root + [] == root;
    } else {
      ReadIdInverse(rest[1..9]);
      assert rest == [rest[0]] + rest[1..9] + rest[9..];
      if rest[0] == 9 && |rest| > 9 {
        ReadIdInverse(rest[10..18]);
        assert rest == [9] + rest[1..9] + [0] + rest[10..18] + rest[18..];
      }
    }
  }

  /** The builders are jointly injective: rows of any two families never collide. */
  lemma EncodeInjective(a: ChatKey, b: ChatKey)
    ensures Encode(a) == Encode(b) <==> a == b
  {
    DecodeEncode(a);
    DecodeEncode(b);
  }

  /** The layout on disk, byte by byte: where the tags are, how long a key is, and which ids stand where. */
  lemma KeyLayout(k: ChatKey)
    ensures var s := Encode(k);
            && |s| >= 8 && s[..8] == Id(k.g)
            && match k
               case Guild(_) => |s| == 8
               case Member(_, user) => |s| == 17 && s[8] == 9 && s[9..] == Id(user)
               case Ban(_, user) => |s| == 17 && s[8] == 7 && s[9..] == Id(user)
               case Role(_, role) => |s| == 17 && s[8] == 5 && s[9..] == Id(role)
               case GuildPerm(_, role, matches) =>
                 |s| >= 18 && s[8] == 5 && s[9..17] == Id(role) && s[17] == 9 && s[18..] == matches
               case UserRoles(_, user) => |s| == 17 && s[8] == 4 && s[9..] == Id(user)
               case RoleOrder(_) => |s| == 10 && s[8] == 1 && s[9] == 3
               case ChannelOrder(_) => |s| == 10 && s[8] == 1 && s[9] == 1
               case GuildList(_, guild, host) =>
                 |s| >= 18 && s[8] == 1 && s[9] == 2 && s[10..18] == Id(guild) && s[18..] == host
               case _ => |s| >= 17 && s[8] == 8 && s[9..17] == Id(k.c)
  {
  }

  /** And within a channel. */
  lemma ChannelKeyLayout(k: ChatKey)
    requires k.Channel? || k.Pins? || k.NextId? || k.ChannelPerm? || k.Message? || k.Reaction?
    ensures var s := Encode(k);
            match k
            case Channel(_, _) => |s| == 17
            case Pins(_, _) => |s| == 18 && s[17] == 6
            case NextId(_, _) => |s| == 18 && s[17] == 7
            case ChannelPerm(_, _, role, matches) => |s| >= 26 && s[17] == 8 && s[18..26] == Id(role) && s[26..] == matches
            case Message(_, _, m) => |s| == 26 && s[17] == 9 && s[18..] == Id(m)
            case Reaction(_, _, m, user, image) =>
              |s| >= 35 && s[17] == 9 && s[18..26] == Id(m) && s[26] == 0 && s[27..35] == Id(user) && s[35..] == image
            case _ => true
  {
  }

  // ---- what the prefixes cover ----

  /** A scan of `make_chan_key(g, c)` sees channel (g, c)'s rows and no others. */
  lemma ChanKeyCovers(g: u64, c: u64, k: ChatKey)
    ensures ChanKey(g, c) <= Encode(k) <==> k.InChannel(g, c)
  {
    var s := Encode(k);
    if ChanKey(g, c) <= s {
      DecodeEncode(k);
      var rest := s[17..];
      assert s == ChanKey(g, c) + rest;
      DecodeChanKey(g, c, rest);
    }
  }

  /** A scan of the eight id bytes sees every row rooted at that id: for a guild that is
      all its rows, and also the guild list of a user with the same number. */
  lemma RootCovers(g: u64, k: ChatKey)
    ensures Id(g) <= Encode(k) <==> k.g == g
  {
    var s := Encode(k);
    assert s[..8] == Id(k.g);
    if Id(g) <= s {
      assert s[..8] == Id(g);
    }
  }

  lemma MsgPrefixCovers(g: u64, c: u64, k: ChatKey)
    ensures MsgPrefix(g, c) <= Encode(k) <==> k.InChannel(g, c) && (k.Message? || k.Reaction?)
  {
    ChanKeyCovers(g, c, k);
    var s := Encode(k);
    if MsgPrefix(g, c) <= s {
      assert ChanKey(g, c) <= MsgPrefix(g, c) <= s;
      assert s[17] == 9;
    }
  }

  lemma GuildPermPrefixCovers(g: u64, role: u64, k: ChatKey)
    ensures GuildPermPrefix(g, role) <= Encode(k) <==> k.GuildPerm? && k.g == g && k.role == role
  {
    var s := Encode(k);
    if GuildPermPrefix(g, role) <= s {
      DecodeEncode(k);
      var rest := Id(role) + [9] + s[18..];
      assert s == Id(g) + [5] + rest;
      DecodeRooted(g, 5, rest);
      assert rest[..8] == Id(role);
    }
  }

  lemma ChannelPermPrefixCovers(g: u64, c: u64, role: u64, k: ChatKey)
    ensures ChannelPermPrefix(g, c, role) <= Encode(k)
       <==> k.ChannelPerm? && k.g == g && k.c == c && k.role == role
  {
    var s := Encode(k);
    if ChannelPermPrefix(g, c, role) <= s {
      DecodeEncode(k);
      var rest := [8] + Id(role) + s[26..];
      assert s == ChanKey(g, c) + rest;
      DecodeChanKey(g, c, rest);
      assert rest[1..9] == Id(role);
    }
  }

  /** A scan of `make_guild_mem_prefix(g)` sees the guild's member rows and no others. */
  lemma GuildMemPrefixCovers(g: u64, k: ChatKey)
    ensures GuildMemPrefix(g) <= Encode(k) <==> k.Member? && k.g == g
  {
    var s := Encode(k);
    if GuildMemPrefix(g) <= s {
      DecodeEncode(k);
      assert s == Id(g) + [9] + s[9..];
      DecodeRooted(g, 9, s[9..]);
    }
  }

  /** Message keys of one channel compare as their ids. */
  lemma MsgKeysInIdOrder(g: u64, c: u64, m: u64, n: u64)
    ensures Less(MsgKey(g, c, m), MsgKey(g, c, n)) <==> m < n
    ensures AtMost(MsgKey(g, c, m), MsgKey(g, c, n)) <==> m <= n
  {
    LessUnderPrefix(MsgPrefix(g, c), Id(m), Id(n));
    IdMonotone(m, n);
    if m != n {
      EncodeInjective(Message(g, c, m), Message(g, c, n));
    }
  }

  // ---- concat_static ----

  function Concatenated(parts: seq<bytes>): (s: bytes)
  {
    if |parts| == 0 then [] else Concatenated(parts[..|parts| - 1]) + parts[|parts| - 1]
  }

  lemma {:induction false} ConcatenatedLength(parts: seq<bytes>, n: nat)
    requires n <= |parts|
    ensures |Concatenated(parts[..n])| <= |Concatenated(parts)|
  {
    if n < |parts| {
      ConcatenatedLength(parts[..|parts| - 1], n);
      assert parts[..|parts| - 1][..n] == parts[..n];
    } else {
      assert parts[..n] == parts;
    }
  }

  /** Copies the parts one after the other into a fresh array of the stated length. */
  method ConcatStatic(parts: seq<bytes>, length: nat) returns (joined: array<byte>)
    requires |Concatenated(parts)| == length
    ensures fresh(joined) && joined[..] == Concatenated(parts)
  {
    joined := new byte[length](_ => 0);
    var index, padding := 0, 0;
    assert parts[..0] == [];
    while index < |parts|
      invariant 0 <= index <= |parts|
      invariant padding == |Concatenated(parts[..index])| <= length
      invariant joined[..padding] == Concatenated(parts[..index])
    {
      var part := parts[index];
      ConcatenatedLength(parts, index + 1);
      assert parts[..index + 1][..index] == parts[..index];
      forall i | 0 <= i < |part| {
        joined[padding + i] := part[i];
      }
      assert joined[..padding + |part|] == Concatenated(parts[..index]) + part;
      padding := padding + |part|;
      index := index + 1;
    }
    assert parts[..|parts|] == parts;
  }
}
