# Scherzo: a verified model

Scherzo is a chat homeserver. Most of its handlers are thin; what they lean on
is a handful of parts with real state, ordering and arithmetic. This project
models those parts and proves what the rest of the server relies on. A request
handler, a dispatched federation event, a pull or a poll is one atomic step.

* `Bytes`, `Store`, `ChatKeys`, `ChatStore` - the ordered key-value tree. Byte
  order, big-endian ids, the scan and range loops, batches, the key layout of
  the chat tree with a decoder that inverts the builders, and the typed view of
  the store that the other modules reason about.
* `Ordering`, `Channels`, `ChatTrees`, `ChannelListing` - ordering lists, the
  placeholder edit, the swap sort, and the channel requests over whole runs.
* `Messages`, `ChannelHistories`, `Walks` - message ids, the paging window, channels
  after many requests, and a client's walk back.
* `Permissions` - permission rows and the query over a user's roles.
* `Profiles` - the rows that tie local ids to foreign ones.
* `RateLimits` - one limiter as a clock-driven state machine, and many addresses.
* `Membership`, `GuildLists`, `ChatServers`, `Federation`, `Sync`, `SyncServers` -
  members, bans, invites and guild lists; what the handlers announce; dispatch queues, pushes with
  retries and pulls in a network of any number of servers.
* `AuthFlow`, `AuthSessions` - the authentication dialogue and its step stacks.
* `Media` - the file format of uploads and the download stream.

Where the source works on mutable state, a class has the same fields and its
methods are proved equal to a specification function; the properties are then
proved about that function. The channel, guild and moderation handlers run on the
byte-level trees, and what they do to members, bans, guild lists and orderings is
read back through the key codec. A panic or an unchecked read either has no
result in the model, with the exact condition under which it happens, or it is
excluded by an invariant that every run of the requests concerned keeps. Release
arithmetic wraps around (`overflow-checks = false`, Cargo.toml:159), and so does
the model.

For each request there is also a statement of what it leaves behind that does not
mention the function it is specified by: who is a member or banned, where a channel
is listed, which messages a page holds, who is rate limited, what a form needs to
be accepted.

Several properties one would expect are false of the code. For each there is an
exact condition, and an input at which it fails:

* A moved list entry lands where it was sent unless the list holds a 0 before
  the target: 0 is both the placeholder of the edit and the default role
  (`Ordering.MoveIsExactIff`, `Ordering.MoveOfZeroIsExactIff`; at
  `Ordering.RoleMoveMisplaces`).
* Listing a guild's channels panics unless the channels hidden from the user
  are the last ones of the ordering (`ChannelListing.SwapInBoundsIff`; at
  `ChannelListing.HiddenFirstPanics`).
* Reordering all channels accepts a list that names a channel twice, spoils the
  ordering row (`Channels.ReorderKeepsIff`), and makes the next listing panic
  (`ChannelListing.ReorderPanicsIff`; at `ChannelListing.DuplicateReorderPanics`).
* Paging panics when a reaction row lies inside the window (`Messages.ReadRange`,
  `Messages.OddKeysAreReactions`; at `Walks.ReactionPanics`), and its flags are set
  less often than they could be (`Messages.FlagsSetIff`; at
  `Walks.NewestPageDeniesBottom`).
* A client that pages back runs into that panic when a window it comes to holds a
  reaction (`Walks.WalkPanicsIff`; without gaps, when a reacted message is not the
  newest of its page, `Walks.DenseWalkPanicsIff`; at `Walks.ReactedWalkPanics`),
  and it stops above a gap wider than a page (`Walks.WalkDeliversAllIff`; at
  `Walks.GapStopsWalk`).
* A rejected caller is told whole seconds, so waiting as long as it was told is
  enough only for waits of whole seconds (`RateLimits.ToldWaitSufficesIff`; at
  `RateLimits.ToldWaitFallsShort`).
* A join writes the member row before it gives the default role; when that role
  is gone the user is a member, but the invite is not counted and the user's
  server is not told (`Membership.AdmissionsAreCountedIff`,
  `Federation.JoinAnnouncedIff`; at `Membership.InviteLimitNeedsRole`,
  `Federation.UnannouncedJoin`).
* A local user's guild list says which guilds it is in unless a request spoils it
  (`GuildLists.ListsKeptIff`): deleting a guild edits the caller's list once per
  local member
  (`GuildLists.DeletionClearsListsIff`; at `GuildLists.DeletedGuildStaysListed`).
* A federated login does not check that the id it draws is unused
  (`Profiles.LoginKeepsPairedIff`; at `Profiles.ReusedIdIsTakenOver`), and with an
  empty host name the two key families of the links overlap
  (`Profiles.LinkKeysCollideIff`; at `Profiles.LinkKeysCanCollide`).
* The servers agree on a guild list after every step exactly when each request
  tells everybody concerned and each lost answer is dispensable
  (`Sync.RunAgreesIff`), and that a list can be brought
  up to date is another matter. The dispatch task pushes directly only when it
  finds an empty queue row, and such rows are written only by pushes, so from empty
  stores every event waits for a pull, and a server pulls only from hosts it has a
  row for (`Sync.EventsAlwaysQueue`, `Sync.DeliverableIff`; at
  `Sync.QueuedEventIsStuck`). The push retries suggest that it was meant otherwise;
  the model follows the code.
* A pull whose answer is lost loses events (`Sync.LostPullAgreesIff`; at
  `Sync.LostPullLoses`).
* Registration by invitation validates the token before it looks at the other
  fields, so a form can lose a valid token, and a form without its last field has
  the password tried as one (`AuthFlow.TokenLostIff`,
  `AuthFlow.ShortFormTriesPasswordIff`).

## Model

| member | source | states |
|---|---|---|
| Bytes.NumberRoundTrip | src/db/mod.rs:400-402 | reading big-endian digits gives back every number that fits the width |
| Bytes.DigitsRoundTrip | src/db/mod.rs:400-402 | writing the number that was read gives back the very bytes |
| Bytes.IdMonotone | src/db/mod.rs:256-265 | ids compare in the store exactly as numbers |
| Bytes.PrefixConvex | src/db/sqlite.rs:181-214 | keys with a common prefix form an interval of the byte order |
| Bytes.LessUnderPrefix | src/db/mod.rs:256-265 | a common prefix does not affect the order, in both directions |
| Bytes.IdsRoundTrip | src/impls/chat/mod.rs:835-854 | decoding an encoded id list is the identity |
| Bytes.IdsReencode | src/db/mod.rs:116-118 | decoding drops exactly the ragged tail, nothing else |
| Store.ListingIsUnique | src/db/sqlite.rs:160-179 | a set of rows has one ascending listing, so a loop that lists the right rows lists them as the query does |
| Store.AppliedLookup | src/db/sqlite.rs:137-158 | after a batch every key holds its last update, or its old value if it has none |
| Store.RemovePrefix | src/db/mod.rs:387-398 | removing every scanned key deletes exactly the keys under the prefix |
| Store.ScanStops | src/db/sqlite.rs:181-214 | stopping at the first key without the prefix misses nothing |
| Store.RangeStops | src/db/sqlite.rs:216-252 | stopping at the first key past the end misses nothing |
| Store.Tree.ScanPrefix | src/db/sqlite.rs:181-214 | returns the ascending listing of exactly the rows under the prefix |
| Store.Tree.Range | src/db/sqlite.rs:216-252 | returns the ascending listing of exactly the rows with start <= key <= end |
| Store.Tree.ApplyBatch | src/db/sqlite.rs:137-158 | the new rows are the batch applied in order |
| Store.Tree.DeletePrefix | src/db/mod.rs:387-398 | leaves exactly the rows outside the prefix |
| ChatKeys.DecodeEncode | src/db/mod.rs:192-347 | the decoder inverts the builders of all fifteen families rooted at an id |
| ChatKeys.EncodeDecode | src/db/mod.rs:192-347 | every decodable key is a built one |
| ChatKeys.EncodeInjective | src/db/mod.rs:192-347 | rows of any two families never share a key |
| ChatKeys.KeyLayout | src/db/mod.rs:192-347 | where the root id, the tags and the further ids of a key stand, and how long it is |
| ChatKeys.ChannelKeyLayout | src/db/mod.rs:226-286 | the same for the keys inside a channel |
| ChatKeys.ChanKeyCovers | src/db/mod.rs:345-347 | a channel's key is a prefix of exactly that channel's keys |
| ChatKeys.RootCovers | src/impls/chat/guilds/delete_guild.rs:20-26 | a guild's id is a prefix of exactly the keys rooted at that number, the guild list of an equal user id included |
| ChatKeys.MsgPrefixCovers | src/db/mod.rs:256-258 | the message prefix covers the channel's messages and their reactions, nothing else |
| ChatKeys.GuildPermPrefixCovers | src/db/mod.rs:213-219 | the role prefix covers exactly the role's guild permission rows |
| ChatKeys.ChannelPermPrefixCovers | src/db/mod.rs:244-254 | the role prefix covers exactly the role's rows of that channel |
| ChatKeys.GuildMemPrefixCovers | src/db/mod.rs:302-304 | the member prefix covers exactly the guild's member rows |
| ChatKeys.MsgKeysInIdOrder | src/db/mod.rs:260-265 | message keys of a channel compare as their ids |
| ChatKeys.ConcatStatic | src/db/mod.rs:443-477 | the two index loops fill the array with the parts one after the other |
| ChatStore.ViewInsert | src/impls/chat/mod.rs:1490-1526 | writing a built key changes the typed store at that key only |
| ChatStore.ViewDropChannel | src/impls/chat/channels/delete_channel.rs:29-54 | deleting under a channel's key removes that channel's rows and no others |
| ChatStore.ViewOfRows | src/db/mod.rs:192-347 | every typed store is the view of the rows its built keys make, and those hold no other keys |
| ChatStore.ViewDropRoot | src/impls/chat/guilds/delete_guild.rs:20-36 | deleting under a guild's id removes every row rooted at that number and no others |
| Ordering.PlaceholderFound | src/impls/chat/mod.rs:889-900 | the unchecked unwrap is defined iff the id is not 0 or the list already holds 0 |
| Ordering.MoveKeepsMultiset | src/impls/chat/mod.rs:889-900 | a move loses and duplicates nothing, in any list, and adds the id if it was missing |
| Ordering.MoveIsExactIff | src/impls/chat/mod.rs:889-900 | the edit equals the intended placement iff no 0 is listed before the target |
| Ordering.MoveOfZeroIsExactIff | src/impls/chat/mod.rs:889-900 | moving 0 itself works iff it does not move towards the front |
| Ordering.RoleMoveMisplaces | src/impls/chat/mod.rs:889-900 | with roles 0, a and b, moving b before a gives b, 0, a instead of 0, b, a |
| Ordering.MoveCorrect | src/impls/chat/mod.rs:881-925 | next to a distinct listed anchor: the id is adjacent on the asked side, the rest keeps its order |
| Ordering.MoveNextToItself | src/impls/chat/mod.rs:881-925 | a position next to itself leaves the list as it was |
| Ordering.ReorderedKeepsDistinct | src/impls/chat/mod.rs:881-925 | every request keeps a channel list duplicate-free with the expected members |
| Ordering.SwapStaysInBoundsIff | src/impls/chat/mod.rs:819-829 | the swap loop stays in bounds iff the visible ids are the first ones of the ordering |
| Ordering.SortBySwaps | src/impls/chat/mod.rs:819-829 | in place: panics iff a listed channel stands past the end, keeps the multiset, and sorts by the ordering |
| Channels.ReorderKeepsIff | src/impls/chat/channels/update_all_channel_order.rs:21-45 | an accepted reorder keeps the store consistent iff it names no channel twice |
| Channels.SendKeepsIff | src/impls/chat/mod.rs:1461-1472 | sending keeps the store consistent iff the id counter does not wrap |
| Channels.MovePlaces | src/impls/chat/channels/update_channel_order.rs:17-33 | in a consistent store a moved channel ends up on the asked side of the other channel and the rest keeps its order; beside itself or an unknown channel nothing changes |
| Channels.CreatePlaces | src/impls/chat/mod.rs:1165-1208 | a new channel is stored as given, counts its messages from 1, and is listed where asked, or else last |
| Channels.DeleteDrops | src/impls/chat/channels/delete_channel.rs:29-54 | no row of a deleted channel remains, and the others keep their order |
| Channels.ReorderSets | src/impls/chat/channels/update_all_channel_order.rs:21-45 | an accepted reorder stores the list it was given |
| Channels.SendStores | src/impls/chat/mod.rs:1461-1526 | a sent message is stored as given under the next id, which no stored message has; no other message changes |
| Channels.OtherRowsKept | src/impls/chat/mod.rs:1165-1208 | a request changes no row but its own |
| Channels.StepNeverCrashes | src/impls/chat/mod.rs:881-925 | no request reaches an unchecked unwrap or a missing counter if every stored channel has a non-zero id and a counter |
| Channels.StepKeepsServiceable | src/impls/chat/mod.rs:1165-1208 | every request, well formed or not, keeps that |
| Channels.NoRunCrashes | src/impls/chat/mod.rs:1461-1488 | from an empty store no run of any of the writing requests crashes, nor does any of them after it; listing and paging, which can panic, are `ChannelListing` and `Messages` |
| Ordering.ReorderedKeepsZero | src/impls/chat/mod.rs:881-925 | no request loses the default role from an ordering |
| Ordering.NoRoleRunCrashes | src/impls/chat/mod.rs:856-864 | from a guild's creation on, no run of role requests reaches the unchecked unwrap without a placeholder, nor does any request after it |
| Channels.StepKeepsIff | src/impls/chat/mod.rs:1165-1208 | a request keeps the store consistent iff it is refused or well formed |
| Channels.RunsStayConsistent | src/impls/chat/mod.rs:1165-1208 | every run of well-formed requests keeps the store consistent |
| Channels.ChannelsOverRuns | src/impls/chat/mod.rs:1165-1208 | over runs without a duplicate-naming reorder or a wrapped counter: the ordering row is a duplicate-free list of exactly the channels, each with a counter |
| ChatTrees.ChatTree.UpdateOrder | src/impls/chat/mod.rs:881-925 | rewrites one ordering row to the reordered list and nothing else |
| ChatTrees.ChatTree.CreateChannel | src/impls/chat/channels/create_channel.rs:28-40 | on any store, is one step of the channel model, refused exactly on a bad position; in a consistent store the channel is listed where asked, or else last |
| ChatTrees.ChatTree.DeleteChannel | src/impls/chat/channels/delete_channel.rs:29-54 | on any store, leaves, byte for byte, all rows outside the channel and the rewritten ordering row |
| ChatTrees.ChatTree.MoveChannel | src/impls/chat/channels/update_channel_order.rs:17-33 | is one step of the channel model on every store a run can lead to; in a consistent store the channel ends up on the asked side of the other one and the rest keeps its order |
| ChatTrees.ChatTree.UpdateAllChannelOrder | src/impls/chat/channels/update_all_channel_order.rs:21-45 | on any store, accepts exactly lists of the stored channels; a consistent store stays so iff refused or duplicate-free |
| ChatTrees.ChatTree.GetNextMessageId | src/impls/chat/mod.rs:1461-1472 | returns the stored counter and stores its wrapping successor |
| ChatTrees.ChatTree.SendMessage | src/impls/chat/mod.rs:1490-1526 | stores the message under the counter on every store a run can lead to; on a consistent one under an id no stored message has |
| ChatTrees.ChannelIdsExact | src/impls/chat/channels/update_all_channel_order.rs:25-35 | the length-filtered scan collects exactly the guild's channel ids |
| ChannelListing.VisibleExact | src/impls/chat/mod.rs:781-817 | the scan keeps exactly the channels the user may see, once each, with their stored values |
| ChannelListing.ChecksFailIff | src/impls/chat/mod.rs:781-817 | the listing fails iff the check of some channel of the guild fails for another reason than a missing permission |
| ChannelListing.SwapInBoundsIff | src/impls/chat/mod.rs:819-829 | in a consistent store the listing works iff no visible channel is ordered after a hidden one |
| ChannelListing.HiddenFirstPanics | src/impls/chat/mod.rs:825-828 | two channels created, the first hidden: the listing of the second panics |
| ChannelListing.ReorderPanicsIff | src/impls/chat/channels/update_all_channel_order.rs:21-45 | after an accepted reorder the listing for a user who sees every channel panics iff the request named a channel twice |
| ChannelListing.DuplicateReorderPanics | src/impls/chat/channels/update_all_channel_order.rs:21-45 | naming the only channel twice is accepted, spoils the ordering row and makes the listing panic |
| ChannelListing.SortedShowsExactly | src/impls/chat/mod.rs:819-832 | sorting loses no visible channel and adds none |
| ChannelListing.GetGuildChannels | src/impls/chat/mod.rs:781-832 | on any store, fails iff a permission check fails, panics iff the swap leaves the bounds, else permutes the visible channels; on a consistent store the panic is the hidden-channel case and the result is in the stored order |
| Messages.RangeCovers | src/impls/chat/mod.rs:969-975 | a byte range between two message keys holds the messages with ids in [from, to] and the reactions with ids in [from, to) |
| Messages.RangeIsMessageRows | src/impls/chat/mod.rs:969-975 | unless the range holds a key of another length, its scan lists the window's messages in id order |
| Messages.ReadRange | src/impls/chat/mod.rs:969-988 | on any store, reading fails iff such a key lies inside the window, else gives the window newest first |
| Messages.OddKeysAreReactions | src/impls/chat/mod.rs:979-981 | where only built keys are stored under the message prefix, those keys are the reaction rows with an id in [from, to) |
| Messages.GetChannelMessages | src/impls/chat/mod.rs:927-995 | on any store: panics iff the counter row is missing or malformed or such a key lies inside, else returns the specified page, which holds exactly the stored messages that were asked for |
| Messages.PageIsWhatWasAsked | src/impls/chat/mod.rs:950-988 | a page holds exactly the stored messages before, after or on both sides of the one in front of the cursor, as many as asked for; 25 by default, or 12 on each side; without a cursor counted from the newest |
| Messages.PageExact | src/impls/chat/mod.rs:927-995 | a page is exactly the stored messages of its window, strictly descending, within its limit; a set flag means that nothing is stored beyond |
| Messages.FlagsSetIff | src/impls/chat/mod.rs:990-994 | the exact condition for each flag in terms of pivot, count, counter and direction |
| Messages.MessagesDownExact | src/impls/chat/mod.rs:972-988 | the window's message list has every stored message of the window and no other |
| ChannelHistories.SendsHold | src/impls/chat/mod.rs:1490-1526 | creating a channel and sending n messages leads to the channel with the ids 1 to n |
| ChannelHistories.DeletionsHold | src/impls/chat/mod.rs:1461-1526 | deleting messages 2 to k of them leads to the channel without those |
| Walks.WalkPanicsIff | src/impls/chat/mod.rs:950-981 | on any rows a client that pages back by the smallest id received runs into a panic iff a window it comes to holds a key of another length, and else receives what the stored messages alone say |
| Walks.WalkPanicsOnReactionIff | src/impls/chat/mod.rs:969-981 | where only built keys are stored, iff such a window holds a reaction below its upper end |
| Walks.DenseWalkPanicsIff | src/impls/chat/mod.rs:950-981 | without gaps, iff some message below the pivot has a reaction and its distance from the pivot is no multiple of the page size |
| Walks.ReactionPanics | src/impls/chat/mod.rs:974-981 | in a channel reached by requests whose last message but one has a reaction, asking for the newest page panics |
| Walks.ReactedWalkPanics | src/impls/chat/mod.rs:950-981 | the walk through that channel panics, though every message is within reach |
| Walks.NewestPageDeniesBottom | src/impls/chat/mod.rs:990-994 | after a channel was created and one message sent, the newest page holds it and still leaves the bottom flag unset |
| Walks.WalkHasNoHoles | src/impls/chat/mod.rs:950-967 | a walk that finishes has delivered every message above the last window's start, once, newest first, whatever was deleted |
| Walks.WalkDeliversAllIff | src/impls/chat/mod.rs:950-994 | the walk finishes and delivers every message iff none lies below a gap wider than a page and no window it comes to holds a key of another length |
| Walks.GapStopsWalk | src/impls/chat/mod.rs:950-994 | for every page size that leaves the counter room: a channel reached by requests whose walk finishes without the first message |
| Walks.DenseWalk | src/impls/chat/mod.rs:950-994 | with all ids present, a walk that finishes delivers everything, stops at the top, in exactly the rounded-up number of pages |
| Walks.PagesForIsCeiling | src/impls/chat/mod.rs:950-994 | the page count is the least number of pages that hold the messages |
| Permissions.GrantedFlags | src/impls/chat/mod.rs:1142-1163 | a grant overrides its own guild/channel/role left to right and leaves every other combination alone |
| Permissions.GrantedElsewhere | src/impls/chat/mod.rs:1142-1163 | a grant touches no row of another family or scope |
| Permissions.PermListExact | src/impls/chat/mod.rs:1391-1426 | what is read is exactly the scope's flags, once each, in byte order, whatever else is stored |
| Permissions.SetThenGet | src/impls/chat/mod.rs:1142-1163 | reading any scope after a write gives its old flags overridden by the request |
| Permissions.SetPermissions | src/impls/chat/mod.rs:1142-1163 | the written batch is the grant on the typed store |
| Permissions.GetPermissions | src/impls/chat/mod.rs:1391-1426 | on any store: panics iff a value of the scope is empty, else returns the scope's permission list |
| Permissions.QueriedIff | src/impls/chat/mod.rs:1014-1047 | a query panics iff it comes to an unreadable scope, and grants iff it comes to a granting one, in the order it asks |
| Permissions.ChannelComesFirst | src/impls/chat/mod.rs:1014-1047 | the flags of the channel are asked first, of every role in order, and those of the guild only if none of them grants or panics |
| Permissions.AskedGrants | src/impls/chat/mod.rs:1014-1047 | where every scope can be read the order does not matter: true iff some role of the user is granted the permission at channel or guild level |
| Permissions.QueryHasPermission | src/impls/chat/mod.rs:1014-1047 | on any store: asks the user's roles at channel level, then at guild level, and ends at the first grant or panic |
| Permissions.QueriesAreDefined | src/impls/chat/mod.rs:1391-1426 | no query panics on a store whose permission values are non-empty |
| Profiles.LinkKeysCollideIff | src/db/mod.rs:126-138 | the two link families share a key iff the host is empty and the ids line up around the tag byte |
| Profiles.LinkKeysCanCollide | src/db/mod.rs:126-138 | such ids exist |
| Profiles.LoginKeepsPairedIff | src/impls/auth/login_federated.rs:27-66 | a login from any host keeps the two lookups inverse iff it draws no id or one linked to no named host |
| Profiles.ReusedIdIsTakenOver | src/impls/auth/login_federated.rs:35-47 | two logins that draw the same id: the first account still resolves to the id the second now owns |
| Profiles.IdsAreBijective | src/impls/profile/mod.rs:145-168 | over all runs of such logins and profile writes, for every named host, foreign to local is l iff local to foreign is (f, h) |
| Profiles.ProfilesChange | src/impls/auth/login_federated.rs:35-66 | whose profile row a request writes, and with what: a new account gets the profile it logged in with |
| Profiles.MetadataChange | src/impls/profile/set_app_data.rs:10-14 | metadata is written for one user and app, and deleted for all apps of one user |
| Profiles.ProfileTree.LoginFederated | src/impls/auth/login_federated.rs:27-66 | on any tree, writes the two links in one batch and returns the linked id, or panics iff the account's row is no id; paired lookups stay so iff the drawn id was not needed or unlinked |
| RateLimits.SlidingWindow | src/utils/http_ratelimit.rs:140-181 | any half-open window of one period admits at most max(num + 1, 2 num - 1) requests, and at most num + 1 when a period is one tick |
| RateLimits.SlidingWindowIsTight | src/utils/http_ratelimit.rs:140-181 | for every rate some calls reach that bound |
| RateLimits.PeriodsBound | src/utils/http_ratelimit.rs:140-181 | from any state at most its credit plus num + 1 per further period are admitted |
| RateLimits.LongRun | src/utils/http_ratelimit.rs:36-43 | a fresh limiter admits fewer than k (num + 1) calls in the k periods after its first call |
| RateLimits.RejectionEndsOnTime | src/utils/http_ratelimit.rs:163-180 | after a rejection with remaining wait d, a call is admitted iff it comes d or more later, however many rejections lie between |
| RateLimits.ToldWaitSufficesIff | src/utils/http_ratelimit.rs:218-221 | a caller that waits as long as it was told is admitted iff the wait is a whole number of seconds below 2^32 |
| RateLimits.ToldWaitFallsShort | src/utils/http_ratelimit.rs:218-221 | with a period of one and a half seconds, coming back after the one second told is rejected |
| RateLimits.PerKeyRefinement | src/utils/http_ratelimit.rs:125-138 | projected to one key, a run over any mix of addresses is a run of that key's own limiter |
| RateLimits.ServerSlidingWindow | src/utils/http_ratelimit.rs:125-181 | no address beats the window bound however requests interleave |
| RateLimits.AddressSlidingWindow | src/utils/http_ratelimit.rs:86-131 | whatever else its requests say, an address that is not on the allow list beats no window bound: without an allow list that is every address, and the header counts only where the server looks at it |
| RateLimits.KeyOfRequest | src/utils/http_ratelimit.rs:92-109 | a request is counted under the address in its header where the server looks there, else under its peer address |
| RateLimits.ServedIsSane | src/utils/http_ratelimit.rs:125-181 | every limiter of a server stays in a state the bounds hold for, over every run |
| RateLimits.AllowedAreFree | src/utils/http_ratelimit.rs:86-90 | an allow-listed address is never rejected and leaves no state |
| RateLimits.RateLimit.Call | src/utils/http_ratelimit.rs:125-181 | the in-place state update is one step of the server model |
| Membership.HandleKeepsSound | src/impls/chat/guilds/join_guild.rs:14-67 | no handler makes a user member and banned, keeps a used-up invite, or links an account twice |
| Membership.NeverMemberAndBanned | src/impls/chat/moderation/ban_user.rs:20-33 | over every run, from an empty server |
| Membership.SucceedsIff | src/impls/chat/guilds/leave_guild.rs:13-24 | a request succeeds iff it is allowed, and a refused one changes nothing, but for a join whose role is missing |
| Membership.RefusalReasons | src/impls/chat/moderation/ban_user.rs:15-26 | which check refuses whom: owners cannot leave, nobody can ban itself, banned users cannot join |
| Membership.BansChange | src/impls/chat/moderation/ban_user.rs:28-33 | after a request a user is banned iff the request banned it, or it was and neither an unban of it nor the guild's deletion succeeded |
| Membership.MembersChange | src/impls/chat/moderation/kick_user.rs:26-39 | who is a member after a request: joins and creations add, leaving, kicks, bans and the deletion remove, and nothing else does |
| Membership.GuildsChange | src/impls/chat/mod.rs:1210-1240 | which guilds there are after a request, and who owns them |
| Membership.DefaultRolesChange | src/impls/chat/permissions/delete_guild_role.rs:13-23 | which guilds hold their default role after a request |
| Membership.InvitesChange | src/impls/chat/guilds/join_guild.rs:40-67 | which invites there are after a request, and how often they were used; a deleted guild leaves its own behind |
| Membership.LinksChange | src/impls/auth/login_federated.rs:27-66 | only the login of an unknown account changes a link |
| Membership.BannedByHistory | src/impls/chat/moderation/unban_user.rs:16-23 | over any run a user is banned iff the last successful ban, unban or deletion of the guild says so |
| Membership.BannedStaysOut | src/impls/chat/guilds/join_guild.rs:20-30 | after a ban, and until it is lifted, the user is no member and every invite of the guild refuses it as banned |
| Membership.InviteLimit | src/impls/chat/guilds/join_guild.rs:30-67 | an invite with a limit gives at most its remaining uses of successful joins over its lifetime |
| Membership.InviteCounts | src/impls/chat/guilds/join_guild.rs:40-67 | the stored count is the number of successful joins so far, modulo 2^32 for an unlimited invite |
| Membership.AdmissionIsCountedIff | src/impls/chat/guilds/join_guild.rs:36-40 | the member row is always written, the use is counted iff the default role is stored |
| Membership.AdmissionsAreCountedIff | src/impls/chat/guilds/join_guild.rs:36-40 | over any run, the members written through an invite are the joins counted iff the default role was stored at each admission |
| Membership.InviteAdmitsAtMost | src/impls/chat/guilds/join_guild.rs:30-67 | in that case the limit holds for the members written, too |
| Membership.InviteLimitNeedsRole | src/impls/chat/guilds/join_guild.rs:36-40 | from an empty server: create a guild and a single-use invite, delete the default role, and two users get in |
| Federation.ReplayPointwise | src/impls/sync/mod.rs:239-259 | after any events, a listed pair is what its last event says, or what it was |
| Federation.HandlerAnnouncesIff | src/impls/chat/mod.rs:350-404 | for every handler and host, replaying the emitted events on the old membership gives the new one iff a condition visible beforehand holds |
| Federation.CreationAnnouncedIff | src/impls/chat/guilds/create_guild.rs:23-37 | a creation is announced rightly iff it is not by a user 0 linked to that host, or user 0 has a member row already; the ids drawn for linked users are never 0 |
| Federation.LoginAnnouncedIff | src/impls/auth/login_federated.rs:27-66 | a login needs no announcement iff it relinks no member of the hosts concerned |
| Federation.DeletionAnnounced | src/impls/chat/guilds/delete_guild.rs:45-62 | the notification loop of a deletion removes exactly that guild's members of the host |
| Federation.JoinAnnouncedIff | src/impls/chat/guilds/join_guild.rs:36-57 | a join is announced to a host iff the user is not from there or the default role is stored |
| Federation.UnannouncedJoin | src/impls/chat/guilds/join_guild.rs:36-40 | from an empty server: a user of another server becomes a member and its server is never told |
| Federation.DeletionKeepsListedIff | src/impls/chat/guilds/delete_guild.rs:20-36 | deleting a guild leaves what a host told about its lists alone iff the guild's number is no listed user's |
| Federation.HandlerListed | src/impls/chat/mod.rs:1335-1367 | a server's own requests leave what other hosts told it alone, but for the entries a deletion drops because their user has the guild's number |
| Sync.PushReaches | src/impls/sync/mod.rs:119-139 | however many attempts got through, the peer's list is unchanged or has the event once, and has it if one was answered |
| Sync.PushSucceedsIff | src/impls/sync/mod.rs:119-139 | a push succeeds iff the peer deals with the sender and some attempt is answered; the event has its effect iff any attempt arrives at such a peer |
| Sync.DealsWithIff | src/config.rs:186-194 | a server pushes to, and answers, exactly the hosts on its allow list, or all but those on its block list if the allow list is empty |
| Sync.DispatchOutcome | src/impls/sync/mod.rs:103-152 | a dispatched event is queued last, or pushed without a row left behind, or the only one queued after a failed push |
| Sync.PullTakesAll | src/impls/sync/mod.rs:78-98 | a pull takes the whole queue and its row away and applies it in order, if it is answered; nothing else changes |
| Sync.DispatchKeepsAgree | src/impls/sync/mod.rs:103-152 | queued or pushed, retried or lost: pending events still lead from the receiver's list to the membership |
| Sync.AnnouncedAgreesIff | src/impls/sync/mod.rs:239-292 | a request keeps the agreement with a receiver iff it announces to it |
| Sync.DroppedAgreesIff | src/impls/chat/guilds/delete_guild.rs:20-36 | dropped list entries keep the agreement iff pending events decide every one of them |
| Sync.RequestKeepsIff | src/impls/chat/mod.rs:350-404 | a request keeps all pairs of servers in agreement iff it tells everybody concerned |
| Sync.UnansweredKeepsIff | src/impls/sync/mod.rs:78-98 | a pull whose answer is lost keeps the agreement between all pairs of servers iff the events it carried are dispensable, or one of the two servers refuses the other |
| Sync.StepKeepsAgreementIff | src/impls/sync/mod.rs:62-154 | dispatches and answered pulls always keep the agreement between all pairs of servers, requests exactly when they tell everybody concerned, lost answers exactly when their events are dispensable |
| Sync.RunKeepsAgreement | src/impls/sync/mod.rs:62-154 | a run of such steps keeps it |
| Sync.RunAgreesIff | src/impls/sync/mod.rs:62-154 | a run keeps it in all its states iff each of its requests tells everybody concerned and each lost answer is dispensable |
| Sync.Convergence | src/impls/sync/mod.rs:62-154 | from empty stores, after every such run in every network: pending events lead from the receiver's list to the sender's members, and with nothing pending the two are equal |
| Sync.DispatchContactsIff | src/impls/sync/mod.rs:103-139 | a dispatch can change the peer at all iff it finds the empty queue row of an allowed host |
| Sync.DispatchOnlyQueues | src/impls/sync/mod.rs:105-117 | without empty queue rows a dispatch contacts nobody and creates no such row |
| Sync.EventsAlwaysQueue | src/impls/sync/mod.rs:105-117 | in any run from empty stores no dispatch changes any other server, and no empty queue row appears |
| Sync.OneWayNeverDelivers | src/impls/sync/mod.rs:63-98 | over runs with any requests: a server with nothing to send to a host never learns of its own users' guilds there |
| Sync.DeliverableIff | src/impls/sync/mod.rs:62-154 | dispatches and pulls, answered or not, can bring a list up to date iff it is already, or both servers allow each other and the receiver has a queue row for the sender or an event to send to it |
| Sync.CanPullDelivers | src/impls/sync/mod.rs:62-154 | in the latter case some run of dispatches and a pull makes the two equal |
| Sync.StuckForever | src/impls/sync/mod.rs:63-98 | otherwise no run of dispatches and pulls, answered or not, changes the list |
| Sync.QueuedEventIsStuck | src/impls/sync/mod.rs:63-117 | from empty stores, two servers that allow each other: a queued event that no dispatch or pull ever delivers |
| Sync.LostPullAgreesIff | src/impls/sync/mod.rs:261-276 | a lost pull answer keeps agreement iff later events decide, or the receiver already lists, every pair it carried |
| Sync.LostPullLoses | src/impls/sync/mod.rs:261-276 | from empty stores, a lost pull answer after which the lists disagree with nothing pending |
| SyncServers.SyncServer.HandlePush | src/impls/sync/push.rs:3-26 | refuses unknown hosts, writes the empty queue row, applies the event |
| SyncServers.SyncServer.HandlePull | src/impls/sync/pull.rs:3-10 | hands out the whole queue and removes its row |
| SyncServers.SyncServer.PushWithRetries | src/impls/sync/mod.rs:119-137 | the retry loop stops at the first answered attempt of six |
| SyncServers.SyncServer.DispatchTo | src/impls/sync/mod.rs:104-150 | the loop body is the dispatch function of the model, for both servers |
| SyncServers.SyncServer.DispatchNext | src/impls/sync/mod.rs:103-152 | takes the oldest event off the channel and dispatches it |
| SyncServers.SyncServer.PullInVain | src/impls/sync/mod.rs:78-98 | a pull whose answer is lost empties the peer's queue and nothing else |
| SyncServers.SyncServer.PullFrom | src/impls/sync/mod.rs:78-98 | applies the pulled queue in order, or changes neither server |
| ChatServers.PutRow | src/db/mod.rs:287-347 | writing one row changes exactly the member, ban, list, role or guild it stands for |
| ChatServers.DropRootRows | src/impls/chat/guilds/delete_guild.rs:20-36 | dropping every row under a guild's id is the deletion of the membership model, the guild list of an equal user id included |
| ChatServers.MemberScan | src/impls/chat/mod.rs:763-779 | the member scan returns the guild's member ids in ascending order |
| ChatServers.MemberKeysAreRegular | src/impls/chat/mod.rs:771-774 | where only built keys are stored the member scan does not panic |
| ChatServers.LoginLinks | src/impls/auth/login_federated.rs:27-66 | on readable profile rows a login from a named host is the login of the membership model, whatever id is drawn |
| ChatServers.ChatServer.HandleCreateGuild | src/impls/chat/mod.rs:1210-1285 | the rows of a new guild are exactly its own, its roles', permissions' and channel's, and amount to the modelled creation and its dispatch |
| ChatServers.FoundedGuild | src/impls/chat/mod.rs:1231-1280 | a new guild's creator, unless it is user 0, is a member with the default role, that role is last in the order, and the first channel is listed last and counts from 1 |
| ChatServers.FoundedPermissions | src/impls/chat/mod.rs:1255-1282 | the default role is granted exactly the default permissions, in the guild and in its first channel |
| ChatServers.FoundedElsewhere | src/impls/chat/mod.rs:1231-1285 | no row of another root is touched |
| ChatServers.FoundedKeepsConsistent | src/impls/chat/mod.rs:1270-1280 | creating a guild keeps the channel orderings and counters of the store right |
| ChatServers.ChatServer.HandleCreateInvite | src/impls/chat/mod.rs:1287-1316 | refuses an empty or taken name, else stores an unused invite |
| ChatServers.ChatServer.HandleJoin | src/impls/chat/guilds/join_guild.rs:14-67 | every check, row and early return in the source's order amounts to the modelled join, and exactly the member row, the role list and the guild list are written |
| ChatServers.ChatServer.HandleLeave | src/impls/chat/guilds/leave_guild.rs:13-36 | removes and announces a member that is no owner |
| ChatServers.ChatServer.HandleKick | src/impls/chat/moderation/kick_user.rs:14-39 | removes and announces another member, with its member row, role list and guild list entry |
| ChatServers.ChatServer.HandleBan | src/impls/chat/moderation/ban_user.rs:14-46 | removes another member like a kick, stores the ban and announces it; the user is banned and no member afterwards |
| ChatServers.ChatServer.HandleUnban | src/impls/chat/moderation/unban_user.rs:16-23 | removes exactly the ban row |
| ChatServers.ChatServer.HandleDeleteDefaultRole | src/impls/chat/permissions/delete_guild_role.rs:13-23 | removes the default role's row |
| ChatServers.ChatServer.HandleLogin | src/impls/auth/login_federated.rs:27-66 | from any host, writes the rows of the login; from a named host they are the modelled login, whatever id is drawn |
| ChatServers.ChatServer.ApplyEvent | src/impls/sync/mod.rs:239-259 | an event from another server puts or drops one guild list row, which is the modelled edit |
| ChatServers.ChatServer.HandleDeleteGuild | src/impls/chat/guilds/delete_guild.rs:13-62 | panics before it writes iff the member scan does, else drops every row under the id and notifies member by member |
| GuildLists.DeletionClearsListsIff | src/impls/chat/guilds/delete_guild.rs:45-62 | for any caller, no local list names the deleted guild iff every entry was the caller's, with a local member, or of a user with the guild's number |
| GuildLists.DeletedGuildStaysListed | src/impls/chat/guilds/delete_guild.rs:55-60 | from an empty server: two members, the owner deletes the guild, the other still has it listed |
| GuildLists.ListsKeptIff | src/impls/chat/mod.rs:350-404 | a request leaves every local user's list and its member rows in agreement iff a condition visible beforehand holds |
| GuildLists.ListsRunIff | src/impls/chat/mod.rs:350-404 | they agree in all states of a run iff each of its requests sees to that |
| AuthFlow.HandleFieldsLoop | src/impls/auth/next_step.rs:229-301 | the loop stops at the first problem, as the specification does |
| AuthFlow.FieldsAccepted | src/impls/auth/next_step.rs:229-301 | accepted values are exactly the replies, no more than the form's fields, each of the right type |
| AuthFlow.FieldsHandledIff | src/impls/auth/next_step.rs:229-301 | all fields are collected iff each reply is of its field's type, else the first that is not decides the error |
| AuthFlow.ChoiceFollowsGraph | src/impls/auth/next_step.rs:166-227 | every offered choice leads along an edge to the stage it is named after |
| AuthFlow.EdgesAreOffered | src/impls/auth/next_step.rs:166-227 | and every edge from a stage of choices is offered, under that name |
| AuthFlow.FormFollowsGraph | src/impls/auth/next_step.rs:25-139 | every reachable form title has a handler that moves along an edge |
| AuthFlow.AnswerFollowsGraph | src/impls/auth/next_step.rs:25-139 | any reply gives a step one legal edge further or an error of the client or the store, never a missing handler |
| AuthFlow.FormAcceptedIff | src/impls/auth/next_step/login.rs:3-24 | a form leads on iff every field has a reply of its type, the store agrees, and it agrees to the token where the form carries one |
| AuthFlow.FormAnswers | src/impls/auth/next_step/registration.rs:3-60 | what becomes of a form with replies of the right types: accepted, refused by the store, or incomplete, each exactly when |
| AuthFlow.ChoiceAcceptedIff | src/impls/auth/next_step.rs:56-80 | a choice leads on iff it is offered; a reply of the other sort is turned down on every stage |
| AuthFlow.ExtractionIsComplete | src/impls/auth/mod.rs:445-480 | a handler pops all its values iff every listed field was supplied, and each is the reply to the field of that name |
| AuthFlow.TokenLostIff | src/impls/auth/next_step/registration.rs:17-24 | a valid token is used up without an answer iff a field is missing or the store refuses the rest |
| AuthFlow.ShortFormTriesPasswordIff | src/impls/auth/next_step/registration.rs:17-24 | a form with missing fields gets a token validated iff it is an invitation registration without its last field, and then the password is tried |
| AuthSessions.SessionsOverRuns | src/impls/auth/begin_auth.rs:9-13 | in every run every stack is a non-empty legal walk whose bottom cannot go back, and no unchecked read fails |
| AuthSessions.BackUndoesNext | src/impls/auth/step_back.rs:10-46 | going back after a step that allows it restores all stacks and shows the step before |
| AuthSessions.SessionIsRemoved | src/impls/auth/next_step.rs:14-149 | a stack is removed iff a session was handed out |
| AuthSessions.SessionNeedsConsent | src/impls/auth/next_step/login.rs:3-24 | a session is handed out iff a complete login or last registration form has the store's consent, to its token, too |
| AuthSessions.AdvanceEffect | src/impls/auth/next_step.rs:25-149 | an accepted reply puts its answer on top of the session's stack, a refused one changes nothing |
| AuthSessions.OtherSessionsKept | src/impls/auth/next_step.rs:14-149 | no request touches another session |
| AuthSessions.ShownAgain | src/impls/auth/step_back.rs:16-33 | without a reply, and going back where that is not allowed, the current step is shown again; else the one before it |
| AuthSessions.NoAnswerIsLost | src/impls/auth/stream_steps.rs:22-50 | over any run, while a session lasts, every answer is handed to its stream or waits for one, once and in order |
| AuthSessions.SessionEndsDialogue | src/impls/auth/next_step.rs:14-149 | a dead session id accepts nothing in any later run that does not draw it again |
| AuthSessions.StepKeepsHealthy | src/impls/auth/step_back.rs:10-46 | every handler keeps every stack a legal walk |
| AuthSessions.AuthServer.BeginAuth | src/impls/auth/begin_auth.rs:9-13 | starts or resets the stack to the initial step |
| AuthSessions.BeginShowsInitial | src/impls/auth/begin_auth.rs:9-13 | beginning leaves just the first step, even under an id in use, and that is what is shown |
| AuthSessions.AuthServer.NextStep | src/impls/auth/next_step.rs:14-149 | is the modelled advance, and its unchecked reads are safe on what it keeps |
| AuthSessions.AuthServer.HandleStepBack | src/impls/auth/step_back.rs:10-46 | is the modelled step back, and its two unchecked reads are safe |
| Media.PrintThenParseIff | src/impls/rest/upload.rs:126-133 | parsing gives back name, type and content iff neither name nor type contains a line break |
| Media.RangeIsOrderedIff | src/impls/rest/download.rs:256-269 | the content range is ordered iff the file has a separator before its last byte |
| Media.ContentIsRest | src/impls/rest/download.rs:256-269 | the seek position computed from the popped lines is where the parser stopped |
| Media.MediaRoot.WriteFile | src/impls/rest/upload.rs:100-148 | writes the printed format for any chunking, leaves an existing file alone, refuses a part without chunks |
| Media.ReadLine | src/impls/rest/download.rs:218-226 | reads up to and including the first separator, or everything |
| Media.GetFileFull | src/impls/rest/download.rs:232-254 | returns the parsed file and the size of its content, and fails iff there is no header |
| Media.NeverTooMuch | src/impls/rest/download.rs:326-355 | no stream sends more than it announced, whatever happens to the file |
| Media.StreamsExactly | src/impls/rest/download.rs:326-355 | with enough non-empty reads of a file that only grows, exactly the announced bytes arrive |
| Media.AnyFileStreams | src/impls/rest/download.rs:275-360 | every file with a header streams exactly what the parser leaves |
| Media.HeaderComesBack | src/impls/rest/upload.rs:100-133 | the stored name and type are the client's own, else the sniffed type, else the defaults |
| Media.UploadThenDownload | src/impls/rest/upload.rs:100-148 | for any upload chunking and any read sizes the streamed chunks are the uploaded bytes, and the announced length is their number |
| Media.FileStream.PollNext | src/impls/rest/download.rs:326-355 | one poll of the stream object is one step of the stream model |

## Left out

- HTTP and hRPC transport, TLS, tracing, e-mail, WebRTC voice, image encoding, the media proxy, configuration files and command-line tools: input and output or library calls.
- The storage engines behind the tree (sled, SQLite, their caches and the return values of insert and remove); a tree is a map with an ordered listing.
- Serialised values: channels, guilds, messages and profiles are opaque bytes; only id lists, counters, flags and links are read. The empty queue row written by a push is the empty queue.
- Password hashes, token signatures and the contents of one-time tokens: what the store says to a token and to the rest of a form are parameters of the step.
- Random ids: the drawn id is a parameter and has to be unused where the source loops until it is; the federated login does not loop, see `Profiles.LoginKeepsPairedIff`.
- Interleaving inside a handler: the `select!` of the federation task can drop a half-done dispatch, and the message counter is read and then written; here each is one step.
- Event streams to clients and their order; of a step stream the model has what is handed to it, not what its socket delivers.
- Permission checks in front of the handlers: they only refuse requests; matching a permission (`has_permission`) and channel visibility are parameters.
- Invite and admin keys in the codec: their free-form names can coincide with a key rooted at an id; invites are a map of their own next to the chat rows.
- ChatServers.ChatServer.HandleLogin: the login of the membership model is that of named hosts; for an empty host name it states the rows, and what they do to the links is `Profiles.LoginKeepsPairedIff` and `Profiles.LinkKeysCollideIff`.
- Sync.Convergence: takes each user's stored home server as given and has no remote user deletion; a host that names the server itself is treated as one that never answers; the runs it speaks of are exactly those of `Sync.RunAgreesIff`.
- Membership.Handle: guild ownership changes and roles other than the default one are not part of the membership state; the guild id it is given for a new guild is unused, as the source draws until it is.
- Guild records, channels and roles as serialised values: a handler that stores one is given its bytes, and a function from a guild record to its owners.
- Channels.Step: the runs of role requests are `Ordering.NoRoleRunCrashes`; guild deletion is the only guild request in it.
- Messages.GetChannelMessages: messages are opaque values, so nothing is said about their contents.
- AuthSessions.SessionEndsDialogue: the expiry of idle sessions and the session's token are not modelled.
- Media.GetFileFull: files stored under JPEG ids, which have no header and stream from position 0.
- Reaction counts, pinned messages, giving up ownership, the next-id migration, emote packs, batch requests and plain getters.
