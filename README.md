# charla entity layer in Dafny

A model of the entity layer of the charla IRC server (`charla/models.py`): the
records for connected users, their extended identity and channels, the
properties the server computes from them, and the descriptor cache that lets
a user record keep a live socket in a key-value store.

- `wrappers.dfy` — `Option`, standing for Python's `None` next to a value.
- `strings.dfy` — the string operations the layer relies on: Python 2 string
  order (`LexLeq`, used by `sorted`), the substring test `x in s`
  (`IsSubstring`), and splitting at the first separator (`Split`, used to read
  a prefix back).
- `socket_field.dfy` — `SocketField`'s shared `bidict` as a value (`Bidict`:
  a forward map from descriptor to socket and an inverse map), the assignment
  `cache[fd] = s` (`Put`), and a `SocketField` class that owns the cache and
  updates it in place in `TypecastForStorage`. A socket is an opaque identity;
  what `fileno()` answers at the moment of a store is passed in as
  `Option<int>`, `None` standing for the raised `socket.error`.
- `users.dfy` — `UserInfo` and its truth value, `User` with all its declared
  attributes and defaults, the mode tests `oper`/`invisible`/`visible`,
  `source` and `prefix`. `joinprefix` (from the IRC protocol library) builds
  the `nick!user@host` message prefix of section 2.3.1 of RFC 2812; it is
  modelled as that concatenation. `ParsePrefix` reads such a prefix back and
  serves as the partner of `Prefix`.
- `channels.dfy` — the `Channel` class with its attributes, the `topic`
  getter (`Topic`) and setter (`SetTopic`), `type`, and `userprefixes`: each
  member rendered as in the RPL_NAMREPLY reply of section 5.1 of RFC 2812
  (`@nick` for an operator, else `+nick` for a voiced member, else the bare
  nick) and listed in order of that rendering, modelled as a stable insertion
  sort (`SortByPrefix`) followed by the rendering (`RenderAll`).

Behaviour that follows the code exactly:
- `source` and `prefix` test the `UserInfo` reference with `is None`, so an
  incomplete `UserInfo` still yields a source and a prefix; completeness plays
  no part there.
- When `fileno()` fails and the socket was never cached, storing yields `None`;
  no fresh identifier is minted.
- Membership in `operators`/`voiced` compares records by their id (records
  compare by key); an unset nick renders as `@None`/`+None` for an operator or
  voiced member and as `None` (which sorts before every string) otherwise.
- `int(time())` truncates toward zero (`TruncateToInt`); the clock reading is a
  parameter of `SetTopic`.

## Model

| member | source | states |
|---|---|---|
| `SocketFields.Put` | charla/models.py:31 | after `cache[fd] = s` the descriptor maps to the socket and the socket back to the descriptor |
| `SocketFields.PutConsistent` | charla/models.py:20-36 | an assignment keeps the two directions of the cache describing the same pairs (one-to-one) |
| `SocketFields.ConsistentInjective` | charla/models.py:20 | in a consistent cache no socket is held under two descriptors |
| `SocketFields.PutThenGet` | charla/models.py:22-32 | a read of the descriptor just stored gives the socket back, and that socket has no other descriptor |
| `SocketFields.PutKeepsOthers` | charla/models.py:31 | an assignment adds no descriptor but its own and keeps every pair that shares neither descriptor nor socket |
| `SocketFields.PutPresent` | charla/models.py:34-37 | re-assigning a pair already in the cache (the inverse-lookup path) leaves the cache unchanged |
| `SocketFields.PutIdempotent` | charla/models.py:29-32 | storing the same socket under the same descriptor twice equals storing it once |
| `SocketFields.PutAllConsistent` | charla/models.py:29-32 | any run of successful stores keeps the cache one-to-one |
| `SocketFields.NeverStoredReadsNone` | charla/models.py:22-32 | a descriptor that no store used reads as None after any run of stores |
| `SocketFields.SocketField.constructor` | charla/models.py:20 | the shared cache starts empty and consistent |
| `SocketFields.SocketField.TypecastForRead` | charla/models.py:22-23 | the socket read under a descriptor is the one whose inverse entry is that descriptor; None exactly when no socket has it |
| `SocketFields.SocketField.TypecastForStorage` | charla/models.py:25-39 | None for None; with a working `fileno()` returns it and assigns the pair; otherwise returns the socket's cached descriptor or None, leaving the cache unchanged; the cache stays one-to-one |
| `SocketFields.StoreTwice` | charla/models.py:25-32 | storing a live socket twice returns the same descriptor both times, the second store changes nothing, and a read gives the socket |
| `Users.CompleteIffIdentified` | charla/models.py:110-111 | a `UserInfo` is truthy exactly when user, host and name are present; `server` plays no part; the blank record is not truthy |
| `Users.NewUser` | charla/models.py:48-63 | a new user record holds the given id, socket and sign-on time and every other attribute at its declared default: empty host, port 0, no nick, no away message, empty modes, no channels, no `UserInfo`, not registered, no last message |
| `Users.ModeLetters` | charla/models.py:73-83 | `oper` holds exactly when `o` is a mode letter, `invisible` exactly when `i` is, `visible` exactly when `i` is not; a new user is neither operator nor invisible |
| `Users.JoinPrefix` | charla/models.py:90 | the prefix is exactly the nick, then `!`, then the user, then `@`, then the host: its length, separators and the three pieces between them |
| `Users.SourceAndPrefix` | charla/models.py:85-97 | source and prefix are None exactly when the `UserInfo` reference is None, and otherwise are (nick, user, host) and `nick!user@host` |
| `Users.ParsePrefix` | charla/models.py:86-90 | a prefix that parses is nick, `!`, user, `@`, host with no `!` in the nick and no `@` in the user |
| `Users.PrefixParsesToSource` | charla/models.py:85-97 | the prefix of a user reads back as the text of its source, absent parts as the empty string, when the nick holds no `!` and the user name no `@` |
| `Users.PrefixExample` | charla/models.py:85-90 | nick `bob` with ident `b` on `host.example` has prefix `bob!b@host.example` |
| `Strings.SingleLetterSubstring` | charla/models.py:75 | the substring test with a one-letter needle is membership of that letter |
| `Strings.LexLeqTotal` | charla/models.py:159 | any two strings are ordered one way or the other |
| `Strings.LexLeqTransitive` | charla/models.py:159 | the string order is transitive |
| `Strings.LexLeqAntisymmetric` | charla/models.py:159 | strings ordered both ways are equal |
| `Channels.RenderedUnsetNick` | charla/models.py:152-157 | a member without a nick renders as `@None` if an operator, else `+None` if voiced, else None |
| `Channels.RenderedStatus` | charla/models.py:152-157 | for a set nick not starting with `@` or `+`, the rendering starts with `@` exactly for operators, with `+` exactly for voiced non-operators, is one character longer than the nick exactly then, and ends with the nick |
| `Channels.RenderAll` | charla/models.py:159 | one rendering per user, each at the user's position |
| `Channels.InsertSorted` | charla/models.py:159 | inserting into a list ordered by rendering keeps it ordered |
| `Channels.InsertPermutes` | charla/models.py:159 | inserting adds exactly the one user |
| `Channels.SortByPrefixFacts` | charla/models.py:159 | `sorted(users, key=prefix)` is ordered by rendering and is a permutation of the users |
| `Channels.SortByPrefixRenders` | charla/models.py:159 | sorting neither adds nor drops a rendering |
| `Channels.SortedPermutationUnique` | charla/models.py:159 | two sorted sequences with the same elements are equal |
| `Channels.RenderSortedFacts` | charla/models.py:150-159 | the rendered list has one entry per member, is sorted, and holds exactly the members' renderings |
| `Channels.RenderSortedDetermined` | charla/models.py:150-159 | every sorted sequence of the members' renderings is the rendered list |
| `Channels.NamesExample` | charla/models.py:150-159 | operator bob, alice, voiced carol render as `+carol`, `@bob`, `alice` |
| `Channels.TruncateToInt` | charla/models.py:143 | `int()` on the clock reading truncates toward zero |
| `Channels.Channel.constructor` | charla/models.py:114-124 | a new channel has no members, operators, voiced members, modes or topic |
| `Channels.Channel.SetTopic` | charla/models.py:139-144 | the getter then returns the given text, the given setter and the truncated clock reading, and no other attribute changes |
| `Channels.Channel.Type` | charla/models.py:146-148 | the type is the first character of the name, None for an empty name |
| `Channels.Channel.UserPrefixes` | charla/models.py:150-159 | one entry per member, in non-decreasing order, holding exactly the members' renderings |
| `Channels.SetTopicTwice` | charla/models.py:135-144 | after two topic assignments the getter shows the second one whole |

## Left out

- Persistence: `Model`, `save()`, indices, `unique=True`, and the loading of
  `ListField`/`ReferenceField` belong to the redisco store; records are plain
  values, a channel's member lists hold user records, a user's `channels` holds
  channel names, and `save()` after the topic assignment is not modelled.
- `DateTimeField(auto_now_add=True)` and `time()`: the clock reading is a
  parameter (`signon` of `NewUser`, `now` of `SetTopic`).
- Real sockets: a socket is an identity; `fileno()` is the per-call parameter
  of `TypecastForStorage`.
- `bidict` overwrite: the library is not part of this model; `cache[fd] = s`
  is assumed to drop every pair with descriptor `fd` or socket `s` and then
  add the pair.
- `joinprefix` is not part of this model; it is assumed to join the parts as
  `nick!user@host`, rendering an absent part as the empty string.
- `SocketFields.SocketField.TypecastForRead`: takes the descriptor as an
  integer; `int(value)` on a stored string, and its failure, are not modelled.
- `value_type` and `acceptable_types` only name the socket class for the
  store's type check; not modelled.
- `Channels.Channel.Type`: on an empty name `self.name[0]` raises IndexError;
  the model shows that error as the result `None`.
- `SocketFields.SocketField`: the source keeps `cache` as one class attribute
  shared by every `SocketField`; the model holds it in one `SocketField`
  object, which stands for that class-level cache (the only such field is
  the user record's `sock`).
- The `__repr__` methods: debug formatting.
- Nick uniqueness, `operators ⊆ users` and `voiced ⊆ users` are not enforced
  by this code and are not modelled as invariants.
- Concurrency: the shared cache has no locking; only single-threaded use is
  modelled.
- Character comparison is by code point, which matches Python 2 byte-string
  order for ASCII text; encodings are not modelled.
