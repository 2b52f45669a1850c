# steam-inventory-manager in Dafny

A model of the logic at the core of steam-inventory-manager, a tool that logs
into Steam accounts, reads a CS:GO inventory, decides which items are cheap
enough to move, and sends and confirms trade offers between accounts.
Steam's servers, the session cache and the cryptographic libraries are left
outside the model. Their replies are inputs, and the requests sent to them
are an output trace (`Effects.Effect`).

The modules follow the program's files:

- `SteamGuard` (`utils.py`) models three things:
  - the Steam Guard login code. This is the 30-second time step packed as an
    8-byte big-endian word, HMAC-SHA1 dynamic truncation as in section 5.3 of
    RFC 4226 (with the time step of section 4 of RFC 6238), and five base-26
    digits over the alphabet `23456789BCDFGHJKMNPQRTVWXY`;
  - the `android:` device id, built from a SHA-1 hex digest split 8-4-4-4-12;
  - the trade-confirmation signature.

  HMAC-SHA1, SHA-1 and Base64 (section 4 of RFC 4648) are fields of a
  `Primitives` record. Their only facts are lengths: a digest has 20 bytes, a
  hex digest has 40 lowercase hex characters, and the Base64 of a digest has
  28 characters.
- `Session` (`classes/account.py`, login half) models the `Account` as a
  record with transition functions. It covers:
  - the password setter that is frozen while logged in;
  - cache restore gated by the profile probe;
  - `login` and `_attempt_login`, including the error precedence;
  - `_log_session`.

  `Cookies` is the cookie jar keyed by (name, domain), with `_transfer_cookie`
  writing to the three Steam domains.
- `Trading` (`classes/account.py`, trading half) covers:
  - `trade` and `accept_trade`;
  - `_confirm_trade`;
  - `_fetch_confirmations` over already-parsed confirmation entries;
  - `_create_confirmation_params`.
- `Items` (`datatypes.py`) covers the exterior and type enumerations, `Item`,
  `is_weapon`, `market_name`, `trade_asset`, `price` and `should_be_traded`.
  The price table and the configuration are explicit parameters.
  `LegacyItems` (`types.py`) is the older revision of the same class. It
  reuses `Items` where the two agree (`is_weapon`, `trade_asset`, the
  price queue) and proves where they differ.
- `Inventory` (`classes/inventory.py`) shapes decoded asset and description
  JSON into items and filters the items to trade.
- Support modules:
  - `Bytes`: big-endian packing (`struct.pack(">Q")`) and ASCII encoding;
  - `Decimal`: Python `int(str)` and `str(int)`;
  - `Text`: `in`, `split`, `startswith` and character removal on strings;
  - `Bits`: byte masks;
  - `Arith`: arithmetic lemmas;
  - `Seqs`: subsequences and counting;
  - `Json`: JSON values;
  - `Errors`: the exception hierarchy of `exceptions.py`, plus the Python
    built-in exceptions the code can raise;
  - `Wrappers`: `Option` and `Result`.

Python exceptions become `Err` results. A transition that raises part way
returns the account as it had been mutated up to the raise, because the
source mutates `self` in place.

## Model

| member | source | states |
|---|---|---|
| SteamGuard.AlphabetDistinct | steam-inventory-manager/utils.py:35 | The code alphabet has 26 pairwise distinct characters, so a code character determines its digit. |
| SteamGuard.TimeBuffer | steam-inventory-manager/utils.py:30-31 | Packing `t // 30` succeeds exactly when the step fits an unsigned 64-bit word (otherwise `struct.error`). The result is 8 bytes whose big-endian value is the time step. |
| SteamGuard.TimeStep | steam-inventory-manager/utils.py:30 | `timestamp // 30` is the 30-second window holding the instant: 30 times the step is at most the time, and the next window starts after it. |
| SteamGuard.TimeBufferInjective | steam-inventory-manager/utils.py:31 | Equal time buffers come only from equal time steps. |
| SteamGuard.SameWindowSameCode | steam-inventory-manager/utils.py:30-31 | Two instants in the same 30-second window have the same time step, and therefore the same login code for the same secret. |
| SteamGuard.TruncationOffset | steam-inventory-manager/utils.py:33 | The offset is the low nibble of digest byte 19, and the 4-byte window starting there fits inside the 20-byte digest. |
| SteamGuard.ClearTopBitIsMod | steam-inventory-manager/utils.py:34 | Clearing the top bit of the first byte of a big-endian 4-byte word (`& 0x7FFFFFFF`) is the word modulo 2^31. |
| SteamGuard.FromBigEndianFirst | steam-inventory-manager/utils.py:34 | A big-endian word is its first byte weighted by 256^(rest) plus the value of the rest. |
| SteamGuard.TruncatedValue | steam-inventory-manager/utils.py:33-34 | The truncated value is below 2^31, and it is the unsigned big-endian word at the truncation offset modulo 2^31. |
| SteamGuard.EncodeDigits | steam-inventory-manager/utils.py:35-40 | Encoding yields exactly k characters, each from the code alphabet. |
| SteamGuard.DigitOf | steam-inventory-manager/utils.py:35 | The digit of an alphabet character is the position holding that character. |
| SteamGuard.PositionIn | steam-inventory-manager/utils.py:35 | The position found holds the character searched for. |
| SteamGuard.DecodeEncodeDigits | steam-inventory-manager/utils.py:37-39 | The characters are the base-26 digits, least significant first: reading them back gives the value modulo 26^k. |
| SteamGuard.OneTimeCode | steam-inventory-manager/utils.py:28-40 | A code exists exactly when the time step packs and the shared secret decodes; an unpackable step raises `struct.error`. A code has 5 characters, all from the alphabet. |
| SteamGuard.OneTimeCodeDecodes | steam-inventory-manager/utils.py:32-40 | Decoding the code gives the truncated HMAC-SHA1 of the time buffer modulo 26^5. |
| SteamGuard.DeviceIdFromHex | steam-inventory-manager/utils.py:50-57 | The id is 44 characters: `android:`, then dashes at offsets 16, 21, 26 and 31. Removing the dashes after the prefix gives the first 32 hex characters. |
| SteamGuard.WithoutDashThen | steam-inventory-manager/utils.py:57 | Joining with a dash and then removing dashes is concatenation, when the right part has no dash. |
| SteamGuard.WithoutHexGroups | steam-inventory-manager/utils.py:50-57 | Removing the dashes from the 8-4-4-4-12 grouping restores the first 32 hex characters. |
| SteamGuard.DecimalIsAscii | steam-inventory-manager/utils.py:48 | `str(int(id))` is always ASCII, so `.encode("ascii")` cannot fail. |
| SteamGuard.DeviceId | steam-inventory-manager/utils.py:43-57 | The device id is 44 characters starting with `android:`. Without its dashes, the rest is the first 32 characters of the SHA-1 hex digest of the decimal id. |
| SteamGuard.ConfirmationMessage | steam-inventory-manager/utils.py:67 | The HMAC message exists exactly when the timestamp packs as 64 bits and the tag is ASCII. It has 8 + \|tag\| bytes, and its first 8 bytes are the big-endian timestamp. |
| SteamGuard.ConfirmationMessageDecodes | steam-inventory-manager/utils.py:67 | The message splits back into the timestamp and the ASCII tag. |
| SteamGuard.ConfirmationMessageInjective | steam-inventory-manager/utils.py:67 | Different (timestamp, tag) pairs give different messages. |
| SteamGuard.ConfirmationCode | steam-inventory-manager/utils.py:63-68 | The intended signature with the timestamp as a parameter. It succeeds exactly when the message builds and the identity secret is present and decodes. A missing secret raises `TypeError`, and a secret that is not Base64 raises `ValueError`. A signature is the 28-character Base64 of the HMAC-SHA1 of the 8-byte timestamp and tag message under the decoded secret. |
| SteamGuard.ConfirmationCodeAsWritten | steam-inventory-manager/utils.py:63 | The two-parameter function as declared: any extra positional argument raises `TypeError`. Without extra arguments it reads the clock and agrees with `ConfirmationCode`. |
| SteamGuard.ConfirmationCallSitesRaise | steam-inventory-manager/classes/account.py:181 | The call with a timestamp as a third argument always raises `TypeError`. |
| Bytes.FromBigEndian | steam-inventory-manager/utils.py:34 | A big-endian word of n bytes is below 256^n. |
| Bytes.ToBigEndian | steam-inventory-manager/utils.py:31 | Packing to a width gives exactly that many bytes. |
| Bytes.FromToBigEndian | steam-inventory-manager/utils.py:31 | Unpacking a packed value below 256^width recovers it. |
| Bytes.ToFromBigEndian | steam-inventory-manager/utils.py:34 | Packing an unpacked byte string of the same width recovers it. |
| Bytes.PackU64 | steam-inventory-manager/utils.py:31 | `>Q` packing succeeds exactly for 0 <= n < 2^64, and gives 8 bytes whose big-endian value is n. |
| Bytes.AsciiEncode | steam-inventory-manager/utils.py:67 | `.encode("ascii")` succeeds exactly for ASCII text, one byte per character. |
| Bytes.AsciiDecode | steam-inventory-manager/utils.py:67 | Decoding bytes below 128 gives one character per byte. |
| Bytes.AsciiRoundTrip | steam-inventory-manager/utils.py:67 | ASCII text encodes to bytes below 128, and those decode back to the text. |
| Bytes.U64BoundIsPow | steam-inventory-manager/utils.py:31 | The unsigned 64-bit bound is 256^8. |
| Decimal.ParseInt | steam-inventory-manager/classes/account.py:152 | `int(s)` succeeds exactly on an optional sign followed by at least one ASCII digit. The sign decides the sign of the result. |
| Decimal.NatToString | steam-inventory-manager/utils.py:48 | `str(n)` is a non-empty digit string without a leading zero. |
| Decimal.DigitsValueOfNatToString | steam-inventory-manager/utils.py:48 | The digits of `str(n)` have value n. |
| Decimal.ParseIntToString | steam-inventory-manager/utils.py:48 | `int(str(i)) == i` for every integer. |
| Decimal.IntToStringInjective | steam-inventory-manager/utils.py:48 | Different integers print differently. |
| Text.IndexOf | steam-inventory-manager/classes/account.py:299-301 | The first occurrence of a substring: it occurs there and nowhere earlier. None means it occurs nowhere. |
| Text.ContainsIffOccurs | steam-inventory-manager/classes/account.py:299-301 | Python's `sub in s` holds exactly when `sub` occurs at some position. |
| Text.EndsWithConcat | steam-inventory-manager/datatypes.py:91 | A suffix of `x + t` is a suffix of `t`, or has `t` as its own suffix. |
| Text.Split | steam-inventory-manager/classes/account.py:311 | `str.split(sep)` returns at least one piece, and at least two exactly when the separator occurs. |
| Text.SplitJoin | steam-inventory-manager/classes/account.py:311 | Joining the pieces with the separator gives back the string. |
| Text.SplitPiecesFree | steam-inventory-manager/classes/account.py:311 | No piece contains the separator. |
| Text.LastPieceIsLastOfSplit | steam-inventory-manager/classes/inventory.py:38 | The text after the last separator is `split(sep)[-1]`. |
| Text.LastPieceHasNoSeparator | steam-inventory-manager/classes/inventory.py:38 | `split(sep)[-1]` contains no separator. |
| Text.LastPieceIsSuffix | steam-inventory-manager/classes/inventory.py:38 | `split(sep)[-1]` is a suffix of the string, and the whole string when the separator is absent. |
| Text.Without | steam-inventory-manager/utils.py:57 | Removing a character leaves no occurrence of it, and the string never gets longer. |
| Text.WithoutConcat | steam-inventory-manager/utils.py:57 | Removing a character distributes over concatenation. |
| Text.WithoutAbsent | steam-inventory-manager/utils.py:57 | Removing a character that does not occur changes nothing. |
| Cookies.Get | steam-inventory-manager/classes/account.py:338 | A lookup finds a value exactly when a cookie with that name and domain is stored, and the value is that cookie's. |
| Cookies.Set | steam-inventory-manager/classes/account.py:281 | Setting keeps every stored (name, domain) slot in place and at most appends one new cookie. |
| Cookies.SetGetSame | steam-inventory-manager/classes/account.py:281 | After setting, the lookup of the same name and domain returns the new value. |
| Cookies.SetGetOther | steam-inventory-manager/classes/account.py:281 | Setting leaves every other (name, domain) lookup unchanged. |
| Cookies.SetWf | steam-inventory-manager/classes/account.py:281 | Setting keeps the jar free of duplicate (name, domain) keys. |
| Cookies.WfCons | steam-inventory-manager/classes/account.py:281 | Prepending a cookie with a fresh key keeps the jar free of duplicates. |
| Cookies.DomainsDistinct | steam-inventory-manager/classes/account.py:280 | The three Steam domains are pairwise different. |
| Cookies.TransferSpec | steam-inventory-manager/classes/account.py:278-281 | `_transfer_cookie` makes the name read the value on each of the three Steam domains, keeps the jar well formed, and changes no other (name, domain) lookup. |
| Cookies.TransferWf | steam-inventory-manager/classes/account.py:278-281 | Transferring keeps the jar free of duplicate keys. |
| Cookies.TransferSetsDomains | steam-inventory-manager/classes/account.py:280-281 | After a transfer, the name reads the value on each Steam domain. |
| Cookies.TransferKeepsOthers | steam-inventory-manager/classes/account.py:280-281 | A transfer changes no lookup of another name or another domain. |
| Cookies.Transfer | steam-inventory-manager/classes/account.py:278-281 | `_transfer_cookie` keeps every stored (name, domain) slot in place and adds at most the three Steam-domain slots. |
| Cookies.Before | steam-inventory-manager/classes/account.py:211 | The order `CookieJar` lists cookies in: by domain, then by name (every path is `/`), both compared as Python strings. |
| Cookies.BelowIrreflexive | steam-inventory-manager/classes/account.py:211 | No string sorts before itself. |
| Cookies.BelowTransitive | steam-inventory-manager/classes/account.py:211 | Python string order is transitive. |
| Cookies.BelowTotal | steam-inventory-manager/classes/account.py:211 | Of two different strings, one sorts before the other. |
| Cookies.BeforeAsymmetric | steam-inventory-manager/classes/account.py:211 | Two cookies are never each listed before the other. |
| Cookies.Insert | steam-inventory-manager/classes/account.py:211 | Inserting into a sorted listing keeps it sorted and adds exactly that cookie. |
| Cookies.Listing | steam-inventory-manager/classes/account.py:211 | `list(session.cookies)`: the jar's cookies, each exactly once, sorted by domain and then name. |
| Cookies.ListingLastNamed | steam-inventory-manager/classes/account.py:211-212 | In that listing, the last cookie with a name is the one on the greatest domain carrying the name; there is none exactly when no cookie has the name. |
| Cookies.CopyListing | steam-inventory-manager/classes/account.py:211-212 | Copying the listing to the Steam domains leaves other domains alone. On a Steam domain a name reads the value it has on its greatest domain, or nothing when no cookie has it. |
| Cookies.LastNamed | steam-inventory-manager/classes/account.py:211-212 | The value of the last cookie carrying a name: some cookie at an index has that name and value, and no later cookie has the name. It is None exactly when no cookie has that name. |
| Cookies.TransferAllSpec | steam-inventory-manager/classes/account.py:211-212 | Transferring a list of cookies in order leaves each name reading its last value in that list on the three Steam domains. All other lookups are unchanged, and the jar stays well formed. |
| Cookies.TransferAll | steam-inventory-manager/classes/account.py:211-212 | The transfer loop keeps every stored slot in place and adds at most three slots per cookie. |
| Cookies.TransferAllWf | steam-inventory-manager/classes/account.py:211-212 | Transferring a list of cookies keeps the jar free of duplicate keys. |
| Cookies.TransferAllGet | steam-inventory-manager/classes/account.py:211-212 | The lookup after transferring a list: the last value of the name on a Steam domain, otherwise the old lookup. |
| Cookies.TransferAllSnoc | steam-inventory-manager/classes/account.py:211-212 | Transferring a list and then one more cookie is transferring the extended list. |
| Session.SetPassword | steam-inventory-manager/classes/account.py:74-77 | While logged in the account is unchanged. Otherwise only the password changes, to the new one. |
| Session.PasswordFrozenWhileLoggedIn | steam-inventory-manager/classes/account.py:74-77 | Any sequence of password assignments leaves a logged-in account unchanged. |
| Session.NewAccount | steam-inventory-manager/classes/account.py:43-54 | A new account is logged out, with no steam id, no session id, an empty jar and no confirmations (a definition; `Session.LogSessionRestores` starts from it). |
| Session.SessionId | steam-inventory-manager/classes/account.py:100-101 | The `session_id` property returns the shared secret (a definition; `Trading.OffersCarrySharedSecret` and `Session.LoginSucceeds` state its consequences). |
| Session.RestoreSession | steam-inventory-manager/classes/account.py:320-335 | With no cache record only the cache is read and nothing changes. With a record, the profile is probed, `logged_in` is set exactly when the probe URL lacks `login/home`, a truthy cached steam id is adopted and a falsy one is ignored. Credentials and confirmations never change, and no cookie other than the session-id and `steamLoginSecure` cookies on the Steam domains changes. |
| Session.RestoreSessionCookies | steam-inventory-manager/classes/account.py:327-333 | A truthy cached session id puts the session-id cookie (which carries the shared secret) on every Steam domain. A truthy `steamLoginSecure` puts that cookie on every Steam domain. Falsy fields leave the cookies as they were, and every other cookie keeps its value. |
| Session.RestoreSessionWf | steam-inventory-manager/classes/account.py:320-335 | Restoring keeps the jar free of duplicate keys. |
| Session.LogSession | steam-inventory-manager/classes/account.py:337-346 | The corrected `_log_session` writes the cache at most once, and exactly when the `steamLoginSecure` cookie, the session id and the steam id are all truthy. |
| Session.LogSessionAsWritten | steam-inventory-manager/classes/account.py:340-346 | The call as written raises `TypeError` exactly when the guard passes. |
| Session.LogSessionAsWrittenNeverStores | steam-inventory-manager/cache.py:73 | As written, `_log_session` completes only in the cases where the corrected version writes nothing: the cache is never written. |
| Session.LogSessionRestores | steam-inventory-manager/cache.py:53-84 | A record written by the corrected `_log_session`, read back into a fresh account, restores the steam id, the `steamLoginSecure` cookie and the session-id cookie. The restored account is logged in exactly when the probe passes. |
| Session.LoginFailure | steam-inventory-manager/classes/account.py:222-239 | A reply without `message` raises `KeyError("message")`; otherwise the error is one of the login errors. |
| Session.LoginFailurePrecedence | steam-inventory-manager/classes/account.py:228-239 | Captcha beats a wrong password, which beats an invalid two-factor code, which beats the e-mail code, which beats a plain `LoginError`. `CaptchaRequired` comes exactly when the captcha flag is set, the e-mail case raises the fixed-message `EmailCodeRequired`, a reply with no flag set raises `LoginError` with its message, and all but the e-mail error carry the server's message. |
| Session.StoreCookiesWf | steam-inventory-manager/classes/account.py:211-212 | Storing reply cookies keeps the jar free of duplicate keys. |
| Session.StoreCookies | steam-inventory-manager/classes/account.py:256 | Storing the reply's cookies keeps every stored slot in place and adds at most one slot per cookie. |
| Session.LastSet | steam-inventory-manager/classes/account.py:256 | The last value the reply sets for a (name, domain); None exactly when the reply does not set it, and otherwise no later cookie sets it. |
| Session.StoreCookiesGet | steam-inventory-manager/classes/account.py:256 | After storing the reply's cookies each (name, domain) the reply sets reads the last value set, and every other one reads as before. |
| Session.CompleteLogin | steam-inventory-manager/classes/account.py:207-220 | A successful reply logs in without touching credentials or confirmations. A success appends exactly what the corrected `_log_session` writes; a missing `transfer_parameters` or `steamid` raises `KeyError` and appends nothing. |
| Session.CompleteLoginCopies | steam-inventory-manager/classes/account.py:207-213 | After a successful login, copying `list(session.cookies)` leaves each other cookie name on each Steam domain reading its value on the greatest domain carrying it (nothing when absent), and other domains unchanged. |
| Session.AttemptLogin | steam-inventory-manager/classes/account.py:241-260 | Exactly one login request is sent, carrying the username, password and one-time code. A transport failure or a body that is not JSON raises `RequestError` with its message. A success is followed only by the corrected `_log_session` cache write, an error by nothing, and a newly logged-in account means the reply had both `success` and `login_complete`. |
| Session.Login | steam-inventory-manager/classes/account.py:194-239 | A logged-in account returns at once with no effect. Otherwise the cache is read first. Credentials and confirmations never change, and success leaves the account logged in. |
| Session.LoginTwice | steam-inventory-manager/classes/account.py:195-196 | A second `login` after a successful one returns at once with no effect, whatever the environment. |
| Session.LoginRequestSentWhen | steam-inventory-manager/classes/account.py:198-205 | A login request is sent exactly when the account is logged out, the cache does not restore the session, the password is non-empty and a code can be generated. Every request sent carries the current code. |
| Session.LoginTrace | steam-inventory-manager/classes/account.py:198-220 | The restore effects come first and contain no login request. At most one login request follows, under the conditions above, and after it come only cache writes. |
| Session.LoginSucceeds | steam-inventory-manager/classes/account.py:207-219 | When the reply has `success` and `login_complete`: the account is logged in; the steam id comes from `transfer_parameters.steamid`; the fresh session id is stored; and every Steam domain carries the shared secret as the session-id cookie. With the corrected `_log_session`, the trace ends in a cache write exactly when the session is worth caching. |
| Session.LoginRejected | steam-inventory-manager/classes/account.py:207-239 | A reply lacking `success` or `login_complete` leaves the account logged out and raises the precedence error. |
| Session.LoginWithoutPassword | steam-inventory-manager/classes/account.py:202-203 | An unrestored account with an empty password raises `IncorrectPassword("password not specified")` and sends no login request. |
| Session.LoginReplyUnreadable | steam-inventory-manager/classes/account.py:255-258 | A login reply that never arrived, or whose body is not JSON, raises `RequestError` with the transport's or decoder's message and leaves the account logged out. |
| Session.AttemptLoginCacheWrites | steam-inventory-manager/classes/account.py:207-220 | After effects with no cache write, `_attempt_login` writes the cache at most once, as its last effect, and only after a successful login of a session worth caching. |
| Session.LoginCacheWrites | steam-inventory-manager/classes/account.py:207-219 | The only cache write `login` makes is its last effect: the `_log_session` write after a successful login of a session worth caching. |
| Session.LoginAsWritten | steam-inventory-manager/classes/account.py:219 | `login` as written differs from the corrected `login` only where that one caches the session. There it raises the `_log_session` `TypeError` with the account already logged in, and drops the write. |
| Session.LoginAsWrittenNeverCaches | steam-inventory-manager/classes/account.py:207-219 | As written, `login` never writes the session cache. |
| Session.LoginAsWrittenSucceeds | steam-inventory-manager/classes/account.py:207-219 | As written, a login the reply accepts leaves the account logged in, and raises `TypeError` exactly when the session is complete enough to cache. |
| Trading.DeviceIdOf | steam-inventory-manager/classes/account.py:286 | The device id exists exactly when the account has a steam id (`int(None)` raises otherwise). |
| Trading.ConfirmationParams | steam-inventory-manager/classes/account.py:283-292 | The query exists exactly when the steam id is set and the signature can be computed. It carries the device id, the steam id, the signature of (tag, time), the time and the tag. The signature is the corrected three-argument `SteamGuard.ConfirmationCode`. |
| Trading.CreatorOf | steam-inventory-manager/classes/account.py:310 | A missing `data-creator` gives 0. A present one is parsed by `int()`, and an unparsable one raises `ValueError`. |
| Trading.ParseEntry | steam-inventory-manager/classes/account.py:308-312 | A `data-creator` error comes first; then a missing `id` raises `KeyError("id")`, and an `id` without `conf` raises `IndexError`. Any success copies the fields, and its id is the piece after the first `conf` of `id`, with no `conf` in it. |
| Trading.ParseEntryConfirmationId | steam-inventory-manager/classes/account.py:311 | For an id `conf<n>` where n has no `conf`, the confirmation id is n. |
| Trading.StoreEntries | steam-inventory-manager/classes/account.py:307-312 | Storing never removes a key. It fails exactly when some entry fails to parse, with the error of the first failing entry, every earlier one having parsed. Every new or changed value is a parsed entry stored under its trade id. |
| Trading.StoreEntriesStopsAt | steam-inventory-manager/classes/account.py:307-312 | At the first failing entry the loop stops: the map is what the earlier entries stored, no later entry is stored, and the error is that entry's. |
| Trading.StoreEntriesLastWins | steam-inventory-manager/classes/account.py:307-313 | When every entry parses, each trade id ends up holding its last entry. Ids with no entry keep their old value. |
| Trading.LastWinsStep | steam-inventory-manager/classes/account.py:312 | One more stored entry keeps the last-entry-wins property. |
| Trading.StoreEntriesSnoc | steam-inventory-manager/classes/account.py:307-312 | Storing a list and then one more entry is storing the extended list. |
| Trading.FetchConfirmations | steam-inventory-manager/classes/account.py:294-313 | Only the confirmation map may change, and it only grows. Missing parameters raise before any request. Otherwise one list request is sent; a bad-secret page raises `CredentialsError` before the error page raises `TradeError`. The empty marker leaves the map unchanged and succeeds. Any other page stores its entries as `StoreEntries` does: last entry per trade id wins, and the first entry that fails to parse raises its error. The request is signed with the corrected `SteamGuard.ConfirmationCode`. |
| Trading.ConfirmTrade | steam-inventory-manager/classes/account.py:172-192 | Without `needs_mobile_confirmation` nothing happens. Otherwise a failed list fetch ends it with that fetch's result, and a successful one is followed by the allow step on the refreshed map. At most one allow request follows and it names this trade's confirmation, and success means the allow reply had `success`. Both requests are signed with the corrected `SteamGuard.ConfirmationCode`. |
| Trading.ConfirmNeeded | steam-inventory-manager/classes/account.py:174-192 | The list is fetched first; a failed fetch is the result, otherwise the allow step runs on the refreshed map. A successful run ends with exactly one allow request for this trade. |
| Trading.Allow | steam-inventory-manager/classes/account.py:175-192 | A signing failure is returned with nothing sent. A trade without a stored confirmation raises `AttributeError` and sends nothing. A stored one gets exactly one allow request, naming its confirmation; the result is `Ok` when the reply has `success` and `FailedTrade` when it does not. |
| Trading.AllowStored | steam-inventory-manager/classes/account.py:176-192 | For a stored confirmation the allow step appends exactly the allow request for it and then follows the reply. |
| Trading.FetchStoresLast | steam-inventory-manager/classes/account.py:294-313 | A normal page whose entries all parse succeeds after one list request, and stores under a trade id its last entry. |
| Trading.ConfirmTradeAllowsListed | steam-inventory-manager/classes/account.py:172-192 | A trade whose confirmation is on the fetched page gets exactly the list request and then an allow request for the page's last entry for it, and succeeds exactly when the allow reply has `success`, raising `FailedTrade` otherwise. |
| Trading.ConfirmTradeWithoutEntry | steam-inventory-manager/classes/account.py:175-187 | When the trade's confirmation is absent and the page is empty, confirming raises `AttributeError` after only the list request. |
| Trading.Trade | steam-inventory-manager/classes/account.py:126-154 | The offer is sent first, with the account's session id (which is the shared secret). A truthy `strError` raises `TradeError` with exactly that text, with no confirmation attempt. A missing `tradeofferid` raises `KeyError` and an unparsable one `ValueError`, also without confirmation. Otherwise the rest of the run is that trade's confirmation, errors included, and success returns `int(tradeofferid)`. The confirmation uses the corrected `SteamGuard.ConfirmationCode`. |
| Trading.AcceptTrade | steam-inventory-manager/classes/account.py:156-170 | The accept request goes out first with the session id, the trade id and the partner, and the rest is the confirmation of that trade, errors included. The confirmation uses the corrected `SteamGuard.ConfirmationCode`. |
| Trading.TradeConfirmsLikeAccept | steam-inventory-manager/classes/account.py:152-170 | Once the offer's id parses, `trade` ends exactly as `accept_trade` of that id would: the same account, the same confirmation requests and the same outcome, returning the id on success. |
| Trading.OffersCarrySharedSecret | steam-inventory-manager/classes/account.py:100-101 | Whatever login did, the session id in an accept request is the shared secret. |
| Items.ExteriorFromValue | steam-inventory-manager/classes/inventory.py:48 | `ItemExterior(value)` finds exactly the member whose value is the string. |
| Items.TypeValues | steam-inventory-manager/classes/inventory.py:31 | `[x.value for x in Type]` has one value per member, and a string is in it exactly when it names a type. |
| Items.ExteriorsListsEveryMember | steam-inventory-manager/datatypes.py:34-39 | The list of exteriors has every member. |
| Items.TypeFromValue | steam-inventory-manager/datatypes.py:42-58 | `ItemType(value)` finds exactly the member whose value is the string. |
| Items.ItemTypesListsEveryMember | steam-inventory-manager/datatypes.py:42-58 | The list of item types, in declaration order, has every member. |
| Items.WeaponsAreFirstEight | steam-inventory-manager/datatypes.py:75-87 | `is_weapon` holds exactly for the eight weapon kinds declared first. It is false for no type and for the six other kinds. |
| Items.IsWeapon | steam-inventory-manager/datatypes.py:75-87 | `is_weapon` (a definition; `Items.WeaponsAreFirstEight` states which types it holds for). |
| Items.StripExteriorOfSuffixed | steam-inventory-manager/datatypes.py:89-91 | For any suffix-free formatting of exteriors, stripping the formatted suffix recovers the name and the exterior. |
| Items.ValueEndingDetermines | steam-inventory-manager/datatypes.py:34-39 | The last three characters of an exterior's value determine the exterior. |
| Items.ParenSuffixDetermines | steam-inventory-manager/datatypes.py:91 | If one exterior's ` (value)` suffix ends another's, they are the same exterior. |
| Items.ParenSuffixFree | steam-inventory-manager/datatypes.py:91 | No ` (value)` suffix is a proper suffix of another's. |
| Items.MarketNameRoundTrip | steam-inventory-manager/datatypes.py:89-91 | A market name with an exterior parses back into the item's name and exterior. |
| Items.MarketName | steam-inventory-manager/datatypes.py:89-91 | The market name with ` (exterior)` appended when there is one (a definition; `Items.MarketNameRoundTrip` states that it parses back). |
| Items.TradeAsset | steam-inventory-manager/datatypes.py:93-96 | The trade asset has exactly the keys appid, contextid, amount and assetid, each holding the item's field unchanged. |
| Items.TradeAssetProjection | steam-inventory-manager/datatypes.py:93-96 | Two items give the same trade asset exactly when they agree on appid, contextid, amount and assetid. |
| Items.MedianOfFirst | steam-inventory-manager/datatypes.py:107-111 | The median of the first window present in the queue, or -1 when none is present. |
| Items.PriceOf | steam-inventory-manager/datatypes.py:98-111 | -1 when the market name is not in the table or its entry has no `price`. Otherwise it is the median of the first of 30_days, all_time, 7_days and 24_hours present, or -1 when none is present. |
| Items.Price | steam-inventory-manager/datatypes.py:98-111 | `price` looked up under the market name (a definition; `Items.PriceOf` states its cases). |
| Items.TradeDecision | steam-inventory-manager/datatypes.py:113-128 | An enabled always-trade flag matching the type gives true whatever the price. Otherwise the decision fails exactly when the price lookup fails, and is true exactly for a price that is not -1 and below the minimum. |
| Items.ShouldBeTradedCases | steam-inventory-manager/datatypes.py:113-128 | `should_be_traded` is true under a matching always-trade flag. Otherwise it is false for an unpriced item, and true exactly for a price other than -1 below the minimum. |
| Items.ShouldBeTraded | steam-inventory-manager/datatypes.py:113-128 | `should_be_traded` (a definition; `Items.TradeDecision` and `Items.ShouldBeTradedCases` state its cases). |
| Items.WeaponsTradedByPriceOnly | steam-inventory-manager/datatypes.py:113-128 | No always-trade flag covers a weapon: a weapon's decision depends on its price alone. |
| Items.ShouldBeTradedMonotone | steam-inventory-manager/datatypes.py:127-128 | Raising the minimum price never withdraws an item from trading. |
| LegacyItems.SpaceSuffixFree | steam-inventory-manager/types.py:79 | No ` value` suffix of the older market name is a proper suffix of another's. |
| LegacyItems.MarketNameRoundTrip | steam-inventory-manager/types.py:77-79 | An older-style market name with an exterior parses back into the name and exterior. |
| LegacyItems.ShouldBeTradedCases | steam-inventory-manager/types.py:89-119 | The older `should_be_traded` is true under a matching always-trade flag, and otherwise true exactly for a price other than -1 below the minimum. The price uses the same queue and -1 sentinel, looked up by the older market name. |
| LegacyItems.RevisionsAgreeWithoutExterior | steam-inventory-manager/types.py:77-119 | Without an exterior the two revisions give the same market name, price and decision. |
| LegacyItems.RevisionsDisagreeWithExterior | steam-inventory-manager/types.py:79 | With an exterior the two market names always differ, so the revisions can look up different prices. |
| LegacyItems.MarketName | steam-inventory-manager/types.py:77-79 | The older market name, with ` exterior` appended (a definition; `LegacyItems.MarketNameRoundTrip` states that it parses back). |
| LegacyItems.Price | steam-inventory-manager/types.py:89-102 | The older `price`, looked up under the older market name (a definition; `LegacyItems.RevisionsAgreeWithoutExterior` relates it to `Items.Price`). |
| LegacyItems.ShouldBeTraded | steam-inventory-manager/types.py:104-119 | The older `should_be_traded` (a definition; `LegacyItems.ShouldBeTradedCases` states its cases). |
| Inventory.FirstDescription | steam-inventory-manager/classes/inventory.py:25 | The description chosen is the first whose classid matches the asset's; None means none matches. |
| Inventory.FirstExteriorLine | steam-inventory-manager/classes/inventory.py:33-35 | The first description line starting with `Exterior: `, or None when no line does. |
| Inventory.FirstTypeTag | steam-inventory-manager/classes/inventory.py:36 | The first tag of category `Type`, or None when no tag has it. |
| Inventory.RawExterior | steam-inventory-manager/classes/inventory.py:33-38 | `raw_exterior` is absent exactly when no description line starts with `Exterior: `. Otherwise it is `split("Exterior: ")[-1]` of the first such line, and contains no `Exterior: `. |
| Inventory.RawType | steam-inventory-manager/classes/inventory.py:31-39 | `raw_type` is present exactly when there is a tag of category `Type` and the first such tag's name is a type value; it is then that name. |
| Inventory.ExteriorOf | steam-inventory-manager/classes/inventory.py:38-48 | No text or empty text gives no exterior. Other text gives the exterior it names, or `ValueError` when it names none. |
| Inventory.ShapeAsset | steam-inventory-manager/classes/inventory.py:21-61 | With no matching description the lookup raises `TypeError`. An untradable description gives no item. Otherwise the item has the description's name, appid 730, contextid "2", `int(amount)`, the asset's assetid, the parsed exterior, and a type exactly when the first Type tag names one. It fails exactly when the amount or the exterior does not parse. |
| Inventory.ShapeItems | steam-inventory-manager/classes/inventory.py:13-63 | Shaping fails exactly when some asset fails, with the error of the first failing asset, every earlier one having shaped. Otherwise it yields one item per asset that yields one, in asset order. |
| Inventory.ShapeItemsProvenance | steam-inventory-manager/classes/inventory.py:21-61 | Every item comes from some asset shaped on its own. |
| Inventory.ItemsToTrade | steam-inventory-manager/classes/inventory.py:65-67 | The order-preserving sublist of the items that `should_be_traded`, with their count. It fails exactly when some decision fails. |

## Left out

- HTTP, HTML parsing and the cache file are not modelled. Each reply is an input record, as are the probe URL of `_is_logged_in`, the parsed confirmation page and the decoded cache record. The requests sent are recorded as `Effects.Effect` values.
- `generate_session_id` is a parameter (`freshSessionId`), because it draws from `secrets`.
- The clock (`time()`) is a parameter wherever it is read.
- `do_no_cache` is not modelled: it is float wall-clock arithmetic that only feeds a request field.
- RSA encryption of the password (`encrypted_password`, `_rsa_key`) is not modelled: the login request carries the plain password, standing for its encryption.
- HMAC-SHA1, SHA-1 and Base64 are uninterpreted fields of `SteamGuard.Primitives`, with length facts only.
- The `print` in `generate_device_id` is dropped, since it is output only.
- `trade_token` is a parameter of the partner, because it is scraped from a web page.
- The trade offer message, which embeds the current date, is left out, and so are `priorities`, `__repr__` and the `session` property.
- The cookie `secure` flag and paths are not modelled. Every cookie has path `/`, so `list(session.cookies)` is modelled as sorted by domain and then by name (`Cookies.Listing`); a jar with other paths would list in a finer order.
- Every cookie in the jar at login time is copied to the Steam domains, including those restored from the cache and those of the login reply. Cookies set by other requests (the RSA key request, the profile probe) are not modelled.
- Only the login reply can be non-JSON. Other replies are assumed to decode, with fields of the expected JSON types.
- An empty cached record is treated like a missing one. Both are falsy in `_restore_session`.
- `steam_id64` is an integer (`Option<int>`), and `assetid` and `data-confid` are kept as the strings Steam sends.
- Decimal.ParseInt: Python's `int()` also accepts surrounding whitespace, digit underscores and non-ASCII Unicode decimal digits; the model accepts only an optional sign followed by ASCII digits.
- The `PRICES` table and `config.options` are parameters (`PriceTable`, `ConfigurationOptions`), not globals loaded at import.
- `inventory.py` imports `Exterior` and `Type` from `datatypes.py` (steam-inventory-manager/classes/inventory.py:6), which defines `ItemExterior` and `ItemType`. As written that import raises `ImportError`, since those names do not exist there. The model uses `ItemExterior` and `ItemType`, since their values are what `types.py` calls `Exterior` and `Type`.
- Inventory.ExteriorOf: the `ValueError` message quotes the value with single quotes; Python's `%r` switches to double quotes when the value itself contains a single quote.
- Inventory.ShapeItems: relates items to assets by position in asset order, not by asset id. Steam lists each asset id once, but the model does not rely on that: with a repeated id, `Inventory.ShapeItemsProvenance` does not say which of those assets an item came from.
- A trade whose confirmation is missing from the map raises `AttributeError`, because the code dereferences it without a check (steam-inventory-manager/classes/account.py:175-187).
- `_fetch_confirmations` only adds to the confirmation map and never clears it (steam-inventory-manager/classes/account.py:305-313). Entries already stored stay until a later entry for the same trade replaces them (`Trading.StoreEntriesLastWins`).
- The `session_id` property returns the shared secret (steam-inventory-manager/classes/account.py:100-101). The model keeps this, so session-id cookies and trade payloads carry the shared secret (`Trading.OffersCarrySharedSecret`).
- Session.CompleteLogin: composes the corrected `_log_session` (`Session.LogSession`). As written, a cacheable success raises `TypeError` instead (`Session.LoginAsWritten`).
- Session.AttemptLogin: composes the corrected `_log_session`. It also assumes requests 2.27 or later, where a non-JSON body raises a `RequestException` subclass; older versions raise `json.JSONDecodeError`, which becomes `LoginError`.
- Session.Login: composes the corrected `_log_session`; `Session.LoginAsWritten` is the call as written, and `Session.LoginAsWrittenSucceeds` states its outcome.
- Session.LoginSucceeds: states the corrected login. As written, the same reply raises `TypeError` when the session is worth caching (`Session.LoginAsWrittenSucceeds`).
- Trading.ConfirmationParams: uses the corrected three-argument `SteamGuard.ConfirmationCode`. As written, the call raises `TypeError` before any confirmation request (`SteamGuard.ConfirmationCallSitesRaise`).
- Trading.FetchConfirmations: built on `Trading.ConfirmationParams`, so as written it raises `TypeError` before the list request.
- Trading.ConfirmTrade: built on `Trading.FetchConfirmations`, so as written any trade needing mobile confirmation raises `TypeError` before a request is sent.
- Trading.Trade: as written, an offer needing mobile confirmation raises `TypeError` in its confirmation, as for `Trading.ConfirmTrade`.
- Trading.AcceptTrade: as written, an acceptance needing mobile confirmation raises `TypeError` in its confirmation, as for `Trading.ConfirmTrade`.
- `cache.py` internals (Fernet, file paths and the machine-derived key), `logger.py`, `config.py`, `exceptions.py` beyond its class names, and `__main__.py` are not part of this model.

## Findings

| source | as written | input that shows it | evidently intended | confidence | as-written member | corrected member |
|---|---|---|---|---|---|---|
| steam-inventory-manager/utils.py:63 | `generate_confirmation_code(identity_secret, tag)` takes two parameters, but classes/account.py:181 and :288 pass a timestamp as a third. | Any trade that needs mobile confirmation: `generate_confirmation_code(secret, "conf", 1700000000)` raises `TypeError`. | The signature takes the timestamp that goes into the query's `t`. | not executed | SteamGuard.ConfirmationCodeAsWritten | SteamGuard.ConfirmationCode |
| steam-inventory-manager/cache.py:73 | `store_session_data(account_name, data)`, but classes/account.py:341-346 passes `session_id=`, `steam_id64=` and `steam_login_secure=` as keywords. | A login whose `steamLoginSecure` cookie, session id and steam id are all set: the call raises `TypeError`, so the cache is never written (`Session.LogSessionAsWrittenNeverStores`), and `login` raises after marking the account logged in (`Session.LoginAsWrittenSucceeds`). | The three values are passed as the `data` record that `session_data` later returns. | not executed | Session.LogSessionAsWritten | Session.LogSession |
