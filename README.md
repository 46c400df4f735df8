# Video share server: request-time core

This project models the request-time core of `super_badass_videos_web_server.py`, a Flask server that shares a folder of videos on a local network. The server also has a second, password-gated secret folder. The model covers six parts:

- **Token table** (module `Tokens`). A correct password issues a random capability token. `/videos` and `/video/...` check it read-only. The index page consumes it once: it sweeps expired tokens first, then marks the token used. `/invalidate-token` deletes it. The maintenance loop sweeps tokens whose first use lapsed after 300 s, or whose use is more than an hour old. Tokens come as records `{expire_time, used_time}` and in the legacy form of a bare number, where `-1` means consumed.
- **Client registry** (module `Connections`). One record per client address, kept in insertion order like a Python dict. A new address is tracked before every request. When 100 clients are tracked, it first evicts the 10 oldest by `last_seen`, using a stable sort. A known address is refreshed. `/update-status` merges a player report. The maintenance loop removes clients silent for more than 30 s. `/monitor-data` returns a snapshot, gated by optional operator credentials.
- **Interface-name cache** (module `Interfaces`). Maps a server address to its network interface. The map is rebuilt when it is more than 60 s old.
- **Video listing** (module `Catalog`). A walk of a share folder keeps the files with one of nine video extensions, as `/`-separated relative paths. There is one cached listing per folder, served for up to 300 s.
- **Video route** (module `Streaming`). The MIME type comes from the file extension. Without a `Range` header, the full body is read in 64 KiB chunks. With one, the route parses the header, clamps it and answers 206 with `Content-Range` (sections 14.2, 14.4 and 15.3.7 of RFC 9110).
- **Maintenance cycle and listing route** (module `Server`). One cycle expires clients, sweeps tokens and picks the next pause from the client count. `/videos` picks the folder by token validity.

`Text` holds the Python built-ins these parts rely on: `int()` on a decimal string, `str()` of a natural number, `split`, `replace`, `lower` and `endswith`.

Several inputs become parameters, because they are clock readings, randomness or operating-system queries:
- Time is an integer parameter `now`.
- The random token is an `id` parameter.
- The interface enumeration is a list of `Nic` records.
- The directory walk is a list of `(relative directory, file name)` pairs.
- File existence, file bytes and the read that raises `IOError` are parameters of `Serve`.

The two shared dictionaries become classes with `modifies` clauses:
- `Tokens.TokenStore`, over a `map`.
- `Connections.Registry`, over a `seq` of entries, so that dict order is part of the state.

Each method is proved against a specification function. The lemmas state what the source promises about those functions.

## Model

| member | source | states |
|---|---|---|
| Tokens.Swept | super_badass_videos_web_server.py:194-215 | the swept table keeps exactly the identifiers that are not expired, with their records unchanged |
| Tokens.InfoValid | super_badass_videos_web_server.py:222-236 | the validity of a present token: a legacy -1 always, another legacy number while it lies after `now`, an unused record while its expire_time lies after `now`, a used record until 3600 s after its use (all five branches are stated by `ValidityCases`) |
| Tokens.TokenValid | super_badass_videos_web_server.py:217-221 | an empty or absent identifier is never valid; a present one is judged by `InfoValid`, and nothing is changed |
| Tokens.Expired | super_badass_videos_web_server.py:199-210 | the sweep condition, with strict comparisons: a positive legacy number or an unused positive expire_time that `now` has passed, or a use more than 3600 s ago (`SweepRemovesExactly`, `ConsumeAtDeadline`) |
| Tokens.Spent | super_badass_videos_web_server.py:327-343 | the tokens the index page rejects as reused: a legacy number <= 0 or a record with a used_time (`SpentStaysSpent`) |
| Tokens.ExpiredIds | super_badass_videos_web_server.py:196-210 | the identifiers the collect pass gathers: those present whose entry is `Expired` |
| Tokens.Consumption | super_badass_videos_web_server.py:323-345 | the consume branch: an empty argument changes nothing; otherwise the table is swept, an absent id is Unknown, a spent one AlreadyUsed, and a fresh one is marked used (legacy becomes -1, a record gets used_time = now) (`IssueThenConsume`, `LegacyConsume`, `AtMostOneSuccess`) |
| Tokens.Issued | super_badass_videos_web_server.py:1705-1712 | a correct password stores an unused record expiring 300 s after `now` under the new id; a wrong one leaves the table as it was (`IssueAddsOne`) |
| Tokens.Invalidated | super_badass_videos_web_server.py:1720-1722 | a present, non-empty id is deleted and every other case is the identity (`InvalidateIdempotent`) |
| Tokens.TokenStore.Sweep | super_badass_videos_web_server.py:194-215 | the two loops (collect, then delete) leave the swept table and return the number of expired identifiers |
| Tokens.TokenStore.Issue | super_badass_videos_web_server.py:1701-1715 | success exactly when the password matches; then the new identifier maps to an unused record expiring at now+300 and is returned; otherwise nothing changes |
| Tokens.TokenStore.Consume | super_badass_videos_web_server.py:318-345 | empty argument: no change; otherwise sweep, then unknown, consumed (marked used now, or -1 for a legacy number) or already used |
| Tokens.TokenStore.Invalidate | super_badass_videos_web_server.py:1717-1723 | always 204; a present non-empty identifier is deleted, nothing else changes |
| Tokens.ValidityCases | super_badass_videos_web_server.py:217-238 | validity in each of the five cases: absent or empty, unused record, used record, legacy -1, other legacy number |
| Tokens.SweepKeepsValidity | super_badass_videos_web_server.py:194-238 | a sweep at the same instant never changes the validity answer, and keeps consumed legacy tokens |
| Tokens.SweepRemovesExactly | super_badass_videos_web_server.py:194-215 | an identifier survives the sweep iff it is present and not expired, unchanged, and the size drops by the number of expired identifiers |
| Tokens.IssueAddsOne | super_badass_videos_web_server.py:1707-1712 | a correct password adds one unused record for a fresh identifier and keeps every other record; a wrong one changes nothing |
| Tokens.InvalidateIdempotent | super_badass_videos_web_server.py:1717-1723 | invalidation removes the identifier, is idempotent and keeps every other record |
| Tokens.IssueThenConsume | super_badass_videos_web_server.py:324-345 | a token issued at t and presented by t+300 is consumed; it then validates exactly until an hour after use; a second presentation is rejected as used, or as unknown after the hour |
| Tokens.ConsumeAtDeadline | super_badass_videos_web_server.py:324-345 | at now == expire_time an unused record is already invalid yet is still consumed, because the sweep deletes only after the deadline |
| Tokens.LegacyConsume | super_badass_videos_web_server.py:327-333 | a positive legacy number is consumed and becomes -1; zero or a negative number is rejected as used |
| Tokens.SpentStaysSpent | super_badass_videos_web_server.py:324-345 | a token already used is never consumed again along any sequence of issue, consume, invalidate and sweep requests that does not re-issue it |
| Tokens.AtMostOneSuccess | super_badass_videos_web_server.py:324-345 | along any sequence of requests with fresh issued identifiers, each token is consumed successfully at most once |
| Interfaces.NameTableDomain | super_badass_videos_web_server.py:141-146 | an address is in the rebuilt table iff some IPv4 listing carries it |
| Interfaces.NameTable | super_badass_videos_web_server.py:141-146 | the rebuilt table: every IPv4 address of the enumeration mapped to its interface, a later listing overwriting an earlier one (`NameTableDomain`, `NameTableLastWins`) |
| Interfaces.Refreshed | super_badass_videos_web_server.py:139-149 | the table consulted at `now`: rebuilt only when the cache is more than 60 s old, otherwise the cached one |
| Interfaces.NameIn | super_badass_videos_web_server.py:151 | the table entry for the address, or "未知接口" when it has none |
| Interfaces.NameTableLastWins | super_badass_videos_web_server.py:141-146 | the last IPv4 listing of an address decides its interface name |
| Interfaces.InterfaceCache.Lookup | super_badass_videos_web_server.py:133-151 | the table is rebuilt exactly when older than 60 s (then stamped now); the answer is the table's name or the unknown-interface text |
| Connections.ServerHost | super_badass_videos_web_server.py:289 | the server address is the longest prefix of the Host header free of ':' |
| Connections.Find | super_badass_videos_web_server.py:290-295 | the position of a client address in the registry (the `client_ip in active_connections` tests), or -1 exactly when no entry carries it |
| Connections.PortText | super_badass_videos_web_server.py:288 | the client port as reported, or "N/A" when the environment has none |
| Connections.NewConn | super_badass_videos_web_server.py:300-311 | the record a new address starts with: its server address, port, interface and `now` as last_seen, video "未播放", zero position, duration and bandwidths |
| Connections.OldestIndex | super_badass_videos_web_server.py:275-278 | the head of the registry stably sorted by `last_seen` (`OldestIndexIsOldest`) |
| Connections.EvictOldest | super_badass_videos_web_server.py:276-279 | deleting the first `count` entries of the stable sort by `last_seen`, one head at a time (`EvictSize`, `EvictIsWithout`, `EvictOldestFirst`, `EvictStable`) |
| Connections.Evicted | super_badass_videos_web_server.py:276-279 | the set of entries `EvictOldest` deletes (`EvictedFromRegistry`, `EvictIsWithout`) |
| Connections.Cleanup | super_badass_videos_web_server.py:272-279 | only a registry holding at least 100 entries is thinned (`CleanupMakesRoom`) |
| Connections.OldestIndexIsOldest | super_badass_videos_web_server.py:275-278 | the entry evicted first has the smallest last_seen, and it is the first entry with that value |
| Connections.EvictSize | super_badass_videos_web_server.py:276-279 | evicting count entries removes min(count, size) of them |
| Connections.EvictIsWithout | super_badass_videos_web_server.py:276-279 | eviction deletes exactly the evicted set and keeps the rest unchanged and in order |
| Connections.EvictKeeps | super_badass_videos_web_server.py:276-279 | every kept entry was in the registry |
| Connections.EvictedFromRegistry | super_badass_videos_web_server.py:276-279 | every evicted entry was in the registry |
| Connections.EvictOldestFirst | super_badass_videos_web_server.py:276-279 | every evicted entry is at least as old (last_seen) as every kept one |
| Connections.EvictStable | super_badass_videos_web_server.py:276-279 | between an evicted and a kept entry with equal last_seen, the evicted one was inserted first (the sort is stable) |
| Connections.EvictDistinct | super_badass_videos_web_server.py:276-279 | eviction keeps addresses distinct |
| Connections.CleanupMakesRoom | super_badass_videos_web_server.py:291-297 | below capacity the cleanup changes nothing; at capacity it leaves 90 entries, so the second capacity check cannot fire before the insert |
| Connections.StaleListIsStale | super_badass_videos_web_server.py:248-249 | the collected list holds exactly the entries silent for more than 30 s |
| Connections.Stale | super_badass_videos_web_server.py:248-249 | the entries silent for more than 30 s (`ExpiryKeepsExactly`) |
| Connections.StaleList | super_badass_videos_web_server.py:248-249 | the list comprehension of the cycle: the silent entries in registry order (`StaleListIsStale`) |
| Connections.ExpiryKeepsExactly | super_badass_videos_web_server.py:245-253 | after expiry an entry remains iff it was tracked and heard from within 30 s |
| Connections.Registry.CleanupOldest | super_badass_videos_web_server.py:272-279 | the registry becomes the cleanup of the old one (the count oldest removed only at capacity), addresses distinct and within capacity |
| Connections.Registry.Track | super_badass_videos_web_server.py:281-315 | monitor paths change nothing; a known address gets last_seen=now and the new port; a new one is appended, after the capacity cleanup, with a fresh record carrying the interface name, and the interface cache ends in the state `Lookup` leaves it in (rebuilt and stamped `now` only when more than 60 s old); monitor paths and known addresses leave the cache untouched |
| Connections.Registry.UpdateStatus | super_badass_videos_web_server.py:1725-1740 | always success; a tracked client gets the reported video, position and duration (with their defaults) and last_seen=now; unknown clients change nothing |
| Connections.Registry.CollectStale | super_badass_videos_web_server.py:248-249 | the collect pass returns exactly `StaleList` of the registry, in registry order, and changes nothing |
| Connections.Registry.DeleteEach | super_badass_videos_web_server.py:251-253 | deleting a list of distinct tracked entries by address leaves the registry without them, the others kept in order |
| Connections.Registry.ExpireInactive | super_badass_videos_web_server.py:244-253 | the registry becomes the old one without its stale entries, order kept |
| Connections.Registry.Snapshot | super_badass_videos_web_server.py:2385-2402 | one view per entry in registry order, with distinct client addresses |
| Connections.ViewOf | super_badass_videos_web_server.py:2389-2399 | one row of the `/monitor-data` snapshot: the client address and the fields of its record |
| Connections.Registry.MonitorData | super_badass_videos_web_server.py:2375-2417 | 401 exactly when credentials are configured and not matched; otherwise the count twice and the snapshot |
| Streaming.Ext | super_badass_videos_web_server.py:2439 | the extension is empty or a suffix of the name that starts with its only '.' and holds no path separator, so it lies inside the last component |
| Streaming.MimeOf | super_badass_videos_web_server.py:2440-2449 | the eight-entry MIME table; `.wmv` has no entry (`WmvFallsBack`) |
| Streaming.MimeType | super_badass_videos_web_server.py:2439-2450 | the table entry for the lower-cased extension, `video/mp4` when there is none (`MimeTypeOfName`) |
| Streaming.ExtOfName | super_badass_videos_web_server.py:2439 | a last component stem.suffix with a non-dot in the stem has extension .suffix |
| Streaming.ExtOfDotName | super_badass_videos_web_server.py:2439 | a last component that is a dot followed by a suffix, such as `.mp4`, has no extension |
| Streaming.MimeTypeOfName | super_badass_videos_web_server.py:2439-2450 | the MIME type is the table entry for the lower-cased suffix, or video/mp4 when the table has none |
| Streaming.WmvFallsBack | super_badass_videos_web_server.py:2440-2450 | `.wmv`, though listed, has no table entry and is served as video/mp4 |
| Streaming.FlattenChunks | super_badass_videos_web_server.py:2456-2465 | the chunks put together are the whole file |
| Streaming.Chunks | super_badass_videos_web_server.py:2456-2463 | the chunks a successful read loop yields: 65536 bytes at a time, the last one shorter, none for an empty file (`FlattenChunks`, `ChunkSizes`, `ChunkCount`) |
| Streaming.ChunkStream | super_badass_videos_web_server.py:2456-2466 | what the client receives when read number k raises `IOError`: the chunks read before it, then one empty chunk (`ReadChunks`) |
| Streaming.ChunkSizes | super_badass_videos_web_server.py:2459-2463 | every chunk is non-empty and at most 65536 bytes; all but the last are full |
| Streaming.ChunkCount | super_badass_videos_web_server.py:2459-2463 | there are ceil(size / 65536) chunks |
| Streaming.ReadChunks | super_badass_videos_web_server.py:2456-2465 | the read loop yields the chunk stream, with one empty chunk after the reads that precede an IOError |
| Streaming.Clamp | super_badass_videos_web_server.py:2485-2487 | length = last-first+1; for a non-empty file 0 <= first <= last < size and 1 <= length <= size; a request inside the file is kept exactly; an empty file gives 0-0 of length 1 |
| Streaming.ParseRangeRoundTrip | super_badass_videos_web_server.py:2478-2483 | `bytes=A-B` with decimal bounds of at most 4300 digits parses back to (A, B) |
| Streaming.ParseRange | super_badass_videos_web_server.py:2478-2483 | the two bounds of the Range header: `bytes=` removed everywhere, the rest split on '-', an empty first piece 0 and an empty second piece size-1, and None for the missing second piece or a bound `int()` rejects (`ParseRangeRoundTrip`, `ParseRangeOpenEnd`, `ParseRangeSuffix`, `ParseRangeNoDash`) |
| Streaming.ParseRangeOpenEnd | super_badass_videos_web_server.py:2478-2483 | `bytes=A-` with A of at most 4300 digits parses to (A, size-1) |
| Streaming.ParseRangeSuffix | super_badass_videos_web_server.py:2478-2483 | `bytes=-B` with B of at most 4300 digits parses to (0, B), not to a suffix range |
| Streaming.ParseRangeNoDash | super_badass_videos_web_server.py:2479-2481 | a header with no '-' once `bytes=` is removed fails to parse (the route answers 500) |
| Streaming.ParseRangeHugeBound | super_badass_videos_web_server.py:2479-2481 | a first bound of more than 4300 digits makes `int()` raise, so the request is a 500 rather than a clamped 206 |
| Streaming.Bound | super_badass_videos_web_server.py:2480-2483 | an empty piece keeps the default bound (0 or size-1); any other piece goes through `int()` |
| Streaming.ContentRange | super_badass_videos_web_server.py:2495 | the `Content-Range` value `bytes first-last/size` in decimal (`RequestedRange`) |
| Streaming.RequestedRange | super_badass_videos_web_server.py:2478-2499 | for A <= B < size, both of at most 4300 digits, `bytes=A-B` is answered for bytes A..B with `Content-Range: bytes A-B/size`; `bytes=A-` covers A..size-1 |
| Streaming.Serve | super_badass_videos_web_server.py:2427-2499 | 404 when the file is missing; 200 with Content-Length and Accept-Ranges and the chunk stream when there is no Range; 500 when it fails to parse; otherwise 206 with the clamped Content-Range, Accept-Ranges and Content-Length |
| Catalog.RelPath | super_badass_videos_web_server.py:184-186 | a listed path never holds a backslash |
| Catalog.IsVideo | super_badass_videos_web_server.py:183 | the lower-cased file name ends with one of the nine listed extensions, `.wmv` included |
| Catalog.Listing | super_badass_videos_web_server.py:181-186 | the video files of the walk, in walk order, as relative paths (`ListingIsClean`, `ListingComplete`, `Scan`) |
| Catalog.Scan | super_badass_videos_web_server.py:181-186 | the scan loop yields the listing of the walk |
| Catalog.KeepsExtension | super_badass_videos_web_server.py:183-186 | a listed path, lower-cased, keeps the extension its file name ends with |
| Catalog.ListingIsClean | super_badass_videos_web_server.py:181-186 | every listed path is the relative path of a video file of the walk, ends with a video extension and holds no backslash |
| Catalog.ListingComplete | super_badass_videos_web_server.py:181-186 | every video file of the walk is listed |
| Catalog.ListingCache.List | super_badass_videos_web_server.py:161-192 | a fresh non-empty cache younger than 300 s is served unchanged; otherwise the listing (empty when the folder is missing) is stored, stamped now and returned |
| Catalog.ListingCache.Fresh | super_badass_videos_web_server.py:168 | the cached listing is served only when no refresh is forced, it is non-empty and it is younger than 300 s |
| Catalog.Library.VideoList | super_badass_videos_web_server.py:161-192 | only the chosen folder's cache is consulted and updated; a hit returns the cached listing and leaves that cache as it was, a miss stores the new listing stamped `now` |
| Server.NextInterval | super_badass_videos_web_server.py:258-265 | the pause is 30, 60, 120 or 300 s: 30 iff more than 50 clients, 300 iff none |
| Server.IntervalNonIncreasing | super_badass_videos_web_server.py:258-265 | more clients never mean a longer pause |
| Server.MaintenanceCycle | super_badass_videos_web_server.py:240-265 | the cycle expires stale clients, sweeps the token table, reports the number swept and pauses by the client count before expiry |
| Server.Videos | super_badass_videos_web_server.py:2419-2425 | a valid token selects the secret folder's listing, otherwise the public one; a hit returns the cached listing and leaves that cache as it was; the other cache is untouched |
| Text.ParseDecimal | super_badass_videos_web_server.py:2481-2483 | `int(str(n)) == n` for the `int()` the range bounds go through, when `str(n)` has at most 4300 digits |
| Text.ParseInt | super_badass_videos_web_server.py:2481-2483 | Python's base-10 `int()` on a string: surrounding ASCII whitespace, an optional sign, digits grouped by single underscores, at most 4300 digits (the default limit of Python 3.11 and later), None for anything else (`ParseIntOfDigits`, `ParseDecimal`, `ParseIntDigitLimit`) |
| Text.ParseSigned | super_badass_videos_web_server.py:2481-2483 | `int()` after whitespace removal: a leading '-' negates and a leading '+' is dropped before the digit groups |
| Text.DigitsBody | super_badass_videos_web_server.py:2481-2483 | the unsigned digit groups: their value when they hold at most 4300 digits, underscores not counted, None otherwise |
| Text.ParseIntOfDigits | super_badass_videos_web_server.py:2481-2483 | a non-empty digit string is read as its own value when it has at most 4300 digits, and rejected otherwise |
| Text.ParseIntDigitLimit | super_badass_videos_web_server.py:2481-2483 | a digit string longer than 4300 digits is rejected whatever its value |
| Text.Decimal | super_badass_videos_web_server.py:2495 | `str(n)` of a natural number: a non-empty digit string, read back by `int()` (`ParseDecimal`) |
| Text.Split | super_badass_videos_web_server.py:2479 | `str.split` on one character: at least one piece, none holding the separator, and joining them restores the string (`JoinSplit`) |
| Text.RemoveAll | super_badass_videos_web_server.py:2479 | `str.replace(pat, "")`: the occurrences of `pat` found left to right are dropped, never lengthening the string |
| Text.ReplaceChar | super_badass_videos_web_server.py:186 | `str.replace` of one character by another: same length, each occurrence replaced and every other character kept |
| Text.Lower | super_badass_videos_web_server.py:183 | `str.lower` on ASCII: same length, each upper-case ASCII letter lowered and every other character kept |
| Text.JoinSplit | super_badass_videos_web_server.py:2479 | joining the pieces of `split` on the same character gives back the string |

## Left out

- HTML, CSS and JavaScript of the pages (`/`, `/monitor`), including the player's previous/next wrap. The index page is modelled only through its consume branch.
- The tray icon, message boxes, port-conflict handling, configuration loading, `get_all_ip_addresses` and the `access_urls` of `/monitor-data`, `/health-check` and the startup code. These are user-interface and operating-system glue outside the request-time core.
- Locks, threads and the daemon loop. Each operation is modelled as one atomic step, so a race on `valid_tokens`, which has no lock, is not modelled. The 60 s sleep after an exception in the maintenance loop is not modelled either.
- Connections.Registry.Track: the nested `cleanup_oldest_connections` inside the held, non-reentrant lock would deadlock. Under the registry invariant (at most 100 entries) it cannot be reached, and the model asserts this instead of modelling the deadlock.
- Floating-point time. Time is an integer number of seconds. Telemetry (position, duration, bandwidths) is `real`. The source takes these values from the JSON body unchecked, whatever their type.
- A JSON body that is missing or fails to parse in `verify_secret` and `update_status`, where the source raises. The model receives the already-decoded fields.
- A record without `expire_time` (the source defaults it to 0). Every issued record carries one.
- `int()` on non-ASCII digits or non-ASCII whitespace, and `lower()` beyond ASCII letters.
- Text.ParseInt: follows Python 3.11 and later (and the 2022 security releases of 3.7 to 3.10), where `int()` rejects more than 4300 digits. An older interpreter, or a limit changed through `PYTHONINTMAXSTRDIGITS` or `sys.set_int_max_str_digits`, accepts longer bounds. Because of this, `ParseDecimal`, `ParseRangeRoundTrip`, `ParseRangeOpenEnd`, `ParseRangeSuffix` and `RequestedRange` are stated only for bounds of at most 4300 digits.
- Text.Decimal: does not model the same limit on `str()`. Every number the route renders is a file size or an offset inside the file, far below 4300 digits.
- `os.path.splitext` is modelled with Windows separators (`/` and `\`), as is `os.path.join`. `os.walk`, `os.path.relpath`, `os.path.isfile` and file reads are inputs.
- `secrets.token_urlsafe(32)` becomes the `id` parameter, and the freshness of identifiers is a hypothesis (`FreshIssues`). The monitor credentials and the secret password are parameters.
- The 206 body. `generate_range` has only a docstring, so the source sends no body. The model's `Partial` reply carries headers only, and no slice of the file is produced or proved.
- Behaviour of the code that a reader might not expect, which the model follows as written:
  - The 206 reply has no body (see above), although section 14.4 of RFC 9110 has a 206 carry the selected bytes.
  - An empty listing is never served from the cache (`Fresh` requires a non-empty listing), so an empty folder is rescanned on every request.
  - `bytes=-B` means bytes 0..B. Section 14.1.2 of RFC 9110 reads it as the last B bytes (see `ParseRangeSuffix`).
  - A zero-byte file answered with a Range gets `Content-Range: bytes 0-0/0` and `Content-Length: 1` (see `Clamp`).

