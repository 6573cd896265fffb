# rustmate vault backend — a verified Dafny model

rustmate is a note-taking app. Its Tauri backend keeps notes ("shards") and
encrypted media files ("assets") in a per-vault SQLCipher database. It
serves the decrypted assets to the webview in two ways:

- a local axum HTTP server (`GET /asset/:id`), with an in-memory cache of
  decrypted bodies;
- an `asset:` URI scheme.

This project models the sequential logic of that backend and proves what it
does:

- **Asset references.** `link_assets_to_shard` scans a shard's content for
  `asset://` and takes the 36 bytes after each occurrence as an asset id. It
  then makes the shard the owner of every asset row with such an id.
  `AssetRefs.ScanAssetIds` keeps the source's loop (a mutable search start
  and a set filled in place). It is proved to collect exactly the ids of
  *all* occurrences, defined declaratively as `AssetRefs.ReferencedIds`.
  That includes an occurrence that lies inside an id captured earlier: the
  key `asset://` cannot overlap itself, so resuming the search right after
  the key misses nothing.
- **Vault bookkeeping.** `State.AppState` is a class holding three fields:
  - the unlocked vault, or `None` while it is locked;
  - the server port;
  - the asset cache.

  An unlocked vault (`Models.Vault`) is its two tables, `shards` and
  `assets`, as maps from primary key to row. Each command in `Commands` is a
  method on the state. Its contract gives the whole new state for every
  outcome, including that a locked vault changes nothing.
- **MIME guessing.** `Mime.MimeType` is the extension match of
  `import_asset`, proved equal to a lookup in a 14-entry table and
  insensitive to ASCII case.
- **Byte ranges.** Both asset handlers parse and answer the `Range` header
  with the same code. It is modelled once, in `Ranges.ChooseRange` and
  `Ranges.ServeBody`, and both handlers call it. The code does not follow
  RFC 7233 section 2.1:
  - a suffix range `bytes=-N` is read as `bytes=0-N`;
  - in a multi-range header, the comma makes the end unparsable, so it falls
    back to the last byte.

  `total_len - 1` is computed in `u64`. For an empty body it wraps to
  `u64::MAX` (as in a release build), so every `bytes=` request on an empty
  body gets 416.
- **Asset server.** `Server.GetAsset` checks the vault and the row before it
  uses the cache. So a cached body is never served while the vault is
  locked, or for an id whose row is gone. The cache holds at most 50
  entries: on a miss with 50 entries, one entry of the hash map's choosing
  is evicted before the insert.
- **`asset:` scheme.** `Protocol.AssetProtocolHandler` is a pure function of:
  - the request path and `Range` header;
  - a snapshot of the vault;
  - the outcome of loading the file.

  `Protocol.SchemeResponse` is the wrapper registered in `lib.rs`, which turns
  the handler's errors into 500s.

File reads, decryption, UUIDs and the clock are outside the model. They enter
as parameters:

- `Models.LoadOutcome`: what reading and decrypting an asset file gave;
- `Commands.SourceFile`: whether the file to import exists, with its stem and extension;
- an I/O error text for `import_asset`;
- the fresh id;
- the timestamp `now`.

`unlock_vault` gets the result of opening the vault as a parameter.

Some behaviour of the source that the contracts make visible:

- `close_vault`, `unlock_vault` and `delete_shard` leave the asset cache as it
  is. Of the commands, only `delete_asset` removes an entry. Stale entries are never served,
  because the row is looked up first. But an id that gets a row again (for
  example in another vault with the same asset id) is served its old cached
  bytes.
- An imported file without an extension is stored as `<id>.`, with the dot.
- The URI-scheme handler never answers 404. A missing row and a missing file
  are both errors, and the wrapper sends them as 500 with the error text as
  the body.
- `update_shard` on an unknown id fails with rusqlite's "Query returned no
  rows" after an `UPDATE` that changed nothing. `delete_shard` on an unknown
  id succeeds, and still removes any asset row that names that id as owner.

Strings are Dafny `string`s holding UTF-8 code units, one `char` per byte, so
lengths, indices and slices count bytes as Rust's `str` does. Asset bodies are
`seq<byte>`.

## Model

| member | source | states |
|---|---|---|
| StdText.Find | src-tauri/src/commands.rs:253 | `str::find`: a match lies wholly inside the searched text |
| StdText.FindFirstOccurrence | src-tauri/src/commands.rs:253 | the index `find` returns is an occurrence with none before it; `None` only when there is no occurrence at all |
| StdText.Split | src-tauri/src/server.rs:136 | `str::split` on a char yields at least one part, so `parts[0]` always exists |
| StdText.SplitAtFirst | src-tauri/src/server.rs:136 | text without the separator, then the separator, gives that text as the first part followed by the split of the rest |
| StdText.SplitWithoutSep | src-tauri/src/server.rs:136 | text without the separator is a single part |
| StdText.TrimStartMatches | src-tauri/src/protocol.rs:13 | the result is a suffix of the input; every byte removed is the trimmed char; the result does not start with it |
| StdText.ParseU64 | src-tauri/src/server.rs:137-139 | `u64` parsing: a parsed value never exceeds `u64::MAX` |
| StdText.ParseRejectsNonDigit | src-tauri/src/server.rs:137-139 | a string with a non-digit byte after its first byte does not parse |
| StdText.Decimal | src-tauri/src/server.rs:152 | `Display` for integers: one or more digits, with no leading zero unless the value is 0 |
| StdText.DecimalValue | src-tauri/src/server.rs:152 | the digits of `Decimal(n)` read back as `n` |
| StdText.ParseDecimal | src-tauri/src/server.rs:137-152 | parsing what `Display` wrote gives back the same `u64` |
| StdText.AsciiLower | src-tauri/src/commands.rs:145 | lower-casing keeps the length |
| StdText.AsciiLowerIdempotent | src-tauri/src/commands.rs:145 | lower-casing twice is lower-casing once |
| StdText.DecimalVisible | src-tauri/src/server.rs:152 | a formatted number is a valid header value |
| AssetRefs.ReferencedIds | src-tauri/src/commands.rs:253-259 | every referenced id has exactly 36 bytes |
| AssetRefs.SchemeNoSelfOverlap | src-tauri/src/commands.rs:253-261 | two occurrences of `asset://` are at least 8 bytes apart, so resuming after the key skips no occurrence |
| AssetRefs.ScanStep | src-tauri/src/commands.rs:253-261 | one round of the loop adds exactly the id after the match (if 36 bytes remain) and skips no reference before the new start |
| AssetRefs.ScanEnd | src-tauri/src/commands.rs:253 | when the search fails, no reference lies after the start |
| AssetRefs.ScanAssetIds | src-tauri/src/commands.rs:246-262 | the scanning loop terminates and collects exactly `ReferencedIds(content)` |
| AssetRefs.ReferencesSurviveContext | src-tauri/src/commands.rs:253-259 | a reference is found whatever text surrounds it |
| AssetRefs.TruncatedReference | src-tauri/src/commands.rs:255 | a key with fewer than 36 bytes after it contributes no id |
| AssetRefs.SingleReference | src-tauri/src/commands.rs:254-259 | a key followed by one id refers to exactly that id, even if the id contains the key |
| Mime.MimeType | src-tauri/src/commands.rs:145-160 | a MIME type is always produced (the match is total) |
| Mime.MimeTypeIsTableLookup | src-tauri/src/commands.rs:145-160 | the match equals a lookup of the lower-cased extension in the 14-entry table, with `application/octet-stream` for everything else |
| Mime.FallbackExactlyForUnlisted | src-tauri/src/commands.rs:159 | the fallback type is given if and only if the lower-cased extension is not listed |
| Mime.MimeTypeIgnoresCase | src-tauri/src/commands.rs:145 | an extension and its lower-cased form get the same type |
| Mime.JpegSpellings | src-tauri/src/commands.rs:147 | `jpg` and `jpeg`, in any case, give `image/jpeg` |
| State.AppState.constructor | src-tauri/src/state.rs:14-22 | the initial state is locked, with port 0 and an empty cache |
| Commands.LinkAssetsToShard | src-tauri/src/commands.rs:241-273 | every row whose id the content refers to is now owned by this shard, whatever its previous owner; no other row or field changes and no row is added; shards, cache and port are untouched |
| Commands.UnlockVault | src-tauri/src/commands.rs:10-25 | a vault that opens replaces the current one and the result is `Ok(true)`; a failure passes the error on and changes nothing |
| Commands.InitVault | src-tauri/src/commands.rs:27-34 | behaves exactly as `unlock_vault` |
| Commands.CloseVault | src-tauri/src/commands.rs:36-41 | the vault becomes locked; the cache is kept |
| Commands.CreateShard | src-tauri/src/commands.rs:58-88 | locked: "Vault not locked", no change; a taken id: a UNIQUE error, no change; otherwise the row is inserted with `created_at == updated_at == now`, the assets its content refers to are linked, and the returned shard matches the row |
| Commands.UpdateShard | src-tauri/src/commands.rs:196-239 | locked: error, no change; unknown id: "Query returned no rows", no change; otherwise title, content, tags and `updated_at` are replaced, `created_at` is kept and returned, and the assets the new content refers to are linked |
| Commands.DeleteShard | src-tauri/src/commands.rs:309-348 | locked: error, no change; otherwise the shard and exactly the assets it owns are removed and every other asset row is unchanged; an unknown id succeeds; the cache is not touched |
| Commands.ImportAsset | src-tauri/src/commands.rs:121-194 | locked, missing file, I/O error and taken id fail in that order, changing nothing; otherwise a row owned by no shard is added, stored as `<id>.<ext>` under the MIME type of the extension, and returned |
| Commands.DeleteAsset | src-tauri/src/commands.rs:275-307 | locked: error, no change; unknown id: "Asset not found", no change; otherwise the row and its cache entry are removed and the cache bound still holds |
| Ranges.LastIndex | src-tauri/src/server.rs:139-145 | `total_len - 1` in `u64`: the last index of a non-empty body, `u64::MAX` for an empty one |
| Ranges.ChooseRange | src-tauri/src/server.rs:133-145 | the whole body exactly when there is no header, a non-text one, or one without `bytes=`; a chosen part lies inside the body with `start <= end`; an empty body is never served in part |
| Ranges.ExplicitRange | src-tauri/src/server.rs:136-145 | `bytes=S-E` is served from S to `min(E, total-1)` if and only if `S <= E` and `S < total`; otherwise 416 |
| Ranges.OpenEndedRange | src-tauri/src/server.rs:138-142 | `bytes=S-` runs to the last byte; it is unsatisfiable when S is past the end |
| Ranges.SuffixRangeReadFromStart | src-tauri/src/server.rs:136-137 | `bytes=-N` is served as bytes 0 to `min(N, total-1)`, not as the last N bytes |
| Ranges.UnparsableStartReadAsZero | src-tauri/src/server.rs:137 | `bytes=A-E` with a start A that is not a number gets the same answer as `bytes=0-E` |
| Ranges.UnparsableEndRunsToLast | src-tauri/src/server.rs:138-142 | `bytes=S-B` with an end B that is empty or not a number runs from S to the last byte, or is unsatisfiable when S is past the end |
| Ranges.NoDashRunsToLast | src-tauri/src/server.rs:136-141 | `bytes=A` without any `-` runs from A (0 if A is not a number) to the last byte, or is unsatisfiable |
| Ranges.MultiRangeFallsBack | src-tauri/src/server.rs:136-142 | `bytes=S-E,...` ignores E and runs to the last byte |
| Ranges.ServeBody | src-tauri/src/server.rs:130-177 | 200 with the full body and `Accept-Ranges` exactly when no range applies; 206 exactly for a part, with body `data[start..=end]`, its length as `Content-Length`, and `Content-Range: bytes start-end/total`; otherwise 416 with an empty body and `Content-Range: bytes */total` |
| Ranges.EmptyBodyRange | src-tauri/src/server.rs:139-166 | for an empty body, every `bytes=` request gets 416 with `bytes */0` |
| Server.CacheDecrypted | src-tauri/src/server.rs:114-125 | the id maps to the new body; below 50 entries nothing else changes; at 50, exactly one existing entry is evicted first; other entries keep their bodies; the cache never exceeds 50 entries |
| Server.GetAsset | src-tauri/src/server.rs:33-178 | locked: 403; unknown id: 404; neither touches the cache; a cache hit serves the cached body and leaves the cache alone; a miss gives 404/500 for a missing, unreadable or undecryptable file without touching the cache, or serves the decrypted body and caches it: below 50 entries only the id's entry changes, at 50 exactly one existing entry is evicted first, and every other entry keeps its body |
| Protocol.AssetId | src-tauri/src/protocol.rs:12-13 | the id is a suffix of the path that does not start with `/` |
| Protocol.AssetIdOfPath | src-tauri/src/protocol.rs:13 | any number of leading slashes before an id are dropped, and nothing else is |
| Protocol.AssetProtocolHandler | src-tauri/src/protocol.rs:8-121 | 400 "Missing asset ID" if and only if the id is empty; 403 "Vault is locked" if and only if it is not empty and the vault is locked; "Asset not found" if and only if there is no row; the body is served (200/206/416) exactly when the row exists and the file decrypts, and 200/206 carry `Access-Control-Allow-Origin: *` and the MIME type |
| Protocol.SchemeResponse | src-tauri/src/lib.rs:22-30 | a handler error becomes a 500 whose body is the error text; a response passes through unchanged |
| Protocol.SchemeStatuses | src-tauri/src/lib.rs:23-28 | the webview sees 400 exactly for an empty id, 403 exactly while locked, 500 exactly for a missing row or a file that cannot be found, read or decrypted, and never 404 |
| Protocol.SchemeServesLikeServer | src-tauri/src/protocol.rs:75-120 | 200 and 206 occur only with an unlocked vault and an existing row, and are the server's response plus `Access-Control-Allow-Origin: *` |

## Left out

- Encryption and decryption (AES-256-GCM, PBKDF2, the random nonce, and the 12-byte nonce check): the handlers receive the outcome of reading and decrypting as a `LoadOutcome`, and `import_asset` receives an I/O error text or none.
- Opening a vault (the salt file, SQLCipher keying and the password check): `unlock_vault` receives its result.
- `get_shards`, `check_vault_status`, `get_server_port` and `greet`: they read state or the file system and change nothing the model tracks.
- The server start and socket binding: they are I/O.
- SQL text, `ORDER BY updated_at DESC` and the JSON encoding of tags: tables are maps, and tags are a sequence of strings.
- SQL failures other than the ones modelled (a missing row, a taken primary key): these include a failed `UPDATE` inside `link_assets_to_shard`, or a failed `DELETE` that leaves the earlier statements applied.
- Files written, read and removed: the model has no file system. A file left behind when an insert fails is not tracked either.
- UUID generation and `chrono` timestamps: they are parameters.
- Mutexes and lock poisoning: every operation runs to completion before the next starts, so "Failed to lock vault" (500) and the `map_err` on lock failures are not modelled. The same holds for interleavings between the cache read and the cache insert in `get_asset`. The second vault lookup in `get_asset` sees the same vault as the first.
- CORS headers added by axum's `CorsLayer::permissive` and the headers axum adds on its own (such as `Content-Length` of a full response).
- A stored MIME type that is not a valid header value: the server would panic and the URI scheme would return an error. Every type `import_asset` stores is valid.
- Commands.LinkAssetsToShard: modelled for content whose 36-byte slices fall on UTF-8 char boundaries. A slice that splits a multi-byte char panics in the source.
- Mime.MimeType: only ASCII letters are lower-cased. A non-ASCII extension that Unicode lower-casing maps onto a listed one (such as the Kelvin sign for `k`) is not modelled. `to_string_lossy` replacement of non-UTF-8 names is not modelled either.
- Ranges.LastIndex: models the release-build wrap-around of `total_len - 1` on an empty body. A debug build panics there instead.
- Console logging (the `println!` calls in `protocol.rs`, `server.rs` and `lib.rs`): it changes no state and no response.
- Percent-decoding of the axum path parameter and of the URI path: the id is taken as given.
