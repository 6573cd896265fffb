/** The `GET /asset/:id` route of the local asset server (`server.rs`):
    vault and row checks, a cache of decrypted bodies bounded at 50
    entries, and the shared range handling. */
module Server {
  import opened Wrappers
  import opened Models
  import opened State
  import opened Ranges

  /** Put a freshly decrypted body in the cache. When the cache already
      holds 50 entries, one entry of the hash map's choosing is dropped
      first. */
  method CacheDecrypted(state: AppState, id: string, data: Body)
    requires state.Valid()
    modifies state
    ensures state.Valid()
    ensures unchanged(state`vault, state`serverPort)
    ensures id in state.assetCache && state.assetCache[id] == data
    ensures state.assetCache.Keys <= old(state.assetCache).Keys + {id}
    ensures forall k :: k in state.assetCache && k != id ==> state.assetCache[k] == old(state.assetCache[k])
    ensures |old(state.assetCache)| < CacheLimit ==> state.assetCache == old(state.assetCache)[id := data]
    ensures |old(state.assetCache)| >= CacheLimit ==>
      exists evicted :: evicted in old(state.assetCache)
        && state.assetCache == (old(state.assetCache) - {evicted})[id := data]
  {
    if |state.assetCache| >= CacheLimit {
      var evicted :| evicted in state.assetCache;
      var rest := state.assetCache - {evicted};
      assert rest.Keys == state.assetCache.Keys - {evicted};
      state.assetCache := rest;
    }
    state.assetCache := state.assetCache[id := data];
  }

  /** `get_asset`. `load` is what finding, reading and decrypting the
      asset's file yields; it is consulted only on a cache miss. The vault
      is checked before the cache is used, so a cached body is never served
      while the vault is locked or for an id without a row. The response
      carries no `Access-Control-Allow-Origin` of its own. */
  method GetAsset(state: AppState, id: string, range: Option<string>, load: LoadOutcome)
    returns (resp: Response)
    requires state.Valid()
    modifies state
    ensures state.Valid()
    ensures unchanged(state`vault, state`serverPort)
    ensures old(state.vault).None? ==>
      resp == TextResponse(StatusForbidden, "Vault locked") && state.assetCache == old(state.assetCache)
    ensures old(state.vault).Some? && id !in old(state.vault.value.assets) ==>
      resp == TextResponse(StatusNotFound, "Asset not found") && state.assetCache == old(state.assetCache)
    ensures old(state.vault).Some? && id in old(state.vault.value.assets) ==>
      var mime := old(state.vault.value.assets[id]).mimeType;
      if id in old(state.assetCache) then
        resp == ServeBody(old(state.assetCache[id]), mime, range, false)
        && state.assetCache == old(state.assetCache)
      else
        match load
        case MissingOnDisk =>
          resp == TextResponse(StatusNotFound, "File not found on disk") && state.assetCache == old(state.assetCache)
        case ReadFailed =>
          resp == TextResponse(StatusInternalServerError, "Failed to read file") && state.assetCache == old(state.assetCache)
        case DecryptFailed =>
          resp == TextResponse(StatusInternalServerError, "Failed to decrypt") && state.assetCache == old(state.assetCache)
        case Decrypted(data) =>
          && resp == ServeBody(data, mime, range, false)
          && id in state.assetCache && state.assetCache[id] == data
          && state.assetCache.Keys <= old(state.assetCache).Keys + {id}
          && (forall k :: k in state.assetCache && k != id ==> state.assetCache[k] == old(state.assetCache[k]))
          && (|old(state.assetCache)| < CacheLimit ==> state.assetCache == old(state.assetCache)[id := data])
          && (|old(state.assetCache)| >= CacheLimit ==>
                exists evicted :: evicted in old(state.assetCache)
                  && state.assetCache == (old(state.assetCache) - {evicted})[id := data])
  {
    // 1. Look in the cache.
    var cached: Option<Body> := if id in state.assetCache then Some(state.assetCache[id]) else None;

    // 2. The MIME type from the row.
    if state.vault.None? {
      return TextResponse(StatusForbidden, "Vault locked");
    }
    var assets := state.vault.value.assets;
    if id !in assets {
      return TextResponse(StatusNotFound, "Asset not found");
    }
    var mimeType := assets[id].mimeType;

    // 3. The body: cached, or read and decrypted and then cached.
    var decryptedData: Body;
    match cached {
      case Some(data) =>
        decryptedData := data;
      case None =>
        match load {
          case MissingOnDisk =>
            return TextResponse(StatusNotFound, "File not found on disk");
          case ReadFailed =>
            return TextResponse(StatusInternalServerError, "Failed to read file");
          case DecryptFailed =>
            return TextResponse(StatusInternalServerError, "Failed to decrypt");
          case Decrypted(data) =>
            CacheDecrypted(state, id, data);
            decryptedData := data;
        }
    }

    // 4 and 5. Range handling, else the whole body.
    resp := ServeBody(decryptedData, mimeType, range, false);
  }
}
