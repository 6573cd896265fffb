/** The Tauri commands of `commands.rs` that change the vault: unlocking and
    closing it, creating, updating and deleting shards, importing and
    deleting assets, and the asset linking that shard saves trigger. Each
    SQL statement becomes its effect on the two tables; each command
    returns the `Err` text of the source as a `CmdError`. */
module Commands {
  import opened Wrappers
  import opened Models
  import opened State
  import opened AssetRefs
  import Mime

  /** The failures of the commands. */
  datatype CmdError =
    | VaultLocked                   // no vault is unlocked
    | FileNotFound                  // the file to import does not exist
    | AssetNotFound                 // `delete_asset` of an unknown id
    | NoSuchShard                   // `update_shard`'s SELECT found no row
    | DuplicateId(table: string)    // an INSERT hit an existing primary key
    | Io(message: string)           // reading, encrypting or writing a file failed
  {
    /** The `String` the command returns. */
    function Message(): string {
      match this
      case VaultLocked => "Vault not locked"
      case FileNotFound => "File not found"
      case AssetNotFound => "Asset not found"
      case NoSuchShard => "Query returned no rows"
      case DuplicateId(table) => "UNIQUE constraint failed: " + table + ".id"
      case Io(message) => message
    }
  }

  /** What the file system says about the file to import: whether it
      exists, its stem and its extension (empty when it has none). */
  datatype SourceFile = SourceFile(present: bool, stem: string, extension: string)

  /** `after` is `before` with every row whose id `content` refers to now
      owned by `owner`, whatever owned it before; no row is added or
      removed, and no other row or field changes. */
  ghost predicate Relinked(before: map<string, AssetRow>, after: map<string, AssetRow>,
                           owner: string, content: string)
  {
    && after.Keys == before.Keys
    && (forall id :: id in before && id in ReferencedIds(content) ==>
          after[id] == before[id].(shardId := Some(owner)))
    && (forall id :: id in before && id !in ReferencedIds(content) ==> after[id] == before[id])
  }

  /** `link_assets_to_shard`: scan the content for asset ids, then run
      `UPDATE assets SET shard_id = owner WHERE id = ?` once per id. */
  method LinkAssetsToShard(state: AppState, shardId: string, content: string)
    requires state.vault.Some?
    requires state.Valid()
    modifies state
    ensures state.Valid()
    ensures state.vault.Some? && state.vault.value.shards == old(state.vault.value.shards)
    ensures Relinked(old(state.vault.value.assets), state.vault.value.assets, shardId, content)
    ensures unchanged(state`assetCache, state`serverPort)
  {
    var assetIds := ScanAssetIds(content);
    ghost var before := state.vault.value.assets;
    var pending := assetIds;
    while pending != {}
      invariant pending <= assetIds
      invariant state.vault.Some? && state.vault.value.shards == old(state.vault.value.shards)
      invariant state.vault.value.assets.Keys == before.Keys
      invariant forall id :: id in before && id in assetIds && id !in pending ==>
        state.vault.value.assets[id] == before[id].(shardId := Some(shardId))
      invariant forall id :: id in before && (id !in assetIds || id in pending) ==>
        state.vault.value.assets[id] == before[id]
      invariant unchanged(state`assetCache, state`serverPort)
      decreases pending
    {
      var assetId :| assetId in pending;
      var v := state.vault.value;
      if assetId in v.assets {
        state.vault := Some(v.(assets := v.assets[assetId := v.assets[assetId].(shardId := Some(shardId))]));
      }
      pending := pending - {assetId};
    }
  }

  /** `unlock_vault`: `outcome` is the result of opening the vault at the
      given path with the given password. On success it replaces whatever
      vault was unlocked. */
  method UnlockVault(state: AppState, outcome: Result<Vault, string>) returns (r: Result<bool, string>)
    requires state.Valid()
    modifies state
    ensures state.Valid()
    ensures outcome.Ok? ==> r == Ok(true) && state.vault == Some(outcome.value)
    ensures outcome.Err? ==> r == Err(outcome.error) && state.vault == old(state.vault)
    ensures unchanged(state`assetCache, state`serverPort)
  {
    match outcome
    case Ok(manager) =>
      state.vault := Some(manager);
      r := Ok(true);
    case Err(e) =>
      r := Err(e);
  }

  /** `init_vault` is `unlock_vault`: opening a path without a database
      creates an empty one. */
  method InitVault(state: AppState, outcome: Result<Vault, string>) returns (r: Result<bool, string>)
    requires state.Valid()
    modifies state
    ensures state.Valid()
    ensures outcome.Ok? ==> r == Ok(true) && state.vault == Some(outcome.value)
    ensures outcome.Err? ==> r == Err(outcome.error) && state.vault == old(state.vault)
    ensures unchanged(state`assetCache, state`serverPort)
  {
    r := UnlockVault(state, outcome);
  }

  /** `close_vault`: lock the vault. The asset cache is kept. */
  method CloseVault(state: AppState) returns (r: Result<(), CmdError>)
    requires state.Valid()
    modifies state
    ensures state.Valid()
    ensures r == Ok(()) && state.vault == None
    ensures unchanged(state`assetCache, state`serverPort)
  {
    state.vault := None;
    r := Ok(());
  }

  /** `create_shard` with the fresh id and the timestamp `now` supplied:
      insert the shard with `created_at == updated_at == now`, then link
      the assets its content refers to. */
  method CreateShard(state: AppState, id: string, title: string, content: string,
                     tags: seq<string>, now: string) returns (r: Result<Shard, CmdError>)
    requires state.Valid()
    modifies state
    ensures state.Valid()
    ensures unchanged(state`assetCache, state`serverPort)
    ensures old(state.vault).None? ==> r == Err(VaultLocked) && state.vault == None
    ensures old(state.vault).Some? && id in old(state.vault.value.shards) ==>
      r == Err(DuplicateId("shards")) && state.vault == old(state.vault)
    ensures old(state.vault).Some? && id !in old(state.vault.value.shards) ==>
      && r == Ok(Shard(id, title, content, tags, now, now))
      && state.vault.Some?
      && state.vault.value.shards == old(state.vault.value.shards)[id := ShardRow(title, content, tags, now, now)]
      && Relinked(old(state.vault.value.assets), state.vault.value.assets, id, content)
    ensures r.Ok? ==> r.value.createdAt == r.value.updatedAt
  {
    if state.vault.None? {
      return Err(VaultLocked);
    }
    var v := state.vault.value;
    if id in v.shards {
      return Err(DuplicateId("shards"));
    }
    state.vault := Some(v.(shards := v.shards[id := ShardRow(title, content, tags, now, now)]));
    LinkAssetsToShard(state, id, content);
    r := Ok(Shard(id, title, content, tags, now, now));
  }

  /** `update_shard`: replace title, content, tags and `updated_at` of an
      existing shard, read back its `created_at`, then link the assets
      its new content refers to. An unknown id changes nothing. */
  method UpdateShard(state: AppState, id: string, title: string, content: string,
                     tags: seq<string>, now: string) returns (r: Result<Shard, CmdError>)
    requires state.Valid()
    modifies state
    ensures state.Valid()
    ensures unchanged(state`assetCache, state`serverPort)
    ensures old(state.vault).None? ==> r == Err(VaultLocked) && state.vault == None
    ensures old(state.vault).Some? && id !in old(state.vault.value.shards) ==>
      r == Err(NoSuchShard) && state.vault == old(state.vault)
    ensures old(state.vault).Some? && id in old(state.vault.value.shards) ==>
      var row := old(state.vault.value.shards[id]);
      && r == Ok(Shard(id, title, content, tags, row.createdAt, now))
      && state.vault.Some?
      && state.vault.value.shards == old(state.vault.value.shards)[id :=
           row.(title := title, content := content, tags := tags, updatedAt := now)]
      && Relinked(old(state.vault.value.assets), state.vault.value.assets, id, content)
  {
    if state.vault.None? {
      return Err(VaultLocked);
    }
    var v := state.vault.value;
    if id !in v.shards {
      return Err(NoSuchShard);
    }
    var row := v.shards[id];
    state.vault := Some(v.(shards := v.shards[id :=
      row.(title := title, content := content, tags := tags, updatedAt := now)]));
    var createdAt := state.vault.value.shards[id].createdAt;
    LinkAssetsToShard(state, id, content);
    r := Ok(Shard(id, title, content, tags, createdAt, now));
  }

  /** `delete_shard`: delete every asset the shard owns, then the shard.
      Assets owned by other shards or by none stay; the asset cache is not
      touched. Deleting an unknown id succeeds, and changes nothing unless
      some asset row still names it as owner. */
  method DeleteShard(state: AppState, id: string) returns (r: Result<(), CmdError>)
    requires state.Valid()
    modifies state
    ensures state.Valid()
    ensures unchanged(state`assetCache, state`serverPort)
    ensures old(state.vault).None? ==> r == Err(VaultLocked) && state.vault == None
    ensures old(state.vault).Some? ==>
      && r == Ok(())
      && state.vault.Some?
      && state.vault.value.shards == old(state.vault.value.shards) - {id}
      && state.vault.value.assets.Keys
           == (set a | a in old(state.vault.value.assets) && old(state.vault.value.assets[a]).shardId != Some(id))
      && (forall a :: a in state.vault.value.assets ==>
            state.vault.value.assets[a] == old(state.vault.value.assets[a])
            && state.vault.value.assets[a].shardId != Some(id))
  {
    if state.vault.None? {
      return Err(VaultLocked);
    }
    var v := state.vault.value;
    // DELETE FROM assets WHERE shard_id = ?1
    var kept := map a | a in v.assets && v.assets[a].shardId != Some(id) :: v.assets[a];
    // DELETE FROM shards WHERE id = ?1
    state.vault := Some(Vault(v.shards - {id}, kept));
    r := Ok(());
  }

  /** `import_asset` with the file facts, the fresh id and `now` supplied;
      `copyError` is the error, if any, of reading, encrypting and writing
      the file. The new row is owned by no shard, its file is the id with
      the original extension, and its MIME type comes from the extension. */
  method ImportAsset(state: AppState, source: SourceFile, id: string, now: string,
                     copyError: Option<string>) returns (r: Result<Asset, CmdError>)
    requires state.Valid()
    modifies state
    ensures state.Valid()
    ensures unchanged(state`assetCache, state`serverPort)
    ensures old(state.vault).None? ==> r == Err(VaultLocked) && state.vault == None
    ensures old(state.vault).Some? && !source.present ==>
      r == Err(FileNotFound) && state.vault == old(state.vault)
    ensures old(state.vault).Some? && source.present && copyError.Some? ==>
      r == Err(Io(copyError.value)) && state.vault == old(state.vault)
    ensures old(state.vault).Some? && source.present && copyError.None? && id in old(state.vault.value.assets) ==>
      r == Err(DuplicateId("assets")) && state.vault == old(state.vault)
    ensures old(state.vault).Some? && source.present && copyError.None? && id !in old(state.vault.value.assets) ==>
      var row := AssetRow(None, id + "." + source.extension, source.stem, Mime.MimeType(source.extension), now);
      && r == Ok(Asset(id, row.shardId, row.filePath, row.originalName, row.mimeType, row.createdAt))
      && state.vault == Some(old(state.vault.value).(assets := old(state.vault.value.assets)[id := row]))
  {
    if state.vault.None? {
      return Err(VaultLocked);
    }
    if !source.present {
      return Err(FileNotFound);
    }
    var mimeType := Mime.MimeType(source.extension);
    var destFilename := id + "." + source.extension;
    if copyError.Some? {
      return Err(Io(copyError.value));
    }
    var v := state.vault.value;
    if id in v.assets {
      return Err(DuplicateId("assets"));
    }
    state.vault := Some(v.(assets := v.assets[id := AssetRow(None, destFilename, source.stem, mimeType, now)]));
    r := Ok(Asset(id, None, destFilename, source.stem, mimeType, now));
  }

  /** `delete_asset`: an unknown id is "Asset not found" and changes
      nothing; otherwise the row goes and so does its cache entry. */
  method DeleteAsset(state: AppState, id: string) returns (r: Result<(), CmdError>)
    requires state.Valid()
    modifies state
    ensures state.Valid()
    ensures state.serverPort == old(state.serverPort)
    ensures old(state.vault).None? ==>
      r == Err(VaultLocked) && state.vault == None && state.assetCache == old(state.assetCache)
    ensures old(state.vault).Some? && id !in old(state.vault.value.assets) ==>
      r == Err(AssetNotFound) && state.vault == old(state.vault) && state.assetCache == old(state.assetCache)
    ensures old(state.vault).Some? && id in old(state.vault.value.assets) ==>
      && r == Ok(())
      && state.vault == Some(old(state.vault.value).(assets := old(state.vault.value.assets) - {id}))
      && state.assetCache == old(state.assetCache) - {id}
  {
    if state.vault.None? {
      return Err(VaultLocked);
    }
    var v := state.vault.value;
    if id !in v.assets {
      return Err(AssetNotFound);
    }
    state.vault := Some(v.(assets := v.assets - {id}));
    state.assetCache := state.assetCache - {id};
    r := Ok(());
  }
}
