/** The records the backend stores and returns: shards (notes) and assets
    (encrypted media files), the two tables of an unlocked vault, and the
    decrypted bytes the asset servers hand out. */
module Models {
  import opened Wrappers
  import StdText

  /** `u8`. */
  newtype byte = b: int | 0 <= b < 256

  /** A decrypted asset. Its length is a `u64` (the handlers convert it
      with `len() as u64`). */
  type Body = s: seq<byte> | |s| <= StdText.U64Max

  /** `models::Shard`, as the shard commands return it. */
  datatype Shard = Shard(
    id: string,
    title: string,
    content: string,
    tags: seq<string>,
    createdAt: string,
    updatedAt: string)

  /** `models::Asset`, as `import_asset` returns it. */
  datatype Asset = Asset(
    id: string,
    shardId: Option<string>,
    filePath: string,
    originalName: string,
    mimeType: string,
    createdAt: string)

  /** A row of the `shards` table; its primary key `id` is the map key. */
  datatype ShardRow = ShardRow(
    title: string,
    content: string,
    tags: seq<string>,
    createdAt: string,
    updatedAt: string)

  /** A row of the `assets` table; its primary key `id` is the map key.
      `shardId` is the owning shard, `None` for SQL NULL. */
  datatype AssetRow = AssetRow(
    shardId: Option<string>,
    filePath: string,
    originalName: string,
    mimeType: string,
    createdAt: string)

  /** The database of an unlocked vault: the `shards` and `assets` tables,
      each keyed by its primary key. */
  datatype Vault = Vault(shards: map<string, ShardRow>, assets: map<string, AssetRow>)

  /** What reading and decrypting an asset's file yields: the file is
      absent, reading it fails, decrypting it fails, or the plaintext. */
  datatype LoadOutcome = MissingOnDisk | ReadFailed | DecryptFailed | Decrypted(data: Body)
}

/** `state::AppState`: the state shared by the commands and both asset
    handlers. The mutexes around each field are left out; every operation of
    the model runs to completion before the next one starts. */
module State {
  import opened Wrappers
  import opened Models

  /** The asset cache is kept at no more than this many entries. */
  const CacheLimit: nat := 50

  class AppState {
    /** `Some` while a vault is unlocked, `None` while it is locked. */
    var vault: Option<Vault>
    /** The port of the local asset server (`u16`). */
    var serverPort: nat
    /** Decrypted asset bytes by asset id. */
    var assetCache: map<string, Body>

    ghost predicate Valid()
      reads this
    {
      |assetCache| <= CacheLimit && serverPort < 0x1_0000
    }

    /** `AppState::default()`: locked, port 0, empty cache. */
    constructor ()
      ensures Valid()
      ensures vault == None && serverPort == 0 && assetCache == map[]
    {
      vault := None;
      serverPort := 0;
      assetCache := map[];
    }
  }
}
