/** The `asset:` URI-scheme handler (`protocol.rs`) and the wrapper that
    `lib.rs` registers around it. Unlike the asset server it keeps no
    cache, answers with `Access-Control-Allow-Origin: *`, and reports a
    missing row or file as an error, which the wrapper turns into a 500. */
module Protocol {
  import opened Wrappers
  import opened StdText
  import opened Models
  import opened Ranges

  /** The asset id of a request path: the path without its leading
      slashes. */
  function AssetId(path: string): (id: string)
    ensures |id| <= |path| && id == path[|path| - |id|..]
    ensures id == "" || id[0] != '/'
  {
    TrimStartMatches(path, '/')
  }

  /** `asset_protocol_handler` on a request for `path`, with the `Range`
      header `range`, while `vault` is the unlocked vault or `None`. `load`
      is what finding, reading and decrypting the row's file yields. */
  function AssetProtocolHandler(path: string, range: Option<string>, vault: Option<Vault>,
                                load: LoadOutcome): (r: Result<Response, string>)
    ensures r == Ok(TextResponse(StatusBadRequest, "Missing asset ID")) <==> AssetId(path) == ""
    ensures r == Ok(TextResponse(StatusForbidden, "Vault is locked"))
        <==> AssetId(path) != "" && vault.None?
    ensures r == Err("Asset not found")
        <==> AssetId(path) != "" && vault.Some? && AssetId(path) !in vault.value.assets
    ensures r.Err? ==>
      r.error in {"Asset not found", "File not found on disk", "Failed to read file", "Failed to decrypt"}
    ensures r.Ok? && r.value.status in {StatusOk, StatusPartialContent, StatusRangeNotSatisfiable}
        <==> AssetId(path) != "" && vault.Some? && AssetId(path) in vault.value.assets && load.Decrypted?
    ensures r.Ok? && r.value.status in {StatusOk, StatusPartialContent} ==>
      r.value.headers.allowAnyOrigin && r.value.headers.contentType.Some?
  {
    var id := AssetId(path);
    if id == "" then
      Ok(TextResponse(StatusBadRequest, "Missing asset ID"))
    else if vault.None? then
      Ok(TextResponse(StatusForbidden, "Vault is locked"))
    else if id !in vault.value.assets then
      Err("Asset not found")
    else
      var mimeType := vault.value.assets[id].mimeType;
      match load
      case MissingOnDisk => Err("File not found on disk")
      case ReadFailed => Err("Failed to read file")
      case DecryptFailed => Err("Failed to decrypt")
      case Decrypted(data) => Ok(ServeBody(data, mimeType, range, true))
  }

  /** The closure `lib.rs` registers for the `asset` scheme: an error from
      the handler becomes a 500 whose body is the error text. */
  function SchemeResponse(outcome: Result<Response, string>): (resp: Response)
    ensures outcome.Ok? ==> resp == outcome.value
    ensures outcome.Err? ==>
      resp.status == StatusInternalServerError && resp.body == TextBytes(outcome.error)
      && resp.headers == NoHeaders
  {
    match outcome
    case Ok(r) => r
    case Err(e) => Response(StatusInternalServerError, NoHeaders, TextBytes(e))
  }

  /** What the webview receives for an `asset:` request. */
  function ServeSchemeRequest(path: string, range: Option<string>, vault: Option<Vault>,
                              load: LoadOutcome): (resp: Response)
  {
    SchemeResponse(AssetProtocolHandler(path, range, vault, load))
  }

  /** The statuses the webview can see, and when: 400 for a path that is
      only slashes, 403 while locked, 500 for a missing row or a file that
      cannot be found, read or decrypted, and otherwise the range outcome.
      A 404 is never sent. */
  lemma SchemeStatuses(path: string, range: Option<string>, vault: Option<Vault>, load: LoadOutcome)
    ensures var resp := ServeSchemeRequest(path, range, vault, load);
      && (resp.status == StatusBadRequest <==> AssetId(path) == "")
      && (resp.status == StatusForbidden <==> AssetId(path) != "" && vault.None?)
      && (resp.status == StatusInternalServerError <==>
            AssetId(path) != "" && vault.Some? && (AssetId(path) !in vault.value.assets || !load.Decrypted?))
      && resp.status != StatusNotFound
  {
  }

  /** The bytes of an asset reach the webview only while the vault is
      unlocked and the id has a row, and they are then exactly what the
      asset server would send, apart from `Access-Control-Allow-Origin`. */
  lemma SchemeServesLikeServer(path: string, range: Option<string>, vault: Option<Vault>, data: Body)
    ensures var resp := ServeSchemeRequest(path, range, vault, Decrypted(data));
      resp.status in {StatusOk, StatusPartialContent} ==>
        && vault.Some? && AssetId(path) in vault.value.assets
        && var served := ServeBody(data, vault.value.assets[AssetId(path)].mimeType, range, false);
           resp == served.(headers := served.headers.(allowAnyOrigin := true))
  {
  }

  /** A request for `/<id>` is about `<id>` when the id does not itself
      start with a slash; any number of leading slashes is dropped. */
  lemma {:induction false} AssetIdOfPath(slashes: nat, id: string)
    requires id == "" || id[0] != '/'
    ensures AssetId(seq(slashes, _ => '/') + id) == id
  {
    if slashes > 0 {
      var path := seq(slashes, _ => '/') + id;
      assert path[0] == '/';
      assert path[1..] == seq(slashes - 1, _ => '/') + id;
      AssetIdOfPath(slashes - 1, id);
    } else {
      assert seq(slashes, _ => '/') + id == id;
    }
  }
}
