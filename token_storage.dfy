/**
 * `TokenResponse` and `TokenStorage` of scripts/oauth_login.py. The token
 * file is abstracted to its state (absent, holding the record `save_tokens`
 * wrote, unreadable or not JSON, or not text in the locale's encoding) plus
 * the permission bits of the file and of its directory; the JSON text itself
 * and the paths are not modelled.
 */
module TokenStore {
  import opened Wrappers
  import opened Bytes

  /** `secrets.token_hex(16)` draws 16 random bytes. */
  type Bytes16 = b: seq<byte> | |b| == 16 witness seq(16, _ => 0)

  /** The pydantic `TokenResponse`: `refresh_token` and `scope` default to None, `token_type` to `Bearer`. */
  datatype TokenResponse = TokenResponse(
    accessToken: string,
    refreshToken: Option<string> := None,
    expiresIn: int,
    tokenType: string := "Bearer",
    scope: Option<string> := None)

  /** The JSON object `save_tokens` writes: the token fields and `saved_at`. */
  datatype TokenRecord = TokenRecord(
    accessToken: string,
    refreshToken: Option<string>,
    expiresIn: int,
    tokenType: string,
    scope: Option<string>,
    savedAt: string)

  /**
   * The token file: absent; holding a record; present but unreadable or not
   * valid JSON (`IOError`, `json.JSONDecodeError`); or present with bytes that
   * do not decode in the locale's text encoding (`UnicodeDecodeError`).
   */
  datatype FileState = Absent | Stored(record: TokenRecord) | Corrupt | Undecodable

  /** The exception that escapes `load_tokens`. */
  datatype LoadError = UnicodeDecodeError

  /** `0o700`: owner read, write and search. */
  const DirMode: int := 448
  /** `0o600`: owner read and write. */
  const FileMode: int := 384

  /** The `token_data` dictionary of `save_tokens`, `saved_at` being the hex text of 16 random bytes. */
  function RecordOf(tokens: TokenResponse, savedAtBytes: Bytes16): (r: TokenRecord)
    ensures r.accessToken == tokens.accessToken && r.refreshToken == tokens.refreshToken
    ensures r.expiresIn == tokens.expiresIn && r.tokenType == tokens.tokenType && r.scope == tokens.scope
    ensures |r.savedAt| == 32 && forall i :: 0 <= i < 32 ==> IsLowerHexDigit(r.savedAt[i])
  {
    TokenRecord(tokens.accessToken, tokens.refreshToken, tokens.expiresIn, tokens.tokenType, tokens.scope,
                HexLower(savedAtBytes))
  }

  /**
   * What `load_tokens` does for a file state: the record; None for a missing,
   * unreadable or non-JSON file; and a `UnicodeDecodeError`, which its
   * `except (json.JSONDecodeError, IOError)` does not catch, for a file that
   * is not text.
   */
  function Read(f: FileState): (r: Result<Option<TokenRecord>, LoadError>)
    ensures r.Failure? <==> f.Undecodable?
    ensures r.Success? ==> (r.value.Some? <==> f.Stored?)
    ensures r.Success? && r.value.Some? ==> r.value.value == f.record
  {
    match f
    case Absent => Success(None)
    case Corrupt => Success(None)
    case Undecodable => Failure(UnicodeDecodeError)
    case Stored(record) => Success(Some(record))
  }

  /** `load_tokens` as its handler means it: every file that does not hold a record reads as None. */
  function ReadOrNone(f: FileState): (r: Option<TokenRecord>)
    ensures r.Some? <==> f.Stored?
    ensures r.Some? ==> r.value == f.record
  {
    match f
    case Stored(record) => Some(record)
    case _ => None
  }

  /** The two agree on every file state but one: a file that is not text raises instead of reading as None. */
  lemma ReadOrNoneAgrees(f: FileState)
    ensures Read(f) == Success(ReadOrNone(f)) <==> !f.Undecodable?
    ensures Read(Undecodable) == Failure(UnicodeDecodeError) && ReadOrNone(Undecodable) == None
  {
  }

  class TokenStorage {
    const appName: string
    /** Permission bits of `~/.config/<app_name>`. */
    var dirMode: int
    /** The state of `~/.config/<app_name>/tokens.json`. */
    var file: FileState
    /** Permission bits of the token file (meaningful while it exists). */
    var fileMode: int

    /**
     * `__init__`: creates the directory if needed and sets it to owner-only;
     * a token file already on disk (`disk`, with mode `diskMode`) is left as is.
     */
    constructor (appName: string, disk: FileState, diskMode: int)
      ensures this.appName == appName
      ensures dirMode == DirMode
      ensures file == disk && fileMode == diskMode
    {
      this.appName := appName;
      file := disk;
      fileMode := diskMode;
      dirMode := DirMode;
    }

    /** `save_tokens`: writes the record, replacing any previous file, then sets the file to owner-only. */
    method SaveTokens(tokens: TokenResponse, savedAtBytes: Bytes16)
      modifies this`file, this`fileMode
      ensures file == Stored(RecordOf(tokens, savedAtBytes))
      ensures fileMode == FileMode
    {
      var tokenData := RecordOf(tokens, savedAtBytes);
      file := Stored(tokenData);
      fileMode := FileMode;
    }

    /**
     * `load_tokens`: None when the file does not exist or cannot be read as
     * JSON; a file that is not text raises `UnicodeDecodeError`.
     */
    method LoadTokens() returns (r: Result<Option<TokenRecord>, LoadError>)
      ensures r == Read(file)
    {
      // The existence test comes first, then the guarded open and parse.
      if file.Absent? {
        return Success(None);
      }
      r := Read(file);
    }

    /** `load_tokens` with a handler that also catches `UnicodeDecodeError`. */
    method LoadTokensOrNone() returns (r: Option<TokenRecord>)
      ensures r == ReadOrNone(file)
    {
      var loaded := LoadTokens();
      if loaded.Failure? {
        return None;
      }
      r := loaded.value;
    }

    /** `clear_tokens`: removes the file if it exists. */
    method ClearTokens()
      modifies this`file
      ensures file == Absent
      ensures old(file) == Absent ==> unchanged(this)
    {
      if !file.Absent? {
        file := Absent;
      }
    }
  }

  /**
   * A fresh storage, one save, one load: the load returns the saved token
   * fields with a 32-hex-digit `saved_at`, the directory is owner-only and
   * the file owner read/write only.
   */
  method SaveThenLoad(appName: string, disk: FileState, diskMode: int, tokens: TokenResponse, savedAtBytes: Bytes16)
    returns (loaded: Result<Option<TokenRecord>, LoadError>, dirMode: int, fileMode: int)
    ensures loaded.Success? && loaded.value.Some?
    ensures var t := loaded.value.value;
            t.accessToken == tokens.accessToken && t.refreshToken == tokens.refreshToken
            && t.expiresIn == tokens.expiresIn && t.tokenType == tokens.tokenType && t.scope == tokens.scope
    ensures var t := loaded.value.value;
            |t.savedAt| == 32 && forall i :: 0 <= i < 32 ==> IsLowerHexDigit(t.savedAt[i])
    ensures dirMode == DirMode && fileMode == FileMode
  {
    var storage := new TokenStorage(appName, disk, diskMode);
    storage.SaveTokens(tokens, savedAtBytes);
    loaded := storage.LoadTokens();
    dirMode, fileMode := storage.dirMode, storage.fileMode;
  }

  /** Clearing twice leaves no file, the second clear changing nothing, and a load then finds nothing, whatever was on disk. */
  method ClearTwiceThenLoad(appName: string, disk: FileState, diskMode: int)
    returns (loaded: Result<Option<TokenRecord>, LoadError>, sameAfterSecondClear: bool)
    ensures loaded == Success(None)
    ensures sameAfterSecondClear
  {
    var storage := new TokenStorage(appName, disk, diskMode);
    storage.ClearTokens();
    var before := (storage.file, storage.fileMode, storage.dirMode);
    storage.ClearTokens();
    sameAfterSecondClear := before == (storage.file, storage.fileMode, storage.dirMode);
    loaded := storage.LoadTokens();
  }

  /**
   * A token file whose bytes are not text in the locale's encoding (a lone
   * 0xFF byte under UTF-8) makes `load_tokens` raise rather than return None;
   * the handler that also catches the decoding error returns None.
   */
  method UndecodableFileRaises(appName: string, diskMode: int)
    returns (loaded: Result<Option<TokenRecord>, LoadError>, caught: Option<TokenRecord>)
    ensures loaded == Failure(UnicodeDecodeError)
    ensures caught == None
  {
    var storage := new TokenStorage(appName, Undecodable, diskMode);
    loaded := storage.LoadTokens();
    caught := storage.LoadTokensOrNone();
  }
}
