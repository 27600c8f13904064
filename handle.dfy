/**
 * The `CacheFile` handle: directory path, file-name prefix, key material and
 * the encryption switch, with the constructor, the setters and the getters.
 * The invariant every mutator keeps: encryption is on only with a key.
 */
module Handle {
  import opened Wrappers
  import opened Text
  import opened Naming

  /** The output of SHA-256 (`genAESKey`). */
  type Key32 = k: Bytes | |k| == 32 witness seq(32, i => 0)

  /** A copy of the handle, which is what every operation with a value receiver works on. */
  datatype Config = Config(path: string, prefix: string, keyCrypt: Bytes, crypt: bool)

  ghost predicate ConfigValid(c: Config)
  {
    ValidPrefix(c.prefix) && (c.crypt ==> |c.keyCrypt| > 0)
  }

  datatype NewError = InvalidPath | NotAbsolute | CannotCreate | NotWritable

  /**
   * What the host reports about the directory: whether it exists as a
   * directory, whether `os.MkdirAll` would create it, whether it is writable.
   */
  datatype Host = Host(isDir: bool, mkdirOk: bool, writable: bool)

  /** The checks `New` makes before building a handle; on success, the trimmed path. */
  function CheckPath(path: string, host: Host): (r: Result<string, NewError>)
    ensures r == Err(InvalidPath) <==> forall i :: 0 <= i < |path| ==> IsSpace(path[i])
    ensures r.Ok? <==>
      TrimSpace(path) != [] && TrimSpace(path)[0] == '/' && (host.isDir || host.mkdirOk) && host.writable
    ensures r.Ok? ==> |r.value| > 0 && r.value[0] == '/' && !IsSpace(r.value[|r.value| - 1])
  {
    var p := TrimSpace(path);
    if |p| == 0 then Err(InvalidPath)
    else if p[0] != '/' then Err(NotAbsolute)
    else if !host.isDir && !host.mkdirOk then Err(CannotCreate)
    else if !host.writable then Err(NotWritable)
    else Ok(p)
  }

  datatype PrefixError = InvalidPrefix(prefix: string)

  /** `randKey(3)`: the first 32 characters of the shuffled base64 text of one SHA-256 sum. */
  function RandKey(shuffled: Bytes): (k: Bytes)
    requires |shuffled| == 44
    ensures |k| == 32 && forall i :: 0 <= i < |k| ==> k[i] in shuffled
  {
    shuffled[..32]
  }

  class CacheFile {
    var path: string
    var prefix: string
    var keyCrypt: Bytes
    var crypt: bool

    ghost predicate Valid()
      reads this
    {
      ValidPrefix(prefix) && (crypt ==> |keyCrypt| > 0)
    }

    /** The copy a value receiver gets. */
    function Value(): (c: Config)
      reads this
      ensures Valid() ==> ConfigValid(c)
    {
      Config(path, prefix, keyCrypt, crypt)
    }

    constructor Init(path: string)
      ensures Valid()
      ensures this.path == path && prefix == DefaultPrefix && keyCrypt == [] && !crypt
    {
      this.path := path;
      prefix := DefaultPrefix;
      keyCrypt := [];
      crypt := false;
    }

    /** `New`: validate the path, then a handle with the default prefix and encryption off. */
    static method New(path: string, host: Host) returns (r: Result<CacheFile, NewError>)
      ensures r.Err? <==> CheckPath(path, host).Err?
      ensures r.Err? ==> r.error == CheckPath(path, host).error
      ensures r.Ok? ==> fresh(r.value) && r.value.Valid()
      ensures r.Ok? ==> r.value.path == TrimSpace(path) && r.value.prefix == DefaultPrefix
      ensures r.Ok? ==> r.value.keyCrypt == [] && !r.value.crypt
    {
      var checked := CheckPath(path, host);
      if checked.Err? {
        return Err(checked.error);
      }
      var c := new CacheFile.Init(checked.value);
      return Ok(c);
    }

    method GetPath() returns (p: string)
      ensures p == path
    {
      p := path;
    }

    /**
     * `SetPrefix`: adopts a prefix of the shape `^[A-Za-z0-9]{3,49}_$` and keeps the
     * old one otherwise. As written it reports an error in both cases.
     */
    method SetPrefix(p: string) returns (err: Option<PrefixError>)
      requires Valid()
      modifies this
      ensures Valid()
      ensures prefix == if ValidPrefix(p) then p else old(prefix)
      ensures path == old(path) && keyCrypt == old(keyCrypt) && crypt == old(crypt)
      ensures err == Some(InvalidPrefix(p))
    {
      if ValidPrefix(p) {
        prefix := p;
      }
      err := Some(InvalidPrefix(p));
    }

    method GetPrefix() returns (p: string)
      ensures p == prefix
    {
      p := prefix;
    }

    /** `EnableCrypt`: encryption is on exactly when there is a key. */
    method EnableCrypt() returns (on: bool)
      requires Valid()
      modifies this`crypt
      ensures Valid()
      ensures on == crypt && (on <==> |keyCrypt| > 0)
    {
      if |keyCrypt| == 0 {
        crypt := false;
      } else {
        crypt := true;
      }
      on := crypt;
    }

    method DisableCrypt() returns (on: bool)
      requires Valid()
      modifies this`crypt
      ensures Valid()
      ensures !on && !crypt
    {
      crypt := false;
      on := crypt;
    }

    method IsCrypt() returns (on: bool)
      ensures on == crypt
    {
      on := crypt;
    }

    /**
     * `SetKey`: an empty key clears the key and switches encryption off;
     * any other key is replaced by its 32-byte digest, the switch untouched.
     */
    method SetKey(key: Bytes, derive: Bytes -> Key32) returns (err: Option<string>)
      requires Valid()
      modifies this`keyCrypt, this`crypt
      ensures Valid() && err == None
      ensures |key| == 0 ==> keyCrypt == [] && !crypt
      ensures |key| > 0 ==> keyCrypt == derive(key) && |keyCrypt| == 32 && crypt == old(crypt)
    {
      if |key| == 0 {
        keyCrypt := [];
        crypt := false;
      } else {
        keyCrypt := derive(key);
      }
      err := None;
    }

    /**
     * `SetRandomKey`: stores and returns a fresh 32-byte key; the switch is
     * untouched (the source's reset of the switch on an empty key cannot fire,
     * the key always having 32 bytes).
     */
    method SetRandomKey(shuffled: Bytes) returns (k: Bytes)
      requires Valid() && |shuffled| == 44
      modifies this`keyCrypt
      ensures Valid()
      ensures k == keyCrypt == RandKey(shuffled) && |k| == 32
    {
      keyCrypt := RandKey(shuffled);
      k := keyCrypt;
    }

    method GetKey() returns (k: Bytes)
      ensures k == keyCrypt
    {
      k := keyCrypt;
    }
  }
}
