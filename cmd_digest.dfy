/**
 * fsverity_cmd_digest (programs/cmd_digest.c): read the options, then for
 * every file in argument order open it, get its size, compute its fs-verity
 * digest, render it and print one line. Exit status 2 for a usage error
 * (a rejected option or no file, and then open_file is never called), 1
 * when a file cannot be opened, sized or digested (open_file is not called
 * on any later file), 0 when every file was printed.
 *
 * What lies outside this file is a parameter: the option parsers, the file
 * I/O and the Merkle-tree library are the fields of an Env.
 */
module CmdDigest {
  import opened Wrappers
  import opened SignedDigest
  import opened HexEncoding
  import opened DigestLine

  /**
   * struct libfsverity_merkle_tree_params as the command fills it. Zero
   * algorithm and block size ask the library for its defaults; `salt` is
   * None until --salt is given (salt NULL, salt_size 0 in C).
   */
  datatype TreeParams = TreeParams(
    version: nat,
    hashAlgorithm: nat,
    blockSize: nat,
    salt: Option<seq<byte>>,
    fileSize: nat)

  const InitialParams: TreeParams := TreeParams(1, 0, 0, None, 0)

  /** One option as getopt_long hands it over; Unrecognized is its '?'. */
  datatype Opt =
    | HashAlg(arg: string)
    | BlockSize(arg: string)
    | Salt(arg: string)
    | Compact
    | ForBuiltinSig
    | Unrecognized

  /** What the option loop leaves behind. */
  datatype Settings = Settings(params: TreeParams, compact: bool, forBuiltinSig: bool)

  const InitialSettings: Settings := Settings(InitialParams, false, false)

  /** Why one file failed; each ends the batch with status 1. */
  datatype FileError = OpenFailed | SizeFailed | DigestFailed

  /**
   * The collaborators whose code is not part of this model:
   * parse_hash_alg_option, parse_block_size_option, parse_salt_option,
   * open_file, get_file_size, libfsverity_compute_digest (the file stands
   * for its contents) and libfsverity_get_hash_name. Each option parser
   * is handed the field it fills, so it sees that field's current value
   * (and may, for one, refuse an option given twice).
   */
  datatype Env = Env(
    parseHashAlg: (string, nat) -> Option<nat>,
    parseBlockSize: (string, nat) -> Option<nat>,
    parseSalt: (string, Option<seq<byte>>) -> Option<seq<byte>>,
    openFile: string -> bool,
    fileSize: string -> Option<nat>,
    computeDigest: (string, TreeParams) -> Option<Digest>,
    hashName: u16 -> string)

  /**
   * The library's promise that the command checks with ASSERT: no digest
   * is longer than FS_VERITY_MAX_DIGEST_SIZE.
   */
  ghost predicate DigestsBounded(env: Env)
  {
    forall path: string, params: TreeParams :: env.computeDigest(path, params).Some? ==>
      |env.computeDigest(path, params).value.bytes| <= MaxDigestSize
  }

  const StatusOk: int := 0
  const StatusFailure: int := 1
  const StatusUsage: int := 2

  /**
   * The exit status, the lines printed on standard output, and the files
   * open_file was called on, each in order. Sizes and digests are asked
   * for only of a file that opened, so a file not in `attempted` was never
   * read at all.
   */
  datatype Outcome = Outcome(status: int, lines: seq<string>, attempted: seq<string>)

  // ---------------------------------------------------------------- options

  /** An option that, given the settings so far, sends the command to out_usage. */
  predicate Rejects(env: Env, s: Settings, o: Opt)
  {
    match o
    case HashAlg(arg) => env.parseHashAlg(arg, s.params.hashAlgorithm).None?
    case BlockSize(arg) => env.parseBlockSize(arg, s.params.blockSize).None?
    case Salt(arg) => env.parseSalt(arg, s.params.salt).None?
    case Compact => false
    case ForBuiltinSig => false
    case Unrecognized => true
  }

  /** One turn of the getopt_long loop: overwrite one field or fail. */
  function ApplyOption(env: Env, s: Settings, o: Opt): (r: Option<Settings>)
    ensures r.None? <==> Rejects(env, s, o)
    ensures r.Some? ==> forall k :: SetsParam(o, k) ==> ParsedInto(env, k, o.arg, s.params, r.value.params)
    ensures r.Some? ==> forall k :: !SetsParam(o, k) ==> SameParam(r.value.params, s.params, k)
    ensures r.Some? ==> r.value.params.version == s.params.version && r.value.params.fileSize == s.params.fileSize
    ensures r.Some? ==> (r.value.compact <==> s.compact || o.Compact?)
    ensures r.Some? ==> (r.value.forBuiltinSig <==> s.forBuiltinSig || o.ForBuiltinSig?)
  {
    match o
    case HashAlg(arg) =>
      (match env.parseHashAlg(arg, s.params.hashAlgorithm)
       case None => None
       case Some(alg) => Some(s.(params := s.params.(hashAlgorithm := alg))))
    case BlockSize(arg) =>
      (match env.parseBlockSize(arg, s.params.blockSize)
       case None => None
       case Some(size) => Some(s.(params := s.params.(blockSize := size))))
    case Salt(arg) =>
      (match env.parseSalt(arg, s.params.salt)
       case None => None
       case Some(salt) => Some(s.(params := s.params.(salt := Some(salt)))))
    case Compact => Some(s.(compact := true))
    case ForBuiltinSig => Some(s.(forBuiltinSig := true))
    case Unrecognized => None
  }

  /** The options applied in order from `s`; the first rejected one stops it. */
  function ApplyOptionsFrom(env: Env, s: Settings, opts: seq<Opt>): Option<Settings>
    decreases |opts|
  {
    if opts == [] then Some(s)
    else match ApplyOption(env, s, opts[0])
      case None => None
      case Some(s') => ApplyOptionsFrom(env, s', opts[1..])
  }

  function ApplyOptions(env: Env, opts: seq<Opt>): Option<Settings>
  {
    ApplyOptionsFrom(env, InitialSettings, opts)
  }

  /** The `while (getopt_long(...))` loop. */
  method ParseOptions(env: Env, opts: seq<Opt>) returns (r: Option<Settings>)
    ensures r == ApplyOptions(env, opts)
  {
    var s := InitialSettings;
    var i := 0;
    while i < |opts|
      invariant 0 <= i <= |opts|
      invariant ApplyOptions(env, opts) == ApplyOptionsFrom(env, s, opts[i..])
    {
      assert opts[i..][1..] == opts[i + 1..];
      match opts[i] {
        case HashAlg(arg) =>
          var alg := env.parseHashAlg(arg, s.params.hashAlgorithm);
          if alg.None? { return None; }
          s := s.(params := s.params.(hashAlgorithm := alg.value));
        case BlockSize(arg) =>
          var size := env.parseBlockSize(arg, s.params.blockSize);
          if size.None? { return None; }
          s := s.(params := s.params.(blockSize := size.value));
        case Salt(arg) =>
          var salt := env.parseSalt(arg, s.params.salt);
          if salt.None? { return None; }
          s := s.(params := s.params.(salt := Some(salt.value)));
        case Compact =>
          s := s.(compact := true);
        case ForBuiltinSig =>
          s := s.(forBuiltinSig := true);
        case Unrecognized =>
          return None;
      }
      i := i + 1;
    }
    return Some(s);
  }

  /** Applying `a + b` is applying `a`, then `b` to what `a` left. */
  lemma {:induction false} ApplyOptionsFromAppend(env: Env, s: Settings, a: seq<Opt>, b: seq<Opt>)
    ensures ApplyOptionsFrom(env, s, a + b)
         == match ApplyOptionsFrom(env, s, a)
            case None => None
            case Some(t) => ApplyOptionsFrom(env, t, b)
    decreases |a|
  {
    if a == [] {
      assert a + b == b;
    } else {
      assert (a + b)[0] == a[0] && (a + b)[1..] == a[1..] + b;
      var next := ApplyOption(env, s, a[0]);
      if next.Some? {
        ApplyOptionsFromAppend(env, next.value, a[1..], b);
      }
    }
  }

  /** Option i is reached with the options before it accepted, and is rejected there. */
  predicate RejectedAt(env: Env, s: Settings, opts: seq<Opt>, i: nat)
    requires i < |opts|
  {
    && ApplyOptionsFrom(env, s, opts[..i]).Some?
    && Rejects(env, ApplyOptionsFrom(env, s, opts[..i]).value, opts[i])
  }

  lemma {:induction false} ApplyOptionsFromRejects(env: Env, s: Settings, opts: seq<Opt>)
    ensures ApplyOptionsFrom(env, s, opts).None? <==> exists i: nat :: i < |opts| && RejectedAt(env, s, opts, i)
    decreases |opts|
  {
    if exists i: nat :: i < |opts| && RejectedAt(env, s, opts, i) {
      var i: nat :| i < |opts| && RejectedAt(env, s, opts, i);
      assert opts == opts[..i] + opts[i..];
      ApplyOptionsFromAppend(env, s, opts[..i], opts[i..]);
      assert opts[i..][0] == opts[i];
    } else if opts != [] {
      assert opts[..0] == [];
      assert !RejectedAt(env, s, opts, 0);
      var next := ApplyOption(env, s, opts[0]).value;
      ApplyOptionsFromRejects(env, next, opts[1..]);
      if ApplyOptionsFrom(env, next, opts[1..]).None? {
        var i: nat :| i < |opts[1..]| && RejectedAt(env, next, opts[1..], i);
        assert opts[..i + 1] == [opts[0]] + opts[1..][..i];
        assert opts[..i + 1][1..] == opts[1..][..i];
        assert opts[i + 1] == opts[1..][i];
        assert RejectedAt(env, s, opts, i + 1);
        assert false;
      }
    }
  }

  /**
   * The option loop fails exactly when some option is rejected in the
   * state the options before it left.
   */
  lemma OptionsRejectedIff(env: Env, opts: seq<Opt>)
    ensures ApplyOptions(env, opts).None? <==> exists i: nat :: i < |opts| && RejectedAt(env, InitialSettings, opts, i)
  {
    ApplyOptionsFromRejects(env, InitialSettings, opts);
  }

  lemma {:induction false} ApplyOptionsFromFlags(env: Env, s: Settings, opts: seq<Opt>)
    requires ApplyOptionsFrom(env, s, opts).Some?
    ensures ApplyOptionsFrom(env, s, opts).value.compact <==> s.compact || Compact in opts
    ensures ApplyOptionsFrom(env, s, opts).value.forBuiltinSig <==> s.forBuiltinSig || ForBuiltinSig in opts
    decreases |opts|
  {
    if opts != [] {
      ApplyOptionsFromFlags(env, ApplyOption(env, s, opts[0]).value, opts[1..]);
      assert opts == [opts[0]] + opts[1..];
    }
  }

  /** --compact and --for-builtin-sig are on exactly when given. */
  lemma FlagsIff(env: Env, opts: seq<Opt>)
    requires ApplyOptions(env, opts).Some?
    ensures ApplyOptions(env, opts).value.compact <==> Compact in opts
    ensures ApplyOptions(env, opts).value.forBuiltinSig <==> ForBuiltinSig in opts
  {
    ApplyOptionsFromFlags(env, InitialSettings, opts);
  }

  /** The options that set a tree parameter, by the field they set. */
  datatype ParamKind = HashAlgKind | BlockSizeKind | SaltKind

  predicate SetsParam(o: Opt, k: ParamKind)
  {
    match k
    case HashAlgKind => o.HashAlg?
    case BlockSizeKind => o.BlockSize?
    case SaltKind => o.Salt?
  }

  /** The index of the last option in `opts` that sets parameter `k`, if any. */
  function LastSetting(opts: seq<Opt>, k: ParamKind): (r: Option<nat>)
    ensures r.Some? ==> r.value < |opts| && SetsParam(opts[r.value], k)
    ensures r.Some? ==> forall j :: r.value < j < |opts| ==> !SetsParam(opts[j], k)
    ensures r.None? ==> forall j :: 0 <= j < |opts| ==> !SetsParam(opts[j], k)
  {
    if opts == [] then None
    else if SetsParam(opts[|opts| - 1], k) then Some(|opts| - 1)
    else LastSetting(opts[..|opts| - 1], k)
  }

  /** Parameter `k` is the same in `p` and `q`. */
  predicate SameParam(p: TreeParams, q: TreeParams, k: ParamKind)
  {
    match k
    case HashAlgKind => p.hashAlgorithm == q.hashAlgorithm
    case BlockSizeKind => p.blockSize == q.blockSize
    case SaltKind => p.salt == q.salt
  }

  /**
   * Parameter `k` of `after` is what its parser made of `arg`, handed the
   * value the parameter had in `before`.
   */
  predicate ParsedInto(env: Env, k: ParamKind, arg: string, before: TreeParams, after: TreeParams)
  {
    match k
    case HashAlgKind => env.parseHashAlg(arg, before.hashAlgorithm) == Some(after.hashAlgorithm)
    case BlockSizeKind => env.parseBlockSize(arg, before.blockSize) == Some(after.blockSize)
    case SaltKind => after.salt.Some? && env.parseSalt(arg, before.salt) == Some(after.salt.value)
  }

  /** Options that do not set parameter `k` leave it alone. */
  lemma {:induction false} ApplyOptionsFromKeeps(env: Env, s: Settings, opts: seq<Opt>, k: ParamKind)
    requires ApplyOptionsFrom(env, s, opts).Some?
    requires forall j :: 0 <= j < |opts| ==> !SetsParam(opts[j], k)
    ensures SameParam(ApplyOptionsFrom(env, s, opts).value.params, s.params, k)
    decreases |opts|
  {
    if opts != [] {
      assert !SetsParam(opts[0], k);
      assert forall j :: 0 <= j < |opts| - 1 ==> opts[1..][j] == opts[j + 1];
      ApplyOptionsFromKeeps(env, ApplyOption(env, s, opts[0]).value, opts[1..], k);
    }
  }

  /** No option touches the structure version or the file size. */
  lemma {:induction false} ApplyOptionsFromFixed(env: Env, s: Settings, opts: seq<Opt>)
    requires ApplyOptionsFrom(env, s, opts).Some?
    ensures ApplyOptionsFrom(env, s, opts).value.params.version == s.params.version
    ensures ApplyOptionsFrom(env, s, opts).value.params.fileSize == s.params.fileSize
    decreases |opts|
  {
    if opts != [] {
      ApplyOptionsFromFixed(env, ApplyOption(env, s, opts[0]).value, opts[1..]);
    }
  }

  /**
   * The parameter `k` handed to the library: when some option sets it, the
   * options before the last such option were accepted, and the parameter is
   * what its parser made of that option's argument, given the value those
   * earlier options left; when none sets it, the initial value (0, 0, no
   * salt). The structure version is 1 and no file size is set yet.
   */
  lemma LastSettingWins(env: Env, opts: seq<Opt>, k: ParamKind)
    requires ApplyOptions(env, opts).Some?
    ensures var p := ApplyOptions(env, opts).value.params;
            match LastSetting(opts, k)
            case None => SameParam(p, InitialParams, k)
            case Some(j) =>
              && ApplyOptions(env, opts[..j]).Some?
              && ParsedInto(env, k, opts[j].arg, ApplyOptions(env, opts[..j]).value.params, p)
    ensures ApplyOptions(env, opts).value.params.version == 1
    ensures ApplyOptions(env, opts).value.params.fileSize == 0
  {
    ApplyOptionsFromFixed(env, InitialSettings, opts);
    match LastSetting(opts, k)
    case None =>
      ApplyOptionsFromKeeps(env, InitialSettings, opts, k);
    case Some(j) =>
      var tail := [opts[j]] + opts[j + 1..];
      assert opts == opts[..j] + tail;
      ApplyOptionsFromAppend(env, InitialSettings, opts[..j], tail);
      var t := ApplyOptions(env, opts[..j]).value;
      assert tail[0] == opts[j] && tail[1..] == opts[j + 1..];
      var u := ApplyOption(env, t, opts[j]).value;
      ApplyOptionsFromKeeps(env, u, opts[j + 1..], k);
  }

  // ---------------------------------------------------------------- one file

  /** The bytes handed to bin2hex: the signed-digest record or the raw digest. */
  function RenderedBytes(forBuiltinSig: bool, d: Digest): (r: seq<byte>)
    requires |d.bytes| <= MaxDigestSize
    ensures 2 * |r| + 1 <= HexBufferLen
    ensures forBuiltinSig ==> DecodeSignedDigest(r) == Some(d)
    ensures !forBuiltinSig ==> r == d.bytes
  {
    HexFitsBuffer(d.bytes, forBuiltinSig);
    if forBuiltinSig then
      DecodeEncode(d.algorithm, d.bytes);
      EncodeSignedDigest(d.algorithm, d.bytes)
    else d.bytes
  }

  /** One iteration of the file loop, or the failure that ends the batch. */
  function FileLine(env: Env, s: Settings, path: string): Result<string, FileError>
    requires DigestsBounded(env)
  {
    if !env.openFile(path) then Err(OpenFailed)
    else match env.fileSize(path)
      case None => Err(SizeFailed)
      case Some(size) =>
        match env.computeDigest(path, s.params.(fileSize := size))
        case None => Err(DigestFailed)
        case Some(d) =>
          Ok(FormatLine(s.compact, s.forBuiltinSig, env.hashName(d.algorithm),
                        Hex(RenderedBytes(s.forBuiltinSig, d)), path))
  }

  /**
   * The body of the file loop: the digest is computed with this file's
   * size, rendered into the digest_hex buffer, and formatted.
   */
  method DigestFile(env: Env, s: Settings, path: string) returns (r: Result<string, FileError>)
    requires DigestsBounded(env)
    ensures r == FileLine(env, s, path)
  {
    if !env.openFile(path) {
      return Err(OpenFailed);
    }
    var size := env.fileSize(path);
    if size.None? {
      return Err(SizeFailed);
    }
    var digest := env.computeDigest(path, s.params.(fileSize := size.value));
    if digest.None? {
      return Err(DigestFailed);
    }
    var d := digest.value;
    var bin := RenderedBytes(s.forBuiltinSig, d);
    var digestHex := new char[HexBufferLen];
    Bin2Hex(bin, digestHex);
    var line := FormatLine(s.compact, s.forBuiltinSig, env.hashName(d.algorithm),
                           digestHex[..2 * |bin|], path);
    return Ok(line);
  }

  /**
   * A line that the command prints for a file reads back as the hex text of
   * the raw digest or of its signed-digest record, with the name and the
   * path exactly where the flags put them.
   */
  lemma FileLineShape(env: Env, s: Settings, path: string, size: nat, d: Digest)
    requires DigestsBounded(env)
    requires env.openFile(path) && env.fileSize(path) == Some(size)
    requires env.computeDigest(path, s.params.(fileSize := size)) == Some(d)
    requires !s.compact && !s.forBuiltinSig ==> ':' !in env.hashName(d.algorithm)
    ensures FileLine(env, s, path).Ok?
    ensures var p := ParseLine(s.compact, s.forBuiltinSig, FileLine(env, s, path).value);
            && p.Some?
            && (if s.forBuiltinSig then Unhex(p.value.hex).Some? && DecodeSignedDigest(Unhex(p.value.hex).value) == Some(d)
                else Unhex(p.value.hex) == Some(d.bytes))
            && p.value.hashName == (if s.compact || s.forBuiltinSig then None else Some(env.hashName(d.algorithm)))
            && p.value.path == (if s.compact then None else Some(path))
  {
    var bin := RenderedBytes(s.forBuiltinSig, d);
    HexDigitsOnly(bin);
    UnhexHex(bin);
    ParseFormatLine(s.compact, s.forBuiltinSig, env.hashName(d.algorithm), Hex(bin), path);
  }

  // ---------------------------------------------------------------- the batch

  /**
   * The file loop: one line per file until the first failure; open_file is
   * called on every file up to and including the failing one (whether or not
   * that open succeeds), and on none after it.
   */
  function ProcessFiles(env: Env, s: Settings, files: seq<string>): (r: Outcome)
    requires DigestsBounded(env)
  {
    if files == [] then Outcome(StatusOk, [], [])
    else match FileLine(env, s, files[0])
      case Err(_) => Outcome(StatusFailure, [], [files[0]])
      case Ok(line) =>
        var rest := ProcessFiles(env, s, files[1..]);
        Outcome(rest.status, [line] + rest.lines, [files[0]] + rest.attempted)
  }

  /** The whole command: options, the file-count check, then the file loop. */
  function Command(env: Env, opts: seq<Opt>, files: seq<string>): Outcome
    requires DigestsBounded(env)
  {
    match ApplyOptions(env, opts)
    case None => Outcome(StatusUsage, [], [])
    case Some(s) =>
      if |files| < 1 then Outcome(StatusUsage, [], [])
      else ProcessFiles(env, s, files)
  }

  /**
   * fsverity_cmd_digest. Besides the exit status and the printed lines it
   * returns the files it called open_file on, in order.
   */
  method RunDigestCommand(env: Env, opts: seq<Opt>, files: seq<string>)
    returns (status: int, out: seq<string>, attempted: seq<string>)
    requires DigestsBounded(env)
    ensures Outcome(status, out, attempted) == Command(env, opts, files)
  {
    var settings := ParseOptions(env, opts);
    if settings.None? {
      return StatusUsage, [], [];
    }
    if |files| < 1 {
      return StatusUsage, [], [];
    }
    var s := settings.value;
    out, attempted := [], [];
    var i := 0;
    while i < |files|
      invariant 0 <= i <= |files|
      invariant var rest := ProcessFiles(env, s, files[i..]);
                ProcessFiles(env, s, files) == Outcome(rest.status, out + rest.lines, attempted + rest.attempted)
    {
      assert files[i..][1..] == files[i + 1..];
      attempted := attempted + [files[i]];
      var r := DigestFile(env, s, files[i]);
      if r.Err? {
        return StatusFailure, out, attempted;
      }
      out := out + [r.value];
      i := i + 1;
    }
    assert files[i..] == [];
    return StatusOk, out, attempted;
  }

  /**
   * All files printed: status 0 and one line per file, in argument order,
   * and open_file called on every file once, in argument order.
   */
  lemma {:induction false} ProcessFilesAllOk(env: Env, s: Settings, files: seq<string>)
    requires DigestsBounded(env)
    requires forall i :: 0 <= i < |files| ==> FileLine(env, s, files[i]).Ok?
    ensures ProcessFiles(env, s, files).status == StatusOk
    ensures |ProcessFiles(env, s, files).lines| == |files|
    ensures forall i :: 0 <= i < |files| ==>
              ProcessFiles(env, s, files).lines[i] == FileLine(env, s, files[i]).value
    ensures ProcessFiles(env, s, files).attempted == files
  {
    if files != [] {
      assert forall i :: 0 <= i < |files| - 1 ==> files[1..][i] == files[i + 1];
      ProcessFilesAllOk(env, s, files[1..]);
      assert files == [files[0]] + files[1..];
    }
  }

  /**
   * File k fails after files 0..k-1 succeeded: status 1, the output is the
   * lines of files 0..k-1, and open_file was called on files 0..k and on no
   * file after them.
   */
  lemma {:induction false} ProcessFilesFailsAt(env: Env, s: Settings, files: seq<string>, k: nat)
    requires DigestsBounded(env)
    requires k < |files|
    requires forall i :: 0 <= i < k ==> FileLine(env, s, files[i]).Ok?
    requires FileLine(env, s, files[k]).Err?
    ensures ProcessFiles(env, s, files).status == StatusFailure
    ensures |ProcessFiles(env, s, files).lines| == k
    ensures forall i :: 0 <= i < k ==>
              ProcessFiles(env, s, files).lines[i] == FileLine(env, s, files[i]).value
    ensures ProcessFiles(env, s, files).attempted == files[..k + 1]
  {
    if k > 0 {
      assert forall i :: 0 <= i < |files| - 1 ==> files[1..][i] == files[i + 1];
      ProcessFilesFailsAt(env, s, files[1..], k - 1);
      assert files[..k + 1] == [files[0]] + files[1..][..k];
    }
  }

  /** Status 0 exactly when every file succeeds; otherwise status 1. */
  lemma {:induction false} ProcessFilesStatus(env: Env, s: Settings, files: seq<string>)
    requires DigestsBounded(env)
    ensures ProcessFiles(env, s, files).status == StatusOk || ProcessFiles(env, s, files).status == StatusFailure
    ensures ProcessFiles(env, s, files).status == StatusOk <==>
            forall i :: 0 <= i < |files| ==> FileLine(env, s, files[i]).Ok?
  {
    if files != [] {
      assert forall i :: 0 <= i < |files| - 1 ==> files[1..][i] == files[i + 1];
      ProcessFilesStatus(env, s, files[1..]);
    }
  }

  /**
   * Usage errors: status 2 exactly when an option is rejected or no file is
   * named, and then nothing is printed and open_file is never called; otherwise the
   * file loop decides.
   */
  lemma UsageErrorIff(env: Env, opts: seq<Opt>, files: seq<string>)
    requires DigestsBounded(env)
    ensures Command(env, opts, files).status == StatusUsage <==>
            (exists i: nat :: i < |opts| && RejectedAt(env, InitialSettings, opts, i)) || files == []
    ensures Command(env, opts, files).status == StatusUsage ==>
            Command(env, opts, files).lines == [] && Command(env, opts, files).attempted == []
    ensures Command(env, opts, files).status in {StatusOk, StatusFailure, StatusUsage}
  {
    OptionsRejectedIff(env, opts);
    if ApplyOptions(env, opts).Some? && files != [] {
      ProcessFilesStatus(env, ApplyOptions(env, opts).value, files);
    }
  }

  /**
   * With the options accepted and at least one file: when every file
   * succeeds, status 0, one line per file in argument order, and open_file
   * called on every file; when file k is the first to fail, status 1,
   * exactly the lines of files 0..k-1, and open_file called on files 0..k
   * and on no file after them.
   */
  lemma CommandOutcome(env: Env, opts: seq<Opt>, files: seq<string>, s: Settings)
    requires DigestsBounded(env)
    requires ApplyOptions(env, opts) == Some(s) && files != []
    ensures var o := Command(env, opts, files);
            var k := FirstFailure(env, s, files);
            && |o.lines| == k
            && (forall i :: 0 <= i < k ==> o.lines[i] == FileLine(env, s, files[i]).value)
            && o.status == (if k == |files| then StatusOk else StatusFailure)
            && o.attempted == (if k == |files| then files else files[..k + 1])
  {
    var k := FirstFailure(env, s, files);
    if k == |files| {
      ProcessFilesAllOk(env, s, files);
    } else {
      ProcessFilesFailsAt(env, s, files, k);
    }
  }

  /** The index of the first file that fails, or |files| when none does. */
  function FirstFailure(env: Env, s: Settings, files: seq<string>): (k: nat)
    requires DigestsBounded(env)
    ensures k <= |files|
    ensures forall i :: 0 <= i < k ==> FileLine(env, s, files[i]).Ok?
    ensures k < |files| ==> FileLine(env, s, files[k]).Err?
  {
    if files == [] || FileLine(env, s, files[0]).Err? then 0
    else
      var k := FirstFailure(env, s, files[1..]);
      assert forall i :: 1 <= i < k + 1 ==> files[i] == files[1..][i - 1];
      k + 1
  }
}
