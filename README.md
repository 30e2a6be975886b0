# fsverity digest: a Dafny model

This project models the `fsverity digest` command of fsverity-utils
(`programs/cmd_digest.c`). The command computes the fs-verity measurement of
each file it is given and prints it. The measurement is the root hash of the
file's Merkle tree, computed by libfsverity. The command can print it in three
shapes. With `--for-builtin-sig`, it first wraps the digest in the
formatted-digest record that the kernel's fs-verity built-in signature
support verifies.

The model has five modules:

- `Wrappers` (`wrappers.dfy`): `Option` and `Result`.
- `SignedDigest` (`signed_digest.dfy`): `struct fsverity_signed_digest` as a
  serialiser. The record is the 8 ASCII bytes `FSVerity`, then the algorithm
  id and then the digest size, each 16-bit and little-endian, then the digest
  bytes. Nothing pads it. A decoder is the encoder's exact inverse.
- `HexEncoding` (`hex_encoding.dfy`): `bin2hex` writes two lower-case hex
  digits per byte into the fixed `digest_hex` buffer, then a NUL. `Bin2Hex`
  is a method over a `char` array, proved against the function `Hex`. `Unhex`
  reads hex back. The buffer-size lemma shows that every rendering the
  command asks for fits `digest_hex`.
- `DigestLine` (`digest_line.dfy`): the three-way output line.
  `--compact` gives the hex alone. `--for-builtin-sig` alone gives hex, a
  space and the path. Neither flag gives name, `:`, hex, a space and the
  path. `ParseLine` reads a line back.
- `CmdDigest` (`cmd_digest.dfy`): the option loop (`ParseOptions`, a method
  proved against `ApplyOptions`) and one file's pipeline (`DigestFile`,
  proved against `FileLine`). It also holds the batch driver
  (`RunDigestCommand`, proved against `Command`) and the exit-status lemmas.
  Status 2 means a rejected option or no file; nothing is printed and
  `open_file` is never called. Status 1 means that file k could not be
  opened, sized or digested; exactly the lines of files 0..k-1 are printed,
  and `open_file` was called on files 0..k and on no file after them.
  Status 0 means one line per file, in argument order. Beside the status and
  the lines, the driver returns the files it called `open_file` on (whether
  or not the open succeeded), so these facts are stated about it.

The record's algorithm id and the hash name both come from the digest that
libfsverity returns (`digest->digest_algorithm`). They do not come from the
`--hash-alg` option.

The collaborators outside `cmd_digest.c` are passed in as the function-typed
fields of an `Env` value:

- the option parsers (`parse_hash_alg_option`, `parse_block_size_option`,
  `parse_salt_option`). Each receives the argument and the current value of
  the field it fills, as the C code passes that field by address. So a
  parser may depend on an earlier setting, for instance by refusing a
  second `--salt`;
- `open_file` and `get_file_size`;
- `libfsverity_compute_digest`, which receives the file's path in place of
  its contents;
- `libfsverity_get_hash_name`.

The file size goes into each digest call through
`params.(fileSize := size)`. The C code instead overwrites the shared
`tree_params.file_size` field. Nothing observable differs.

## Model

| member | source | states |
|---|---|---|
| `SignedDigest.Le16` | programs/cmd_digest.c:116-118 | `cpu_to_le16` gives two bytes, low byte first, whatever the host order |
| `SignedDigest.EncodeSignedDigest` | programs/cmd_digest.c:114-119 | the record is exactly 12 + digest-size bytes; bytes 0-7 are the magic `FSVerity`; bytes 8-9 hold the algorithm id and bytes 10-11 the digest size, little-endian; the digest follows verbatim and nothing comes after it |
| `SignedDigest.DecodeSignedDigest` | programs/cmd_digest.c:34-39 | a byte string that decodes is 12 bytes longer than its digest and starts with the magic |
| `SignedDigest.DecodeEncode` | programs/cmd_digest.c:114-119 | decoding the record gives back the algorithm id and the digest bytes |
| `SignedDigest.EncodeDecode` | programs/cmd_digest.c:34-39 | every byte string that decodes is exactly the record of what it decodes to, so the layout has one spelling per record |
| `HexEncoding.Hex` | programs/cmd_digest.c:121-125 | the hex text is two characters per byte |
| `HexEncoding.HexAt` | programs/cmd_digest.c:121-125 | byte i becomes characters 2i (high nibble) and 2i+1 (low nibble), both lower-case hex digits |
| `HexEncoding.UnhexHex` | programs/cmd_digest.c:121-125 | hex loses nothing: reading it back gives the bytes |
| `HexEncoding.HexDigitsOnly` | programs/cmd_digest.c:121-125 | hex text holds only `0-9a-f`, so no space, colon or NUL |
| `HexEncoding.SignedDigestHex` | programs/cmd_digest.c:109-122 | in `--for-builtin-sig` mode the hex is that of the magic, then the algorithm, then the size (24 digits), then that of the digest |
| `HexEncoding.HexFitsBuffer` | programs/cmd_digest.c:92-93 | for a digest within FS_VERITY_MAX_DIGEST_SIZE (64), the hex of the digest or of its record, plus the NUL, fits the 2*64 + 2*12 + 1 character buffer |
| `HexEncoding.Bin2Hex` | programs/cmd_digest.c:121-125 | the buffer starts with the hex text, a NUL follows it, and the rest of the buffer is unchanged |
| `DigestLine.ParseFormatLine` | programs/cmd_digest.c:128-135 | the line `FormatLine` prints reads back into its parts: `--compact` prints the hex only, with no name and no path, whatever `--for-builtin-sig` says; `--for-builtin-sig` alone prints hex and path; neither prints name, hex and path; each part can be read back, given a name without `:` where the name is printed and hex without a space where a path follows |
| `CmdDigest.ApplyOption` | programs/cmd_digest.c:55-80 | one option fails exactly when getopt did not recognise it or its parser rejects its argument given the field's current value; an accepted `--hash-alg`, `--block-size` or `--salt` stores what its parser returned in its own field and changes no other parameter; `--compact` and `--for-builtin-sig` set their flag and nothing else |
| `CmdDigest.ParseOptions` | programs/cmd_digest.c:54-81 | the getopt loop computes `ApplyOptions`: the options applied in order, stopping at the first rejected one |
| `CmdDigest.OptionsRejectedIff` | programs/cmd_digest.c:54-81 | the option loop fails exactly when some option is rejected in the settings the options before it left, those options all being accepted |
| `CmdDigest.FlagsIff` | programs/cmd_digest.c:72-77 | `compact` and `for_builtin_sig` are set exactly when their options were given |
| `CmdDigest.LastSettingWins` | programs/cmd_digest.c:56-71 | for each of the hash algorithm, block size and salt: when an option sets it, the options before the last such option were accepted, and the value passed to the library is what the parser returned for that option's argument given the value those earlier options left; an option not given leaves 0 (the library default) or no salt; the structure version stays 1 and no file size is set yet |
| `CmdDigest.RenderedBytes` | programs/cmd_digest.c:109-126 | the bytes given to bin2hex are the raw digest, or a record that decodes to the digest; their hex fits `digest_hex` |
| `CmdDigest.DigestFile` | programs/cmd_digest.c:95-135 | one file's pipeline gives `FileLine`: open, then size, then digest (each failure reported as such), then the rendered line |
| `CmdDigest.FileLineShape` | programs/cmd_digest.c:109-135 | the printed line parses into the hex of the raw digest (or of its record, which decodes to the digest), with the hash name and the path where the flags put them |
| `CmdDigest.RunDigestCommand` | programs/cmd_digest.c:44-155 | the command's exit status, printed lines and the files `open_file` was called on are those of `Command`: options, then the file-count check, then the file loop |
| `CmdDigest.ProcessFilesAllOk` | programs/cmd_digest.c:89-141 | when every file succeeds: status 0, one line per file, line i for file i, and `open_file` called on every file, in order |
| `CmdDigest.ProcessFilesFailsAt` | programs/cmd_digest.c:89-149 | when file k is the first to fail: status 1, exactly the lines of files 0..k-1, and `open_file` called on files 0..k and on no file after them |
| `CmdDigest.ProcessFilesStatus` | programs/cmd_digest.c:89-149 | the file loop ends with status 0 or 1, and with 0 exactly when every file succeeds |
| `CmdDigest.UsageErrorIff` | programs/cmd_digest.c:54-87 | status is 2 exactly when an option is rejected or no file is named, and then no line is printed and `open_file` is never called; the status is always 0, 1 or 2 |
| `CmdDigest.CommandOutcome` | programs/cmd_digest.c:86-149 | with the options accepted and at least one file, the output is the lines of the files before the first failure, `open_file` was called on the files up to and including it and on none after, and the status is 0 if no file failed, else 1 |

## Left out

- getopt_long itself is not modelled. That covers argv permutation, `--`, abbreviated long options and `optind`. The model takes the options as a sequence of already recognised `Opt` values and the file operands as a separate sequence.
- `parse_hash_alg_option`, `parse_block_size_option` and `parse_salt_option` are not part of this model. They are abstract `Option`-returning functions in `Env`; any failure gives status 2.
- The hash-name table and the numeric algorithm ids belong to libfsverity and stay abstract. `libfsverity_get_hash_name` is a total function to strings, so its NULL result for an unknown id is not modelled.
- `libfsverity_compute_digest` is an abstract oracle keyed by path and tree parameters. The Merkle-tree hashing and `read_callback` are inside that oracle; the block size and salt reach it only as `TreeParams` fields. Determinism holds by construction.
- `RunDigestCommand`, `DigestFile`: the `ASSERT` on the digest size at line 107 is a precondition on the library (`DigestsBounded`). The abort when the library breaks that promise is not modelled.
- `open_file`, `get_file_size` and `filedes_close` are reduced to success or failure per file. Closing the file is not modelled.
- `printf` and flushing are not modelled. Output is a sequence of lines without the trailing newline. `usage()` and `error_msg` write to stderr, which is not modelled either.
- `xzalloc` and `free` are not observable and are left out. The record is built as a byte sequence, not in a heap buffer. What `parse_salt_option` does with an earlier salt buffer is up to that parser, which is not part of this model.
- Field widths of `struct libfsverity_digest` (16-bit algorithm id and size) follow `libfsverity.h`, which is not part of this model. FS_VERITY_MAX_DIGEST_SIZE is 64, as in the kernel's `linux/fsverity.h`.
