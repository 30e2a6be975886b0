/**
 * The line the digest command prints for one file (programs/cmd_digest.c,
 * the printf branch after bin2hex). Two flags pick its shape, and
 * `compact` wins over `for_builtin_sig`:
 *   compact                      hex
 *   for_builtin_sig only         hex " " path
 *   neither                      name ":" hex " " path
 * Lines are modelled without the newline printf appends to each.
 */
module DigestLine {
  import opened Wrappers

  /** The printf of one output line (without its newline). */
  function FormatLine(compact: bool, forBuiltinSig: bool, hashName: string, hex: string, path: string): string
  {
    if compact then hex
    else if forBuiltinSig then hex + " " + path
    else hashName + ":" + hex + " " + path
  }

  /** What a reader of one output line can take apart: name, hex text, path. */
  datatype LineParts = LineParts(hashName: Option<string>, hex: string, path: Option<string>)

  /** Splits `s` at the first `sep`: the text before it and the text after it. */
  function SplitFirst(s: string, sep: char): (r: Option<(string, string)>)
    ensures r.Some? ==> sep !in r.value.0 && s == r.value.0 + [sep] + r.value.1
  {
    if s == [] then None
    else if s[0] == sep then Some(([], s[1..]))
    else match SplitFirst(s[1..], sep)
      case None => None
      case Some((before, after)) => Some(([s[0]] + before, after))
  }

  /** Reads a line back, knowing which flags produced it. */
  function ParseLine(compact: bool, forBuiltinSig: bool, line: string): Option<LineParts>
  {
    if compact then Some(LineParts(None, line, None))
    else if forBuiltinSig then
      match SplitFirst(line, ' ')
      case None => None
      case Some((hex, path)) => Some(LineParts(None, hex, Some(path)))
    else
      match SplitFirst(line, ':')
      case None => None
      case Some((name, rest)) =>
        match SplitFirst(rest, ' ')
        case None => None
        case Some((hex, path)) => Some(LineParts(Some(name), hex, Some(path)))
  }

  lemma {:induction false} SplitFirstAt(before: string, sep: char, after: string)
    requires sep !in before
    ensures SplitFirst(before + [sep] + after, sep) == Some((before, after))
  {
    var s := before + [sep] + after;
    if before != [] {
      assert s[0] == before[0] && s[1..] == before[1..] + [sep] + after;
      SplitFirstAt(before[1..], sep, after);
      assert [before[0]] + before[1..] == before;
    }
  }

  /**
   * Every line has the shape its flags call for, and the parts can be read
   * back unambiguously: with compact (whatever for_builtin_sig says) the line
   * is the hex text alone (no name, no path); with for_builtin_sig alone it is hex and path; with
   * neither it is name, hex and path. The path may hold any character; the
   * name must be free of ':' only where it is printed, the hex text free of
   * ' ' only where a path follows it.
   */
  lemma ParseFormatLine(compact: bool, forBuiltinSig: bool, hashName: string, hex: string, path: string)
    requires !compact && !forBuiltinSig ==> ':' !in hashName
    requires !compact ==> ' ' !in hex
    ensures ParseLine(compact, forBuiltinSig, FormatLine(compact, forBuiltinSig, hashName, hex, path))
         == Some(LineParts(if compact || forBuiltinSig then None else Some(hashName),
                           hex,
                           if compact then None else Some(path)))
  {
    if !compact {
      SplitFirstAt(hex, ' ', path);
      assert hex + " " + path == hex + [' '] + path;
      if !forBuiltinSig {
        SplitFirstAt(hashName, ':', hex + " " + path);
        assert hashName + ":" + hex + " " + path == hashName + [':'] + (hex + " " + path);
      }
    }
  }
}
