/**
 * The pure part of the fuzzy-folder editor extension: the fixed configuration,
 * the argument vectors handed to the directory lister (`fd`) and the fuzzy
 * filter (`fzf`), and the decoder that turns a captured standard-output buffer
 * into the short list of folder paths shown in the quick-pick widget.
 *
 * Decoding bytes as UTF-8 is done by the host runtime; here it is a parameter
 * `decode`, and everything below holds whatever that decoder does.
 */
module Extension {
  import opened JsBuiltins

  datatype Option<T> = None | Some(value: T)

  // ---------------------------------------------------------------------------
  // Configuration

  const BaseDir: string := "/home/neo"
  const FdBin: string := "/usr/bin/fd"
  const FzfBin: string := "/usr/bin/fzf"
  const ExcludeDirs: seq<string> :=
    ["node_modules", ".git", ".cache", "dist", "target", "android-studio", "Android"]

  const BaseDirFlag: string := "--base-directory="
  const TypeDirFlag: string := "--type=d"
  const ExcludeFlag: string := "--exclude="
  const FilterFlag: string := "--filter="

  /** A child process as `spawn(program, args)` starts it: no shell is involved. */
  datatype Command = Command(program: string, args: seq<string>)

  // ---------------------------------------------------------------------------
  // Argument vectors

  /** `xs.map((x) => prefix + x)`. */
  function PrefixEach(prefix: string, xs: seq<string>): (r: seq<string>)
    ensures |r| == |xs|
    ensures forall i :: 0 <= i < |xs| ==> r[i] == prefix + xs[i]
  {
    if xs == [] then [] else [prefix + xs[0]] + PrefixEach(prefix, xs[1..])
  }

  /**
   * The arguments of the directory lister: the base directory, "directories
   * only", then one exclusion per pattern, in the order the patterns are given.
   */
  function FdArgs(baseDir: string, excludes: seq<string>): (argv: seq<string>)
    ensures |argv| == 2 + |excludes|
    ensures argv[0] == BaseDirFlag + baseDir
    ensures argv[1] == TypeDirFlag
    ensures forall i :: 0 <= i < |excludes| ==> argv[2 + i] == ExcludeFlag + excludes[i]
  {
    [BaseDirFlag + baseDir, TypeDirFlag] + PrefixEach(ExcludeFlag, excludes)
  }

  /**
   * The directory lister as the extension starts it: `/usr/bin/fd`, with an
   * argument vector that carries exactly the configured base directory and
   * exclusion patterns.
   */
  function FdCommand(): (c: Command)
    ensures c.program == "/usr/bin/fd"
    ensures ParseFdArgs(c.args) == Some((BaseDir, ExcludeDirs))
  {
    FdArgsReadBack(FdArgs(BaseDir, ExcludeDirs), BaseDir, ExcludeDirs);
    Command(FdBin, FdArgs(BaseDir, ExcludeDirs))
  }

  /** The arguments of the fuzzy filter: the query, verbatim, in one slot. */
  function FzfArgs(query: string): (argv: seq<string>)
    ensures |argv| == 1
    ensures argv[0] == FilterFlag + query
  {
    [FilterFlag + query]
  }

  /**
   * The fuzzy filter as the extension starts it for one query: `/usr/bin/fzf`,
   * with an argument vector that reads back as that very query.
   */
  function FzfCommand(query: string): (c: Command)
    ensures c.program == "/usr/bin/fzf"
    ensures ParseFzfArgs(c.args) == Some(query)
  {
    FzfArgsReadBack(FzfArgs(query), query);
    Command(FzfBin, FzfArgs(query))
  }

  /** The configured lister command, slot by slot. */
  lemma FdCommandWrittenOut()
    ensures var argv := FdCommand().args;
      |argv| == 9 &&
      argv[0] == BaseDirFlag + "/home/neo" &&
      argv[1] == TypeDirFlag &&
      argv[2] == ExcludeFlag + "node_modules" &&
      argv[3] == ExcludeFlag + ".git" &&
      argv[4] == ExcludeFlag + ".cache" &&
      argv[5] == ExcludeFlag + "dist" &&
      argv[6] == ExcludeFlag + "target" &&
      argv[7] == ExcludeFlag + "android-studio" &&
      argv[8] == ExcludeFlag + "Android"
  {
  }

  // ---------------------------------------------------------------------------
  // Reading an argument vector back, one `--flag=value` slot at a time

  /** The rest of `s` after `prefix`, when `s` starts with `prefix`. */
  function StripPrefix(prefix: string, s: string): (r: Option<string>)
    ensures r.Some? <==> prefix <= s
    ensures r.Some? ==> s == prefix + r.value
  {
    if prefix <= s then Some(s[|prefix|..]) else None
  }

  lemma StripPrefixOfConcat(prefix: string, v: string)
    ensures StripPrefix(prefix, prefix + v) == Some(v)
  {
    assert (prefix + v)[|prefix|..] == v;
  }

  /** The patterns of a run of exclusion flags, when every slot is one. */
  function ParseExcludes(flags: seq<string>): (r: Option<seq<string>>)
    ensures r.Some? ==> PrefixEach(ExcludeFlag, r.value) == flags
  {
    if flags == [] then Some([])
    else
      match StripPrefix(ExcludeFlag, flags[0])
      case None => None
      case Some(d) =>
        match ParseExcludes(flags[1..])
        case None => None
        case Some(ds) => Some([d] + ds)
  }

  lemma {:induction false} ParseExcludesOfPrefixEach(excludes: seq<string>)
    ensures ParseExcludes(PrefixEach(ExcludeFlag, excludes)) == Some(excludes)
    decreases |excludes|
  {
    if excludes != [] {
      var flags := PrefixEach(ExcludeFlag, excludes);
      assert flags[1..] == PrefixEach(ExcludeFlag, excludes[1..]);
      StripPrefixOfConcat(ExcludeFlag, excludes[0]);
      ParseExcludesOfPrefixEach(excludes[1..]);
      assert [excludes[0]] + excludes[1..] == excludes;
    }
  }

  /** The base directory and exclusion patterns an `fd` argument vector carries. */
  function ParseFdArgs(argv: seq<string>): (r: Option<(string, seq<string>)>)
  {
    if |argv| < 2 || argv[1] != TypeDirFlag then None
    else
      match StripPrefix(BaseDirFlag, argv[0])
      case None => None
      case Some(b) =>
        match ParseExcludes(argv[2..])
        case None => None
        case Some(e) => Some((b, e))
  }

  /**
   * An argument vector reads back as (baseDir, excludes) exactly when it is the
   * one FdArgs builds from them: every pattern lands in a slot of its own, in
   * order, and nothing else is added.
   */
  lemma FdArgsReadBack(argv: seq<string>, baseDir: string, excludes: seq<string>)
    ensures ParseFdArgs(argv) == Some((baseDir, excludes)) <==> argv == FdArgs(baseDir, excludes)
  {
    if argv == FdArgs(baseDir, excludes) {
      StripPrefixOfConcat(BaseDirFlag, baseDir);
      assert argv[2..] == PrefixEach(ExcludeFlag, excludes);
      ParseExcludesOfPrefixEach(excludes);
    }
    if ParseFdArgs(argv) == Some((baseDir, excludes)) {
      assert argv == [argv[0], argv[1]] + argv[2..];
    }
  }

  /** The query an `fzf` argument vector carries, when it is a single filter slot. */
  function ParseFzfArgs(argv: seq<string>): (r: Option<string>)
  {
    if |argv| == 1 then StripPrefix(FilterFlag, argv[0]) else None
  }

  /**
   * An argument vector reads back as `query` exactly when it is FzfArgs(query):
   * whatever the query holds (spaces, quotes, newlines, leading dashes) it
   * stays one argument and comes back unchanged.
   */
  lemma FzfArgsReadBack(argv: seq<string>, query: string)
    ensures ParseFzfArgs(argv) == Some(query) <==> argv == FzfArgs(query)
  {
    if argv == FzfArgs(query) {
      StripPrefixOfConcat(FilterFlag, query);
    }
    if ParseFzfArgs(argv) == Some(query) {
      assert argv == [argv[0]];
    }
  }

  /** Different queries give different filter commands (by FzfCommand's read-back). */
  lemma FzfCommandInjective(q1: string, q2: string)
    requires FzfCommand(q1) == FzfCommand(q2)
    ensures q1 == q2
  {
  }

  // ---------------------------------------------------------------------------
  // The list decoder

  type Decoder = seq<byte> -> string

  const DefaultMaxItems: int := 10
  const DefaultMaxSize: int := 10_000
  const NewLine: char := '\n'

  /** The text that is split: the leading bytes kept by `subarray(0, maxSize)`, decoded. */
  function DecodedText(decode: Decoder, buffer: seq<byte>, maxSize: int): string
  {
    decode(Subarray(buffer, 0, maxSize))
  }

  /** Every line of the decoded text, before the item limit is applied. */
  function Lines(decode: Decoder, buffer: seq<byte>, maxSize: int): seq<string>
  {
    Split(DecodedText(decode, buffer, maxSize), NewLine)
  }

  /**
   * `bufferToStrList`: decode at most the first `maxSize` bytes, split on
   * newlines and keep at most the first `maxItems` lines.
   */
  function BufferToStrList(decode: Decoder, buffer: seq<byte>, maxItems: int, maxSize: int)
    : (items: seq<string>)
    // the leading lines of the decoded text, in order ...
    ensures |items| <= |Lines(decode, buffer, maxSize)|
    ensures items == Lines(decode, buffer, maxSize)[..|items|]
    // ... as many as the limit allows and as there are
    ensures maxItems >= 0 ==> |items| == Min(maxItems, |Lines(decode, buffer, maxSize)|)
    ensures maxItems <= 0 ==> items == []
    ensures forall i :: 0 <= i < |items| ==> NewLine !in items[i]
  {
    var strList := Split(decode(Subarray(buffer, 0, maxSize)), NewLine);
    Splice(strList, 0, maxItems).0
  }

  /** The call `bufferToStrList(buffer)` with both limits left at their defaults. */
  function BufferToStrListDefaults(decode: Decoder, buffer: seq<byte>): (items: seq<string>)
    ensures |items| <= DefaultMaxItems
    ensures var lines := Split(decode(buffer[..Min(DefaultMaxSize, |buffer|)]), NewLine);
      |items| == Min(DefaultMaxItems, |lines|) && items == lines[..|items|]
  {
    BufferToStrList(decode, buffer, DefaultMaxItems, DefaultMaxSize)
  }

  /** How many items come back, counted by the newlines in the decoded text. */
  lemma ItemCount(decode: Decoder, buffer: seq<byte>, maxItems: int, maxSize: int)
    requires maxItems >= 0
    ensures |BufferToStrList(decode, buffer, maxItems, maxSize)|
      == Min(maxItems, Occurrences(DecodedText(decode, buffer, maxSize), NewLine) + 1)
  {
    SplitCount(DecodedText(decode, buffer, maxSize), NewLine);
  }

  /** Two buffers that agree on the bytes that are kept give the same items. */
  lemma OnlyLeadingBytesMatter(decode: Decoder, b1: seq<byte>, b2: seq<byte>,
                               maxItems: int, maxSize: int)
    requires maxSize >= 0
    requires b1[..Min(maxSize, |b1|)] == b2[..Min(maxSize, |b2|)]
    ensures BufferToStrList(decode, b1, maxItems, maxSize)
         == BufferToStrList(decode, b2, maxItems, maxSize)
  {
  }

  /** A size limit at or beyond the buffer's length keeps the whole buffer. */
  lemma WholeBufferWhenItFits(decode: Decoder, buffer: seq<byte>, maxSize: int)
    requires maxSize >= |buffer|
    ensures DecodedText(decode, buffer, maxSize) == decode(buffer)
  {
    assert buffer[..|buffer|] == buffer;
  }

  /** A negative size limit counts from the end: it drops the last -maxSize bytes. */
  lemma NegativeSizeDropsTail(decode: Decoder, buffer: seq<byte>, maxSize: int)
    requires maxSize < 0
    ensures DecodedText(decode, buffer, maxSize)
         == decode(buffer[..|buffer| - Min(-maxSize, |buffer|)])
  {
  }

  /**
   * The result depends on the decoder only through what it makes of the kept
   * bytes: the same buffer, limits and decoded text always give the same items.
   */
  lemma DependsOnlyOnDecodedText(d1: Decoder, d2: Decoder, buffer: seq<byte>,
                                 maxItems: int, maxSize: int)
    requires DecodedText(d1, buffer, maxSize) == DecodedText(d2, buffer, maxSize)
    ensures BufferToStrList(d1, buffer, maxItems, maxSize)
         == BufferToStrList(d2, buffer, maxItems, maxSize)
  {
  }

  /**
   * Joining the items with newlines gives the decoded text back exactly when
   * no line was cut off (or there was no text at all), and otherwise a proper
   * prefix of it.
   */
  lemma {:induction false} JoinedItems(decode: Decoder, buffer: seq<byte>,
                                       maxItems: int, maxSize: int)
    ensures var text := DecodedText(decode, buffer, maxSize);
      var joined := Join(BufferToStrList(decode, buffer, maxItems, maxSize), NewLine);
      var lines := Lines(decode, buffer, maxSize);
      joined <= text &&
      (joined == text <==> (|lines| <= maxItems || text == "")) &&
      (joined < text <==> (maxItems < |lines| && text != ""))
  {
    var text := DecodedText(decode, buffer, maxSize);
    var lines := Lines(decode, buffer, maxSize);
    var items := BufferToStrList(decode, buffer, maxItems, maxSize);
    JoinSplit(text, NewLine);
    if text == "" {
      assert lines == [""];
    }
    if |items| == |lines| {
      assert items == lines;
    } else if |items| == 0 {
      assert Join(items, NewLine) == "";
    } else {
      JoinTake(lines, |items|, NewLine);
      assert items == lines[..|items|];
    }
  }

  /** With room for at least one item, an empty buffer gives one empty item, not none. */
  lemma EmptyBufferGivesOneEmptyItem(decode: Decoder, maxItems: int, maxSize: int)
    requires decode([]) == ""
    requires maxItems >= 1
    ensures BufferToStrList(decode, [], maxItems, maxSize) == [""]
  {
    var empty: seq<byte> := [];
    assert Subarray(empty, 0, maxSize) == [];
  }

  /** When every line fits under the item limit, every line is returned. */
  lemma AllLinesWhenTheyFit(decode: Decoder, buffer: seq<byte>, maxItems: int, maxSize: int)
    requires |Lines(decode, buffer, maxSize)| <= maxItems
    ensures BufferToStrList(decode, buffer, maxItems, maxSize) == Lines(decode, buffer, maxSize)
  {
  }

  /** Text that ends in a newline yields a trailing empty item, when it fits. */
  lemma TrailingNewlineGivesEmptyItem(decode: Decoder, buffer: seq<byte>,
                                      maxItems: int, maxSize: int)
    requires DecodedText(decode, buffer, maxSize) != []
    requires Last(DecodedText(decode, buffer, maxSize)) == NewLine
    requires |Lines(decode, buffer, maxSize)| <= maxItems
    ensures |BufferToStrList(decode, buffer, maxItems, maxSize)| >= 2
    ensures Last(BufferToStrList(decode, buffer, maxItems, maxSize)) == ""
  {
    AllLinesWhenTheyFit(decode, buffer, maxItems, maxSize);
    SplitEndsWithSeparator(DecodedText(decode, buffer, maxSize), NewLine);
  }
}
