# fuzzy-folder, pure core

fuzzy-folder is an editor extension that lists the folders under a fixed base
directory with `fd`, pipes that listing through `fzf --filter=<query>` on every
keystroke, and shows the first lines of the result in a quick-pick widget. This
project models the parts of `src/extension.ts` that are plain computation:

- the configuration constants (base directory, binary paths, exclusion list);
- the argument vector passed to `fd` and the one passed to `fzf`, as values
  (`Extension.FdArgs`, `Extension.FzfArgs`, and the `Command` values
  `Extension.FdCommand`, `Extension.FzfCommand`), each with a parser that reads
  the vector back, and a proof that the reading is exact in both directions;
- `bufferToStrList` (`Extension.BufferToStrList`): keep at most `maxSize` bytes,
  decode them, split on `"\n"`, keep at most `maxItems` lines.

The JavaScript library calls that `bufferToStrList` chains are modelled with
their library semantics in module `JsBuiltins`: `subarray(0, end)` counts a
negative `end` back from the end of the buffer and clamps to its length;
`splice(0, n)` removes nothing for a negative `n` and clamps to the array's
length; `split` with a one-character separator always gives at least one piece
and keeps empty pieces; `join` is its inverse. UTF-8 decoding belongs to the
runtime, so the decoder is a parameter `decode: seq<byte> -> string` of every
decoder function and lemma, and each property holds for every decoder.

An empty buffer does not yield an empty list: with `maxItems >= 1` it yields
`[""]`, one empty item, because `"".split("\n")` is `[""]`. The model follows the code
(`Extension.EmptyBufferGivesOneEmptyItem`). Likewise, when the kept bytes (the
whole listing, if it fits in `maxSize` bytes) decode to text ending in a newline
and there are no more lines than `maxItems`, the last item is `""`
(`Extension.TrailingNewlineGivesEmptyItem`). A listing longer than `maxSize`
bytes is cut at byte `maxSize`, usually mid-line, so its last item may be a partial path.

## Model

| member | source | states |
|---|---|---|
| `JsBuiltins.Subarray` | src/extension.ts:82 | `subarray(0, maxSize)` keeps the first `min(maxSize, len)` bytes for a non-negative limit, and all but the last `-maxSize` bytes (none when that exceeds the length) for a negative one; never more than the buffer |
| `JsBuiltins.Splice` | src/extension.ts:83 | `splice(start, n)` returns the run removed at the relative start and leaves the rest, so that before + removed + after is the array; it removes `min(n, len - start')` elements from the relative start `start'`, nothing for `n <= 0`; from 0 it removes the first `min(n, len)` elements |
| `JsBuiltins.Split` | src/extension.ts:82 | `split` gives at least one piece and no piece contains the separator |
| `JsBuiltins.SplitCount` | src/extension.ts:82 | the number of pieces is the number of separators plus one |
| `JsBuiltins.JoinSplit` | src/extension.ts:82 | joining the pieces with the separator gives the string back |
| `JsBuiltins.SplitJoin` | src/extension.ts:82 | splitting the join of one or more separator-free pieces gives the pieces back |
| `JsBuiltins.SplitEndsWithSeparator` | src/extension.ts:82 | a string ending in the separator splits into at least two pieces, the last one empty |
| `Extension.PrefixEach` | src/extension.ts:28 | `map` with a prefix keeps the length and prefixes each element in place |
| `Extension.FdArgs` | src/extension.ts:25-29 | the `fd` argv has two slots more than there are patterns: the base-directory flag, `--type=d`, then `--exclude=<d>` for the i-th pattern at slot `i + 2` |
| `Extension.FdCommand` | src/extension.ts:25-29 | `fd` runs as `/usr/bin/fd` (line 10), and its argv reads back as exactly the configured base directory `BASE_DIR` and exclusion list `EXCLUDE_DIRS` (lines 9, 12-20) |
| `Extension.FdCommandWrittenOut` | src/extension.ts:9-29 | the configured `fd` argv is exactly the nine strings `--base-directory=/home/neo`, `--type=d`, and the seven exclusions in source order |
| `Extension.FdArgsReadBack` | src/extension.ts:25-29 | an argv reads back as (base directory, exclusions) if and only if it is the argv built from them |
| `Extension.FzfArgs` | src/extension.ts:54 | the `fzf` argv is a single slot `--filter=<query>` |
| `Extension.FzfCommand` | src/extension.ts:54 | `fzf` runs as `/usr/bin/fzf` (line 11), and its argv reads back as the query, unchanged |
| `Extension.FzfArgsReadBack` | src/extension.ts:54 | an argv reads back as a query (one slot, `--filter=` stripped) if and only if it is the argv built from that query, whatever characters the query holds |
| `Extension.FzfCommandInjective` | src/extension.ts:54 | two queries give the same command only if they are equal |
| `Extension.BufferToStrList` | src/extension.ts:77-84 | the items are the leading lines of the decoded kept bytes, in order; exactly `min(maxItems, lines)` of them for `maxItems >= 0`; none for `maxItems <= 0`; no item contains a newline |
| `Extension.BufferToStrListDefaults` | src/extension.ts:77-84 | with the defaults, at most 10 items, the leading lines of the decoded first `min(10000, len)` bytes |
| `Extension.ItemCount` | src/extension.ts:82-83 | the item count is `min(maxItems, newlines in the decoded text + 1)` |
| `Extension.OnlyLeadingBytesMatter` | src/extension.ts:82 | two buffers that agree on their first `min(maxSize, len)` bytes give the same items |
| `Extension.WholeBufferWhenItFits` | src/extension.ts:82 | when `maxSize >= len` the whole buffer is decoded |
| `Extension.NegativeSizeDropsTail` | src/extension.ts:82 | a negative `maxSize` decodes the buffer without its last `-maxSize` bytes |
| `Extension.DependsOnlyOnDecodedText` | src/extension.ts:82-83 | the items are determined by the buffer, the limits and what the decoder makes of the kept bytes |
| `Extension.JoinedItems` | src/extension.ts:82-83 | joining the items with `"\n"` is always a prefix of the decoded text; it is the whole text if and only if the lines fit in `maxItems` or the text is empty, and a proper prefix if and only if lines were dropped from a non-empty text |
| `Extension.AllLinesWhenTheyFit` | src/extension.ts:82-83 | when the lines number at most `maxItems`, every line is returned |
| `Extension.EmptyBufferGivesOneEmptyItem` | src/extension.ts:82-83 | with a decoder that maps no bytes to "" and `maxItems >= 1`, an empty buffer gives `[""]` |
| `Extension.TrailingNewlineGivesEmptyItem` | src/extension.ts:82-83 | decoded text ending in a newline, with all lines fitting, gives at least two items, the last one `""` |

## Left out

- Process spawning in `fdFindFolders` and `fuzzyFolders` (src/extension.ts:22-74): starting the binaries, the stdout/stderr/error/close handlers and piping the cached buffer into `fzf`'s stdin are operating-system and stream I/O; only the command each one starts is modelled.
- Chunk accumulation (`buffers.push`, `Buffer.concat`) inside the stream handlers: part of the event-driven I/O above.
- Directory traversal, the meaning of `--exclude` patterns and fuzzy matching: done by `fd` and `fzf`.
- UTF-8 decoding (`Buffer.toString("utf-8")`): a runtime library call, taken as the parameter `decode`; replacement of malformed byte sequences is not modelled.
- `activate`, `deactivate` and the quick-pick wiring (src/extension.ts:86-122): editor UI glue and logging.
- Overlapping filter runs started by fast typing: concurrency, and the code has no sequencing of its own.
- Non-integer, `NaN`, infinite or `undefined` limits: JavaScript numbers are modelled as integers, and leaving a limit out is modelled by `Extension.BufferToStrListDefaults`.
- JavaScript strings are UTF-16 code units while Dafny's `string` holds Unicode scalar values; splitting on `"\n"` is the same either way.
