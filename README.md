# A verified model of the editor side of a Neovim presence server

The program is a small language server that Neovim starts as a child
process, so that a Discord "rich presence" can show which file is being
edited and how much it has changed. This project models its core in Dafny
and proves properties of the model:

- **The line-diff counter `get_diff`** (src/diff.rs), modelled in
  `diff.dfy` with the edit graph in `edit_graph.dfy`, the longest common
  subsequence in `subsequences.dfy` and Rust's `str::lines` in `lines.dfy`.
  - It splits both texts into lines and runs the forward greedy search of
    Myers' O(ND) algorithm over an array `v` of furthest points, one
    snapshot per round.
  - It then walks the snapshots back, counting deletions and additions.
  - The model keeps `v` as an `array<int>` updated in place, and keeps the
    rounds, the inner snake loop and the backward walk as loops.
  - It proves that the result is `(N - LCS, M - LCS)`: the fewest lines to
    delete from the old text and to add from the new one.
- **The message framing** of src/nvim.rs, modelled in `framing.dfy` with
  UTF-8 validity in `utf8.dfy`. It is the "Base Protocol" of the Language
  Server Protocol Specification 3.17: header lines "Name: value" ended by
  "\r\n", an empty line, then exactly Content-Length bytes of UTF-8.
  - `read` becomes a method over an `InputStream` (the input bytes and a
    cursor that `read_line` and `read_exact` move). It is proved equal to
    the specification function `ReadFrom`.
  - `send` becomes a method appending to an `OutputStream`.
  - The lemmas give `ReadFrom`'s behaviour on the header lines the program distinguishes
    and prove that reading what `send` wrote gives the message back.
- **The notification decisions** of src/nvim.rs, modelled in `nvim.dfy`:
  - `get_file_name` (the text after the last '/');
  - the blacklist and empty-name filters of `did_open`;
  - the event of `did_change`;
  - the method dispatch of `message_handler`.

  JSON decoding is done by serde_json in the program. Here, what it
  produces is an input: `None` when a message does not decode as the
  expected type. The events the program sends down its channel are return
  values.

`wrappers.dfy` holds `Option` and `Result`.

Integers are unbounded. The target is 64-bit where it matters:
- the largest Content-Length `parse::<usize>` accepts is 2^64 - 1;
- `Vec::resize` panics for a buffer above 2^63 - 1 bytes (`isize::MAX`). The model reports that panic as the read error `CapacityOverflow`.

## Model

| member | source | states |
|---|---|---|
| Diff.GetDiff | src/diff.rs:1-54 | when the two texts have at least one line between them, the result is `(deletions, additions)` = `(N - LCS, M - LCS)` of their `str::lines` splits |
| Diff.ShortestEdit | src/diff.rs:8-38 | the forward search records exactly D + 1 snapshots of `v`, where D is the edit distance (the cost of reaching (N, M)); every snapshot has 2·max + 1 entries; the first is the initial vector (-1 everywhere, 0 at max + 1), and snapshot t holds, on every diagonal of round t - 1, its furthest point of cost at most t - 1 |
| Diff.SearchRound | src/diff.rs:17-37 | round d breaks out exactly when d is the edit distance; otherwise every diagonal -d, -d+2, …, d holds its furthest point of cost at most d; entries off round d keep their old values |
| Diff.SearchDiagonal | src/diff.rs:19-31 | writes the furthest point of cost d of diagonal k into `v[k + max]` and nothing else, so the round invariant advances to k + 2 |
| Diff.DiagonalEnd | src/diff.rs:20-30 | the point chosen from the two neighbours, slid down its snake, is the furthest point of diagonal k with cost at most d |
| Diff.RoundEntry | src/diff.rs:20-24 | entering diagonal k from the neighbour of round d - 1 that reaches further (from k + 1 by an addition, from k - 1 by a deletion) gives the furthest point of cost d after the snake |
| Diff.RoundAdvance | src/diff.rs:31 | writing the furthest point of diagonal k keeps every earlier diagonal of the round and every entry of other rounds as it was |
| Diff.NeighbourOfRound | src/diff.rs:20-23 | the neighbours k - 1 and k + 1 that round d reads still hold the furthest points of round d - 1 |
| Diff.CornerNotYet | src/diff.rs:33-36 | in the round of the edit distance, a diagonal that stops short of (N, M) lies at least two below N - M, so the round goes on |
| Diff.FollowSnake | src/diff.rs:27-30 | the inner loop stops at `Snake`: the first point from x0 where a text ends or the lines differ |
| Diff.WalkBack | src/diff.rs:40-53 | whatever the snapshots hold, deletions + additions = number of rounds - 1 and deletions - additions = N - M |
| Diff.SentinelInBoundsExactly | src/diff.rs:8-10 | the write `v[max + 1] = 0` is inside `v` if and only if at least one text is non-empty |
| Diff.EmptyTextsOutOfBounds | src/diff.rs:8-10 | `get_diff("", "")` writes `v[1]` in a vector of length 1 |
| Diff.GetDiffTotal | src/diff.rs:1-54 | the corrected `get_diff`: the same counts for every pair of texts, and (0, 0) for two empty ones |
| Diff.DiffOfIdentical | src/diff.rs:17-51 | a text compared with itself gives (0, 0) |
| Diff.DiffOfExtension | src/diff.rs:17-51 | appending k lines gives (0, k); dropping k trailing lines gives (k, 0) |
| Diff.DiffBalance | src/diff.rs:40-53 | deletions + additions is the edit distance, at most N + M; deletions - additions = N - M |
| Diff.DiffIsMinimal | src/diff.rs:17-51 | no common subsequence of lines needs fewer deletions or fewer additions, and some common subsequence needs exactly these |
| Diff.DiffExample | src/diff.rs:1-54 | ["the","quick","brown","fox"] to ["teh","quick","brown","fox","jumps"] gives (1, 2) |
| EditGraph.Cost | src/diff.rs:12-34 | the least number of deletions and additions that reach (x, y) of the edit graph, which the forward search explores; it is at least the distance between x and y |
| EditGraph.CostClosedForm | src/diff.rs:17-37 | the least number of paid steps to (x, y) is x + y - 2·LCS of the prefixes before (x, y), also beyond the grid the search does not clip |
| EditGraph.CostOfCorner | src/diff.rs:33-35 | reaching (N, M) costs N + M - 2·LCS |
| EditGraph.Snake | src/diff.rs:27-30 | sliding down equal lines keeps the cost and stops where the lines differ or a text ends |
| EditGraph.CostRight | src/diff.rs:23 | a step right (a deletion) costs at most one |
| EditGraph.CostDown | src/diff.rs:21 | a step down (an addition) costs at most one |
| EditGraph.CostMatch | src/diff.rs:27-29 | a diagonal step over equal lines is free |
| EditGraph.RoundStep | src/diff.rs:20-30 | one step of the forward search yields the furthest point of cost d on diagonal k |
| EditGraph.Reach | src/diff.rs:20-30 | no point of diagonal k with cost at most d lies beyond the snake of the chosen entry point |
| EditGraph.CornerReached | src/diff.rs:33-35 | a round whose furthest point passes (N, M) is at least the edit distance |
| EditGraph.CornerDiagonal | src/diff.rs:33-35 | from the round of the edit distance on, diagonal N - M passes (N, M) |
| Subsequences.Lcs | src/diff.rs:17-51 | the length of a longest common subsequence, the quantity the counts are measured against, is at most the length of either sequence |
| Subsequences.LcsCharacterisation | src/diff.rs:17-51 | `Lcs(a, b)` is the greatest length of a common subsequence, and one of that length exists |
| Subsequences.LcsOfExtension | src/diff.rs:17-51 | a sequence and any extension of it share the whole shorter one |
| TextLines.Lines | src/diff.rs:5-6 | `str::lines` gives no line for the empty text and no line holds '\n' |
| TextLines.LinesOfCrLfText | src/diff.rs:5-6 | lines ended by "\r\n" come back without their terminator |
| TextLines.LinesOfLfText | src/diff.rs:5-6 | lines ended by "\n", none of which ends in '\r', come back unchanged |
| TextLines.FinalNewlineOptional | src/diff.rs:5-6 | a final line ending adds no empty last line |
| Utf8.AsciiIsValid | src/nvim.rs:175 | ASCII bytes are valid UTF-8 |
| Utf8.ValidConcat | src/nvim.rs:198 | two valid UTF-8 sequences put together stay valid |
| Utf8.ValidUtf8 | src/nvim.rs:198 | the well-formedness check of `read_line` and `String::from_utf8`; bytes that start with a continuation byte are refused |
| Framing.LineEnd | src/nvim.rs:175-177 | `read_line` consumes nothing exactly at the end of the input |
| Framing.LineEndSpec | src/nvim.rs:175 | a line read holds no '\n' except its last byte, which is '\n' unless the input ends first |
| Framing.SplitOnce | src/nvim.rs:185-189 | `splitn(2, ": ")` when it yields two parts: they put back together around the separator give the line |
| Framing.EqIgnoreAsciiCase | src/nvim.rs:190 | `eq_ignore_ascii_case`: every name matches itself (case differences are shown by `ContentLengthAnyCase`) |
| Framing.SplitOnceSpec | src/nvim.rs:185-189 | `splitn(2, ": ")` cuts at the first ": " and finds none only when ": " does not occur |
| Framing.SplitAtFirst | src/nvim.rs:185-189 | a header "name: value" whose name holds no ": " splits into name and value |
| Framing.ParseUsize | src/nvim.rs:191 | an accepted Content-Length is non-empty and fits a `usize` |
| Framing.Decimal | src/nvim.rs:204 | `format!("{}", n)` writes digits that denote n, without a leading zero unless n is 0 |
| Framing.ParseDecimal | src/nvim.rs:191 | the length `send` writes parses back to itself, with or without a leading '+' |
| Framing.LeadingZero | src/nvim.rs:191 | leading zeros do not change the parsed value |
| Framing.DigitsOnly | src/nvim.rs:191 | a value that parses holds decimal digits only |
| Framing.ParseOverflow | src/nvim.rs:191 | 2^64 is refused |
| Framing.ContentLengthAnyCase | src/nvim.rs:190 | "content-length" and "CONTENT-LENGTH" match "Content-Length" |
| Framing.HeaderUpdate | src/nvim.rs:185-192 | one header "name: value": it keeps the size or sets one that fits a `usize` |
| Framing.HeaderUpdateSpec | src/nvim.rs:185-189 | a header is malformed exactly when ": " does not occur in it |
| Framing.HeaderLine | src/nvim.rs:178-192 | one line of the header block: only the line "\r\n" ends the block; a header line keeps the size or sets a `usize` |
| Framing.NextLine | src/nvim.rs:173-193 | one turn of the header loop: `read` from here never moves the cursor back and stays within the input |
| Framing.AfterLine | src/nvim.rs:176-193 | what the loop does with the line just read: the cursor never goes back and stays within the input |
| Framing.ReadFrom | src/nvim.rs:165-200 | `read` from cursor `pos`: the cursor moves forward and stays within the input |
| Framing.ReadPayload | src/nvim.rs:194-199 | after the empty line: no size is an error; a size above `isize::MAX` panics in `resize` before anything is read; success means exactly `size` UTF-8 bytes from the cursor |
| Framing.InputStream.ReadLine | src/nvim.rs:175 | consumes one line; returns it when it is UTF-8 and refuses it otherwise |
| Framing.InputStream.ReadExact | src/nvim.rs:196-197 | returns the next n bytes, or UnexpectedEof with the input used up |
| Framing.Read | src/nvim.rs:165-200 | the header loop and the payload read return what `ReadFrom` specifies and leave the cursor where it says |
| Framing.ReadBody | src/nvim.rs:194-199 | the Content-Length check, `resize`, `read_exact` and `from_utf8` do what `ReadPayload` specifies |
| Framing.Frame | src/nvim.rs:204-205 | what `send` writes for a message of n bytes: n + 20 + the number of decimal digits of n bytes, ending with the message |
| Framing.Send | src/nvim.rs:203-209 | appends "Content-Length: n\r\n\r\n" and the message to standard output |
| Framing.ReadDelivers | src/nvim.rs:165-200 | any message `read` returns is UTF-8 copied from the input just before the cursor |
| Framing.ReadAtEnd | src/nvim.rs:175-177 | at the end of the input `read` returns `Ok(None)` |
| Framing.BlankLineStep | src/nvim.rs:182-184 | the empty line ends the header block and the payload follows |
| Framing.HeaderLineStep | src/nvim.rs:173-193 | a well-formed header line is consumed and the loop goes on with the updated size |
| Framing.OtherHeaderIgnored | src/nvim.rs:190-192 | a header not named Content-Length leaves the size as it was |
| Framing.ContentLengthOverrides | src/nvim.rs:190-191 | a later Content-Length replaces an earlier one |
| Framing.InvalidContentLengthRejected | src/nvim.rs:191 | a Content-Length that is not a `usize` is an error |
| Framing.NoCrLfMalformed | src/nvim.rs:178-180 | a line not ended by "\r\n" is a malformed header |
| Framing.BareLineFeedRejected | src/nvim.rs:178-180 | a header line ended by a bare "\n" stops `read` with a malformed-header error |
| Framing.NoSeparatorMalformed | src/nvim.rs:185-189 | a non-empty header without ": " is malformed |
| Framing.HeaderWithoutSeparator | src/nvim.rs:185-189 | such a line stops `read` with a malformed-header error |
| Framing.MissingContentLengthRejected | src/nvim.rs:194 | an empty line before any Content-Length is an error |
| Framing.ReadFrameHeader | src/nvim.rs:171-194 | the header block `send` writes leads straight to a payload of the length it announces |
| Framing.PayloadAt | src/nvim.rs:195-199 | the n bytes after the header block are the message when they are UTF-8, and an error otherwise |
| Framing.ReadFrame | src/nvim.rs:165-205 | a frame written by `send` reads back as its message, with the cursor just after it |
| Framing.InvalidPayloadRejected | src/nvim.rs:198 | a frame whose payload is not UTF-8 is consumed and refused |
| Framing.ReadSendRoundTrip | src/nvim.rs:165-205 | `read` returns exactly what `send` wrote, wherever the frame sits in the input and whatever follows it |
| Framing.TruncatedPayload | src/nvim.rs:196-197 | a frame of at most `isize::MAX` bytes of payload, cut short inside its payload, gives UnexpectedEof |
| Framing.OversizedPayloadPanics | src/nvim.rs:191-196 | a Content-Length above `isize::MAX` (and within `usize`) panics in `resize`, right after the header block |
| Nvim.Split | src/nvim.rs:162 | `split("/")` always yields at least one piece |
| Nvim.SplitJoin | src/nvim.rs:162 | joining the pieces with '/' gives the path back |
| Nvim.SplitPieces | src/nvim.rs:162 | no piece holds a '/' |
| Nvim.JoinSplit | src/nvim.rs:162 | pieces without '/' are recovered by splitting their join |
| Nvim.GetFileName | src/nvim.rs:161-163 | never `None`, so the fallbacks at lines 120 and 151 are never used |
| Nvim.FileNameSpec | src/nvim.rs:161-163 | the file name is what follows the last '/' of the path (all of it when there is none) |
| Nvim.FileNameOfPath | src/nvim.rs:161-163 | the file name of `dir + "/" + name` is `name` when `name` holds no '/' |
| Nvim.FileNameWithoutSlash | src/nvim.rs:161-163 | a path without '/' is its own file name |
| Nvim.DirectoryHasEmptyName | src/nvim.rs:161-163 | a path ending in '/' has the empty file name |
| Nvim.DidOpen | src/nvim.rs:112-141 | `did_open`: an event only for a decoded notification whose language id is not blacklisted, and it is `FileOpened` with a non-empty name |
| Nvim.DidOpenSpec | src/nvim.rs:112-141 | an event is emitted if and only if the notification decoded, its language id is not blacklisted and the file name is non-empty; the event is `FileOpened` with the name after the last '/' |
| Nvim.BlacklistedIgnored | src/nvim.rs:122-134 | cmp_docs, TelescopeResults, TelescopePrompt and cmp_menu buffers are never reported |
| Nvim.DidOpenInDirectory | src/nvim.rs:112-141 | opening main.rs in any directory reports "main.rs", except in a picker buffer |
| Nvim.DidChange | src/nvim.rs:143-159 | `did_change`: an event only for a decoded notification, and it is `FileChanged` with a non-empty name and the text of the first content change |
| Nvim.DidChangeSpec | src/nvim.rs:143-159 | an event is emitted if and only if the notification decoded and the file name is non-empty; it carries that name and the text of the first content change |
| Nvim.Handle | src/nvim.rs:26-42 | the dispatch on the method name: only `initialize` gets a reply, which is the serialised result and comes without an event; `NvimError` is never emitted |
| Nvim.MessageHandler | src/nvim.rs:26-48 | returns the event `Handle` gives and writes the reply, if any, as one frame |
| Nvim.OnlyInitializeReplies | src/nvim.rs:27-28 | a reply is written if and only if the method is `initialize` and its result was serialised, and it comes with no event |
| Nvim.ShutdownOnlyOnRequest | src/nvim.rs:37-40 | `Shutdown` is emitted if and only if the method is `shutdown` |
| Nvim.EventsMatchMethods | src/nvim.rs:29-36 | a didOpen message yields exactly `DidOpen` of its notification and a didChange message exactly `DidChange`, with no reply; conversely `FileOpened` comes only from didOpen and `FileChanged` only from didChange; `NvimError` is never emitted |
| Nvim.UnknownMethodIgnored | src/nvim.rs:41 | any other method produces no reply, no event and no output |
| Nvim.InitializeReplyReadsBack | src/nvim.rs:44-47 | reading back what the handler wrote for `initialize` gives the reply, with the cursor just after it |

## Left out

- Integer widths in `get_diff`. `x`, `y` and `k` are `i32`, `v` holds `i32` and the counts are `u32`. The model uses unbounded integers, so it matches the program only while N + M < 2^30 lines in total. The `i32` sums `k + max as i32` at src/diff.rs:20-23 reach d + max, which is up to 2·(N + M). They overflow from 2^31 on.
- `Diff.GetDiff` requires at least one line between the two texts, because the program panics on two empty texts (see Findings).
- JSON. The model does not cover serde_json decoding (`get_method`, `decode` and the notification structs) or the `initialize` response built from `lsp_types` (src/nvim.rs:50-110). What decoding yields, and the serialised reply, are inputs of `Nvim.Handle`.
- Panics inside serde calls. The model leaves out the `unwrap` in `get_method` on a message without a `method` field and the `unwrap` in `initialize` on a request without an `id`.
- `Url::path`. URL parsing is not modelled; `Nvim.GetFileName` works on the path string. `Url::path` returns the path still percent-encoded, so a file "a b.rs" is reported as "a%20b.rs"; the model's path is that encoded string.
- `Nvim.DidChange` requires a content change whenever the file name is non-empty. The program indexes `content_changes[0]` there and panics on an empty list.
- Channels and `async`. The tokio channel sends in `message_handler`, `did_open` and `did_change`, and their `expect("channel to be open")`, are return values here; a closed channel is not modelled.
- I/O. These are not modelled:
  - I/O errors from `read_line` or `read_exact` other than the end of input;
  - the `flush` in `send`;
  - the printing of the reply as two `print!` calls rather than one write;
  - logging.
- Framing.ReadPayload: the buffer is allocated by `resize` before `read_exact`. The model gives `CapacityOverflow` for sizes above `isize::MAX` (the panic). It does not model the abort when the allocation of a smaller but still huge size fails; `Framing.ReadBody`, `Framing.Read` and `Framing.TruncatedPayload` report UnexpectedEof there instead.
- `Framing.InputStream.ReadLine` consumes the whole line even when it is not UTF-8. The model does not distinguish what the program's reader keeps buffered after such an error.
- The per-file baseline table and the timer loop that feed `get_diff` are not part of this model.
- src/discord.rs, src/logger.rs, src/stdio.rs, src/main.rs, src/lib.rs and src/messages.rs are not part of this model. They hold:
  - the Discord client wrapper and its restart loop;
  - logging to files;
  - an earlier draft of the framing code;
  - stubs.

## Findings

| source | as written | input that shows it | evidently intended | confidence | as-written member | corrected member |
|---|---|---|---|---|---|---|
| src/diff.rs:8-10 | `v` has `2 * max + 1` entries and `v[max + 1] = 0` is written unconditionally | `get_diff("", "")`: both texts have no lines, so `max` is 0, `v` has one entry and index 1 is out of bounds (a panic) | two texts without lines differ by nothing: `(0, 0)` | high (by proof; not executed) | Diff.EmptyTextsOutOfBounds | Diff.GetDiffTotal |

The guard holds exactly when one text is non-empty (`Diff.SentinelInBoundsExactly`). `Diff.GetDiff` models the code as written and requires that guard. `Diff.GetDiffTotal` answers the empty case first and otherwise runs the same search; it is proved to return (0, 0) there and the minimal counts everywhere. Two identical texts, the empty pair included, should differ by (0, 0). The code panics on the empty pair, and `Diff.GetDiff` follows the code.
