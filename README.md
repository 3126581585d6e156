# A verified model of the bootlegbilly blog and its file sync

This project is a Dafny model of the core of a small blog server written in
Rust, and of its push-only file-sync tool. It proves properties of that
model. It covers five parts:

- **The sync receiver** (`src/sync.rs`). It reads one action byte. For an
  upload it reads at most 8192 bytes into a fixed buffer, splits off the
  12-byte nonce and decrypts the rest. It then checks and updates the
  table of expired nonces, which is keyed by the plaintext's digest.
  Finally it decodes the file name and the content, strips every zero
  byte from the content and writes the file under `./md/`.
- **The sync sender** (`src/sync_md.rs`). It dispatches on the
  command-line arguments. It builds the plaintext `[name_len] ++ name
  zero-padded to 256 bytes ++ content`, checks the frame size and sends
  `[0] ++ nonce ++ ciphertext` three times.
- **The blog server** (`src/main.rs`). `load_post` validates the post
  name and serves the post's markdown or its HTML. `gen_static` parses a
  post file's four header lines, joins the body, applies the filters and
  stores the post in the post map. `style` compares the entity tag.
- **Post search** (`src/search.rs`). It keeps the public posts whose
  lower-cased title contains the lower-cased query. It sorts them newest
  first in place and returns their paths.
- **Text filters** (`src/filters/`). Each filter's output goes before or
  after the document, in filter order. The HTML is then minified.

Foreign code becomes function-typed parameters:

- AES-256-GCM appears as a `Cipher` of `seal` and `open`. `Sound` states
  that opening a sealed text gives it back and that the tag adds 16 bytes.
- blake3 is a function from bytes to a digest.
- The markdown renderer, the minifier, chrono's date parser and formatter,
  Unicode lower-casing and the IP-address parser are also parameters.

The clock is a `now` parameter. The socket is a `Connection` object whose
reads return a nondeterministic number of bytes. Panics in the source
(`unwrap`, slice indexing out of range, `copy_from_slice` of a wrong
length, `panic!`) become error values whose names start with `Panic`.

Three details of the code shape the model:

- **Where the received content starts.** The receiver takes
  `dec[name_len + 1..]` with every zero byte removed (`src/sync.rs:144-148`).
  It does not start after the 256-byte name field, so the name field's
  padding zeros are stripped along with the content's own zero bytes.
- **When the sender checks the frame size.** The check runs after each
  connection is opened (`src/sync_md.rs:89-94`), so a connection is made
  even for a frame that is then refused.
- **When the nonce table is updated.** The table is updated before the
  name is decoded (`src/sync.rs:132-140`). A plaintext with a bad name is
  still recorded.

## Model

| member | source | states |
|---|---|---|
| Utf8.ScalarWidth | src/sync.rs:140 | the first scalar of a UTF-8 text is one to four bytes long, and an ASCII byte is one scalar on its own |
| Utf8.AsciiValid | src/sync.rs:140 | an ASCII file name passes `String::from_utf8` |
| Utf8.ContinuationAloneInvalid | src/sync.rs:140 | a lone continuation byte is refused |
| Sync.ActionFromByte | src/sync.rs:27-36 | the action byte is an upload exactly when it is 0; every other byte is `BadSyncAction` |
| Sync.Decimal | src/sync.rs:79 | the byte in the "Bad sync action" reply is written as a non-empty string of decimal digits without leading zeros |
| Sync.DecimalRoundTrip | src/sync.rs:79 | reading that decimal text back gives the action byte |
| Sync.Record | src/sync.rs:132-136 | after the insert, the table maps the digest to the incoming nonce and time; every other key keeps its entry |
| Sync.RecordedIsReplay | src/sync.rs:121-136 | once a digest is recorded with a nonce, the same digest and nonce count as a replay |
| Sync.OtherNonceNotReplay | src/sync.rs:121-136 | a different nonce for a recorded digest is not a replay |
| Sync.RemoveZeros | src/sync.rs:144-148 | the kept content has no zero byte and is no longer than the input |
| Sync.RemoveZerosConcat | src/sync.rs:144-148 | stripping zeros distributes over concatenation, so the order of the kept bytes is preserved |
| Sync.RemoveZerosIdentity | src/sync.rs:144-148 | stripping leaves a content unchanged exactly when it has no zero byte |
| Sync.RemoveZerosOfZeros | src/sync.rs:144-148 | a run of zeros, such as the name padding, disappears entirely |
| Sync.RemoveZerosKeepsCounts | src/sync.rs:144-148 | every non-zero byte value occurs as often after stripping as before |
| Sync.Decode | src/sync.rs:139-148 | the decode succeeds iff the plaintext is non-empty, the name `dec[1..=dec[0]]` lies inside it and is valid UTF-8; the name is then that slice and the content has no zero byte; each failure is named: an empty plaintext, a name beyond the plaintext, a name that is not UTF-8 |
| Sync.DecodeAccepts | src/sync.rs:139-148 | when the name is in range and valid UTF-8, the result is the name `dec[1..=dec[0]]` and the rest with zeros stripped |
| Sync.ContinuationNameRefused | src/sync.rs:139-140 | a one-byte name that is a bare UTF-8 continuation byte is refused as an invalid name, whatever content follows |
| Sync.Destination | src/sync.rs:154 | the path is `./md/` followed by the name, verbatim |
| Sync.Received | src/sync.rs:96-108 | the buffer holds all the sent bytes when at most 8192 were sent, and exactly the first 8192 otherwise |
| Sync.Persist | src/sync.rs:150-158 | a failed upload writes nothing; a successful one sets the destination's content and leaves other files alone |
| Sync.ReplayLeavesStateAlone | src/sync.rs:110-129 | a replayed upload, a read error, a short frame and a failed decryption leave the nonce table unchanged |
| Sync.AuthenticFrameRecorded | src/sync.rs:110-137 | a frame that decrypts and is not a replay records its digest with its nonce; the table gains only that key and other entries are kept |
| Sync.SecondDeliveryRejected | src/sync.rs:118-137 | delivering the same authentic frame again is rejected as a replay and changes nothing |
| Sync.TableOnlyGrows | src/sync.rs:118-137 | no upload removes a key from the nonce table |
| Sync.Connection.ReadByte | src/sync.rs:57-65 | `read_u8` returns the next pending byte, or end of stream when none is left |
| Sync.Connection.Read | src/sync.rs:99-107 | a read copies a prefix of the pending bytes into `buf[from..]` and leaves the rest of the buffer alone; it returns 0 only at end of stream or when the buffer is full, and fails only on a broken stream |
| Sync.Receiver.constructor | src/sync.rs:49 | the server starts with an empty nonce table |
| Sync.Receiver.CheckAndRecord | src/sync.rs:118-137 | the upload is accepted exactly when it is not a replay, and then the table records it; a replay leaves the table unchanged |
| Sync.Receiver.HandleUpload | src/sync.rs:92-163 | the read loop, the nonce split, the replay guard, the decoding and the write leave the table and the files as the receiving function computes them from the sent bytes |
| Sync.Receiver.ServeConnection | src/sync.rs:57-81 | end of stream does nothing; action 0 runs the upload; any other byte is answered with "Bad sync action" and its value, and changes nothing |
| SyncMd.Dispatch | src/sync_md.rs:24-34 | a missing argument gives the usage text; "gen_key" gives key generation; any other argument must parse as an IP address |
| SyncMd.NameField | src/sync_md.rs:67-68 | the 256-byte field holds the name followed by zeros |
| SyncMd.Plaintext | src/sync_md.rs:77-81 | `msg[0]` is the name length, `msg[1..257]` the padded name and `msg[257..]` the content, so `msg` is 257 bytes longer than the content |
| SyncMd.Prepare | src/sync_md.rs:62-81 | a plaintext is built exactly for a UTF-8 name of at most 255 bytes and UTF-8 content; a 256-byte name fails the `u8` conversion |
| SyncMd.Frame | src/sync_md.rs:96-98 | each transmission is `[0] ++ nonce ++ ciphertext` |
| SyncMd.SendFile | src/sync_md.rs:62-104 | with a prepared plaintext, the identical frame is sent once per successful connection, three times in all; an oversize frame panics on the first connection and sends nothing |
| SyncMd.DecodePlaintext | src/sync_md.rs:67-81 | the receiver's decoding of the sender's plaintext gives back the name and the content with zeros stripped |
| SyncMd.RoundTrip | src/sync_md.rs:67-81 | the receiver decodes exactly (name, content) iff the content has no zero byte |
| SyncMd.AcceptedFrameFitsBuffer | src/sync_md.rs:92-94 | a frame that passes the size check puts at most 8190 bytes after the action byte, all of which fit the receiver's buffer |
| SyncMd.ContentLimit | src/sync_md.rs:77-94 | with a 16-byte tag, the size check passes iff the content is at most 7905 bytes |
| SyncMd.FirstDeliveryAccepted | src/sync_md.rs:83-98 | a fresh frame is accepted, records its nonce and writes the content, zeros stripped, to `./md/` followed by the name |
| SyncMd.TripleSendWritesOnce | src/sync_md.rs:87-98 | of the three identical transmissions, the first is written and the next two are rejected as replays; the table records once and the file is written once |
| Filters.JoinedPartitions | src/filters/md.rs:14-17 | every filter output lands on exactly one side |
| Filters.JoinedOneSide | src/filters/md.rs:14-20 | when all outputs go to one side, the other side is empty |
| Filters.JoinedSnoc | src/filters/md.rs:19-20 | adding a filter appends its output to its own side only, keeping filter order |
| Filters.WrapKeepsDocument | src/filters/md.rs:22-25 | the original document sits unchanged right after the beginnings, and the result is as long as the document plus all outputs |
| Filters.WrapNoFilters | src/filters/md.rs:10-26 | with no filters the document is unchanged |
| MdFilters.AddMetadata | src/filters/md.rs:3-8 | the metadata heading goes before the markdown |
| MdFilters.AddMetadataIgnoresDocument | src/filters/md.rs:3-8 | the heading depends on the title and the date only, not on the markdown or the path |
| MdFilters.MdOutputs | src/filters/md.rs:14-17 | every filter is applied, in order, to the original markdown |
| MdFilters.ApplyMdFilters | src/filters/md.rs:10-26 | the new markdown is the beginning outputs, the original markdown, then the end outputs |
| MdFilters.GenStaticMdFilters | src/main.rs:270 | with `gen_static`'s filter list, the markdown gets the metadata heading in front |
| HtmlFilters.Styling | src/filters/html.rs:3-10 | the viewport meta tag and stylesheet link, placed before the page |
| HtmlFilters.AddHomepage | src/filters/html.rs:12-17 | the home-page link, placed after the page |
| HtmlFilters.HtmlOutputs | src/filters/html.rs:22-25 | every filter is applied, in order, to the original page |
| HtmlFilters.ApplyHtmlFilters | src/filters/html.rs:21-38 | the page becomes the minified form of the beginnings, the page, then the ends, and nothing else |
| HtmlFilters.ServerHtmlFilters | src/main.rs:186 | with `[styling, add_homepage]` the pre-minify text is the style tags, the page, then the home link |
| Posts.NotAfterTotal | src/search.rs:42-46 | any two dates are ordered one way or the other, so the comparator's order is total |
| Posts.NotAfterTransitive | src/search.rs:42-46 | date order is transitive |
| Search.EmptyQuery | src/search.rs:18-25 | the empty query has no title and no sort order, and the sort order in effect is `Newest` |
| Search.ContainsAt | src/search.rs:36 | `contains` holds exactly when the query occurs at some offset of the title |
| Search.SwapStep | src/search.rs:48 | moving a newer entry one step to the front keeps the part sorted so far ordered |
| Search.InsertDone | src/search.rs:48 | once the moved entry meets one not older than it, the first `i + 1` entries are newest first |
| Search.SortNewest | src/search.rs:41-48 | after the in-place sort the entries are newest first and are a permutation of the input |
| Search.SearchPosts | src/search.rs:27-53 | a path is returned iff its post is public and its lower-cased title contains the lower-cased query; no path repeats; dates do not increase along the result |
| Search.DistinctByMultiset | src/search.rs:32-52 | sorting neither adds, drops nor repeats a path |
| Blog.AnyInvalid | src/main.rs:202-210 | a name is invalid iff some character is outside `[A-Za-z0-9_-]`, so the empty name is valid |
| Blog.LoadPost | src/main.rs:198-262 | an invalid or unknown name gets the "404" page; otherwise the markdown when the query has an `md` key and the HTML when not |
| Blog.LoadPostServes | src/main.rs:212-224 | anything other than "404" is served only for a post in the map whose name is valid |
| Blog.InvalidNameIgnoresState | src/main.rs:212-214 | an invalid name gets "404" whatever the post map and the query hold |
| Blog.LineEnd | src/main.rs:275 | the first line ends at the first line feed, or at the end of the text |
| Blog.Lines | src/main.rs:275 | no line contains a line feed |
| Blog.JoinLinesSnoc | src/main.rs:297 | each folded line is appended followed by a line feed, in order |
| Blog.JoinLinesLength | src/main.rs:297 | the body has one line feed per line |
| Blog.JoinLinesOfLines | src/main.rs:275-297 | for text without carriage returns, splitting into lines and folding gives the text back, with a final line feed added if it was missing |
| Blog.LinesAfterLine | src/main.rs:275 | a line without line feeds or carriage returns, followed by a line feed, is split off as the first line |
| Blog.PostFileLines | src/main.rs:275-295 | the lines of a post file are its four header lines followed by the lines of its body |
| Blog.ParseHeaderWith | src/main.rs:277-295 | a header exists iff there are four lines and the third parses as a date; path, title and date come from lines one to three; `public` holds iff line four is exactly "public"; each missing line gives its error |
| Blog.ParseHeaderAsWritten | src/main.rs:292-295 | as written, a missing fourth line after a valid date is reported as a missing date line |
| Blog.ParseHeader | src/main.rs:277-295 | corrected: a missing fourth line is reported as a missing public line |
| Blog.MissingPublicBlamesDate | src/main.rs:292-295 | the three-line file "/first", "First", "01/02/2023" is refused with "no date line" although its date line is present |
| Blog.ParseHeaderNamesMissingLine | src/main.rs:277-295 | in the corrected parser, "no date line" means exactly two lines and "no public line" means exactly three lines with a valid date |
| Blog.CorrectionOnlyRenamesMissingPublic | src/main.rs:277-295 | the corrected parser answers as the code does on every file but one with a valid date and no fourth line, and accepts exactly the same files |
| Blog.RenderPost | src/main.rs:297-317 | the post keeps the header's fields and has no visits; its markdown is the metadata heading plus the body; its HTML is the minified rendering between the style tags and the home link |
| Blog.PostStore.constructor | src/main.rs:41-42 | the post map starts empty |
| Blog.PostStore.GenStatic | src/main.rs:268-324 | a refused header leaves the map alone; otherwise the entry at the header's path becomes the rendered post with body from line five on, and no other entry changes |
| Blog.RenderedBodyIsRestOfFile | src/main.rs:275-317 | for a post file of four header lines and a body without carriage returns, the lines after the header are the body's lines, the header parses to the four lines when the date does, and the stored markdown is the metadata heading followed by the body, terminated by a line feed |
| Blog.Hex | src/main.rs:346 | the digest is shown as two lower-case hex digits per byte |
| Blog.HexInjective | src/main.rs:346 | different digests are shown differently |
| Blog.ETag | src/main.rs:345-346 | the entity tag is the quoted digest, in visible ASCII |
| Blog.Style | src/main.rs:343-365 | an `If-None-Match` equal to the entity tag gets "not modified"; a header that is not visible ASCII panics; otherwise the stylesheet, which must be UTF-8, is sent with its entity tag |
| Blog.ETagRevalidates | src/main.rs:350-357 | sending back the entity tag that was served gets "not modified" |
| Blog.ChangedStylesheetResent | src/main.rs:350-363 | after the stylesheet's digest changes, the old tag gets the new stylesheet in full |

## Left out

- AES-256-GCM and its key (`PRIV_KEY`, key generation with `OsRng`, hex decoding of `BLOG_ENC_KEY`) are foreign code, randomness and environment. The cipher is a parameter. Encryption is modelled as total, so an encryption error is not represented.
- blake3 is foreign. It is a parameter, and its `Display` form is the concrete lower-case hex of the digest bytes it returns.
- The TCP listener's accept loop, `tokio::spawn`, the tokio `Mutex` and the `NUM_COMPLETED` polling loop exist for concurrency. Each connection is handled as one sequential step, and the replay check-and-insert is atomic.
- `sock.take(8192)` is folded into the 8192-byte buffer. Reads stop at the buffer's end, which is where `take` stops too.
- The sender's write errors in the middle of a frame are not modelled. `SendFile` models connection failures only.
- The sender's directory walk over `./md/` and the reading of each file are I/O. `SendFile` takes the file's name bytes and contents.
- File-system errors when writing the uploaded file are not modelled. `Persist` always succeeds, so the "Internal Server Error" path is missing.
- Logging, `println!`, SQLite visit counting, axum routing, the notify watcher and `update_post_stats` are I/O plumbing. The `root` page handler at src/main.rs:158-189 is not part of this model.
- comrak's rendering and `minify_html` are foreign; they are parameters. chrono's `%m/%d/%Y` parser and its `Display` are parameters too, so which strings are dates is not modelled.
- Unicode `to_lowercase` is a parameter.
- Search.SortNewest: the standard library's unstable sort is replaced by an insertion sort. Only its contract is modelled: newest first, and a permutation. The order of posts with equal dates is left unspecified, as in the source.
- `Post.num_visits` is a `u32`; here it is a `nat`. It is only ever 0 in the modelled code.
- `style` reads `./static/style.css` and panics if the read fails. The file's bytes are a parameter, so that panic is not modelled.
- Blog.PostStore.GenStatic: uses the corrected header parser, so a file with a valid date and no fourth line is refused with `NoPublicLine`, where src/main.rs:292-295 says "No date line"; Blog.CorrectionOnlyRenamesMissingPublic proves this is the only difference.
- Sync.Connection.Read: every read returns at once, and the peer's bytes are finite. The read loop at src/sync.rs:102-108 has no timeout, so a peer that neither sends nor closes blocks that connection's task forever; that unbounded wait is not represented, and Sync.Receiver.HandleUpload always ends.
- Blog.Lines follows the current semantics of Rust's `str::lines`. A final line that lacks a line feed keeps a trailing carriage return.

## Findings

| source | as written | input that shows it | evidently intended | confidence | as-written member | corrected member |
|---|---|---|---|---|---|---|
| src/main.rs:292-295 | a post file with no fourth (public) line is refused with "Invalid markdown file: No date line" | the three lines "/first", "First", "01/02/2023" | an error naming the missing public line | not executed; high, the message is a copy of the one at line 289 | Blog.ParseHeaderAsWritten, Blog.MissingPublicBlamesDate | Blog.ParseHeader, Blog.ParseHeaderNamesMissingLine |
