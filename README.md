# nowplaying, modelled in Dafny

`nowplaying.py` is a small daemon for a campus radio station. Its main
thread watches a directory with inotify. When `nowplaying.txt` is closed
after a write, the thread stores the file's content in the global `np`.
A background thread loops forever. In each cycle it asks the Icecast
server's `admin/metadata` endpoint to show `"{np} / {branding}"`, skipping
this request while `np` is empty. Then it asks the server to show a
randomly chosen station tagline followed by the same branding. Every
text is made URL-safe by `_make_URL_ready`, a chain of 25 one-character
`str.replace` calls that percent-encode reserved characters.

The model has three modules:

- `Sanitizer` (`sanitizer.dfy`) covers `_make_URL_ready`.
  - `MakeUrlReady` is the chain of 25 replacements, exactly as written and
    in source order. `ReplaceAll` is Python's `str.replace` with a
    one-character pattern.
  - `EncodeChar` and `Encode` are an independent per-character table.
    `MakeUrlReadyIsEncode` proves that the chain equals this table.
  - Every other property is derived from that theorem: the length law, the
    absence of raw reserved characters, the pass-through of other
    characters, a decoder (`Decode`) that inverts the chain, injectivity,
    and non-idempotence.
  - The escape of `:` is `%eA`, as in the source, and not the `%3A` of
    section 2.1 of RFC 3986. The model keeps this quirk.
- `Metadata` (`metadata.dfy`) covers the request URL of lines 52 and 59.
  The URL is a fixed prefix built from the mountpoint, followed by the
  sanitised `"{text} / {branding}"`.
- `NowPlaying` (`nowplaying.dfy`) holds the settings constants and a
  `Station` class whose field `np` is the shared title.
  - `HandleEvent` is one step of the watcher loop and `Watch` is that loop
    over a finite run of events.
  - `Cycle` is one iteration of the publisher loop and `Publish` is a run
    of iterations. Each returns, in order, the URL strings it passes to
    `requests.get`.
  - `Cycle` and `Publish` have no `modifies` clause, so they cannot change
    `np`.
  - The pure functions `Replay`, `CycleUrls` and `PublishUrls` specify the
    loops. The lemmas about them state what the loops achieve.

Details of nowplaying.py that the model keeps:

- The watcher acts only on events whose type names include
  `IN_CLOSE_WRITE` and whose file name is `nowplaying.txt` (lines 81 and
  85). Both tests must pass.
- If the file cannot be read, the exception leaves the `for` loop. `_main`
  then prints the error and returns (nowplaying.py:93-95), so the watcher
  ends for good. `HandleEvent` returns `stop` in this case and `Watch`
  ends.
- "No title yet" is the test `np == ''` (line 48). An empty file therefore
  also counts as "no title".
- The title request is skipped while `np` is empty. The tagline request
  is made in every cycle.
- The tagline of a cycle is the text that `random.choice(generic)` draws
  (line 58). The model takes that text as a parameter and requires it to
  be one of the three taglines.

## Model

| member | source | states |
|---|---|---|
| `Sanitizer.ReplaceAll` | nowplaying.py:38 | Python's `str.replace` with a one-character pattern; no contract of its own, specified by `ReplaceAllAbsent` and `ReplaceAllConcat` |
| `Sanitizer.MakeUrlReady` | nowplaying.py:37-38 | the 25 replacements exactly as written, in source order; no contract of its own, specified by `MakeUrlReadyIsEncode` and the lemmas below |
| `Sanitizer.ReplaceAllAbsent` | nowplaying.py:38 | a `replace` whose character does not occur in the string returns the string unchanged |
| `Sanitizer.ReplaceAllConcat` | nowplaying.py:38 | a one-character `replace` distributes over concatenation |
| `Sanitizer.EncodeChar` | nowplaying.py:38 | a reserved character maps to `%` followed by two ASCII digits or letters; any other character maps to itself |
| `Sanitizer.Unescape` | nowplaying.py:38 | every escape the decoder accepts names a reserved character whose table entry is exactly that escape |
| `Sanitizer.Encode` | nowplaying.py:38 | the output is the input's length plus two for every reserved character; no output character is reserved except `%` |
| `Sanitizer.RuleFacts` | nowplaying.py:38 | each of the 25 replacements, in source order, names a reserved character and substitutes that character's table entry; only the first names `%` |
| `Sanitizer.MakeUrlReadyIsChain` | nowplaying.py:37-38 | the chain as written is the 25 table-driven replacements applied in source order |
| `Sanitizer.ChainConcat` | nowplaying.py:38 | any prefix of the chain distributes over concatenation |
| `Sanitizer.ChainChar` | nowplaying.py:38 | after the first k replacements, a character has become its table entry if one of them names it and is untouched otherwise; later replacements never rewrite an escape |
| `Sanitizer.MakeUrlReadyConcat` | nowplaying.py:38 | sanitising `a + b` gives the sanitised `a` followed by the sanitised `b` |
| `Sanitizer.MakeUrlReadyChar` | nowplaying.py:38 | sanitising one character yields its table entry |
| `Sanitizer.MakeUrlReadyIsEncode` | nowplaying.py:37-38 | the 25-call chain equals the per-character table on every string |
| `Sanitizer.MakeUrlReadyKnownEscapes` | nowplaying.py:38 | space becomes `%20`, `/` becomes `%2F`, `%` becomes `%25`, `&` becomes `%26`, `=` becomes `%3D`, `?` becomes `%3F`, and `:` becomes the non-standard `%eA` |
| `Sanitizer.MakeUrlReadyLength` | nowplaying.py:38 | output length = input length + 2 × the number of reserved characters |
| `Sanitizer.EncodeEscapes` | nowplaying.py:38 | every `%` in the table's output is followed by two characters that the decoder accepts as an escape |
| `Sanitizer.MakeUrlReadyNoRawReserved` | nowplaying.py:38 | every output character is `%` or not reserved, and every `%` in the output is followed by two characters that form a known escape |
| `Sanitizer.MakeUrlReadyFixedPoint` | nowplaying.py:38 | a string is returned unchanged exactly when it contains no reserved character (both directions) |
| `Sanitizer.MakeUrlReadyNotIdempotent` | nowplaying.py:38 | if the input has a reserved character, sanitising the output again changes it |
| `Sanitizer.MakeUrlReadyOnEscape` | nowplaying.py:38 | re-sanitising an escape `%XY` gives `%25XY` |
| `Sanitizer.MakeUrlReadyDoubleEncodes` | nowplaying.py:38 | a sanitised reserved character is encoded a second time by a second pass (`" "` → `%20` → `%2520`) |
| `Sanitizer.DecodeEncode` | nowplaying.py:38 | decoding the table's output returns the original string |
| `Sanitizer.EncodeDecode` | nowplaying.py:38 | whatever the decoder accepts is exactly the table's output for what it returns |
| `Sanitizer.MakeUrlReadyRoundTrip` | nowplaying.py:37-38 | decoding the output of `_make_URL_ready` returns its input |
| `Sanitizer.MakeUrlReadyInjective` | nowplaying.py:37-38 | different inputs give different outputs |
| `Metadata.UrlPrefix` | nowplaying.py:52 | the fixed part of the request URL before the `song` value; no contract of its own, specified by `MetadataUrlSong` |
| `Metadata.SongValue` | nowplaying.py:52 | the sanitised `"{text} / {branding}"`; no contract of its own, specified by `SongValueParts` and `MetadataUrlSong` |
| `Metadata.MetadataUrl` | nowplaying.py:59 | the prefix followed by the song value; no contract of its own, specified by `MetadataUrlSong` and `MetadataUrlInjective` |
| `Metadata.SongValueParts` | nowplaying.py:52 | the `song` value is the sanitised text, then `%20%2F%20`, then the sanitised branding |
| `Metadata.MetadataUrlSong` | nowplaying.py:52 | the URL is the fixed `admin/metadata?mount=/{mountpoint}&mode=updinfo&song=` prefix followed by a `song` value with no literal `/`, `&`, `=` or `?`; that value decodes to `"{text} / {branding}"` |
| `Metadata.MetadataUrlInjective` | nowplaying.py:59 | for one mountpoint and branding, two requests are equal only if their texts are equal |
| `NowPlaying.IsUpdate` | nowplaying.py:81-85 | an event is acted on when its type names include `IN_CLOSE_WRITE` and its file name is `nowplaying.txt`; no contract of its own, used by the contract of `Station.HandleEvent` |
| `NowPlaying.Next` | nowplaying.py:80-88 | the title after one event; no contract of its own, specified by `Station.HandleEvent` and the `Replay` lemmas |
| `NowPlaying.Replay` | nowplaying.py:79-88 | the title after a run of events; no contract of its own, specified by `ReplayWithoutUpdates`, `ReplayLastUpdateWins` and `Station.Watch` |
| `NowPlaying.NowPlayingUrl` | nowplaying.py:52 | the title request; no contract of its own, specified by `NowPlayingIsNotTagline` and `Metadata.MetadataUrlSong` |
| `NowPlaying.TaglineUrl` | nowplaying.py:59 | the request for a drawn tagline; no contract of its own, specified by `NowPlayingIsNotTagline` and `Metadata.MetadataUrlSong` |
| `NowPlaying.CycleUrls` | nowplaying.py:46-61 | the requests of one cycle; no contract of its own, specified by `Station.Cycle` and `PublishStep` |
| `NowPlaying.PublishUrls` | nowplaying.py:44-61 | the requests of a run of cycles; no contract of its own, specified by `PublishWithoutTitle`, `PublishWithTitle` and `Station.Publish` |
| `NowPlaying.ReplayWithoutUpdates` | nowplaying.py:79-89 | events that are not a successful close-after-write of `nowplaying.txt` leave `np` unchanged |
| `NowPlaying.ReplayLastUpdateWins` | nowplaying.py:79-89 | after a run of events, `np` is the content read at the last successful update event |
| `NowPlaying.NowPlayingIsNotTagline` | nowplaying.py:52-59 | the title request equals a tagline request exactly when the title is that tagline |
| `NowPlaying.PublishWithoutTitle` | nowplaying.py:44-61 | with an empty title, every cycle requests one tagline and nothing else |
| `NowPlaying.PublishWithTitle` | nowplaying.py:44-61 | with a title, every cycle requests the title first and then its tagline |
| `NowPlaying.PublishStep` | nowplaying.py:44-61 | a cycle's requests, shaped as `Station.Cycle` promises, extend the requests of the run so far |
| `NowPlaying.Station.constructor` | nowplaying.py:32 | `np` starts empty |
| `NowPlaying.Station.HandleEvent` | nowplaying.py:80-88 | `np` becomes the file content only for an `IN_CLOSE_WRITE` event on `nowplaying.txt` whose read succeeds; the watcher stops exactly when such an event's read fails; every other event leaves `np` unchanged |
| `NowPlaying.Station.Watch` | nowplaying.py:79-95 | handles events in order and stops at the first failed read; afterwards `np` is the replay of the handled events |
| `NowPlaying.Station.Cycle` | nowplaying.py:46-61 | with an empty `np`, one tagline request; otherwise the title request followed by the tagline request for the drawn tagline; `np` is not changed |
| `NowPlaying.Station.Publish` | nowplaying.py:44-61 | a run of cycles requests exactly the cycles' URLs in order: one per cycle with no title, or two per cycle (title, then tagline) |

## Left out

- inotify registration, the watched directory and the event generator (nowplaying.py:75-79) are left out. Events are given as a sequence of `Event` values.
- Opening and reading the file at `path + "/" + filename` (nowplaying.py:87-88) is left out. Its outcome is a `ReadResult` parameter.
- `requests.get`, Basic authentication with `user`/`pw`, and the printed request URL and status code (nowplaying.py:52-54, 59-61) are network I/O and are left out. A cycle returns the URL strings it passes to `requests.get`. The URL that `requests` prepares and sends can differ from that string, for instance when it re-quotes non-ASCII characters of a title.
- Station.Publish: a request that raises ends the publisher thread (nowplaying.py:65-67). The model covers only runs in which no request raises.
- Station.Publish: models a finite number of iterations of the endless `while run` loop. It assumes the watcher does not write `np` during those iterations.
- Concurrency is not modelled: the watcher thread can write `np` between the emptiness test (line 48) and the URL construction (line 52), and that interleaving is absent.
- `Thread`/daemon start, the `run` flag, `KeyboardInterrupt` handling and exit codes (nowplaying.py:42-44, 62-67, 90-108) are process lifecycle and are left out.
- `time.sleep` and `switch_time` (nowplaying.py:19, 46, 55) are timing and are left out.
- The randomness of `random.choice(generic)` (nowplaying.py:58) is left out. The drawn tagline is a parameter, and the model requires it to be one of the three taglines.
- Console output (`print`) is left out.
- civl_util.py is not part of this model. It holds only colour constants and a wrapper around Python's logging.
- The RDS/telnet publisher, deleting the source file, configuration loading and separator stripping do not appear in nowplaying.py. They are not part of this model.
