# Static-file web server: response cache and request path

A Dafny model of two independent parts of a small Windows static-file HTTP
server.

- **The response cache** (`cache.h`, `cache.c`). It is a fixed array of 128
  slots, of which the first `cache_count` are in use. Each slot holds a path
  key, an owned copy of the file's bytes, their size and the time of the last
  access. `find_in_cache` is a linear lookup that refreshes the timestamp on
  a hit. `add_to_cache` appends while there is room and, when full,
  overwrites the first slot with the smallest timestamp. `evict_expired_cache`
  removes every entry older than 1800 seconds by moving the last slot in use
  into its place.
- **The request path** (`web_server.c`). `url_decode` percent-decodes the
  request target into a caller buffer, as section 2.1 of RFC 3986 describes,
  and also maps `+` to a space, as HTML form encoding does.
  `removeQueryString` ends the string at the first `?`, where the query
  component of section 3.4 of RFC 3986 starts. `handle_client` serves
  `"." + path` for `GET`, with `index.html` appended to a path ending in `/`,
  and answers 404 to any other method. `get_available_worker` picks the
  lowest-indexed idle worker. Its `available` flag is 1 while the worker is
  busy and 0 while it is idle.

The server never calls the cache, so the two models do not interact.

Files:

- `common.dfy`: `Option`, the first index of an element, and the prefix
  before an element.
- `cache_defs.dfy`: the constants and the entry record of `cache.h`.
- `cache.dfy`: class `Cache` over an `array<Entry>` and a `count`. Each
  method is proved against a function on sequences (`IndexOf`, `Inserted`,
  `OldestIndex`, `Swept`). The lemmas relate `Swept` to the filters `Live`
  and `Stale`.
- `web_server.dfy`: `UrlDecode` writes into an `array<char>` and is proved
  against the function `UrlDecoded`. `RemoveQueryString` writes one NUL in
  place. `HandleClient` is proved equal to the function `Route`.
  `WorkerPool` holds the flag array.

Each cache operation and the worker scan is one atomic step, because the
source runs each of them under a lock. The clock is the parameter `now`.

Three behaviours of the code that a reader might not expect:

- `add_to_cache` does not look for an existing key, so re-adding a path
  stores a second entry, and lookup keeps returning the earlier one
  (`ReAddKeepsEarlierCopy`).
- `find_in_cache` does not check age. It returns an over-age entry until a
  sweep removes it (`Cache.Find` has no age condition).
- `web_server.c` has no dispatch queue. A connection goes to the first idle
  worker through its flag, or is handled on the accept thread when all 8
  workers are busy (`WorkerPool.Accept`).

## Model

| member | source | states |
|---|---|---|
| Common.IndexOf | cache.c:27-28 | The result is the lowest index holding the key, and it is None exactly when no element equals the key. |
| Common.PrefixBefore | web_server.c:45-48 | The result is a prefix of the input and contains no separator. It ends exactly at the first separator, and an input without a separator is returned whole. |
| Common.PrefixBeforeIdempotent | web_server.c:44-49 | Cutting a second time at the same character changes nothing. |
| ResponseCache.OldestIndex | cache.c:49-54 | The chosen slot has the smallest `last_accessed` of all slots. Every earlier slot is strictly newer, so a tie goes to the lowest index. |
| ResponseCache.Inserted | cache.c:38-63 | Below capacity, the new entry goes to index `count` and the count grows by one. At capacity, the count stays 128 and only the oldest slot is replaced. Every other slot is kept. |
| ResponseCache.ReAddKeepsEarlierCopy | cache.c:38-46 | Re-adding a cached path while there is room appends a second entry, and lookup still finds the earlier copy. |
| ResponseCache.LiveMembers | cache.c:69-75 | An entry survives the sweep exactly when it was present and is not older than 1800 seconds. |
| ResponseCache.StaleMembers | cache.c:69-71 | An entry is removed by the sweep exactly when it was present and is older than 1800 seconds. |
| ResponseCache.LiveStalePartition | cache.c:65-77 | Surviving and removed entries together are the original entries as a multiset, and their counts add up to the original count. |
| ResponseCache.SwapRemoved | cache.c:71 | Moving the last entry in use over slot `i` shrinks the run by one. Slot `i` then holds the old last entry, and every other slot is kept. |
| ResponseCache.SwapRemovedMultiset | cache.c:70-71 | That move loses exactly the entry at `i`, as a multiset, and nothing else. |
| ResponseCache.SweptAccounted | cache.c:68-75 | From any point of the scan, the entries left and the entries removed are together the entries at that point. Every removed entry was older than 1800 seconds. |
| ResponseCache.SweptNoneExpired | cache.c:68-75 | A scan with no expired entry before its index leaves no expired entry, because the slot moved in is examined before the index advances. |
| ResponseCache.SweepSplitIsUnique | cache.c:65-77 | Any split of the entries into unexpired kept ones and expired removed ones is the sweep's split. The kept ones are the live entries and the removed ones the stale entries, as multisets, and the count drops by the number of stale entries. |
| ResponseCache.SweptKeepsLive | cache.c:65-77 | A whole sweep leaves no expired entry. It keeps exactly the live entries, as a multiset, and shrinks the count by the number of expired ones. |
| ResponseCache.SweptUnchanged | cache.c:68-75 | A sweep over entries none of which has expired removes nothing and changes no order. |
| ResponseCache.SweepIdempotent | cache.c:65-77 | A second sweep at the same time changes nothing. |
| ResponseCache.Cache.constructor | cache.c:10-13 | After initialisation the cache holds no entries. |
| ResponseCache.Cache.Cleanup | cache.c:15-22 | After release the store holds no entries. |
| ResponseCache.Cache.Find | cache.c:24-36 | On a hit, it returns the lowest-index entry with that path, with `last_accessed` set to `now`. Only that slot changes. On a miss it returns None and nothing changes. Age is not checked, and the count stays the same. |
| ResponseCache.Cache.Add | cache.c:38-63 | The new slots equal `Inserted` of the old slots and the entry (path, the first `size` bytes, `size`, `now`). The count stays at most 128 and every slot stays well formed. |
| ResponseCache.Cache.RemoveSlot | cache.c:71 | The slots in use become `SwapRemoved` of the old ones: the last slot in use moves over slot `i` and the count drops by one. The store stays well formed. |
| ResponseCache.Cache.EvictExpired | cache.c:65-77 | The slots in use become `Swept` of the old ones, the scan that re-examines the slot moved in. No survivor is older than 1800 seconds. The survivors, as a multiset, are exactly the original unexpired entries, possibly reordered. The count drops by the number of expired entries. |
| WebServer.HexValue | web_server.c:84-89 | The case-folding arithmetic gives a value below 16 for every hex digit. |
| WebServer.HexValueOfDigit | web_server.c:84-89 | That value is the usual reading of the digit, in either case. |
| WebServer.EscapedChar | web_server.c:90 | A percent triplet stands for the byte `16*X + Y`, which is below 256. |
| WebServer.UrlDecoded | web_server.c:80-98 | The output is never longer than the input, because each step writes one character and consumes one or three. |
| WebServer.UrlDecodedStep | web_server.c:81-97 | An unfolding of the definition of `UrlDecoded`, one rule per case. A `%XY` triplet becomes its byte and consumes three characters. `+` becomes a space. A `%` without two hex digits after it, at the end or before a non-hex character, is copied, like every other character. |
| WebServer.UrlDecodedPlain | web_server.c:92-97 | Input without `%` or `+` decodes to itself. |
| WebServer.UrlDecodedPercentEncoded | web_server.c:81-91 | Decoding undoes the encoding that writes every byte as an upper-case `%XY` triplet (the percent-encoding of section 2.1 of RFC 3986 applied to every byte), for every byte string. |
| WebServer.UrlDecode | web_server.c:78-100 | The buffer holds the decoded text followed by a NUL, which fits whenever the input and its terminator fit. Nothing after the terminator is written. |
| WebServer.CStringOfTerminated | web_server.c:99 | The string left in the buffer is the decoded text, cut short at a decoded NUL (`%00`) if there is one. |
| WebServer.WithoutQueryProperties | web_server.c:44-49 | The result is the prefix before the first `?` and contains no `?`. A path without `?` is unchanged, and stripping twice equals stripping once. |
| WebServer.RemoveQueryString | web_server.c:44-49 | The string in the buffer becomes the old string without its query. Only the first `?` is overwritten by a NUL. Without a `?`, the buffer is untouched. |
| WebServer.FilePath | web_server.c:120-124 | The served path starts with the web root `.` and never ends in `/`. |
| WebServer.RouteProperties | web_server.c:119-127 | An unfolding of the definitions of `Route` and `FilePath`, case by case. A file is served exactly when the method is `GET`. It is `"." + path`, with `index.html` appended exactly when the path ends in `/`. Any other method gets the 404 reply. |
| WebServer.UrlDecodedSplitAtPercent | web_server.c:81-97 | Decoding splits in front of every `%`: the decoded text of `a + t`, for `t` starting with `%`, is the decoded `a` followed by the decoded `t`. No triplet straddles the split, because `%` is not a hex digit. |
| WebServer.UrlDecodedQuestionMark | web_server.c:84-90 | `%3F` decodes to a literal `?` between the decoded text before it and the decoded text after it. |
| WebServer.DecodedPathAtQuestionMark | web_server.c:44-49 | When the first `?` comes before any NUL, the path is the text before that `?`. |
| WebServer.EncodedQuestionMarkCuts | web_server.c:114-115 | Decoding runs before the query is stripped. So for every path `a + "%3F" + b` whose decoded `a` holds no `?` and no NUL, the path is the decoded `a`, and `GET` serves `FilePath` of it. Whatever follows the encoded `?` is dropped. |
| WebServer.EncodedQuestionMarkCutsPath | web_server.c:114-124 | An instance of `EncodedQuestionMarkCuts`: `GET /a%3Fb` serves `./a`. |
| WebServer.HandleClient | web_server.c:110-128 | Decode into a 256-byte buffer, strip the query in place, then route. This yields exactly `Route` of the two tokens, and a file only for `GET`. |
| WebServer.DecimalRoundTrip | web_server.c:62-66 | The printed Content-Length value reads back as the number printed. |
| WebServer.OkHeaderContentLength | web_server.c:62-66 | The 200 header carries the file size in decimal, between the fixed status line and the fixed connection line. |
| WebServer.WorkerPool.constructor | web_server.c:155-162 | All 8 workers start idle (flag 0). |
| WebServer.WorkerPool.GetAvailableWorker | web_server.c:164-175 | It returns the lowest index whose flag is 0, or None exactly when all 8 flags are 1. No flag changes. |
| WebServer.WorkerPool.Dispatch | web_server.c:236-238 | The chosen worker's flag becomes 1 and no other flag changes. |
| WebServer.WorkerPool.Finish | web_server.c:150 | After handling, the worker's flag becomes 0 and no other flag changes. |
| WebServer.WorkerPool.Accept | web_server.c:234-241 | A connection goes to the lowest idle worker, which becomes busy. When all are busy, it is handled inline and no flag changes. |

## Left out

- Sockets and the accept loop are not modelled: Winsock setup, `bind`, `listen`, `accept`, `recv`, `send`, `send_404`'s fixed reply, and `send_file`'s file reading and sending loop. Only the Content-Length of the 200 header is stated.
- Logging (`log_message` and the log file) is not modelled. It is I/O.
- Threads, events, `WaitForSingleObject` and the critical sections are not modelled; each locked step is one atomic method. Two concurrency defects are out of scope: the `available` flag is written outside `pool_lock` (web_server.c:150 and web_server.c:237), and `find_in_cache` returns a pointer that outlives the lock.
- WebServer.WorkerPool.Dispatch: models only the flag. Storing the socket in the worker and signalling its event (web_server.c:236, web_server.c:238) are not modelled.
- `malloc`, `memcpy` and `free` of payloads are not modelled. A payload is an owned `seq<bv8>`, so the unchecked `malloc` failure (cache.c:42, cache.c:57) has no counterpart.
- ResponseCache.Cache.Cleanup: empties the store. The source frees each payload but leaves `cache_count` as it was, and deletes the lock. A freed payload that is still counted has no counterpart in a value model.
- `time(NULL)` is the parameter `now`. `difftime`, which returns a double, becomes integer subtraction.
- `MultiByteToWideChar` (UTF-8 to UTF-16) is the identity on characters. `swprintf` and `wcscat` are sequence concatenation. A path of at most 255 characters plus `.` and `index.html` fits the 512-character buffer, so no truncation is modelled.
- `sscanf("%s %s")` is not modelled. `HandleClient` takes the two tokens and requires them to be non-empty and free of white space, with the method shorter than 16 and the path shorter than 256 characters. Longer tokens overflow the source's buffers.
- `isxdigit` on a negative `char` is undefined behaviour, so decoded input is restricted to 7-bit, non-NUL characters. Decoded output may hold any byte up to 255.
- Path keys are compared as whole sequences (`wcscmp`) and stored without their terminator. `Add` requires a key shorter than 512 characters, because `wcscpy` into the 512-character buffer is unchecked.
- The Linux variant of the server (`Linux 平台/`) is not part of this model.
