# In-flight publish registry of an ESP8266 MQTT sketch, in Dafny

The firmware in `src/main.cpp` joins a WiFi network, opens an MQTT session
through the AsyncMqttClient library and logs telemetry. Its own logic is
small, and this project models it:

- **The in-flight publish registry** (module `Registry`). `activeMessages` is a
  singly linked list of `{id, topic, payload}` records. `publishToMqtt` pushes
  a record onto the head when the transport assigns a nonzero packet id.
  `onMqttPublish` walks the list with a `last`/`item` pointer pair and unlinks
  every node that carries the acknowledged id. The list is modelled with real
  heap nodes (`Node`, with a `next` field that the deletion loop relinks) and
  a class `ActiveMessages` whose ghost `nodes` sequence lists the nodes
  reachable from `head`. `Contents()` is the sequence of records, head first.
  `Retire` specifies an acknowledgment on that sequence: keep the records with
  another id, in order.
- **The delivery log preview** (module `Preview`). After a successful publish
  the log prints the first 35 bytes of the payload and then 35 bytes from
  `payload + strlen(payload) - 35`. For a payload shorter than 35 bytes that
  pointer lies before the payload, and the model logs no tail (`None`) there
  rather than bytes the code cannot be said to print. Topics and payloads are
  C strings: the type `CStr` excludes the NUL character, which would end them.
- **The uptime delta** (module `Uptime`). `getDelta_t` is a wrapping 32-bit
  subtraction followed by a guard that can never hold on the ESP8266.
- **The bounded payload copy** (module `Inbound`). `onMqttMessage` copies a
  non-terminated chunk of `len` bytes into a `len + 1` byte buffer with
  `strncpy` and terminates it.
- **The reconnect decision** (module `Supervisor`). `onMqttDisconnect`
  schedules `connectToMqtt` after 5 seconds only while WiFi is up.

Inputs from the libraries become parameters: the packet id returned by
`mqttClient.publish`, the value of `millis()`, and the result of
`WiFi.isConnected()`. The serial log line of `publishToMqtt` is returned as
a `PublishLog` value.

Some things the code does not do, and the model does not add them. A publish
whose packet id is already in the list is pushed like any other, so several
records may share an id. A failed publish is only logged; `publishToMqtt`
returns nothing to its caller. A disconnect leaves the list as it is, so
unacknowledged records are never expired. A disconnect does not check whether a
reconnect is already scheduled before it schedules one. `getDelta_t` keeps its
`delta_t > UINT_MAX` guard rather than relying on wrapping subtraction alone;
the model keeps it too and proves that it is dead and what its formula would
compute.

## Model

| member | source | states |
|---|---|---|
| `Registry.ActiveMessages.constructor` | src/main.cpp:27 | the registry starts as an empty, well-formed list |
| `Registry.ActiveMessages.Publish` | src/main.cpp:49-66 | id 0 leaves the node list and the records exactly as they were and logs a failure. A nonzero id pushes one fresh node carrying `{id, topic, payload}` onto the head, leaves all old nodes behind it unchanged, and logs topic, the head preview, the tail as line 59 reads it (`TailAsWritten`, `None` for payloads under 35 bytes) and id |
| `Registry.ActiveMessages.Unlink` | src/main.cpp:112-116 | relinking the predecessor's `next` (or the head) past `item` removes exactly that node from the list and leaves `item.next` unchanged |
| `Registry.ActiveMessages.OnPublish` | src/main.cpp:106-126 | the deletion loop leaves exactly the nodes whose id differs from the acknowledged one, in their old order; the records become `Retire(old records, id)` and the list stays well formed |
| `Registry.RetireMembers` | src/main.cpp:110-124 | after an acknowledgment a record is in the list if and only if it was there before and its id differs from the acknowledged id |
| `Registry.RetireCounts` | src/main.cpp:110-124 | every record with another id keeps its multiplicity, and no record with the acknowledged id remains: nothing else is removed |
| `Registry.RetireConcat` | src/main.cpp:110-124 | retiring distributes over concatenation, so the survivors keep their relative order |
| `Registry.RetireAbsent` | src/main.cpp:108-125 | acknowledging an id that no record carries leaves the list unchanged |
| `Registry.RetireIdempotent` | src/main.cpp:106-126 | a second acknowledgment of the same id changes nothing |
| `Registry.RetirePreservesUniqueIds` | src/main.cpp:110-124 | if no two records share an id before an acknowledgment, none do after it |
| `Registry.AckUndoesPublish` | src/main.cpp:60-65 | acknowledging the id of a record just pushed onto the head restores the previous list, when no older record carries that id |
| `Registry.KeepMsgs` | src/main.cpp:110-124 | the nodes left linked by the loop carry exactly the records that `Retire` keeps |
| `Registry.KeepMembers` | src/main.cpp:111-123 | a node stays linked if and only if it was linked and its record's id differs from the acknowledged id |
| `Preview.PreviewHead` | src/main.cpp:58 | the head preview is the prefix of the payload of length min(35, payload length) |
| `Preview.TailAsWritten` | src/main.cpp:58-59 | the tail conversion as written reads nothing defined exactly when the payload is shorter than 35 bytes, and otherwise prints the same 35 bytes as the corrected tail |
| `Preview.PreviewTail` | src/main.cpp:58-59 | the corrected tail preview is the suffix of the payload of length min(35, payload length) |
| `Preview.TailOffsetOutOfBounds` | src/main.cpp:58-59 | for every payload shorter than 35 bytes the written offset `strlen(payload) - 35` is negative |
| `Preview.ShortPayloadCounterexample` | src/main.cpp:58-59 | for the payload `hello` the written tail pointer lies 30 bytes before the buffer |
| `Preview.PreviewTailAgreesWhenLong` | src/main.cpp:58-59 | for payloads of at least 35 bytes the written offset is in bounds and the corrected tail reads the same bytes |
| `Preview.PreviewsCoverShortPayload` | src/main.cpp:58-59 | for payloads of at most 70 bytes every byte appears in the head or the tail preview |
| `Uptime.ElapsedRoundTrip` | src/main.cpp:37 | advancing the previous reading by the delta gives the new reading modulo 2^32, with or without a wrap-around |
| `Uptime.ElapsedUnique` | src/main.cpp:37 | the delta is the only 32-bit value with that property |
| `Uptime.ElapsedAcrossWrap` | src/main.cpp:37 | readings 0xFFFFFFFA then 5 give a delta of 11 |
| `Uptime.WideningBranchDead` | src/main.cpp:38 | the guard `delta_t > UINT_MAX` is false for every pair of 32-bit readings |
| `Uptime.WideningFormulaOffByOne` | src/main.cpp:39 | the formula `ULONG_MAX - lastCycleUptime + uptime` is one less than the delta modulo 2^32, and so differs from it, for every pair of readings |
| `Uptime.CycleClock.constructor` | src/main.cpp:144-145 | setup starts `uptime` and `lastCycleUptime` at the same reading |
| `Uptime.CycleClock.GetDelta` | src/main.cpp:35-43 | returns the wrapping difference between the new reading and the previous one, which advances the previous reading to the new one, and makes the new reading both `uptime` and `lastCycleUptime` |
| `Inbound.StrncpyOf` | src/main.cpp:98 | the `strncpy` image of a chunk has the chunk's length |
| `Inbound.StrncpyOfAt` | src/main.cpp:98 | position k of the copy holds the chunk's byte k unless a NUL occurs earlier in the chunk, and NUL otherwise |
| `Inbound.CString` | src/main.cpp:100-101 | the string `%s` prints is a NUL-free prefix of the buffer that ends at the buffer's first NUL, or at its end if it has none |
| `Inbound.CopyReadsOnlyChunk` | src/main.cpp:97-101 | the string printed from the terminated copy is the chunk up to its first NUL and never longer than the chunk |
| `Inbound.Strncpy` | src/main.cpp:98 | `strncpy(dst, src, n)` writes the `strncpy` image of `src[0..n)` into `dst[0..n)` and leaves `dst` from index `n` on untouched |
| `Inbound.CopyPayload` | src/main.cpp:97-99 | a fresh buffer of `len + 1` bytes holds the `strncpy` image of `payload[0..len)` followed by a NUL at index `len`, and prints as the chunk up to its first NUL |
| `Supervisor.ReconnectDelay` | src/main.cpp:80-82 | a reconnect is scheduled if and only if WiFi is connected, and then with a delay of 5 seconds |

## Findings

| source | as written | input that shows it | evidently intended | confidence | as-written member | corrected member |
|---|---|---|---|---|---|---|
| src/main.cpp:58-59 | the tail preview starts at `payload + strlen(payload) - 35` | payload `hello` (5 bytes): the pointer is 30 bytes before the buffer | the last min(35, strlen(payload)) bytes | high; not executed | `Preview.TailOffsetAsWritten` (with `Preview.ShortPayloadCounterexample`) | `Preview.PreviewTail` |
| src/main.cpp:38-39 | if the guard ever held, the delta would be `ULONG_MAX - lastCycleUptime + uptime` | any pair of readings, e.g. 0xFFFFFFFA then 5: the formula gives 10, the elapsed time is 11 | plain wrapping subtraction, with no branch; the branch is dead on the ESP8266, so the flaw stays latent there | high for the formula, latent in practice; not executed | `Uptime.WideningFormula` (with `Uptime.WideningFormulaOffByOne`) | `Uptime.Elapsed` |

## Left out

- `setup`, `loop`, `mqttSetup` and `connectToMqtt` (src/main.cpp:45-47, 128-169): WiFi join loops, `delay`, serial I/O, callback registration and server configuration are library plumbing. Only the two clock assignments of `setup` are modelled, as `CycleClock`'s constructor.
- `onMqttConnect` (src/main.cpp:68-76): a subscription call and logging. Note that line 71 writes a NUL at index 16 of a 16-byte allocation, one byte past its end; `strcpy` on line 70 has already terminated the 15-character topic, so the write is also unnecessary.
- `onMqttSubscribe` and `onMqttUnsubscribe` (src/main.cpp:85-92): logging only, or empty.
- The AsyncMqttClient transport, `millis()`, `WiFi.isConnected()` and the Ticker timer are not modelled; their results are parameters. The QoS 1 and retain flag passed to `publish` have no effect on the registry and are not modelled, and neither is Ticker's re-arming of a pending timer.
- Serial output: only the log line of `publishToMqtt` is modelled, as the returned `PublishLog`. `onMqttMessage`'s print is modelled only through `CString`; the other prints are left out.
- `malloc` and `free`: allocation failure is not modelled, and the code does not check for it either. Unlinked nodes simply become unreachable. Their `next` field is left as it was, as in the code until `free`.
- Registry.ActiveMessages.Publish: `topic` and `payload` are stored by pointer in the source, so a caller that later changes or frees its buffers changes what the registry holds. The model stores them as values and does not capture that aliasing. Both are of type `CStr`, which has no NUL character, so `strlen(payload)` is the payload's length.
- Inbound.CopyPayload: the `free(plStr)` after the print is not modelled, and the topic, QoS, `index` and `total` arguments are only printed by the source and are not modelled.
