# PortalController and plate recognition — a Dafny model

This project models the core of a barrier ("portal") controller and of the servers that decide
whether it opens:

- **The ESP32 camera server** (`PortalController/camera_server.cpp`) holds four things:
  - the running-average filter of frame intervals (`ra_filter`), a ring buffer over a C array;
  - the flash LED's duty cycle (`enable_led`);
  - the single-shot `/capture` handler;
  - the `/stream` handler, a loop that sends each frame as one part of a
    `multipart/x-mixed-replace` body.

  The server also starts its two listeners on consecutive ports.
- **The Hall-sensor edge detector** (`PortalController/hall_sensor.cpp`) works in three steps:
  - it takes a baseline at start-up;
  - a reading at least the threshold away from the baseline makes the sensor active;
  - one event is reported per rising edge.
- **The two plate-recognition servers** (`TestTesseract/server_with_real_plate.py` and
  `TestTesseract/main.py`) share three things: the list of admitted plates, `match_allowed`,
  and the one-shot `portal_open` state behind `/check` and `/check/result`.
  - The real-photo server cleans each OCR string with `fix_plate_text`. Its `ocr_process` keeps
    only strings shaped like a Russian plate (`is_rus_plate`). It also clamps each padded crop
    to the image.
  - The simpler server post-processes Tesseract's words: strip, substitute look-alikes, keep
    the whitelist, drop empties, deduplicate keeping first occurrences, keep the first five.

`match_allowed` and the `/check` state machine are the same code in both plate servers. Compare
`TestTesseract/main.py:56-67` and `76-142` with `TestTesseract/server_with_real_plate.py:102-113`
and `125-183`. The model states them once, in module `PlateAccess`, and the table cites the
real-photo server's lines.

Modules:

| module | file | models |
|---|---|---|
| `Common`, `PyStr` | `common.dfy`, `py_str.dfy` | helpers: subsequences, `str.strip`, `str.replace`, whitespace removal |
| `RunningAverage` | `ra_filter.dfy` | `ra_filter_t`, `ra_filter_init`, `ra_filter_run` (class `RaFilter` over an `array<int>`) |
| `StreamFraming` | `stream_framing.dfy` | the multipart constants, the part header, the bytes of one part, a reference decoder |
| `CameraServer` | `camera_server.dfy` | `enable_led`, `capturePhoto`, `capture_handler`, `stream_handler`, `startCameraServer` (class `MediaServer`) |
| `HallSensor` | `hall_sensor.dfy` | the file's statics and its four functions (class `Sensor`) |
| `PlateAccess` | `plate_access.dfy` | `ALLOWED_NUMBERS`, `match_allowed`, `/check`, `/check/result` (class `Portal`) |
| `RealPlateServer` | `real_plate_server.dfy` | `fix_plate_text`, `is_rus_plate`, `ocr_real_plate`, `ocr_process` |
| `MainServer` | `main_server.dfy` | `ocr_process` of the simpler server |

How the model treats the world outside the code:

- **The camera server's effects** are recorded as a ghost event trace in `MediaServer.trace`.
  The trace holds LED writes, frame-buffer returns, buffer frees, sent chunks and the 500 reply.
  The properties about ownership, the LED bracket and the bytes on the wire are lemmas over the
  trace functions that the methods are proved to append.
- **Hardware and library results are parameters:**
  - the frames `esp_camera_fb_get` returns;
  - the results of `frame2jpg`;
  - the `esp_timer_get_time` readings;
  - the `analogRead` values;
  - the OCR output, the detections and the decoded image size;
  - difflib's matcher, as a function `Closest`.
- **Integer division.** C's `/` truncates toward zero, so the model uses `RunningAverage.CDiv`
  rather than Dafny's Euclidean `/`.

`stream_handler` ignores the results of its three `httpd_resp_send_chunk` calls
(`PortalController/camera_server.cpp:169-171`), so a failed write does not end the loop. The
loop ends only on a missing frame or a failed conversion, and on a camera that never fails it
never returns. `CameraServer.MediaServer.StreamLoop` and `StreamHandler` model the runs that
end; `CameraServer.MediaServer.StreamPasses` models any number of passes of a run that does not.

## Model

| member | source | states |
|---|---|---|
| RunningAverage.CDivTruncates | PortalController/camera_server.cpp:57 | the division used for the mean rounds toward zero, as C's `/` does: quotient times divisor lies between zero and the dividend, within one divisor |
| RunningAverage.LastNGrow | PortalController/camera_server.cpp:56 | while the filter is filling, the window of the last `count` values grows by the new value |
| RunningAverage.LastNSlide | PortalController/camera_server.cpp:52-56 | once full, the window drops its oldest value and gains the new one |
| RunningAverage.SumUpdate | PortalController/camera_server.cpp:52-54 | overwriting one slot changes the sum by the new value minus the old one, which is how `sum` is maintained |
| RunningAverage.MeanBounds | PortalController/camera_server.cpp:57 | the running average lies between the smallest and largest bound of the window's values |
| RunningAverage.CoveringStep | PortalController/camera_server.cpp:50-58 | one run keeps the abstract window equal to the last `count` values ever fed, with `count` capped at the size |
| RunningAverage.RingStep | PortalController/camera_server.cpp:52-56 | one run keeps the array, `index`, `count` and `sum` a ring-buffer representation of the window |
| RunningAverage.RingSum | PortalController/camera_server.cpp:53-54 | the maintained `sum` always equals the sum of the window |
| RunningAverage.RaFilter.constructor | PortalController/camera_server.cpp:39 | a fresh filter has no buffer and zero size, index, count and sum |
| RunningAverage.RaFilter.Init | PortalController/camera_server.cpp:41-48 | on a failed allocation the filter has no buffer; otherwise a zero-filled buffer of the requested size; index, count and sum are zero either way |
| RunningAverage.RaFilter.Run | PortalController/camera_server.cpp:50-58 | with no buffer, the value is returned and nothing changes; otherwise the slot at `index` becomes the value, index advances modulo the size, count grows up to the size, and the result is the truncated mean of the held values; if those were the last `min(k, size)` of the `k` values fed, they still are |
| StreamFraming.OctetsInjective | PortalController/camera_server.cpp:123-126 | texts of byte-sized characters, such as the boundary and header constants, are sent as bytes that determine the text: two texts with the same octets are equal |
| StreamFraming.Decimal | PortalController/camera_server.cpp:126 | `%u` writes at least one decimal digit, with no leading zero unless the number is zero |
| StreamFraming.StreamHeaderShape | PortalController/camera_server.cpp:126 | the part header written with a zero timestamp is the content-type line, the decimal length and the fixed `X-Timestamp: 0.000000` tail |
| StreamFraming.DecimalLength | PortalController/camera_server.cpp:170 | a number below 10^k has at most k decimal digits |
| StreamFraming.HeaderFitsBuffer | PortalController/camera_server.cpp:142 | for any 32-bit length, the formatted part header is shorter than the 128-byte `part_buf`, so `snprintf` never truncates it |
| StreamFraming.PartChunks | PortalController/camera_server.cpp:169-171 | a part is three chunks — the boundary, the header, the payload — and the last is the payload itself |
| StreamFraming.DecimalDigits | PortalController/camera_server.cpp:126 | the digits `%u` writes read back as the number |
| StreamFraming.PartBytes | PortalController/camera_server.cpp:169-171 | the bytes of one part are the boundary, the header lead, the length digits, the header tail and the payload |
| StreamFraming.UnframePart | PortalController/camera_server.cpp:169-171 | a reader that parses one part's boundary and length recovers that payload and continues with what follows |
| StreamFraming.UnframeWire | PortalController/camera_server.cpp:153-180 | decoding the concatenated parts of any sequence of payloads returns exactly those payloads (the framing round trip) |
| CameraServer.LedDuty | PortalController/camera_server.cpp:22-27 | disabled gives duty 0; enabled and not streaming gives the configured duty; while streaming the duty is capped at 255 |
| CameraServer.CaptureOwnership | PortalController/camera_server.cpp:128-138 | with no frame the handler replies 500 and releases nothing; with a frame it sends the buffer and then returns that frame, as its last action and its only release |
| CameraServer.StopIndex | PortalController/camera_server.cpp:153-180 | the loop ends at the first iteration with no frame or a failed conversion, and not before |
| CameraServer.Payloads | PortalController/camera_server.cpp:159-167 | one payload per iteration before the stop: the frame's own JPEG or the converted buffer |
| CameraServer.Samples | PortalController/camera_server.cpp:177-179 | one filter sample per iteration: the interval since the previous frame end, truncated to milliseconds |
| CameraServer.IterOwnership | PortalController/camera_server.cpp:159-175 | in one iteration the frame is returned exactly once and the converted buffer, if one was made, freed exactly once; the pass releases only its own frame; a native frame is returned first, before its conversion is sent; a pass that sends ends with its release straight after the payload chunk: the return of a JPEG frame, or the free of a converted buffer |
| CameraServer.IterChunkBytes | PortalController/camera_server.cpp:169-171 | the bytes one iteration sends are exactly the framed part of its payload |
| CameraServer.IterationsWire | PortalController/camera_server.cpp:153-180 | the bytes of the first n iterations are the wire form of their n payloads |
| CameraServer.StreamChunks | PortalController/camera_server.cpp:140-187 | the LED writes and the final stop send no bytes: the response body is what the iterations send |
| CameraServer.StreamBody | PortalController/camera_server.cpp:140-187 | the `/stream` body is the framed parts of the frames sent, in order, and decoding it yields exactly those payloads |
| CameraServer.IterReleasesOnly | PortalController/camera_server.cpp:174-175 | an iteration returns only its own frame |
| CameraServer.IterationsOmit | PortalController/camera_server.cpp:153-180 | with distinct frames, the passes before the one that acquired a frame never return it |
| CameraServer.IterationsReturns | PortalController/camera_server.cpp:153-180 | with distinct frames, each frame acquired within the first n iterations is returned exactly once in them |
| CameraServer.StreamReturnsEachFrameOnce | PortalController/camera_server.cpp:140-187 | every frame the stream acquires, including one whose conversion failed, is returned to the driver exactly once |
| CameraServer.StreamLedBracket | PortalController/camera_server.cpp:140-187 | with an LED, the stream's first action turns it on at a duty of at most 255, its last action turns it off, and no action in between writes the LED; without an LED nothing writes it |
| CameraServer.IterationsNoLedWrite | PortalController/camera_server.cpp:153-180 | no pass of the loop writes the LED |
| CameraServer.MediaServer.constructor | PortalController/camera_server.cpp:18-20 | at start the LED duty is 0, nothing streams, `last_frame` is 0 and the filter has no buffer and covers its empty history |
| CameraServer.MediaServer.EnableLed | PortalController/camera_server.cpp:22-27 | writes the duty `LedDuty` gives for the flag, the streaming state and the configured duty |
| CameraServer.MediaServer.CapturePhoto | PortalController/camera_server.cpp:107-117 | returns the driver's frame unchanged, bracketed by the flash LED on and off when there is one |
| CameraServer.MediaServer.CaptureHandler | PortalController/camera_server.cpp:128-138 | replies 500 without a frame, else sends the JPEG and returns the frame |
| CameraServer.MediaServer.RecordFrameEnd | PortalController/camera_server.cpp:177-179 | feeds the filter the truncated millisecond interval when it has a buffer, and records the new `last_frame`; a filter that held the last `min(k, size)` samples still does |
| CameraServer.MediaServer.SendPart | PortalController/camera_server.cpp:169-171 | sends the boundary, the header and the payload as three chunks |
| CameraServer.MediaServer.StreamPart | PortalController/camera_server.cpp:154-179 | one loop pass: it stops exactly on a missing frame or a failed conversion; otherwise it sends one part, releases the frame or the buffer, and samples the interval |
| CameraServer.MediaServer.StreamIteration | PortalController/camera_server.cpp:153-180 | the pass at iteration i stops exactly at the stop index, and otherwise extends the trace and history by that iteration |
| CameraServer.MediaServer.StreamPasses | PortalController/camera_server.cpp:153-180 | on a camera that delivers every frame and conversion, n passes append exactly the first n iterations' events, move `last_frame` to the n-th frame end and feed the filter one sample per pass |
| CameraServer.MediaServer.StreamLoop | PortalController/camera_server.cpp:153-180 | the loop's trace is the iterations up to the stop followed by the stop; its filter history gains one sample per part sent |
| CameraServer.MediaServer.StreamLedOn | PortalController/camera_server.cpp:148-151 | with an LED, marks streaming and turns the LED on; without one, does nothing |
| CameraServer.MediaServer.StreamLedOff | PortalController/camera_server.cpp:182-185 | with an LED, clears streaming and turns the LED off |
| CameraServer.MediaServer.StreamLedLoop | PortalController/camera_server.cpp:148-185 | the LED bracket around the loop: the trace gains exactly the stream's events after the clock is read, streaming is left set only on a board without an LED, and `last_frame` and the history follow the frames sent |
| CameraServer.MediaServer.StreamHandler | PortalController/camera_server.cpp:140-187 | initialises `last_frame` once from the clock; the whole effect is the LED-bracketed loop; last_frame and the filter history follow the frames sent; the filter keeps holding the last `min(k, size)` samples; the listener ports and the LED duty are unchanged |
| CameraServer.MediaServer.Start | PortalController/camera_server.cpp:190-206 | the stream listener uses the capture ports plus one; the filter is set up with 20 samples, or has no buffer if allocation fails; `last_frame` is untouched and the filter starts covering its (empty) history |
| HallSensor.TriggeredEitherWay | PortalController/hall_sensor.cpp:27-29 | active exactly when the reading is at least the threshold above or below the baseline |
| HallSensor.EventsAreRisingEdges | PortalController/hall_sensor.cpp:33-37 | over any sequence of update/event rounds, round k reports an event exactly when it is active and the previous round was not |
| HallSensor.NoConsecutiveEvents | PortalController/hall_sensor.cpp:33-37 | two consecutive rounds never both report an event |
| HallSensor.Sensor.constructor | PortalController/hall_sensor.cpp:5-10 | no pin, threshold 1000, baseline 0, both flags clear, so nothing is reported before an update |
| HallSensor.Sensor.Init | PortalController/hall_sensor.cpp:13-22 | records the pin, the threshold and the baseline reading, leaving the edge flags alone |
| HallSensor.Sensor.Update | PortalController/hall_sensor.cpp:25-30 | the current state becomes whether the reading is far enough from the baseline; nothing else changes |
| HallSensor.Sensor.Event | PortalController/hall_sensor.cpp:33-37 | reports a rising edge since the last report and latches the state, so a second call without an update reports nothing |
| HallSensor.Sensor.Round | PortalController/hall_sensor.cpp:25-37 | `hallUpdate` then `hallEvent` reports the event `EventsOver` gives for that reading and latches the state it carries into the next round |
| HallSensor.Sensor.Active | PortalController/hall_sensor.cpp:39-41 | returns the current state without changing anything |
| PlateAccess.FirstExact | TestTesseract/server_with_real_plate.py:104-106 | finds an admitted candidate when one exists, and nothing exactly when no candidate is admitted |
| PlateAccess.FirstExactIsFirst | TestTesseract/server_with_real_plate.py:104-106 | the exact hit is the earliest admitted candidate |
| PlateAccess.FirstClose | TestTesseract/server_with_real_plate.py:107-112 | the matcher's proposal for some candidate, and none exactly when no candidate gets one |
| PlateAccess.FirstCloseIsFirst | TestTesseract/server_with_real_plate.py:107-112 | the proposal chosen is that of the earliest candidate that gets one |
| PlateAccess.MatchAllowed | TestTesseract/server_with_real_plate.py:102-113 | allowed exactly when the number is non-empty; an allowed number is admitted; an exact hit wins; no candidates gives ("", false) |
| PlateAccess.AllowedNonEmpty | TestTesseract/server_with_real_plate.py:23 | every admitted plate has at least eight characters |
| PlateAccess.MatchFallsBack | TestTesseract/server_with_real_plate.py:107-113 | with no exact hit, the answer is the first proposal, and the portal may open exactly when some candidate got one |
| PlateAccess.AnyCandidateOpens | TestTesseract/server_with_real_plate.py:110 | with `cutoff=0` any non-empty candidate list opens the portal |
| PlateAccess.CheckReplyOpens | TestTesseract/server_with_real_plate.py:125-173 | only a non-empty JPEG body yields a photo verdict; an `ok` verdict carries a non-empty number; an empty body gives the 400 reply |
| PlateAccess.Portal.constructor | TestTesseract/server_with_real_plate.py:19-20 | the portal starts closed with no number |
| PlateAccess.Portal.Check | TestTesseract/server_with_real_plate.py:125-173 | the reply is the one for the body and type; only the photo branch changes state, opening the portal exactly when allowed and keeping the chosen number |
| PlateAccess.Portal.Result | TestTesseract/server_with_real_plate.py:175-183 | answers "true" exactly when the portal was open, and leaves it closed (one-shot) |
| RealPlateServer.ApplyAllReplaces | TestTesseract/server_with_real_plate.py:49-51 | applying the five replacements in dictionary order acts on each character as one mapping |
| RealPlateServer.FixPlateText | TestTesseract/server_with_real_plate.py:48-52 | the replace loop computes that text |
| RealPlateServer.FixedTextProperties | TestTesseract/server_with_real_plate.py:48-52 | the result contains none of O, Q, I, Z, B, keeps every other character, and fixing twice is fixing once |
| RealPlateServer.TryCountsSpec | TestTesseract/server_with_real_plate.py:55 | the backtracking matcher accepts exactly when some allowed count of the first piece lets the rest match |
| RealPlateServer.FixedPiece | TestTesseract/server_with_real_plate.py:31 | a piece with a fixed count consumes exactly that many characters of its class |
| RealPlateServer.LastPiece | TestTesseract/server_with_real_plate.py:31 | the final `\d{2,3}` matches exactly two or three digits |
| RealPlateServer.IsRusPlateShape | TestTesseract/server_with_real_plate.py:54-55 | `is_rus_plate` accepts exactly a letter, three digits, two letters and two or three digits, 8 or 9 characters in all |
| RealPlateServer.RusPlateNeverAllowed | TestTesseract/server_with_real_plate.py:23-31 | no string the regex accepts is an admitted plate, since those begin with Cyrillic letters |
| RealPlateServer.CropBox | TestTesseract/server_with_real_plate.py:69-74 | the padded crop lies inside the image; it starts at or before a detection's left and top edges when they are inside the image, and ends at or after its right and bottom edges when they are; it is non-empty (positive width and height) for a detection that starts inside the image and has positive width and height |
| RealPlateServer.CleanText | TestTesseract/server_with_real_plate.py:92-93 | a cleaned string is no longer than the OCR output and has no whitespace and none of the replaced letters |
| RealPlateServer.CleanTexts | TestTesseract/server_with_real_plate.py:92-95 | at most one result per detection, and never an empty one |
| RealPlateServer.ReadPlate | TestTesseract/server_with_real_plate.py:92-93 | the loop body computes the cleaned string |
| RealPlateServer.OcrRealPlate | TestTesseract/server_with_real_plate.py:57-96 | an unreadable image gives no results; otherwise the non-empty cleaned strings in detection order, with every crop clamped |
| RealPlateServer.PlatesOnly | TestTesseract/server_with_real_plate.py:98-100 | the result is a subsequence of plates, and every plate of the input occurs in it |
| RealPlateServer.PlatesOnlyConcat | TestTesseract/server_with_real_plate.py:100 | the filter of a concatenation is the concatenation of the filters |
| RealPlateServer.PlatesOnlySingle | TestTesseract/server_with_real_plate.py:100 | a single string is kept exactly when `is_rus_plate` accepts it |
| RealPlateServer.PlatesOnlyCounts | TestTesseract/server_with_real_plate.py:100 | each plate is kept as many times as it occurs, repeats included, and no other string survives |
| RealPlateServer.RealPlateMatchIsFuzzy | TestTesseract/server_with_real_plate.py:98-113 | this server never has an exact hit, so the decision is always the fuzzy matcher's |
| RealPlateServer.RecognisedPlateLetters | TestTesseract/server_with_real_plate.py:92-100 | a recognised plate never has B or O in a letter position, since fixing maps them to digits |
| RealPlateServer.CleanTextsMembers | TestTesseract/server_with_real_plate.py:92-95 | no cleaned string contains a replaced letter |
| PyStr.ReplaceChar | TestTesseract/main.py:44 | `str.replace` of one character keeps the length and replaces exactly the matching positions |
| PyStr.RemoveSpaces | TestTesseract/server_with_real_plate.py:92 | `re.sub(r"\s+", "", t)` leaves no whitespace and keeps every other character |
| PyStr.StripSpec | TestTesseract/main.py:41 | `strip()` is empty exactly for an all-whitespace string, and otherwise neither begins nor ends with whitespace |
| MainServer.KeepPlateChars | TestTesseract/main.py:45 | the whitelist filter keeps only plate characters and never grows the text |
| MainServer.KeepPlateCharsMembers | TestTesseract/main.py:45 | a character survives exactly when it occurs and is on the whitelist |
| MainServer.SubstituteSpec | TestTesseract/main.py:44 | N becomes the Cyrillic М, I becomes 1, O becomes 0, and nothing else changes |
| MainServer.CleanToken | TestTesseract/main.py:41-45 | a cleaned word consists only of whitelist characters |
| MainServer.CleanTokens | TestTesseract/main.py:38-47 | at most one text per word |
| MainServer.CleanTokensAlphabet | TestTesseract/main.py:38-47 | every kept text is non-empty and made of whitelist characters |
| MainServer.FirstIndexSnoc | TestTesseract/main.py:50 | appending to a list does not move the first occurrence of a value already in it |
| MainServer.DedupeMembers | TestTesseract/main.py:50 | `dict.fromkeys` keeps exactly the values of the list |
| MainServer.DedupeNoDup | TestTesseract/main.py:50 | the deduplicated list has no repeated value |
| MainServer.DedupeSubsequence | TestTesseract/main.py:50 | the deduplicated list is a subsequence of the original |
| MainServer.DedupeOrder | TestTesseract/main.py:50 | values are kept in the order of their first occurrence |
| MainServer.TakeFirst | TestTesseract/main.py:51 | `[:5]` keeps the first five, or the whole list when shorter |
| MainServer.ReadWord | TestTesseract/main.py:41-45 | the loop body computes the cleaned word |
| MainServer.KeepWord | TestTesseract/main.py:40-47 | one pass extends the kept texts by that word's non-empty cleaned form |
| MainServer.CleanWords | TestTesseract/main.py:38-47 | the loop collects the non-empty cleaned words in order |
| MainServer.OcrProcess | TestTesseract/main.py:21-51 | a Tesseract error gives []; otherwise the first five distinct cleaned words |
| MainServer.CandidatesFrom | TestTesseract/main.py:50-51 | at most five, distinct, non-empty whitelist words, the first of the deduplicated list in first-occurrence order |
| MainServer.OcrCandidatesSpec | TestTesseract/main.py:21-51 | the result has at most five distinct non-empty whitelist words that occur among the cleaned words, in first-occurrence order; [] on a Tesseract error |
| MainServer.NeverReadsPlateWithDe | TestTesseract/main.py:16-45 | the whitelist has no Д, so the admitted plate С321АД50 can never be read exactly |

## Left out

- Hardware, WiFi, camera initialisation and the HTTP server library are out of scope. This covers
  the `httpd` handler registration, response headers and content types, and concurrent requests
  on the two listeners. The model treats each handler call as running alone.
- The driver and library calls are inputs or ghost trace events. These are
  `esp_camera_fb_get`, `esp_camera_fb_return`, `frame2jpg`, `esp_timer_get_time`, `ledcWrite`,
  `analogRead`, `httpd_resp_send*` and `free`. Their internal behaviour is not modelled.
- RunningAverage.RaFilter.Run: uses unbounded integers. The 32-bit wrap of `sum` and the
  conversion of the signed sum by the `size_t` count are not modelled. The division is modelled
  as signed division truncating toward zero.
- RunningAverage.RaFilter.Init: requires `sampleSize > 0`. `ra_filter_init` with size 0 would
  later divide by zero in `ra_filter_run`, and the server always passes 20.
- CameraServer.MediaServer.StreamHandler: models only the runs that end, those where some
  pass has no frame or a failed conversion (`Halts`). The result of each chunk write is ignored,
  as in the code, so on a camera that never fails the handler never returns, even after the
  client has gone. For that endless run, `CameraServer.MediaServer.StreamPasses` and the prefix
  lemmas `IterationsWire`, `IterationsReturns`, `IterOwnership` and `IterationsNoLedWrite`
  state what any number of passes does. `esp_timer_get_time` is an arbitrary integer per frame.
- CameraServer.MediaServer.StreamLoop: models only loops that end (`Halts`), for the same
  reason; the endless loop is covered pass by pass as above.
- CameraServer.Samples: the interval `(fr_end - last_frame) / 1000` is computed in 64 bits and
  then passed as a 32-bit `int` to `ra_filter_run`. The model's sample is the unbounded
  truncated quotient, so the narrowing of an interval beyond about 24 days is not modelled.
- StreamFraming.HeaderFitsBuffer: covers lengths below 2^32, the range of `%u`. The
  `snprintf` truncation path for longer headers is therefore not modelled.
- The `X-Timestamp` field is always written as `0.000000`, as in the code. Real timestamps are
  not modelled.
- HallSensor.Triggered: `abs` of the most negative `int` is not modelled; readings are
  unbounded integers. The serial logging and the settling `delay` of `initHallSensor` are left out.
- RealPlateServer.IsRusPlate: `\d` is modelled as the ASCII digits 0-9. Python's `\d` also
  matches other Unicode decimal digits.
- PlateAccess.MatchAllowed: difflib's `get_close_matches` is a parameter. Only its soundness
  (it proposes admitted plates) and, for `n=1, cutoff=0`, its totality are stated. The
  similarity ratio is not modelled.
- Flask routing, request parsing, file saving and reading, file names, timestamps and `print`
  logging are left out. This includes the message the text branch of `/check` prints. Of the
  body, only emptiness and content type are used.
- OpenCV and Tesseract are inputs:
  - Haar detection (`detectMultiScale`);
  - image decoding, resizing and thresholding;
  - `image_to_data` and `image_to_string`.

  The model receives the decoded size, the boxes and the OCR words.
- MainServer.OcrProcess: `cv2.imread` returning `None` is not checked in `main.py`; the call
  then fails inside `cv2.resize`. That crash path is not modelled. The loop bound
  `len(data['level'])` is taken to equal the length of `data['text']`, as Tesseract's dictionary
  output guarantees.
- `PortalController/api_client.cpp` and `PortalController/portal_servo.cpp` are not part of
  this model.
