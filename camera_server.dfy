/**
 * The camera's HTTP handlers: `/capture` sends one frame, `/stream` loops sending multipart
 * parts, and both keep the LED and the frame-buffer ownership discipline. Hardware and HTTP
 * calls are recorded as events of a ghost trace; their results are method inputs.
 */
module CameraServer {
  import opened Common
  import opened StreamFraming
  import opened RunningAverage

  const LED_MAX_INTENSITY := 255
  /** How long the LED is lit before a still capture. */
  const FLASH_MS := 150
  /** Capacity the server gives the frame-interval filter. */
  const FILTER_SAMPLES := 20
  /** The listener defaults of the HTTP server library (`HTTPD_DEFAULT_CONFIG`). */
  const DEFAULT_SERVER_PORT := 80
  const DEFAULT_CTRL_PORT := 32768

  /** A frame buffer from the camera driver: who it is, whether it is already JPEG, its bytes. */
  datatype Frame = Frame(id: nat, isJpeg: bool, buf: seq<Byte>)

  datatype Event =
    | LedWrite(duty: int)        // ledcWrite on the LED pin
    | Delay(ms: nat)             // vTaskDelay
    | BoundaryChunk              // httpd_resp_send_chunk of the part delimiter
    | HeaderChunk(len: nat)      // httpd_resp_send_chunk of the part header formatted for `len` bytes
    | Chunk(data: seq<Byte>)     // httpd_resp_send_chunk of image bytes
    | Send(data: seq<Byte>)      // httpd_resp_send of a whole body
    | Send500                    // httpd_resp_send_500
    | FbReturn(frame: nat)       // esp_camera_fb_return
    | FreeJpeg(frame: nat)       // free of the buffer frame2jpg filled from that frame

  datatype CaptureResponse =
    | ServerError
    | Image(contentType: string, disposition: string, allowOrigin: string, body: seq<Byte>)

  /** `enable_led`: the duty written; the cap applies only while a stream is active. */
  function LedDuty(en: bool, streaming: bool, ledDuty: int): (duty: int)
    ensures !en ==> duty == 0
    ensures en && !streaming ==> duty == ledDuty
    ensures en && streaming ==> duty <= LED_MAX_INTENSITY && (duty == ledDuty || duty == LED_MAX_INTENSITY)
    ensures en && streaming && ledDuty <= LED_MAX_INTENSITY ==> duty == ledDuty
  {
    var duty := if en then ledDuty else 0;
    if en && streaming && ledDuty > LED_MAX_INTENSITY then LED_MAX_INTENSITY else duty
  }

  // ---------------------------------------------------------------- still capture

  /** `capturePhoto`'s LED pulse around the acquisition. */
  function PhotoTrace(hasLed: bool, streaming: bool, ledDuty: int): seq<Event> {
    if hasLed then [LedWrite(LedDuty(true, streaming, ledDuty)), Delay(FLASH_MS), LedWrite(0)] else []
  }

  /** Everything `capture_handler` does for one request given what the driver returned. */
  function CaptureTrace(hasLed: bool, streaming: bool, ledDuty: int, fb: Option<Frame>): seq<Event> {
    PhotoTrace(hasLed, streaming, ledDuty) +
    match fb
    case None => [Send500]
    case Some(f) => [Send(f.buf), FbReturn(f.id)]
  }

  function CaptureResponseFor(fb: Option<Frame>): CaptureResponse {
    match fb
    case None => ServerError
    case Some(f) => Image("image/jpeg", "inline; filename=capture.jpg", "*", f.buf)
  }

  predicate IsRelease(e: Event) {
    e.FbReturn? || e.FreeJpeg?
  }

  /**
   * A failed acquisition answers 500 and releases nothing; otherwise the frame is handed back
   * exactly once, as the last step, after its bytes were sent, and nothing is freed.
   */
  lemma CaptureOwnership(hasLed: bool, streaming: bool, ledDuty: int, fb: Option<Frame>)
    ensures var t := CaptureTrace(hasLed, streaming, ledDuty, fb);
            (fb.None? ==> t[|t| - 1] == Send500 && forall e :: e in t ==> !IsRelease(e)) &&
            (fb.Some? ==>
               |t| >= 2 && t[|t| - 1] == FbReturn(fb.value.id) && t[|t| - 2] == Send(fb.value.buf) &&
               forall k :: 0 <= k < |t| - 1 ==> !IsRelease(t[k]))
  {
    var p := PhotoTrace(hasLed, streaming, ledDuty);
    assert forall e :: e in p ==> !IsRelease(e);
    var t := CaptureTrace(hasLed, streaming, ledDuty, fb);
    if fb.Some? {
      assert t == p + [Send(fb.value.buf), FbReturn(fb.value.id)];
      assert forall k :: 0 <= k < |t| - 1 ==> t[k] in p || t[k] == Send(fb.value.buf);
    } else {
      assert t == p + [Send500];
    }
  }

  // ---------------------------------------------------------------- stream loop

  /** The loop stops on a failed acquisition or a failed re-encode. */
  predicate Stops(fb: Option<Frame>, jpeg: Option<seq<Byte>>) {
    fb.None? || (!fb.value.isJpeg && jpeg.None?)
  }

  /** Driver results (`frames`) and `frame2jpg` results (`jpegs`) that end the loop at some point. */
  predicate Halts(frames: seq<Option<Frame>>, jpegs: seq<Option<seq<Byte>>>) {
    |jpegs| == |frames| && exists k :: 0 <= k < |frames| && Stops(frames[k], jpegs[k])
  }

  /** The iteration at which the loop stops. */
  function StopIndex(frames: seq<Option<Frame>>, jpegs: seq<Option<seq<Byte>>>, from: nat): (k: nat)
    requires |jpegs| == |frames| && from <= |frames|
    requires exists k :: from <= k < |frames| && Stops(frames[k], jpegs[k])
    ensures from <= k < |frames| && Stops(frames[k], jpegs[k])
    ensures forall j :: from <= j < k ==> !Stops(frames[j], jpegs[j])
    decreases |frames| - from
  {
    if Stops(frames[from], jpegs[from]) then from
    else StopIndex(frames, jpegs, from + 1)
  }

  /** The three chunk writes of one part. */
  function PartEvents(payload: seq<Byte>): seq<Event> {
    [BoundaryChunk, HeaderChunk(|payload|), Chunk(payload)]
  }

  /** The bytes actually streamed for an acquired frame that did not stop the loop. */
  function Payload(f: Frame, jpeg: Option<seq<Byte>>): seq<Byte>
    requires !Stops(Some(f), jpeg)
  {
    if f.isJpeg then f.buf else jpeg.value
  }

  /**
   * One pass of the loop body on an acquired frame: a non-JPEG frame is handed back right after
   * `frame2jpg`, then (if that succeeded) the part is sent and the re-encoded buffer freed;
   * a JPEG frame is sent from its own buffer and then handed back.
   */
  function IterTrace(f: Frame, jpeg: Option<seq<Byte>>): seq<Event> {
    if !f.isJpeg then
      [FbReturn(f.id)] + match jpeg case None => [] case Some(j) => PartEvents(j) + [FreeJpeg(f.id)]
    else
      PartEvents(f.buf) + [FbReturn(f.id)]
  }

  /** The events of the first `n` iterations, none of which stopped the loop. */
  function IterationsTrace(frames: seq<Option<Frame>>, jpegs: seq<Option<seq<Byte>>>, n: nat): seq<Event>
    requires |jpegs| == |frames| && n <= |frames|
    requires forall j :: 0 <= j < n ==> !Stops(frames[j], jpegs[j])
  {
    if n == 0 then []
    else
      assert !Stops(frames[n - 1], jpegs[n - 1]);
      IterationsTrace(frames, jpegs, n - 1) + IterTrace(frames[n - 1].value, jpegs[n - 1])
  }

  /** The payloads of the first `n` iterations. */
  function Payloads(frames: seq<Option<Frame>>, jpegs: seq<Option<seq<Byte>>>, n: nat): (ps: seq<seq<Byte>>)
    requires |jpegs| == |frames| && n <= |frames|
    requires forall j :: 0 <= j < n ==> !Stops(frames[j], jpegs[j])
    ensures |ps| == n
  {
    if n == 0 then []
    else
      assert !Stops(frames[n - 1], jpegs[n - 1]);
      Payloads(frames, jpegs, n - 1) + [Payload(frames[n - 1].value, jpegs[n - 1])]
  }

  /** The frame-interval samples (in ms) of the first `n` iterations, the first measured from `start`. */
  function Samples(start: int, times: seq<int>, n: nat): (s: seq<int>)
    requires n <= |times|
    ensures |s| == n
  {
    if n == 0 then [] else Samples(start, times, n - 1) + [CDiv(times[n - 1] - LastStamp(start, times, n - 1), 1000)]
  }

  /** `last_frame` after `n` completed iterations. */
  function LastStamp(start: int, times: seq<int>, n: nat): int
    requires n <= |times|
  {
    if n == 0 then start else times[n - 1]
  }

  /** What one streamed frame adds to the filter's history: its interval in ms, or nothing without a buffer. */
  function FrameSample(alloc: bool, frEnd: int, last: int): seq<int>
  {
    if alloc then [CDiv(frEnd - last, 1000)] else []
  }

  lemma IterationsStep(frames: seq<Option<Frame>>, jpegs: seq<Option<seq<Byte>>>, i: nat)
    requires |jpegs| == |frames| && i < |frames|
    requires forall j :: 0 <= j <= i ==> !Stops(frames[j], jpegs[j])
    ensures IterationsTrace(frames, jpegs, i + 1) == IterationsTrace(frames, jpegs, i) + IterTrace(frames[i].value, jpegs[i])
  {
  }

  lemma SamplesStep(start: int, times: seq<int>, i: nat)
    requires i < |times|
    ensures Samples(start, times, i + 1) == Samples(start, times, i) + [CDiv(times[i] - LastStamp(start, times, i), 1000)]
    ensures LastStamp(start, times, i + 1) == times[i]
  {
  }

  lemma AppendAssoc<T>(a: seq<T>, b: seq<T>, c: seq<T>)
    ensures a + b + c == a + (b + c)
  {
  }

  /** One completed pass of the stream loop extends the trace and the filter's samples by one iteration. */
  lemma LoopStep(frames: seq<Option<Frame>>, jpegs: seq<Option<seq<Byte>>>, times: seq<int>, start: int, i: nat,
                 entry: seq<Event>, h0: seq<int>, alloc: bool, before: seq<Event>, hBefore: seq<int>,
                 t: seq<Event>, h: seq<int>)
    requires |jpegs| == |frames| == |times| && i < |frames|
    requires (forall j :: 0 <= j < i ==> !Stops(frames[j], jpegs[j])) && !Stops(frames[i], jpegs[i])
    requires before == entry + IterationsTrace(frames, jpegs, i)
    requires t == before + IterTrace(frames[i].value, jpegs[i])
    requires hBefore == h0 + (if alloc then Samples(start, times, i) else [])
    requires h == hBefore + FrameSample(alloc, times[i], LastStamp(start, times, i))
    ensures forall j :: 0 <= j < i + 1 ==> !Stops(frames[j], jpegs[j])
    ensures t == entry + IterationsTrace(frames, jpegs, i + 1)
    ensures h == h0 + (if alloc then Samples(start, times, i + 1) else [])
  {
    IterationsStep(frames, jpegs, i);
    AppendAssoc(entry, IterationsTrace(frames, jpegs, i), IterTrace(frames[i].value, jpegs[i]));
    SamplesStep(start, times, i);
    var sample := CDiv(times[i] - LastStamp(start, times, i), 1000);
    AppendAssoc(h0, if alloc then Samples(start, times, i) else [], if alloc then [sample] else []);
    assert (if alloc then Samples(start, times, i) else []) + (if alloc then [sample] else []) ==
           (if alloc then Samples(start, times, i + 1) else []);
  }

  /** The pass that stops is the loop's stopping iteration. */
  lemma LoopExit(frames: seq<Option<Frame>>, jpegs: seq<Option<seq<Byte>>>, times: seq<int>, start: int,
                 entry: seq<Event>, h0: seq<int>, alloc: bool, i: nat, t: seq<Event>, last: int, h: seq<int>)
    requires Halts(frames, jpegs) && |times| == |frames| && i < |frames|
    requires forall j :: 0 <= j < i ==> !Stops(frames[j], jpegs[j])
    requires Stops(frames[i], jpegs[i])
    requires t == entry + (IterationsTrace(frames, jpegs, i) + StopTrace(frames[i]))
    requires last == LastStamp(start, times, i) && h == h0 + (if alloc then Samples(start, times, i) else [])
    ensures var k := StopIndex(frames, jpegs, 0);
            t == entry + (IterationsTrace(frames, jpegs, k) + StopTrace(frames[k])) &&
            last == LastStamp(start, times, k) && h == h0 + (if alloc then Samples(start, times, k) else [])
  {
    var k := StopIndex(frames, jpegs, 0);
    assert k <= i;
    assert i <= k;
  }

  /** Either outcome of pass `i` of the stream loop, stated on the trace and the filter's samples. */
  lemma PassStep(frames: seq<Option<Frame>>, jpegs: seq<Option<seq<Byte>>>, times: seq<int>, start: int, i: nat,
                 entry: seq<Event>, h0: seq<int>, alloc: bool, before: seq<Event>, hBefore: seq<int>,
                 last: int, stop: bool, t: seq<Event>, h: seq<int>, l: int)
    requires |jpegs| == |frames| == |times| && i < |frames|
    requires forall j :: 0 <= j < i ==> !Stops(frames[j], jpegs[j])
    requires stop == Stops(frames[i], jpegs[i])
    requires before == entry + IterationsTrace(frames, jpegs, i)
    requires hBefore == h0 + (if alloc then Samples(start, times, i) else [])
    requires last == LastStamp(start, times, i)
    requires stop ==> t == before + StopTrace(frames[i]) && l == last && h == hBefore
    requires !stop ==> t == before + IterTrace(frames[i].value, jpegs[i]) && l == times[i] &&
                       h == hBefore + FrameSample(alloc, times[i], last)
    ensures stop ==> t == entry + (IterationsTrace(frames, jpegs, i) + StopTrace(frames[i])) &&
                     l == LastStamp(start, times, i) &&
                     h == h0 + (if alloc then Samples(start, times, i) else [])
    ensures !stop ==> (forall j :: 0 <= j < i + 1 ==> !Stops(frames[j], jpegs[j])) &&
                      t == entry + IterationsTrace(frames, jpegs, i + 1) &&
                      l == LastStamp(start, times, i + 1) &&
                      h == h0 + (if alloc then Samples(start, times, i + 1) else [])
  {
    if stop {
      AppendAssoc(entry, IterationsTrace(frames, jpegs, i), StopTrace(frames[i]));
    } else {
      LoopStep(frames, jpegs, times, start, i, entry, h0, alloc, before, hBefore, t, h);
    }
  }

  /** `isStreaming = true; enable_led(true)` on a board with an LED. */
  function LedOn(hasLed: bool, ledDuty: int): seq<Event> {
    if hasLed then [LedWrite(LedDuty(true, true, ledDuty))] else []
  }

  /** `isStreaming = false; enable_led(false)` on a board with an LED. */
  function LedOff(hasLed: bool): seq<Event> {
    if hasLed then [LedWrite(0)] else []
  }

  /** The stopping iteration: nothing after a failed acquisition; the frame handed back after a failed re-encode. */
  function StopTrace(fb: Option<Frame>): seq<Event> {
    match fb case None => [] case Some(f) => [FbReturn(f.id)]
  }

  /** Everything one `/stream` request does, from setting the LED to turning it off. */
  function StreamTrace(hasLed: bool, ledDuty: int, frames: seq<Option<Frame>>, jpegs: seq<Option<seq<Byte>>>): seq<Event>
    requires Halts(frames, jpegs)
  {
    var k := StopIndex(frames, jpegs, 0);
    LedOn(hasLed, ledDuty) + (IterationsTrace(frames, jpegs, k) + StopTrace(frames[k])) + LedOff(hasLed)
  }

  /** The trace of one `/stream` request, written as the LED-on, loop and LED-off steps append it. */
  lemma StreamTraceSplit(t0: seq<Event>, hasLed: bool, ledDuty: int, frames: seq<Option<Frame>>, jpegs: seq<Option<seq<Byte>>>)
    requires Halts(frames, jpegs)
    ensures var k := StopIndex(frames, jpegs, 0);
            t0 + LedOn(hasLed, ledDuty) + (IterationsTrace(frames, jpegs, k) + StopTrace(frames[k])) + LedOff(hasLed) ==
            t0 + StreamTrace(hasLed, ledDuty, frames, jpegs)
  {
    var k := StopIndex(frames, jpegs, 0);
    var loop := IterationsTrace(frames, jpegs, k) + StopTrace(frames[k]);
    AppendAssoc(t0, LedOn(hasLed, ledDuty), loop);
    AppendAssoc(t0, LedOn(hasLed, ledDuty) + loop, LedOff(hasLed));
  }

  /** The bytes of the chunk writes in a trace, in order. */
  function ChunkBytes(t: seq<Event>): seq<Byte> {
    if t == [] then [] else SentBytes(t[0]) + ChunkBytes(t[1..])
  }

  /** The bytes a single event puts on the stream: those of its chunk write, if it is one. */
  function SentBytes(e: Event): seq<Byte> {
    match e
    case BoundaryChunk => Octets(STREAM_BOUNDARY)
    case HeaderChunk(len) => Octets(PartHeader(len, 0, 0))
    case Chunk(data) => data
    case _ => []
  }

  lemma ChunkBytesOne(e: Event)
    ensures ChunkBytes([e]) == SentBytes(e)
  {
    assert [e][1..] == [];
  }

  lemma {:induction false} ChunkBytesConcat(a: seq<Event>, b: seq<Event>)
    ensures ChunkBytes(a + b) == ChunkBytes(a) + ChunkBytes(b)
    decreases |a|
  {
    if a == [] {
      assert a + b == b;
    } else {
      assert (a + b)[1..] == a[1..] + b;
      ChunkBytesConcat(a[1..], b);
    }
  }

  /** How many times `e` occurs in `t`. */
  function Count(t: seq<Event>, e: Event): nat {
    if t == [] then 0 else (if t[0] == e then 1 else 0) + Count(t[1..], e)
  }

  lemma {:induction false} CountConcat(a: seq<Event>, b: seq<Event>, e: Event)
    ensures Count(a + b, e) == Count(a, e) + Count(b, e)
    decreases |a|
  {
    if a == [] {
      assert a + b == b;
    } else {
      assert (a + b)[1..] == a[1..] + b;
      CountConcat(a[1..], b, e);
    }
  }

  lemma {:induction false} CountAbsent(t: seq<Event>, e: Event)
    requires e !in t
    ensures Count(t, e) == 0
    decreases |t|
  {
    if t != [] {
      assert e != t[0] && e !in t[1..];
      CountAbsent(t[1..], e);
    }
  }

  /**
   * Per iteration: the native frame is returned exactly once, and the re-encoded buffer freed
   * exactly when one was made. A native frame goes back first, before its conversion is sent;
   * a pass that sends releases straight after the payload chunk.
   */
  lemma IterOwnership(f: Frame, jpeg: Option<seq<Byte>>)
    ensures var t := IterTrace(f, jpeg);
            Count(t, FbReturn(f.id)) == 1 &&
            Count(t, FreeJpeg(f.id)) == (if !f.isJpeg && jpeg.Some? then 1 else 0) &&
            (forall e :: e in t && IsRelease(e) ==> e.frame == f.id) &&
            (!Stops(Some(f), jpeg) ==> |t| > 1 && IsRelease(t[|t| - 1]) &&
                                       (f.isJpeg ==> t[|t| - 1] == FbReturn(f.id)) &&
                                       (!f.isJpeg ==> t[|t| - 1] == FreeJpeg(f.id)))
    ensures var t := IterTrace(f, jpeg);
            |t| > 0 && (!f.isJpeg ==> t[0] == FbReturn(f.id))
    ensures var t := IterTrace(f, jpeg);
            !Stops(Some(f), jpeg) ==> |t| > 2 && t[|t| - 2] == Chunk(Payload(f, jpeg))
  {
    var ret, free := FbReturn(f.id), FreeJpeg(f.id);
    CountOne(ret, ret);
    CountOne(ret, free);
    CountOne(free, ret);
    CountOne(free, free);
    if !f.isJpeg {
      if jpeg.Some? {
        var part := PartEvents(jpeg.value);
        assert IterTrace(f, jpeg) == [ret] + part + [free];
        CountAbsent(part, ret);
        CountAbsent(part, free);
        CountConcat([ret], part, ret);
        CountConcat([ret] + part, [free], ret);
        CountConcat([ret], part, free);
        CountConcat([ret] + part, [free], free);
      }
    } else {
      var part := PartEvents(f.buf);
      CountAbsent(part, ret);
      CountAbsent(part, free);
      CountConcat(part, [ret], ret);
      CountConcat(part, [ret], free);
    }
  }

  lemma CountOne(x: Event, e: Event)
    ensures Count([x], e) == if x == e then 1 else 0
  {
    assert [x][1..] == [];
  }

  /** The three chunk writes of a part stream exactly the framed part. */
  lemma PartChunkBytes(p: seq<Byte>)
    ensures ChunkBytes(PartEvents(p)) == Flatten(PartChunks(p))
  {
    var cs := PartChunks(p);
    var evs := PartEvents(p);
    ChunkBytesOne(evs[0]);
    ChunkBytesOne(evs[1]);
    ChunkBytesOne(evs[2]);
    ChunkBytesConcat([evs[1]], [evs[2]]);
    ChunkBytesConcat([evs[0]], [evs[1], evs[2]]);
    assert evs == [evs[0]] + [evs[1], evs[2]] && [evs[1], evs[2]] == [evs[1]] + [evs[2]];
    FlattenThree(cs[0], cs[1], cs[2]);
    assert cs == [cs[0], cs[1], cs[2]];
  }

  /** The streamed bytes of a completed iteration are exactly one framed part. */
  lemma IterChunkBytes(f: Frame, jpeg: Option<seq<Byte>>)
    requires !Stops(Some(f), jpeg)
    ensures ChunkBytes(IterTrace(f, jpeg)) == Flatten(PartChunks(Payload(f, jpeg)))
  {
    var p := Payload(f, jpeg);
    var evs := PartEvents(p);
    PartChunkBytes(p);
    var rel := if f.isJpeg then FbReturn(f.id) else FreeJpeg(f.id);
    ChunkBytesOne(rel);
    ChunkBytesConcat(evs, [rel]);
    if !f.isJpeg {
      ChunkBytesOne(FbReturn(f.id));
      ChunkBytesConcat([FbReturn(f.id)], evs + [rel]);
    }
  }

  lemma {:induction false} WireAppend(ps: seq<seq<Byte>>, p: seq<Byte>)
    ensures Wire(ps + [p]) == Wire(ps) + Flatten(PartChunks(p))
    decreases |ps|
  {
    if ps == [] {
      assert [p][1..] == [];
    } else {
      assert (ps + [p])[1..] == ps[1..] + [p];
      WireAppend(ps[1..], p);
    }
  }

  /** The chunks of the first `n` iterations are the framed parts of their payloads, back to back. */
  lemma {:induction false} IterationsWire(frames: seq<Option<Frame>>, jpegs: seq<Option<seq<Byte>>>, n: nat)
    requires |jpegs| == |frames| && n <= |frames|
    requires forall j :: 0 <= j < n ==> !Stops(frames[j], jpegs[j])
    ensures ChunkBytes(IterationsTrace(frames, jpegs, n)) == Wire(Payloads(frames, jpegs, n))
  {
    if n > 0 {
      IterationsWire(frames, jpegs, n - 1);
      ChunkBytesConcat(IterationsTrace(frames, jpegs, n - 1), IterTrace(frames[n - 1].value, jpegs[n - 1]));
      IterChunkBytes(frames[n - 1].value, jpegs[n - 1]);
      WireAppend(Payloads(frames, jpegs, n - 1), Payload(frames[n - 1].value, jpegs[n - 1]));
    }
  }

  /** An event that writes nothing to the stream. */
  predicate Silent(e: Event) {
    !(e.BoundaryChunk? || e.HeaderChunk? || e.Chunk?)
  }

  lemma {:induction false} ChunkBytesSilent(t: seq<Event>)
    requires forall j :: 0 <= j < |t| ==> Silent(t[j])
    ensures ChunkBytes(t) == []
    decreases |t|
  {
    if t != [] {
      assert Silent(t[0]);
      ChunkBytesSilent(t[1..]);
    }
  }

  /** The LED writes and the final hand-back put nothing on the stream. */
  lemma SilentEnds(hasLed: bool, ledDuty: int, fb: Option<Frame>)
    ensures ChunkBytes(LedOn(hasLed, ledDuty)) == []
    ensures ChunkBytes(StopTrace(fb)) == []
    ensures ChunkBytes(LedOff(hasLed)) == []
  {
    ChunkBytesSilent(LedOn(hasLed, ledDuty));
    ChunkBytesSilent(StopTrace(fb));
    ChunkBytesSilent(LedOff(hasLed));
  }

  /** So the bytes of a `/stream` response are those of its iterations. */
  lemma StreamChunks(hasLed: bool, ledDuty: int, frames: seq<Option<Frame>>, jpegs: seq<Option<seq<Byte>>>)
    requires Halts(frames, jpegs)
    ensures ChunkBytes(StreamTrace(hasLed, ledDuty, frames, jpegs)) ==
            ChunkBytes(IterationsTrace(frames, jpegs, StopIndex(frames, jpegs, 0)))
  {
    var k := StopIndex(frames, jpegs, 0);
    var on, mid, stop, off := LedOn(hasLed, ledDuty), IterationsTrace(frames, jpegs, k), StopTrace(frames[k]), LedOff(hasLed);
    SilentEnds(hasLed, ledDuty, frames[k]);
    ChunkBytesConcat(mid, stop);
    ChunkBytesConcat(on, mid + stop);
    ChunkBytesConcat(on + (mid + stop), off);
  }

  /**
   * The body of a `/stream` response is the framed parts of the frames sent, in acquisition
   * order, with no delimiter after the last one; a client reading it back recovers every payload.
   */
  lemma StreamBody(hasLed: bool, ledDuty: int, frames: seq<Option<Frame>>, jpegs: seq<Option<seq<Byte>>>)
    requires Halts(frames, jpegs)
    ensures var k := StopIndex(frames, jpegs, 0);
            ChunkBytes(StreamTrace(hasLed, ledDuty, frames, jpegs)) == Wire(Payloads(frames, jpegs, k)) &&
            Unframe(ChunkBytes(StreamTrace(hasLed, ledDuty, frames, jpegs))) == Some(Payloads(frames, jpegs, k))
  {
    var k := StopIndex(frames, jpegs, 0);
    StreamChunks(hasLed, ledDuty, frames, jpegs);
    IterationsWire(frames, jpegs, k);
    UnframeWire(Payloads(frames, jpegs, k));
  }

  /** Frames acquired up to and including iteration `k` carry distinct identities. */
  predicate DistinctUpTo(frames: seq<Option<Frame>>, k: nat)
    requires k < |frames|
  {
    forall i, j :: 0 <= i < j <= k && frames[i].Some? && frames[j].Some? ==> frames[i].value.id != frames[j].value.id
  }

  lemma DistinctIds(frames: seq<Option<Frame>>, k: nat, i: nat, j: nat)
    requires k < |frames| && DistinctUpTo(frames, k)
    requires i <= k && j <= k && i != j && frames[i].Some? && frames[j].Some?
    ensures frames[i].value.id != frames[j].value.id
  {
    if i < j { assert frames[i].value.id != frames[j].value.id; }
    else { assert frames[j].value.id != frames[i].value.id; }
  }

  lemma IterReturnsOwn(f: Frame, jpeg: Option<seq<Byte>>)
    ensures Count(IterTrace(f, jpeg), FbReturn(f.id)) == 1
  {
    IterOwnership(f, jpeg);
  }

  lemma IterReleasesOnly(f: Frame, jpeg: Option<seq<Byte>>, id: nat)
    requires id != f.id
    ensures Count(IterTrace(f, jpeg), FbReturn(id)) == 0
  {
    IterOwnership(f, jpeg);
    var t := IterTrace(f, jpeg);
    assert IsRelease(FbReturn(id));
    assert FbReturn(id) !in t;
    CountAbsent(t, FbReturn(id));
  }

  /** A frame acquired at or after iteration `n` is not returned in the first `n` iterations. */
  lemma {:induction false} IterationsOmit(frames: seq<Option<Frame>>, jpegs: seq<Option<seq<Byte>>>, n: nat, k: nat, i: nat)
    requires |jpegs| == |frames| && n <= k < |frames| && DistinctUpTo(frames, k)
    requires forall j :: 0 <= j < n ==> !Stops(frames[j], jpegs[j])
    requires n <= i <= k && frames[i].Some?
    ensures Count(IterationsTrace(frames, jpegs, n), FbReturn(frames[i].value.id)) == 0
  {
    if n > 0 {
      IterationsOmit(frames, jpegs, n - 1, k, i);
      IterationsStep(frames, jpegs, n - 1);
      var f := frames[n - 1].value;
      var id := frames[i].value.id;
      CountConcat(IterationsTrace(frames, jpegs, n - 1), IterTrace(f, jpegs[n - 1]), FbReturn(id));
      DistinctIds(frames, k, i, n - 1);
      IterReleasesOnly(f, jpegs[n - 1], id);
    }
  }

  lemma {:induction false} IterationsReturns(frames: seq<Option<Frame>>, jpegs: seq<Option<seq<Byte>>>, n: nat, k: nat, i: nat)
    requires |jpegs| == |frames| && n <= k < |frames| && DistinctUpTo(frames, k)
    requires forall j :: 0 <= j < n ==> !Stops(frames[j], jpegs[j])
    requires i <= k && frames[i].Some?
    ensures Count(IterationsTrace(frames, jpegs, n), FbReturn(frames[i].value.id)) == (if i < n then 1 else 0)
  {
    if n <= i {
      IterationsOmit(frames, jpegs, n, k, i);
    } else {
      IterationsStep(frames, jpegs, n - 1);
      var f := frames[n - 1].value;
      var id := frames[i].value.id;
      CountConcat(IterationsTrace(frames, jpegs, n - 1), IterTrace(f, jpegs[n - 1]), FbReturn(id));
      if i == n - 1 {
        IterationsOmit(frames, jpegs, n - 1, k, i);
        IterReturnsOwn(f, jpegs[n - 1]);
      } else {
        IterationsReturns(frames, jpegs, n - 1, k, i);
        DistinctIds(frames, k, i, n - 1);
        IterReleasesOnly(f, jpegs[n - 1], id);
      }
    }
  }

  /**
   * Over a whole `/stream` request, every frame the driver handed out is returned to it exactly
   * once, whether the loop went on or stopped after it (given that the driver's frames are distinct).
   */
  lemma StreamReturnsEachFrameOnce(hasLed: bool, ledDuty: int, frames: seq<Option<Frame>>, jpegs: seq<Option<seq<Byte>>>, i: nat)
    requires Halts(frames, jpegs)
    requires DistinctUpTo(frames, StopIndex(frames, jpegs, 0))
    requires i <= StopIndex(frames, jpegs, 0) && frames[i].Some?
    ensures Count(StreamTrace(hasLed, ledDuty, frames, jpegs), FbReturn(frames[i].value.id)) == 1
  {
    var k := StopIndex(frames, jpegs, 0);
    var id := frames[i].value.id;
    var e := FbReturn(id);
    IterationsReturns(frames, jpegs, k, k, i);
    var on, mid, stop, off := LedOn(hasLed, ledDuty), IterationsTrace(frames, jpegs, k), StopTrace(frames[k]), LedOff(hasLed);
    CountAbsent(on, e);
    CountAbsent(off, e);
    if frames[k].Some? {
      CountOne(FbReturn(frames[k].value.id), e);
      assert i != k ==> frames[k].value.id != id;
    } else {
      assert stop == [];
    }
    assert Count(stop, e) == (if i == k then 1 else 0);
    assert StreamTrace(hasLed, ledDuty, frames, jpegs) == on + (mid + stop) + off;
    CountConcat(mid, stop, e);
    CountConcat(on, mid + stop, e);
    CountConcat(on + (mid + stop), off, e);
  }

  /** The LED is written when the stream starts (capped) and set to 0 as the very last step. */
  lemma StreamLedBracket(hasLed: bool, ledDuty: int, frames: seq<Option<Frame>>, jpegs: seq<Option<seq<Byte>>>)
    requires Halts(frames, jpegs)
    ensures var t := StreamTrace(hasLed, ledDuty, frames, jpegs);
            hasLed ==> |t| >= 2 && t[0] == LedWrite(LedDuty(true, true, ledDuty)) && t[0].duty <= LED_MAX_INTENSITY &&
                       t[|t| - 1] == LedWrite(0)
    ensures var t := StreamTrace(hasLed, ledDuty, frames, jpegs);
            hasLed ==> forall j :: 0 < j < |t| - 1 ==> !t[j].LedWrite?
    ensures !hasLed ==> NoLedWrite(StreamTrace(hasLed, ledDuty, frames, jpegs))
  {
    var k := StopIndex(frames, jpegs, 0);
    var mid := IterationsTrace(frames, jpegs, k) + StopTrace(frames[k]);
    IterationsNoLedWrite(frames, jpegs, k);
    NoLedWriteConcat(IterationsTrace(frames, jpegs, k), StopTrace(frames[k]));
    if hasLed {
      Bracketed(LedWrite(LedDuty(true, true, ledDuty)), mid, LedWrite(0));
    } else {
      assert StreamTrace(hasLed, ledDuty, frames, jpegs) == mid;
    }
  }

  lemma Bracketed(first: Event, mid: seq<Event>, last: Event)
    requires NoLedWrite(mid)
    ensures var t := [first] + mid + [last];
            |t| >= 2 && t[0] == first && t[|t| - 1] == last && forall j :: 0 < j < |t| - 1 ==> !t[j].LedWrite?
  {
    var t := [first] + mid + [last];
    forall j | 0 < j < |t| - 1 ensures !t[j].LedWrite? {
      assert t[j] == mid[j - 1];
    }
  }

  /** No event of the trace writes the LED. */
  predicate NoLedWrite(t: seq<Event>) {
    forall j :: 0 <= j < |t| ==> !t[j].LedWrite?
  }

  /** The loop passes never touch the LED: only `enable_led` before and after the loop does. */
  lemma {:induction false} IterationsNoLedWrite(frames: seq<Option<Frame>>, jpegs: seq<Option<seq<Byte>>>, n: nat)
    requires |jpegs| == |frames| && n <= |frames|
    requires forall j :: 0 <= j < n ==> !Stops(frames[j], jpegs[j])
    ensures NoLedWrite(IterationsTrace(frames, jpegs, n))
    decreases n
  {
    if n > 0 {
      IterationsNoLedWrite(frames, jpegs, n - 1);
      IterNoLedWrite(frames[n - 1].value, jpegs[n - 1]);
      NoLedWriteConcat(IterationsTrace(frames, jpegs, n - 1), IterTrace(frames[n - 1].value, jpegs[n - 1]));
    }
  }

  lemma IterNoLedWrite(f: Frame, jpeg: Option<seq<Byte>>)
    ensures NoLedWrite(IterTrace(f, jpeg))
  {
  }

  lemma NoLedWriteConcat(a: seq<Event>, b: seq<Event>)
    requires NoLedWrite(a) && NoLedWrite(b)
    ensures NoLedWrite(a + b)
  {
    assert forall j :: |a| <= j < |a + b| ==> (a + b)[j] == b[j - |a|];
  }

  // ---------------------------------------------------------------- the server object

  /**
   * The file-level state of the camera server: the LED capability and duty, the streaming flag,
   * the stream's `last_frame` timestamp, the frame-interval filter and the listener ports.
   */
  class MediaServer {
    const hasLed: bool
    var ledDuty: int
    var isStreaming: bool
    var lastFrame: int
    const filter: RaFilter
    var capturePort: nat
    var streamPort: nat
    var captureCtrlPort: nat
    var streamCtrlPort: nat
    /** The hardware and HTTP calls made so far. */
    ghost var trace: seq<Event>

    ghost predicate Valid()
      reads filter, filter.values
    {
      filter.Valid()
    }

    /** The statics as the program starts: LED duty 0, not streaming, no timestamp, no filter buffer. */
    constructor (hasLed: bool)
      ensures Valid() && fresh(filter) && filter.values == null && filter.Covers()
      ensures this.hasLed == hasLed && ledDuty == 0 && !isStreaming && lastFrame == 0 && trace == []
    {
      this.hasLed := hasLed;
      ledDuty, isStreaming, lastFrame := 0, false, 0;
      capturePort, streamPort, captureCtrlPort, streamCtrlPort := 0, 0, 0, 0;
      filter := new RaFilter();
      trace := [];
    }

    /** `enable_led`, which exists only on a board with an LED. */
    method EnableLed(en: bool)
      requires hasLed
      modifies this`trace
      ensures trace == old(trace) + [LedWrite(LedDuty(en, isStreaming, ledDuty))]
    {
      var duty := if en then ledDuty else 0;
      if en && isStreaming && ledDuty > LED_MAX_INTENSITY {
        duty := LED_MAX_INTENSITY;
      }
      trace := trace + [LedWrite(duty)];
    }

    /** `capturePhoto`: `fb` is what the driver's `esp_camera_fb_get` returns. */
    method CapturePhoto(fb: Option<Frame>) returns (r: Option<Frame>)
      modifies this`trace
      ensures r == fb
      ensures trace == old(trace) + PhotoTrace(hasLed, isStreaming, ledDuty)
    {
      if hasLed {
        EnableLed(true);
        trace := trace + [Delay(FLASH_MS)];
      }
      r := fb;
      if hasLed {
        EnableLed(false);
      }
    }

    /** `capture_handler`. */
    method CaptureHandler(fb: Option<Frame>) returns (resp: CaptureResponse)
      modifies this`trace
      ensures resp == CaptureResponseFor(fb)
      ensures trace == old(trace) + CaptureTrace(hasLed, isStreaming, ledDuty, fb)
    {
      var got := CapturePhoto(fb);
      if got.None? {
        trace := trace + [Send500];
        return ServerError;
      }
      var f := got.value;
      resp := Image("image/jpeg", "inline; filename=capture.jpg", "*", f.buf);
      trace := trace + [Send(f.buf)];
      trace := trace + [FbReturn(f.id)];
    }

    /**
     * The end of a streamed frame at timer reading `frEnd`: the elapsed milliseconds since the
     * previous frame go to the filter, and `frEnd` becomes the previous frame's time.
     */
    method RecordFrameEnd(frEnd: int)
      requires Valid()
      modifies this`lastFrame, filter, filter.values
      ensures Valid() && filter.values == old(filter.values) && lastFrame == frEnd
      ensures old(filter.Covers()) ==> filter.Covers()
      ensures filter.history == old(filter.history) + FrameSample(filter.values != null, frEnd, old(lastFrame))
    {
      var sample := CDiv(frEnd - lastFrame, 1000);
      var _ := filter.Run(sample);
      lastFrame := frEnd;
      assert filter.history == old(filter.history) + FrameSample(filter.values != null, frEnd, old(lastFrame));
    }

    /** The three chunk writes of one part: the delimiter, the header for `payload`, the payload. */
    method SendPart(payload: seq<Byte>)
      modifies this`trace
      ensures trace == old(trace) + PartEvents(payload)
    {
      trace := trace + [BoundaryChunk];
      trace := trace + [HeaderChunk(|payload|)];
      trace := trace + [Chunk(payload)];
    }

    /**
     * One pass of the `stream_handler` loop: `fb` is what `esp_camera_fb_get` returns, `jpeg`
     * what `frame2jpg` returns for a non-JPEG frame, `frEnd` the timer reading after the part
     * is sent. `stop` says the loop breaks here.
     */
    method StreamPart(fb: Option<Frame>, jpeg: Option<seq<Byte>>, frEnd: int) returns (stop: bool)
      requires Valid()
      modifies this`trace, this`lastFrame, filter, filter.values
      ensures Valid() && filter.values == old(filter.values)
      ensures old(filter.Covers()) ==> filter.Covers()
      ensures stop == Stops(fb, jpeg)
      ensures stop ==> trace == old(trace) + StopTrace(fb) && lastFrame == old(lastFrame) &&
                       filter.history == old(filter.history)
      ensures !stop ==> trace == old(trace) + IterTrace(fb.value, jpeg) && lastFrame == frEnd &&
                        filter.history == old(filter.history) + FrameSample(filter.values != null, frEnd, old(lastFrame))
    {
      if fb.None? {
        return true;
      }
      var f := fb.value;
      var held := true;
      var jpgBuf: seq<Byte>;
      if !f.isJpeg {
        trace := trace + [FbReturn(f.id)];
        held := false;
        if jpeg.None? {
          return true;
        }
        jpgBuf := jpeg.value;
      } else {
        jpgBuf := f.buf;
      }
      SendPart(jpgBuf);
      if held {
        trace := trace + [FbReturn(f.id)];
      } else {
        trace := trace + [FreeJpeg(f.id)];
        assert trace == old(trace) + [FbReturn(f.id)] + PartEvents(jpgBuf) + [FreeJpeg(f.id)];
        AppendAssoc(old(trace), [FbReturn(f.id)], PartEvents(jpgBuf) + [FreeJpeg(f.id)]);
      }
      RecordFrameEnd(frEnd);
      return false;
    }

    /**
     * The state after `i` completed passes of the `stream_handler` loop over the driver results
     * `frames`, `jpegs` and the timer readings `times`, entered with the trace `entry`, the
     * timestamp `start` and the filter samples `h0`: none of the passes stopped, and each added
     * its events, its timestamp and (when the filter has a buffer) its frame interval.
     */
    ghost predicate Passes(frames: seq<Option<Frame>>, jpegs: seq<Option<seq<Byte>>>, times: seq<int>, i: nat,
                           start: int, entry: seq<Event>, h0: seq<int>, alloc: bool)
      reads this, filter
    {
      |jpegs| == |frames| == |times| && i <= |frames| &&
      (forall j :: 0 <= j < i ==> !Stops(frames[j], jpegs[j])) &&
      trace == entry + IterationsTrace(frames, jpegs, i) &&
      lastFrame == LastStamp(start, times, i) &&
      filter.history == h0 + (if alloc then Samples(start, times, i) else [])
    }

    /**
     * Pass `i` of the `stream_handler` loop: it either stops (on a missing frame or a failed
     * re-encode), adding only the hand-back of a frame it could not re-encode, or leaves the
     * state of `i + 1` passes.
     */
    method StreamIteration(frames: seq<Option<Frame>>, jpegs: seq<Option<seq<Byte>>>, times: seq<int>, i: nat,
                           ghost start: int, ghost entry: seq<Event>, ghost h0: seq<int>, ghost alloc: bool)
      returns (stop: bool)
      requires Valid() && alloc == (filter.values != null) && i < |frames|
      requires Passes(frames, jpegs, times, i, start, entry, h0, alloc)
      modifies this`trace, this`lastFrame, filter, filter.values
      ensures Valid() && filter.values == old(filter.values)
      ensures old(filter.Covers()) ==> filter.Covers()
      ensures stop == Stops(frames[i], jpegs[i])
      ensures stop ==> trace == entry + (IterationsTrace(frames, jpegs, i) + StopTrace(frames[i])) &&
                       lastFrame == LastStamp(start, times, i) &&
                       filter.history == h0 + (if alloc then Samples(start, times, i) else [])
      ensures !stop ==> Passes(frames, jpegs, times, i + 1, start, entry, h0, alloc)
    {
      ghost var before, hBefore, last := trace, filter.history, lastFrame;
      stop := StreamPart(frames[i], jpegs[i], times[i]);
      PassStep(frames, jpegs, times, start, i, entry, h0, alloc, before, hBefore, last, stop, trace, filter.history, lastFrame);
    }

    /**
     * The `while (true)` loop of `stream_handler`: iteration `i` sees `frames[i]`, `jpegs[i]`
     * and `times[i]` as `StreamPart` does, and the loop ends at the first iteration that stops.
     */
    method StreamLoop(frames: seq<Option<Frame>>, jpegs: seq<Option<seq<Byte>>>, times: seq<int>)
      requires Valid() && Halts(frames, jpegs) && |times| == |frames|
      modifies this`trace, this`lastFrame, filter, filter.values
      ensures Valid() && filter.values == old(filter.values)
      ensures old(filter.Covers()) ==> filter.Covers()
      ensures var k := StopIndex(frames, jpegs, 0);
              trace == old(trace) + (IterationsTrace(frames, jpegs, k) + StopTrace(frames[k])) &&
              lastFrame == LastStamp(old(lastFrame), times, k) &&
              filter.history == old(filter.history) +
                (if filter.values == null then [] else Samples(old(lastFrame), times, k))
    {
      ghost var start, k, entry := lastFrame, StopIndex(frames, jpegs, 0), trace;
      ghost var h0, alloc := filter.history, filter.values != null;
      var i := 0;
      while true
        invariant 0 <= i <= k && Valid() && filter.values == old(filter.values)
        invariant old(filter.Covers()) ==> filter.Covers()
        invariant Passes(frames, jpegs, times, i, start, entry, h0, alloc)
        decreases k - i
      {
        var stop := StreamIteration(frames, jpegs, times, i, start, entry, h0, alloc);
        if stop {
          break;
        }
        i := i + 1;
      }
      LoopExit(frames, jpegs, times, start, entry, h0, alloc, i, trace, lastFrame, filter.history);
    }

    /**
     * The first `n` passes of the `stream_handler` loop on a camera that delivers every frame
     * and every conversion in them: how the loop runs when it does not stop, which with the
     * chunk-write results ignored is forever. A pass after the first `n` is not taken.
     */
    method StreamPasses(frames: seq<Option<Frame>>, jpegs: seq<Option<seq<Byte>>>, times: seq<int>, n: nat)
      requires Valid() && |jpegs| == |frames| == |times| && n <= |frames|
      requires forall j :: 0 <= j < n ==> !Stops(frames[j], jpegs[j])
      modifies this`trace, this`lastFrame, filter, filter.values
      ensures Valid() && filter.values == old(filter.values)
      ensures old(filter.Covers()) ==> filter.Covers()
      ensures trace == old(trace) + IterationsTrace(frames, jpegs, n)
      ensures lastFrame == LastStamp(old(lastFrame), times, n)
      ensures filter.history == old(filter.history) + (if filter.values == null then [] else Samples(old(lastFrame), times, n))
    {
      ghost var start, entry := lastFrame, trace;
      ghost var h0, alloc := filter.history, filter.values != null;
      var i := 0;
      while i < n
        invariant i <= n && Valid() && filter.values == old(filter.values)
        invariant old(filter.Covers()) ==> filter.Covers()
        invariant Passes(frames, jpegs, times, i, start, entry, h0, alloc)
      {
        var stop := StreamIteration(frames, jpegs, times, i, start, entry, h0, alloc);
        i := i + 1;
      }
      assert i == n;
    }

    /** `isStreaming = true; enable_led(true)`, compiled only for a board with an LED. */
    method StreamLedOn()
      modifies this`isStreaming, this`trace
      ensures isStreaming == (hasLed || old(isStreaming))
      ensures trace == old(trace) + LedOn(hasLed, ledDuty)
    {
      if hasLed {
        isStreaming := true;
        EnableLed(true);
      }
    }

    /** `isStreaming = false; enable_led(false)`, compiled only for a board with an LED. */
    method StreamLedOff()
      modifies this`isStreaming, this`trace
      ensures isStreaming == (!hasLed && old(isStreaming))
      ensures trace == old(trace) + LedOff(hasLed)
    {
      if hasLed {
        isStreaming := false;
        EnableLed(false);
      }
    }

    /** The `stream_handler` body after the timestamp check: the loop with the LED on around it. */
    method StreamLedLoop(frames: seq<Option<Frame>>, jpegs: seq<Option<seq<Byte>>>, times: seq<int>)
      requires Valid() && Halts(frames, jpegs) && |times| == |frames|
      modifies this`trace, this`lastFrame, this`isStreaming, filter, filter.values
      ensures Valid() && filter.values == old(filter.values)
      ensures old(filter.Covers()) ==> filter.Covers()
      ensures trace == old(trace) + StreamTrace(hasLed, ledDuty, frames, jpegs)
      ensures isStreaming == (!hasLed && old(isStreaming))
      ensures var k := StopIndex(frames, jpegs, 0);
              lastFrame == LastStamp(old(lastFrame), times, k) &&
              filter.history == old(filter.history) + (if filter.values == null then [] else Samples(old(lastFrame), times, k))
    {
      StreamLedOn();
      StreamLoop(frames, jpegs, times);
      StreamLedOff();
      StreamTraceSplit(old(trace), hasLed, ledDuty, frames, jpegs);
    }

    /**
     * `stream_handler`: `now0` is the timer reading at entry, used when no frame was sent before;
     * the LED is on while the loop runs.
     */
    method StreamHandler(now0: int, frames: seq<Option<Frame>>, jpegs: seq<Option<seq<Byte>>>, times: seq<int>)
      requires Valid() && Halts(frames, jpegs) && |times| == |frames|
      modifies this, filter, filter.values
      ensures Valid() && filter.values == old(filter.values) && ledDuty == old(ledDuty)
      ensures old(filter.Covers()) ==> filter.Covers()
      ensures capturePort == old(capturePort) && streamPort == old(streamPort) &&
              captureCtrlPort == old(captureCtrlPort) && streamCtrlPort == old(streamCtrlPort)
      ensures trace == old(trace) + StreamTrace(hasLed, ledDuty, frames, jpegs)
      ensures isStreaming == (!hasLed && old(isStreaming))
      ensures var start := if old(lastFrame) == 0 then now0 else old(lastFrame);
              var k := StopIndex(frames, jpegs, 0);
              lastFrame == LastStamp(start, times, k) &&
              filter.history == old(filter.history) + (if filter.values == null then [] else Samples(start, times, k))
    {
      if lastFrame == 0 {
        lastFrame := now0;
      }
      StreamLedLoop(frames, jpegs, times);
    }

    /**
     * `startCameraServer`: the capture listener on the default ports, the stream listener one
     * port above, then the filter with its buffer (`allocOk` is the `malloc` outcome).
     */
    method Start(allocOk: bool) returns (filterOk: bool)
      modifies this, filter
      ensures Valid() && filterOk == allocOk && filter.count == 0 && filter.sum == 0
      ensures capturePort == DEFAULT_SERVER_PORT && captureCtrlPort == DEFAULT_CTRL_PORT
      ensures streamPort == capturePort + 1 && streamCtrlPort == captureCtrlPort + 1
      ensures filterOk ==> filter.values != null && filter.size == FILTER_SAMPLES
      ensures !filterOk ==> filter.values == null
      ensures trace == old(trace) && ledDuty == old(ledDuty) && isStreaming == old(isStreaming)
      ensures lastFrame == old(lastFrame) && filter.Covers()
    {
      capturePort, captureCtrlPort := DEFAULT_SERVER_PORT, DEFAULT_CTRL_PORT;
      streamPort, streamCtrlPort := capturePort + 1, captureCtrlPort + 1;
      filterOk := filter.Init(FILTER_SAMPLES, allocOk);
    }
  }
}
