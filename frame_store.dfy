/** `CameraStreamServer` without its sockets and threads: the frame store
    that `update_frame` fills, the start and stop switches, the per-client
    MJPEG loop over `last_frame_sent`, and the request handler that picks a
    response for each route. */
module FrameStore {
  import opened Text
  import opened HttpResponse
  import opened RequestRouter

  /** `CAMERA_STREAM_DEFAULT_PORT`. */
  const DefaultPort := 9595

  /** A captured `cv::Mat`, reduced to its pixel bytes: `empty()` holds
      exactly when there are none. */
  datatype Frame = Frame(pixels: seq<byte>)
  {
    predicate IsEmpty()
    {
      pixels == []
    }
  }

  /** `capture_ts_ms - last_capture_ts_local` in `uint64_t`. */
  function ElapsedMs(now: Uint64, last: Uint64): (d: Uint64)
    ensures d == 0 <==> now == last
    ensures last <= now ==> d == now - last
    ensures now < last ==> d == now - last + SizeModulus
  {
    (now - last) % SizeModulus
  }

  /** The moving average: the first sample is taken as is, later ones are
      blended 85/15 into the estimate. */
  function Blend(estimate: real, instant: real): (r: real)
    ensures estimate <= 0.0 ==> r == instant
    ensures estimate > 0.0 ==> r - estimate == 0.15 * (instant - estimate)
  {
    if estimate <= 0.0 then instant else 0.85 * estimate + 0.15 * instant
  }

  /** The new estimate `update_frame` computes, or `None` when it leaves it
      alone: only when an earlier capture time exists and time has passed. */
  function NextFpsEstimate(last: Uint64, now: Uint64, estimate: real): (r: Option<real>)
    ensures r.Some? ==> r.value > 0.0
  {
    if last == 0 then None
    else
      var delta := ElapsedMs(now, last);
      if delta > 0 then
        assert 1000.0 / delta as real > 0.0;
        BlendBetween(estimate, 1000.0 / delta as real);
        Some(Blend(estimate, 1000.0 / delta as real))
      else None
  }

  /** The estimate is updated exactly when there was an earlier capture at a
      different time. */
  lemma FpsGating(last: Uint64, now: Uint64, estimate: real)
    ensures NextFpsEstimate(last, now, estimate).Some? <==> last != 0 && now != last
  {
  }

  /** The first sample is the instantaneous rate; afterwards the estimate
      stays between the old estimate and the new sample. */
  lemma BlendBetween(estimate: real, instant: real)
    requires instant > 0.0
    ensures estimate <= 0.0 ==> Blend(estimate, instant) == instant
    ensures estimate > 0.0 ==> Blend(estimate, instant) > 0.0
    ensures estimate > 0.0 && estimate <= instant ==>
              estimate <= Blend(estimate, instant) <= instant
    ensures estimate > 0.0 && instant <= estimate ==>
              instant <= Blend(estimate, instant) <= estimate
  {
  }

  /** The process-wide state the source keeps in statics: the `instance`
      pointer used by the signal handler, and the two function-local statics
      of `update_frame`. */
  class ProcessGlobals {
    var instance: CameraStreamServer?
    var lastCaptureTsLocal: Uint64
    var localFpsEstimate: real

    constructor ()
      ensures instance == null && lastCaptureTsLocal == 0 && localFpsEstimate == 0.0
    {
      instance := null;
      lastCaptureTsLocal := 0;
      localFpsEstimate := 0.0;
    }
  }

  /** What one client's stream loop sees when it checks the store: the
      fields it reads under the mutex, and whether the three `send` calls of
      a part that it would write succeed. */
  datatype FrameView = FrameView(running: bool, latestFrameId: nat, currentJpeg: seq<byte>, sendOk: bool)

  /** The outcome of one check: leave the loop, keep waiting on the
      condition variable, go round again (`continue`), or send a part. */
  datatype StreamStep = Exit | Wait | Skip | Send

  function NextStreamStep(running: bool, latestFrameId: nat, jpegEmpty: bool, lastFrameSent: nat): (step: StreamStep)
    ensures step == Exit <==> !running
    ensures step == Wait <==> running && latestFrameId == lastFrameSent
    ensures step == Skip <==> running && latestFrameId != lastFrameSent && jpegEmpty
    ensures step == Send <==> running && latestFrameId != lastFrameSent && !jpegEmpty
  {
    if !running then Exit
    else if latestFrameId == lastFrameSent then Wait
    else if jpegEmpty then Skip
    else Send
  }

  /** A part that reached the client. */
  datatype Delivered = Delivered(id: nat, jpeg: seq<byte>)

  /** The parts one client receives from a sequence of views, starting from
      `last_frame_sent == last`.  A failed send ends the loop. */
  function StreamRun(views: seq<FrameView>, last: nat): (r: seq<Delivered>)
    ensures |r| <= |views|
    ensures forall i :: 0 <= i < |r| ==> r[i].jpeg != []
    decreases |views|
  {
    if views == [] then []
    else
      var v := views[0];
      match NextStreamStep(v.running, v.latestFrameId, v.currentJpeg == [], last)
      case Exit => []
      case Wait => StreamRun(views[1..], last)
      case Skip => StreamRun(views[1..], last)
      case Send =>
        if v.sendOk then [Delivered(v.latestFrameId, v.currentJpeg)] + StreamRun(views[1..], v.latestFrameId)
        else []
  }

  function Ids(ds: seq<Delivered>): (r: seq<nat>)
    ensures |r| == |ds| && forall i :: 0 <= i < |ds| ==> r[i] == ds[i].id
  {
    seq(|ds|, i requires 0 <= i < |ds| => ds[i].id)
  }

  function Jpegs(ds: seq<Delivered>): (r: seq<seq<byte>>)
    ensures |r| == |ds| && forall i :: 0 <= i < |ds| ==> r[i] == ds[i].jpeg
  {
    seq(|ds|, i requires 0 <= i < |ds| => ds[i].jpeg)
  }

  /** Every frame view shows an id of at least `last`, and ids never go
      down from one view to the next. */
  predicate IdsGrowFrom(views: seq<FrameView>, last: nat)
  {
    (forall i :: 0 <= i < |views| ==> last <= views[i].latestFrameId)
    && forall i, j :: 0 <= i < j < |views| ==> views[i].latestFrameId <= views[j].latestFrameId
  }

  /** Every delivered id is above `last`, each with bytes, in strictly
      increasing order. */
  predicate StrictlyIncreasingAbove(r: seq<Delivered>, last: nat)
  {
    (forall i :: 0 <= i < |r| ==> last < r[i].id && r[i].jpeg != [])
    && forall i, j :: 0 <= i < j < |r| ==> r[i].id < r[j].id
  }

  lemma IdsGrowTail(views: seq<FrameView>, last: nat)
    requires views != [] && IdsGrowFrom(views, last)
    ensures IdsGrowFrom(views[1..], last) && IdsGrowFrom(views[1..], views[0].latestFrameId)
  {
    var tail := views[1..];
    forall i | 0 <= i < |tail| ensures views[0].latestFrameId <= tail[i].latestFrameId {
      assert tail[i] == views[i + 1];
    }
    forall i, j | 0 <= i < j < |tail| ensures tail[i].latestFrameId <= tail[j].latestFrameId {
      assert tail[i] == views[i + 1] && tail[j] == views[j + 1];
    }
  }

  lemma IncreasingCons(d: Delivered, r: seq<Delivered>, last: nat)
    requires last < d.id && d.jpeg != [] && StrictlyIncreasingAbove(r, d.id)
    ensures StrictlyIncreasingAbove([d] + r, last)
  {
    var r' := [d] + r;
    forall i | 0 < i < |r'| ensures r'[i] == r[i - 1] {
    }
  }

  /** While the store's frame id only grows, a client receives each frame id
      at most once and in increasing order, never a part without bytes, and
      never the id it started from. */
  lemma {:induction false} StreamIdsIncrease(views: seq<FrameView>, last: nat)
    requires IdsGrowFrom(views, last)
    ensures StrictlyIncreasingAbove(StreamRun(views, last), last)
    decreases |views|
  {
    if views != [] {
      var v := views[0];
      var tail := views[1..];
      IdsGrowTail(views, last);
      match NextStreamStep(v.running, v.latestFrameId, v.currentJpeg == [], last)
      case Exit =>
      case Wait =>
        StreamIdsIncrease(tail, last);
      case Skip =>
        StreamIdsIncrease(tail, last);
      case Send =>
        if v.sendOk {
          StreamIdsIncrease(tail, v.latestFrameId);
          IncreasingCons(Delivered(v.latestFrameId, v.currentJpeg), StreamRun(tail, v.latestFrameId), last);
        }
    }
  }

  /** A stretch of views that only shows the id already sent delivers
      nothing: clients are not sent the same frame twice. */
  lemma {:induction false} NoResendOfSameFrame(views: seq<FrameView>, last: nat)
    requires forall i :: 0 <= i < |views| ==> views[i].latestFrameId == last
    ensures StreamRun(views, last) == []
    decreases |views|
  {
    if views != [] {
      assert forall i :: 0 <= i < |views[1..]| ==> views[1..][i] == views[i + 1];
      NoResendOfSameFrame(views[1..], last);
    }
  }

  /** `CameraStreamServer` with the fields the model keeps. */
  class CameraStreamServer {
    var serverPort: int
    var running: bool
    var currentJpeg: seq<byte>
    var latestFrameId: nat
    var latestCaptureTsMs: Uint64
    var emaFps: real
    var originalFrame: Frame

    /** A published frame id always comes with JPEG bytes, as long as the
        encoder never reports success with an empty buffer. */
    predicate StoreConsistent()
      reads this
    {
      latestFrameId > 0 ==> currentJpeg != []
    }

    constructor ()
      ensures serverPort == DefaultPort && !running
      ensures currentJpeg == [] && latestFrameId == 0 && latestCaptureTsMs == 0
      ensures emaFps == 0.0 && originalFrame.IsEmpty()
      ensures StoreConsistent()
    {
      serverPort := DefaultPort;
      running := false;
      currentJpeg := [];
      latestFrameId := 0;
      latestCaptureTsMs := 0;
      emaFps := 0.0;
      originalFrame := Frame([]);
    }

    function IsRunning(): (r: bool)
      reads this
      ensures r <==> running
    {
      running
    }

    /** `start_server(port)`.  `threadCreated` is the outcome of
        `pthread_create`.  A running server is left exactly as it is. */
    method StartServer(port: int, g: ProcessGlobals, threadCreated: bool) returns (rc: int)
      modifies this, g
      ensures old(running) ==> rc == 0 && unchanged(this) && unchanged(g)
      ensures !old(running) ==>
                serverPort == port && latestFrameId == 0 && currentJpeg == []
                && g.instance == this && running == threadCreated
                && rc == (if threadCreated then 0 else -1)
                && latestCaptureTsMs == old(latestCaptureTsMs) && emaFps == old(emaFps)
                && originalFrame == old(originalFrame)
                && g.lastCaptureTsLocal == old(g.lastCaptureTsLocal)
                && g.localFpsEstimate == old(g.localFpsEstimate)
      ensures old(StoreConsistent()) || !old(running) ==> StoreConsistent()
    {
      if running {
        return 0;
      }
      serverPort := port;
      running := true;
      latestFrameId := 0;
      currentJpeg := [];
      g.instance := this;
      if !threadCreated {
        running := false;
        return -1;
      }
      return 0;
    }

    /** `stop_server()`: a server that is not running is left alone. */
    method StopServer(g: ProcessGlobals)
      modifies this, g
      ensures !old(running) ==> unchanged(this) && unchanged(g)
      ensures !running
      ensures old(running) ==>
                g.instance == (if old(g.instance) == this then null else old(g.instance))
      ensures serverPort == old(serverPort) && currentJpeg == old(currentJpeg)
      ensures latestFrameId == old(latestFrameId) && latestCaptureTsMs == old(latestCaptureTsMs)
      ensures emaFps == old(emaFps) && originalFrame == old(originalFrame)
      ensures g.lastCaptureTsLocal == old(g.lastCaptureTsLocal)
      ensures g.localFpsEstimate == old(g.localFpsEstimate)
    {
      if !running {
        return;
      }
      running := false;
      if g.instance == this {
        g.instance := null;
      }
    }

    /** Two `stop_server` calls in a row: the second changes nothing. */
    method StopServerTwice(g: ProcessGlobals)
      modifies this, g
      ensures !running
      ensures old(running) ==>
                g.instance == (if old(g.instance) == this then null else old(g.instance))
      ensures !old(running) ==> unchanged(this) && unchanged(g)
      ensures serverPort == old(serverPort) && currentJpeg == old(currentJpeg)
      ensures latestFrameId == old(latestFrameId) && latestCaptureTsMs == old(latestCaptureTsMs)
      ensures emaFps == old(emaFps) && originalFrame == old(originalFrame)
      ensures g.lastCaptureTsLocal == old(g.lastCaptureTsLocal)
      ensures g.localFpsEstimate == old(g.localFpsEstimate)
    {
      StopServer(g);
      label first:
      StopServer(g);
      assert unchanged@first(this) && unchanged@first(g);
    }

    /** `update_frame(frame)`.  `captureTsMs` is the `now_ms()` reading and
        `encoded` the JPEG encoder's outcome. */
    method UpdateFrame(frame: Frame, captureTsMs: Uint64, encoded: Option<seq<byte>>, g: ProcessGlobals)
      modifies this, g
      ensures frame.IsEmpty() ==> unchanged(this) && unchanged(g)
      ensures !frame.IsEmpty() ==> originalFrame == frame && g.lastCaptureTsLocal == captureTsMs
      ensures !frame.IsEmpty() ==>
                match NextFpsEstimate(old(g.lastCaptureTsLocal), captureTsMs, old(g.localFpsEstimate))
                case None => g.localFpsEstimate == old(g.localFpsEstimate) && emaFps == old(emaFps)
                case Some(e) => g.localFpsEstimate == e && emaFps == e
      ensures !frame.IsEmpty() && encoded.Some? ==>
                currentJpeg == encoded.value && latestFrameId == old(latestFrameId) + 1
                && latestCaptureTsMs == captureTsMs
      ensures encoded.None? ==>
                currentJpeg == old(currentJpeg) && latestFrameId == old(latestFrameId)
                && latestCaptureTsMs == old(latestCaptureTsMs)
      ensures running == old(running) && serverPort == old(serverPort)
      ensures g.instance == old(g.instance)
      ensures old(StoreConsistent()) && (encoded.Some? ==> encoded.value != []) ==> StoreConsistent()
    {
      if frame.IsEmpty() {
        return;
      }
      originalFrame := frame;
      if g.lastCaptureTsLocal != 0 {
        var delta := ElapsedMs(captureTsMs, g.lastCaptureTsLocal);
        if delta > 0 {
          var instantFps := 1000.0 / delta as real;
          if g.localFpsEstimate <= 0.0 {
            g.localFpsEstimate := instantFps;
          } else {
            g.localFpsEstimate := 0.85 * g.localFpsEstimate + 0.15 * instantFps;
          }
          emaFps := g.localFpsEstimate;
        }
      }
      g.lastCaptureTsLocal := captureTsMs;
      if encoded.Some? {
        latestCaptureTsMs := captureTsMs;
        currentJpeg := encoded.value;
        latestFrameId := latestFrameId + 1;
      }
    }

    /** What the stream loop sees when it checks the store right now. */
    function View(sendOk: bool): (v: FrameView)
      reads this
      ensures v.running == running && v.latestFrameId == latestFrameId
      ensures v.currentJpeg == currentJpeg && v.sendOk == sendOk
    {
      FrameView(running, latestFrameId, currentJpeg, sendOk)
    }

    /** A consistent store never sends the loop round without waiting. */
    lemma ConsistentStoreNeverSkips(lastFrameSent: nat)
      requires StoreConsistent() && lastFrameSent == 0
      ensures NextStreamStep(running, latestFrameId, currentJpeg == [], lastFrameSent) != Skip
    {
    }

    /** `handle_client_request(sock)` for one connection.  `received` is what
        `recv` returned (empty when it returned `0` or an error);
        `viewerHtml`, the clock, the fps text, the date, the PNG encoder's
        outcome and the stream loop's views are inputs.  Every answer starts
        with `HTTP/1.1 200 OK`, including the not-found page. */
    method HandleClientRequest(received: string, viewerHtml: string, serverTsMs: Uint64, fpsText: string,
                               tm: Tm, png: Option<seq<byte>>, views: seq<FrameView>)
      returns (reply: Option<string>)
      requires |received| <= 4095
      ensures reply.None? <==> received == []
      ensures reply.Some? ==> StatusLine <= reply.value
      ensures reply.Some? ==>
                var path := ExtractPath(CString(received));
                match RoutePath(path)
                case Viewer => reply.value == SendResponse(HtmlType, viewerHtml)
                case Stream => reply.value == StreamHeader + Parts(Jpegs(StreamRun(views, 0)))
                case Stats =>
                  reply.value == SendResponse(JsonType, StatsJson(latestFrameId, latestCaptureTsMs, serverTsMs, fpsText))
                case Snapshot =>
                  reply.value == SnapshotResponse(SnapshotPrefix(path), originalFrame.IsEmpty(), png, tm)
                case NotFound => reply.value == SendResponse(PlainHtmlType, NotFoundBody)
    {
      if received == [] {
        return None;
      }
      var path := ExtractPath(CString(received));
      match RoutePath(path)
      case Viewer =>
        reply := Some(SendResponse(HtmlType, viewerHtml));
      case Stream =>
        var wire, ids := SendMjpegStream(views);
        StreamStartsWithStatus(Parts(Jpegs(StreamRun(views, 0))));
        reply := Some(wire);
      case Stats =>
        reply := Some(SendResponse(JsonType, StatsJson(latestFrameId, latestCaptureTsMs, serverTsMs, fpsText)));
      case Snapshot =>
        var prefix := ParsePrefixParameter(path);
        reply := Some(SnapshotResponse(prefix, originalFrame.IsEmpty(), png, tm));
      case NotFound =>
        reply := Some(SendResponse(PlainHtmlType, NotFoundBody));
    }
  }

  /** One iteration of the stream loop on view `i`. */
  lemma StreamRunUnfold(views: seq<FrameView>, i: nat, last: nat)
    requires i < |views|
    ensures var v := views[i];
            var run := StreamRun(views[i..], last);
            (!v.running ==> run == [])
            && (v.running && (v.latestFrameId == last || v.currentJpeg == []) ==>
                  run == StreamRun(views[i + 1..], last))
            && (v.running && v.latestFrameId != last && v.currentJpeg != [] ==>
                  run == if v.sendOk then [Delivered(v.latestFrameId, v.currentJpeg)] + StreamRun(views[i + 1..], v.latestFrameId)
                         else [])
  {
    assert views[i..][0] == views[i];
    assert views[i..][1..] == views[i + 1..];
  }

  /** Recording one more delivered part. */
  lemma DeliveredAppend(sent: seq<Delivered>, d: Delivered)
    ensures Jpegs(sent + [d]) == Jpegs(sent) + [d.jpeg]
    ensures Ids(sent + [d]) == Ids(sent) + [d.id]
    ensures Parts(Jpegs(sent + [d])) == Parts(Jpegs(sent)) + MjpegPart(d.jpeg)
  {
    assert Jpegs(sent + [d]) == Jpegs(sent) + [d.jpeg];
    PartsAppend(Jpegs(sent), d.jpeg);
  }

  /** `send_mjpeg_stream`: the header, then one part per new frame, with
      `last_frame_sent` starting at `0`.  The parts are collected and put
      after the header once the loop ends.  Returns what reached the client
      and the ids of the frames sent. */
  method SendMjpegStream(views: seq<FrameView>) returns (wire: string, sentIds: seq<nat>)
    ensures wire == StreamHeader + Parts(Jpegs(StreamRun(views, 0)))
    ensures sentIds == Ids(StreamRun(views, 0))
  {
    var parts := "";
    sentIds := [];
    var lastFrameSent: nat := 0;
    ghost var sent: seq<Delivered> := [];
    var i := 0;
    while i < |views|
      invariant 0 <= i <= |views|
      invariant StreamRun(views, 0) == sent + StreamRun(views[i..], lastFrameSent)
      invariant parts == Parts(Jpegs(sent))
      invariant sentIds == Ids(sent)
    {
      var v := views[i];
      StreamRunUnfold(views, i, lastFrameSent);
      if !v.running {
        assert StreamRun(views, 0) == sent;
        break;
      }
      if v.latestFrameId == lastFrameSent || v.currentJpeg == [] {
        i := i + 1;
        continue;
      }
      assert !v.sendOk ==> StreamRun(views, 0) == sent;
      lastFrameSent := v.latestFrameId;
      if !v.sendOk {
        break;
      }
      DeliveredAppend(sent, Delivered(lastFrameSent, v.currentJpeg));
      parts := parts + MjpegPart(v.currentJpeg);
      sentIds := sentIds + [lastFrameSent];
      sent := sent + [Delivered(lastFrameSent, v.currentJpeg)];
      i := i + 1;
    }
    if i == |views| {
      assert views[i..] == [];
      assert sent + [] == sent;
    }
    assert StreamRun(views, 0) == sent;
    wire := StreamHeader + parts;
  }
}
