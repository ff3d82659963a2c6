/** The byte layouts the camera server writes: the fixed-shape response of
    `send_response`, the multipart header and per-frame part of the MJPEG
    stream, the stats JSON body and the snapshot download.  Each layout has a
    parser beside it, and a round-trip lemma shows the layout can be read back
    unambiguously (in particular that `Content-Length` is the body's length). */
module HttpResponse {
  import opened Text

  /** Every response the server writes starts with this status line. */
  const StatusLine := "HTTP/1.1 200 OK\r\n"
  const ConnectionClose := "Connection: close\r\n\r\n"

  const HtmlType := "text/html; charset=utf-8"
  const PlainHtmlType := "text/html"
  const JsonType := "application/json; charset=utf-8"

  const NotFoundBody := "<h1>404 Not Found</h1>"

  const TypeKey := "Content-Type: "
  const LengthKey := "Content-Length: "
  const CRLF := "\r\n"

  /** `send_response(sock, content_type, body, body_len)`: the status line,
      `Content-Type`, `Content-Length`, `Connection: close` and a blank line,
      then the body. */
  function SendResponse(contentType: string, body: string): (wire: string)
    ensures StatusLine <= wire
    ensures |wire| >= |body| && wire[|wire| - |body|..] == body
  {
    StatusLine + (TypeKey + (contentType + (CRLF
    + (LengthKey + (Decimal(|body|) + (CRLF
    + (ConnectionClose + body)))))))
  }

  /** `s` with the literal `p` removed from its front, if it starts so. */
  function Expect(p: string, s: string): (r: Option<string>)
    ensures r.Some? ==> |r.value| <= |s|
  {
    if p <= s then Some(s[|p|..]) else None
  }

  lemma ExpectFront(p: string, rest: string)
    ensures Expect(p, p + rest) == Some(rest)
  {
    assert p <= p + rest;
    assert (p + rest)[|p|..] == rest;
  }

  /** A line up to the first CRLF, and what follows the CRLF. */
  function TakeLine(s: string): (r: Option<(string, string)>)
    requires |s| < NPOS
    ensures r.Some? ==> |r.value.1| < |s|
  {
    var e := Find(s, CRLF, 0);
    if e == NPOS then None else Some((s[..e], s[e + 2..]))
  }

  lemma TakeLineFront(line: string, rest: string)
    requires '\r' !in line
    requires |line + CRLF + rest| < NPOS
    ensures TakeLine(line + (CRLF + rest)) == Some((line, rest))
  {
    assert line + (CRLF + rest) == line + CRLF + rest;
    FindAfterFree(line, CRLF, rest);
    assert (line + CRLF + rest)[..|line|] == line;
    assert (line + CRLF + rest)[|line| + 2..] == rest;
  }

  datatype Parsed = Parsed(contentType: string, body: string)

  /** Reads a response of the `SendResponse` shape: the content type, and a
      body whose length must equal the announced `Content-Length`. */
  function ParseResponse(wire: string): Option<Parsed>
    requires |wire| < NPOS
  {
    match Expect(StatusLine, wire)
    case None => None
    case Some(r0) =>
      match Expect(TypeKey, r0)
      case None => None
      case Some(r1) =>
        match TakeLine(r1)
        case None => None
        case Some((contentType, r2)) =>
          match Expect(LengthKey, r2)
          case None => None
          case Some(r3) =>
            match TakeLine(r3)
            case None => None
            case Some((digits, r4)) =>
              match Expect(ConnectionClose, r4)
              case None => None
              case Some(body) =>
                if digits == [] || !AllDigits(digits) || |body| != DecimalValue(digits) then None
                else Some(Parsed(contentType, body))
  }

  lemma DigitsHaveNoCr(d: string)
    requires AllDigits(d)
    ensures '\r' !in d
  {
  }

  /** The response `send_response` writes is read back as its content type
      and its body. */
  lemma ResponseRoundTrip(contentType: string, body: string)
    requires '\r' !in contentType
    requires |SendResponse(contentType, body)| < NPOS
    ensures ParseResponse(SendResponse(contentType, body)) == Some(Parsed(contentType, body))
  {
    var digits := Decimal(|body|);
    var r4 := ConnectionClose + body;
    var r3 := digits + (CRLF + r4);
    var r2 := LengthKey + r3;
    var r1 := contentType + (CRLF + r2);
    var r0 := TypeKey + r1;
    ExpectFront(StatusLine, r0);
    ExpectFront(TypeKey, r1);
    TakeLineFront(contentType, r2);
    ExpectFront(LengthKey, r3);
    DigitsHaveNoCr(digits);
    TakeLineFront(digits, r4);
    ExpectFront(ConnectionClose, body);
    DecimalRoundTrip(|body|);
  }

  /** Written once at the start of `/stream`, before the parts. */
  const StreamHeader := StatusLine
    + "Content-Type: multipart/x-mixed-replace; boundary=frame\r\nCache-Control: no-cache\r\nConnection: close\r\n\r\n"

  lemma StreamStartsWithStatus(parts: string)
    ensures StatusLine <= StreamHeader + parts
  {
    assert (StreamHeader + parts)[..|StatusLine|] == StatusLine;
  }

  /** A text that `b` starts with still starts `b + c`. */
  lemma StartsWith(a: string, b: string, c: string)
    requires a <= b
    ensures a <= b + c
  {
    assert (b + c)[..|a|] == b[..|a|];
  }

  /** `p` is the tail of `w`. */
  predicate IsSuffix(p: string, w: string)
  {
    |p| <= |w| && w[|w| - |p|..] == p
  }

  /** A text that `b` ends with still ends `a + b`. */
  lemma EndsWith(a: string, b: string, p: string)
    requires IsSuffix(p, b)
    ensures IsSuffix(p, a + b)
  {
    assert (a + b)[|a + b| - |p|..] == b[|b| - |p|..];
  }

  const PartHead := "--frame\r\nContent-Type: image/jpeg\r\nContent-Length: "

  /** The part header, formatted with `snprintf` into a 256-byte buffer. */
  function PartBoundary(size: nat): (b: string)
    ensures |b| <= 255 && PartHead <= b
  {
    var full := PartHead + (Decimal(size) + (CRLF + CRLF));
    assert full[..|PartHead|] == PartHead;
    Snprintf(full, 256)
  }

  lemma {:induction false} Pow10Add(a: nat, b: nat)
    ensures Pow10(a + b) == Pow10(a) * Pow10(b)
    decreases a
  {
    if a > 0 {
      Pow10Add(a - 1, b);
    }
  }

  /** A `size_t` size never makes the part header overflow its buffer. */
  lemma BoundaryNotTruncated(size: nat)
    requires size < SizeModulus
    ensures PartBoundary(size) == PartHead + (Decimal(size) + (CRLF + CRLF))
  {
    assert Pow10(10) == 10000000000;
    Pow10Add(10, 10);
    DecimalLength(size, 20);
  }

  /** One multipart part of the MJPEG stream: the header, the JPEG bytes and
      a trailing CRLF. */
  function MjpegPart(jpeg: seq<byte>): (part: string)
    ensures PartHead <= part
    ensures IsSuffix(OctetsToText(jpeg) + CRLF, part)
  {
    var head := PartBoundary(|jpeg|);
    var tail := OctetsToText(jpeg) + CRLF;
    StartsWith(PartHead, head, tail);
    EndsWith(head, tail, tail);
    head + tail
  }

  /** Reads one part from the front of `s`: its payload (exactly as many
      bytes as announced) and what follows it. */
  function ParsePart(s: string): (r: Option<(string, string)>)
    requires |s| < NPOS
    ensures r.Some? ==> |r.value.1| < |s|
  {
    match Expect(PartHead, s)
    case None => None
    case Some(r1) =>
      match TakeLine(r1)
      case None => None
      case Some((digits, r2)) =>
        match Expect(CRLF, r2)
        case None => None
        case Some(r3) =>
          if digits == [] || !AllDigits(digits) || |r3| < DecimalValue(digits) then None
          else
            var n := DecimalValue(digits);
            match Expect(CRLF, r3[n..])
            case None => None
            case Some(rest) => Some((r3[..n], rest))
  }

  lemma PartRoundTrip(jpeg: seq<byte>, rest: string)
    requires |jpeg| < SizeModulus
    requires |MjpegPart(jpeg) + rest| < NPOS
    ensures ParsePart(MjpegPart(jpeg) + rest) == Some((OctetsToText(jpeg), rest))
  {
    BoundaryNotTruncated(|jpeg|);
    var digits := Decimal(|jpeg|);
    var payload := OctetsToText(jpeg);
    var r3 := payload + (CRLF + rest);
    var r2 := CRLF + r3;
    var r1 := digits + (CRLF + r2);
    assert MjpegPart(jpeg) + rest == PartHead + r1;
    ExpectFront(PartHead, r1);
    DigitsHaveNoCr(digits);
    TakeLineFront(digits, r2);
    ExpectFront(CRLF, r3);
    DecimalRoundTrip(|jpeg|);
    assert r3[..|payload|] == payload;
    assert r3[|payload|..] == CRLF + rest;
    ExpectFront(CRLF, rest);
  }

  /** The parts for a sequence of JPEG buffers, back to back. */
  function Parts(jpegs: seq<seq<byte>>): string
  {
    if jpegs == [] then "" else MjpegPart(jpegs[0]) + Parts(jpegs[1..])
  }

  /** Sending one more part extends the stream body by that part. */
  lemma {:induction false} PartsAppend(jpegs: seq<seq<byte>>, jpeg: seq<byte>)
    ensures Parts(jpegs + [jpeg]) == Parts(jpegs) + MjpegPart(jpeg)
    decreases |jpegs|
  {
    if jpegs == [] {
      assert [] + [jpeg] == [jpeg];
    } else {
      assert (jpegs + [jpeg])[1..] == jpegs[1..] + [jpeg];
      PartsAppend(jpegs[1..], jpeg);
    }
  }

  /** Reads parts until the input is used up. */
  function ParseParts(s: string): Option<seq<string>>
    requires |s| < NPOS
    decreases |s|
  {
    if s == [] then Some([])
    else
      match ParsePart(s)
      case None => None
      case Some((payload, rest)) =>
        match ParseParts(rest)
        case None => None
        case Some(more) => Some([payload] + more)
  }

  function Payloads(jpegs: seq<seq<byte>>): (r: seq<string>)
    ensures |r| == |jpegs|
    ensures forall i :: 0 <= i < |jpegs| ==> r[i] == OctetsToText(jpegs[i])
  {
    if jpegs == [] then [] else [OctetsToText(jpegs[0])] + Payloads(jpegs[1..])
  }

  /** A client can split the stream body back into exactly the JPEG buffers
      that were sent, in order. */
  lemma {:induction false} PartsRoundTrip(jpegs: seq<seq<byte>>)
    requires forall i :: 0 <= i < |jpegs| ==> |jpegs[i]| < SizeModulus
    requires |Parts(jpegs)| < NPOS
    ensures ParseParts(Parts(jpegs)) == Some(Payloads(jpegs))
    decreases |jpegs|
  {
    if jpegs != [] {
      var rest := Parts(jpegs[1..]);
      assert Parts(jpegs) == MjpegPart(jpegs[0]) + rest;
      assert |MjpegPart(jpegs[0])| > 0 by { BoundaryNotTruncated(|jpegs[0]|); }
      PartRoundTrip(jpegs[0], rest);
      PartsRoundTrip(jpegs[1..]);
    }
  }

  const FrameIdKey := "{\"latestFrameId\":"
  const CaptureKey := ",\"latestCaptureTsMs\":"
  const ServerKey := ",\"serverTsMs\":"
  const FpsKey := ",\"estimatedFps\":"

  /** The body of `/stats`; the fps value is already formatted with two
      decimals (floating-point formatting is not part of this model).  The
      three integer fields are streamed in decimal. */
  function StatsJson(frameId: nat, captureTsMs: nat, serverTsMs: nat, fpsText: string): (json: string)
    ensures FrameIdKey <= json && json[|json| - 1] == '}'
  {
    FrameIdKey + (Decimal(frameId) + (CaptureKey + (Decimal(captureTsMs)
    + (ServerKey + (Decimal(serverTsMs) + (FpsKey + (fpsText + "}")))))))
  }

  /** After the literal `key`, the digits up to the next `,` as a number,
      and the text from that `,` on. */
  function ReadNumber(key: string, s: string): (r: Option<(nat, string)>)
    requires |s| < NPOS
    ensures r.Some? ==> |r.value.1| <= |s|
  {
    match Expect(key, s)
    case None => None
    case Some(r1) =>
      var e := Find(r1, ",", 0);
      if e == NPOS || !AllDigits(r1[..e]) then None
      else Some((DecimalValue(r1[..e]), r1[e..]))
  }

  /** A client's reading of the `/stats` body: the three integer fields and
      the fps text before the closing brace. */
  function ParseStats(json: string): Option<(nat, nat, nat, string)>
    requires |json| < NPOS
  {
    match ReadNumber(FrameIdKey, json)
    case None => None
    case Some((frameId, r1)) =>
      match ReadNumber(CaptureKey, r1)
      case None => None
      case Some((captureTsMs, r2)) =>
        match ReadNumber(ServerKey, r2)
        case None => None
        case Some((serverTsMs, r3)) =>
          match Expect(FpsKey, r3)
          case None => None
          case Some(r4) =>
            if r4 == [] || r4[|r4| - 1] != '}' then None
            else Some((frameId, captureTsMs, serverTsMs, r4[..|r4| - 1]))
  }

  /** A decimal field followed by a text that starts with `,` is read back
      as its value, leaving that text. */
  lemma ReadNumberFront(key: string, n: nat, rest: string)
    requires rest != [] && rest[0] == ','
    requires |key + (Decimal(n) + rest)| < NPOS
    ensures ReadNumber(key, key + (Decimal(n) + rest)) == Some((n, rest))
  {
    var d := Decimal(n);
    ExpectFront(key, d + rest);
    assert rest == "," + rest[1..];
    assert d + rest == d + "," + rest[1..];
    FindAfterFree(d, ",", rest[1..]);
    assert (d + rest)[..|d|] == d;
    assert (d + rest)[|d|..] == rest;
    DecimalRoundTrip(n);
  }

  /** A client reading the `/stats` body recovers the frame id, both
      timestamps and the fps text. */
  lemma StatsRoundTrip(frameId: nat, captureTsMs: nat, serverTsMs: nat, fpsText: string)
    requires |StatsJson(frameId, captureTsMs, serverTsMs, fpsText)| < NPOS
    ensures ParseStats(StatsJson(frameId, captureTsMs, serverTsMs, fpsText))
            == Some((frameId, captureTsMs, serverTsMs, fpsText))
  {
    var r4 := fpsText + "}";
    var r3 := FpsKey + r4;
    var r2 := ServerKey + (Decimal(serverTsMs) + r3);
    var r1 := CaptureKey + (Decimal(captureTsMs) + r2);
    ReadNumberFront(FrameIdKey, frameId, r1);
    ReadNumberFront(CaptureKey, captureTsMs, r2);
    ReadNumberFront(ServerKey, serverTsMs, r3);
    ExpectFront(FpsKey, r4);
    assert r4[..|r4| - 1] == fpsText;
  }

  /** A client reading the digits after `"latestFrameId":` up to the next `,`
      recovers the frame id. */
  lemma StatsFrameIdReadBack(frameId: nat, captureTsMs: nat, serverTsMs: nat, fpsText: string)
    requires |StatsJson(frameId, captureTsMs, serverTsMs, fpsText)| < NPOS
    ensures var json := StatsJson(frameId, captureTsMs, serverTsMs, fpsText);
            FrameIdKey <= json &&
            var tail := json[|FrameIdKey|..];
            var e := Find(tail, ",", 0);
            e != NPOS && AllDigits(tail[..e]) && DecimalValue(tail[..e]) == frameId
  {
    var json := StatsJson(frameId, captureTsMs, serverTsMs, fpsText);
    var rest := CaptureKey + (Decimal(captureTsMs) + (ServerKey + (Decimal(serverTsMs) + (FpsKey + (fpsText + "}")))));
    ReadNumberFront(FrameIdKey, frameId, rest);
    ExpectFront(FrameIdKey, Decimal(frameId) + rest);
  }

  /** The fields of `struct tm` the filename uses: `year` counts from 1900
      and `mon` from 0, as `localtime_r` fills them. */
  datatype Tm = Tm(year: nat, mon: nat, mday: nat, hour: nat, min: nat, sec: nat)

  /** The text `"%s_%04d%02d%02d_%02d%02d%02d.png"` formats, before the
      buffer limit applies. */
  function FilenameText(prefix: string, tm: Tm): (name: string)
    ensures prefix + "_" <= name && |name| >= |prefix| + 20
    ensures IsSuffix(".png", name)
  {
    var sec := ZeroPad(tm.sec, 2) + ".png";
    var clock := ZeroPad(tm.hour, 2) + (ZeroPad(tm.min, 2) + sec);
    var date := ZeroPad(tm.year + 1900, 4) + (ZeroPad(tm.mon + 1, 2) + (ZeroPad(tm.mday, 2) + ("_" + clock)));
    EndsWith(ZeroPad(tm.sec, 2), ".png", ".png");
    EndsWith(ZeroPad(tm.min, 2), sec, ".png");
    EndsWith(ZeroPad(tm.hour, 2), ZeroPad(tm.min, 2) + sec, ".png");
    EndsWith("_", clock, ".png");
    EndsWith(ZeroPad(tm.mday, 2), "_" + clock, ".png");
    EndsWith(ZeroPad(tm.mon + 1, 2), ZeroPad(tm.mday, 2) + ("_" + clock), ".png");
    EndsWith(ZeroPad(tm.year + 1900, 4), ZeroPad(tm.mon + 1, 2) + (ZeroPad(tm.mday, 2) + ("_" + clock)), ".png");
    EndsWith("_", date, ".png");
    EndsWith(prefix, "_" + date, ".png");
    assert (prefix + ("_" + date))[..|prefix| + 1] == prefix + "_";
    prefix + ("_" + date)
  }

  /** The download filename: `FilenameText` printed with `snprintf` into a
      256-byte buffer, so it keeps at most 255 characters.  A sanitised
      prefix leaves only name characters and `.` in it. */
  function SnapshotFilename(prefix: string, tm: Tm): (name: string)
    ensures |name| <= 255
    ensures name <= FilenameText(prefix, tm)
    ensures AllNameChars(prefix) ==>
              forall i :: 0 <= i < |name| ==> IsNameChar(name[i]) || name[i] == '.'
  {
    var full := FilenameText(prefix, tm);
    FilenameTextChars(prefix, tm);
    Snprintf(full, 256)
  }

  predicate FilenameChars(s: string)
  {
    forall i :: 0 <= i < |s| ==> IsNameChar(s[i]) || s[i] == '.'
  }

  lemma FilenameCharsConcat(a: string, b: string)
    requires FilenameChars(a) && FilenameChars(b)
    ensures FilenameChars(a + b)
  {
    forall i | 0 <= i < |a + b| ensures IsNameChar((a + b)[i]) || (a + b)[i] == '.' {
      if i < |a| { assert (a + b)[i] == a[i]; } else { assert (a + b)[i] == b[i - |a|]; }
    }
  }

  lemma FilenameTextChars(prefix: string, tm: Tm)
    ensures AllNameChars(prefix) ==> FilenameChars(FilenameText(prefix, tm))
  {
    if !AllNameChars(prefix) {
      return;
    }
    var ext := ".png";
    assert FilenameChars(ext) by {
      forall i | 0 <= i < 4 ensures IsNameChar(ext[i]) || ext[i] == '.' {
        assert i == 0 || i == 1 || i == 2 || i == 3;
      }
    }
    assert FilenameChars("_") by {
      assert "_"[0] == '_';
    }
    var sec := ZeroPad(tm.sec, 2);
    var min := ZeroPad(tm.min, 2);
    var hour := ZeroPad(tm.hour, 2);
    var mday := ZeroPad(tm.mday, 2);
    var mon := ZeroPad(tm.mon + 1, 2);
    var year := ZeroPad(tm.year + 1900, 4);
    FilenameCharsConcat(sec, ext);
    FilenameCharsConcat(min, sec + ext);
    FilenameCharsConcat(hour, min + (sec + ext));
    FilenameCharsConcat("_", hour + (min + (sec + ext)));
    FilenameCharsConcat(mday, "_" + (hour + (min + (sec + ext))));
    FilenameCharsConcat(mon, mday + ("_" + (hour + (min + (sec + ext)))));
    FilenameCharsConcat(year, mon + (mday + ("_" + (hour + (min + (sec + ext))))));
    FilenameCharsConcat("_", year + (mon + (mday + ("_" + (hour + (min + (sec + ext)))))));
    FilenameCharsConcat(prefix, "_" + (year + (mon + (mday + ("_" + (hour + (min + (sec + ext))))))));
  }

  /** A prefix short enough for the buffer keeps the whole date and the
      `.png` extension. */
  lemma FilenameNotTruncated(prefix: string, tm: Tm)
    requires |prefix| + 20 <= 255
    requires tm.year + 1900 < 10000 && tm.mon + 1 < 100 && tm.mday < 100
    requires tm.hour < 100 && tm.min < 100 && tm.sec < 100
    ensures SnapshotFilename(prefix, tm) == FilenameText(prefix, tm)
    ensures |SnapshotFilename(prefix, tm)| == |prefix| + 20
  {
    assert Pow10(2) == 100 && Pow10(4) == 10000;
    DecimalLength(tm.year + 1900, 4);
    DecimalLength(tm.mon + 1, 2);
    DecimalLength(tm.mday, 2);
    DecimalLength(tm.hour, 2);
    DecimalLength(tm.min, 2);
    DecimalLength(tm.sec, 2);
    assert |ZeroPad(tm.year + 1900, 4)| == 4 && |ZeroPad(tm.mon + 1, 2)| == 2;
    assert |ZeroPad(tm.mday, 2)| == 2 && |ZeroPad(tm.hour, 2)| == 2;
    assert |ZeroPad(tm.min, 2)| == 2 && |ZeroPad(tm.sec, 2)| == 2;
    assert |".png"| == 4 && |"_"| == 1;
    assert |FilenameText(prefix, tm)| == |prefix| + 20;
  }

  const DispositionKey := "Content-Disposition: attachment; filename=\""
  const ImageHead := StatusLine + "Content-Type: image/png\r\n" + LengthKey
  const CacheTail := "Cache-Control: no-cache\r\n" + ConnectionClose

  /** The PNG download: status line, `Content-Type: image/png`, the length,
      the filename in `Content-Disposition`, `Cache-Control`, then the PNG. */
  function SnapshotImageResponse(prefix: string, png: seq<byte>, tm: Tm): (wire: string)
    ensures StatusLine <= wire
    ensures IsSuffix(OctetsToText(png), wire)
  {
    var body := OctetsToText(png);
    var r4 := CacheTail + body;
    var r3 := (SnapshotFilename(prefix, tm) + "\"") + (CRLF + r4);
    var r1 := Decimal(|png|) + (CRLF + (DispositionKey + r3));
    NestedTail(ImageHead, Decimal(|png|), CRLF, DispositionKey, SnapshotFilename(prefix, tm) + "\"", CacheTail, body);
    StartsWith(StatusLine, StatusLine + "Content-Type: image/png\r\n", LengthKey);
    StartsWith(StatusLine, ImageHead, r1);
    ImageHead + r1
  }

  /** The last piece of the response's nested concatenation is its tail. */
  lemma NestedTail(a: string, b: string, c: string, d: string, e: string, f: string, p: string)
    ensures IsSuffix(p, a + (b + (c + (d + (e + (c + (f + p)))))))
  {
    EndsWith(f, p, p);
    EndsWith(c, f + p, p);
    EndsWith(e, c + (f + p), p);
    EndsWith(d, e + (c + (f + p)), p);
    EndsWith(c, d + (e + (c + (f + p))), p);
    EndsWith(b, c + (d + (e + (c + (f + p)))), p);
    EndsWith(a, b + (c + (d + (e + (c + (f + p))))), p);
  }

  /** UTF-8 octets of the two error messages. */
  const NoFrameText: seq<byte> :=
    [230, 178, 161, 230, 156, 137, 229, 143, 175, 231, 148, 168, 231, 154, 132, 229, 155, 190, 229, 131, 143, 229, 184, 167]
  const EncodeFailedText: seq<byte> :=
    [229, 155, 190, 229, 131, 143, 231, 188, 150, 231, 160, 129, 229, 164, 177, 232, 180, 165]

  const NoFrameHtml := "<h1>Error</h1><p>" + OctetsToText(NoFrameText) + "</p>"
  const EncodeFailedHtml := "<h1>Error</h1><p>" + OctetsToText(EncodeFailedText) + "</p>"

  /** `handle_snapshot_request`: whether the copied raw frame is empty and
      the PNG encoder's outcome are inputs.  Both failure paths still answer
      with status 200 and an HTML body. */
  function SnapshotResponse(prefix: string, frameEmpty: bool, png: Option<seq<byte>>, tm: Tm): (wire: string)
    ensures StatusLine <= wire
    ensures frameEmpty ==> wire == SendResponse(HtmlType, NoFrameHtml)
    ensures !frameEmpty && png.None? ==> wire == SendResponse(HtmlType, EncodeFailedHtml)
    ensures !frameEmpty && png.Some? ==> wire == SnapshotImageResponse(prefix, png.value, tm)
  {
    if frameEmpty then SendResponse(HtmlType, NoFrameHtml)
    else if png.None? then SendResponse(HtmlType, EncodeFailedHtml)
    else SnapshotImageResponse(prefix, png.value, tm)
  }

  /** The PNG download is read back as its filename and its image bytes: the
      filename closes the quoted string and the header line exactly where the
      server put them. */
  function ParseSnapshotImage(wire: string): Option<(string, string)>
    requires |wire| < NPOS
  {
    match Expect(ImageHead, wire)
    case None => None
    case Some(r1) =>
      match TakeLine(r1)
      case None => None
      case Some((digits, r2)) =>
        match Expect(DispositionKey, r2)
        case None => None
        case Some(r3) =>
          match TakeLine(r3)
          case None => None
          case Some((quoted, r4)) =>
            match Expect(CacheTail, r4)
            case None => None
            case Some(body) =>
              if digits == [] || !AllDigits(digits) || |body| != DecimalValue(digits)
                 || quoted == [] || quoted[|quoted| - 1] != '"' || '"' in quoted[..|quoted| - 1]
              then None
              else Some((quoted[..|quoted| - 1], body))
  }

  /** With a sanitised prefix, a client sees exactly the filename and the
      image the server meant: the prefix cannot inject a quote or a line
      break into the header. */
  lemma SnapshotImageRoundTrip(prefix: string, png: seq<byte>, tm: Tm)
    requires AllNameChars(prefix)
    requires |SnapshotImageResponse(prefix, png, tm)| < NPOS
    ensures ParseSnapshotImage(SnapshotImageResponse(prefix, png, tm))
            == Some((SnapshotFilename(prefix, tm), OctetsToText(png)))
  {
    var name := SnapshotFilename(prefix, tm);
    FilenameCannotBreakHeader(prefix, tm);
    var body := OctetsToText(png);
    var r4 := CacheTail + body;
    var quoted := name + "\"";
    var r3 := quoted + (CRLF + r4);
    var r2 := DispositionKey + r3;
    var digits := Decimal(|png|);
    var r1 := digits + (CRLF + r2);
    ExpectFront(ImageHead, r1);
    DigitsHaveNoCr(digits);
    TakeLineFront(digits, r2);
    ExpectFront(DispositionKey, r3);
    ClosingQuote(name);
    TakeLineFront(quoted, r4);
    ExpectFront(CacheTail, body);
    DecimalRoundTrip(|png|);
  }

  /** A name without quotes or carriage returns, closed by a quote. */
  lemma ClosingQuote(name: string)
    requires '"' !in name && '\r' !in name
    ensures var quoted := name + "\"";
            '\r' !in quoted && quoted[..|quoted| - 1] == name && quoted[|quoted| - 1] == '"'
  {
    var quoted := name + "\"";
    assert quoted[..|quoted| - 1] == name;
    assert "\"" == ['"'];
  }

  lemma FilenameCannotBreakHeader(prefix: string, tm: Tm)
    requires AllNameChars(prefix)
    ensures var name := SnapshotFilename(prefix, tm);
            '"' !in name && '\r' !in name && '\n' !in name
  {
    var name := SnapshotFilename(prefix, tm);
    forall i | 0 <= i < |name| ensures name[i] != '"' && name[i] != '\r' && name[i] != '\n' {
      assert IsNameChar(name[i]) || name[i] == '.';
    }
  }
}
