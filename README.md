# Camera stream server and IPS200 framebuffer display

This project models two parts of an embedded vision library for the LS2K0300 board:

- **`CameraStreamServer`, an MJPEG camera server.** The model keeps its request handling and its frame store:
  - how a path is taken from the request line;
  - first-match routing to the viewer page, the MJPEG stream, the JSON statistics, a PNG snapshot or the not-found page;
  - the `prefix` query parameter of a snapshot, with its `%20` decoding and its sanitisation;
  - the bytes of every response header and of every MJPEG part;
  - `update_frame`, `start_server`, `stop_server` and `is_running` as state changes of one object;
  - the per-client stream loop over `last_frame_sent`;
  - how `get_local_ip` chooses an address from the interface list.
- **`DisplayIps200`, a driver for a 240x320 RGB565 panel behind a Linux framebuffer.** The model keeps its drawing routines. Each one writes through `drawPoint` into the mapped buffer, modelled as a Dafny `array`:
  - `full` and `clear`;
  - `showChar` and `showString`, drawn from the 8x16 font;
  - `showGrayImage`, with its gray-to-RGB565 packing, and `showRgbImage`;
  - the digit truncation step of `showInt` and `showUint`.

## Modules

- `Text`: the `std::string` operations the server uses.
  - `find` returns `npos = 2^64-1` when nothing is found.
  - `substr` clamps its length.
  - `snprintf` truncates to the buffer size.
  - Also here: C strings ended by a NUL, decimal and zero-padded numbers, and the character classes.
- `RequestRouter`: path extraction, routing and the snapshot prefix.
- `HttpResponse`: the response layouts, each with a parser that reads it back:
  - `send_response`;
  - the stream header and the MJPEG parts;
  - the statistics JSON;
  - the snapshot filename and the snapshot headers.
- `FrameStore`: the `CameraStreamServer` class and the stream loop.
  - The process-wide statics live in `ProcessGlobals`: the signal handler's `instance` and the two function-local statics of `update_frame`.
- `LocalIp`: interface selection.
  - It is defined by "first best entry" and "first fallback entry".
  - The scanning loop is proved equal to it.
- `Rgb565`: the palette, channel packing and the gray conversion, on `bv16`.
- `Raster`: drawing one rectangle, for any pixel type.
  - `Rect(before, a, src)` is the buffer after every point of area `a` has taken its picture pixel.
  - `Painted` is the buffer after the first `p` points, visited row by row or column by column.
  - Every drawing loop keeps `screen == Painted(...)` as its invariant and ends at `Rect`.
- `Ips200`: the display class, the font expansion and the text screens.

Every response is sent with status `200 OK`, the not-found page included (`ww_camera_server.cpp:354`, `:560-561`). The model follows the code there.

## Model

| member | source | states |
|---|---|---|
| Text.Find | cross_lib/wuwu/ww_camera_server.cpp:512-513 | `find` returns `npos` or an index at or after the start where the pattern occurs |
| Text.FindFirst | cross_lib/wuwu/ww_camera_server.cpp:512-513 | `npos` means no occurrence at or after the start; otherwise no occurrence lies before the index returned |
| Text.FindAtStart | cross_lib/wuwu/ww_camera_server.cpp:516-524 | `s.find(p) == 0` holds exactly when `p` is a prefix of `s` |
| Text.Substr | cross_lib/wuwu/ww_camera_server.cpp:514 | `substr(pos, n)` is the slice from `pos` of length `n` clamped to the end of the string |
| Text.CString | cross_lib/wuwu/ww_camera_server.cpp:508-511 | the string built from a buffer is its longest NUL-free prefix, stopping at the first NUL |
| Text.Decimal | cross_lib/wuwu/ww_camera_server.cpp:356 | a number streamed in decimal is a non-empty run of digits with no leading zero |
| Text.DecimalRoundTrip | cross_lib/wuwu/ww_camera_server.cpp:356 | reading the digits back gives the number |
| Text.DecimalLength | cross_lib/wuwu/ww_camera_server.cpp:473-476 | a number below `10^k` has at most `k` digits |
| Text.ZeroPad | cross_lib/wuwu/ww_camera_server.cpp:473-476 | `%0Nd` gives at least `N` digits, exactly `N` when the number fits, and reads back as the number |
| Text.LeadingZeros | cross_lib/wuwu/ww_camera_server.cpp:473-476 | zeros put in front of digits do not change the value they read as |
| Text.Snprintf | cross_lib/wuwu/ww_camera_server.cpp:472-473 | `snprintf` into a buffer of `size` keeps a prefix of at most `size - 1` characters |
| Text.OctetsToText | cross_lib/wuwu/ww_camera_server.cpp:432 | payload bytes are sent as the same octets, in order |
| RequestRouter.IndexOf | cross_lib/wuwu/ww_camera_server.cpp:512-513 | the first position of a character, or the length when it is absent |
| RequestRouter.FindChar | cross_lib/wuwu/ww_camera_server.cpp:512-513 | `find` of a one-character pattern is the first position of that character from the start, or `npos` |
| RequestRouter.PathStart | cross_lib/wuwu/ww_camera_server.cpp:512 | `find(" ") + 1` in `size_t` is a position in the request; `npos + 1` wraps to 0 |
| RequestRouter.ExtractPathIsSecondWord | cross_lib/wuwu/ww_camera_server.cpp:511-514 | the path is the text after the first space up to the next space or the end; without a space it is the whole request |
| RequestRouter.ExtractPath | cross_lib/wuwu/ww_camera_server.cpp:511-514 | the path is the text from `find(" ") + 1` up to the next space or the end, so it holds no space |
| RequestRouter.PathWithoutSpace | cross_lib/wuwu/ww_camera_server.cpp:511-514 | a request without a space is its own path |
| RequestRouter.PathAfterSpace | cross_lib/wuwu/ww_camera_server.cpp:511-514 | with a space at `k`, the path is the text after `k` up to the next space |
| RequestRouter.RouteFirstMatch | cross_lib/wuwu/ww_camera_server.cpp:516-562 | each of the five routes is taken exactly when its test holds and no earlier test does: `/`, `/viewer…` or `/?…`, then `/stream`, `/stats` and `/snapshot` prefixes, else not found |
| RequestRouter.RoutePath | cross_lib/wuwu/ww_camera_server.cpp:516-562 | the viewer is served exactly for `/`, `/viewer…` and `/?…`, and a path is not found exactly when none of the five tests holds |
| RequestRouter.QueryAbsent | cross_lib/wuwu/ww_camera_server.cpp:527-528 | there is no parameter value exactly when `?prefix=` does not occur in the path |
| RequestRouter.QueryValue | cross_lib/wuwu/ww_camera_server.cpp:527-534 | a value found holds no `&` and is no longer than the path |
| RequestRouter.QueryValueCut | cross_lib/wuwu/ww_camera_server.cpp:527-534 | the value runs from just after the first `?prefix=` to the first `&` after it, or to the end of the path, and holds no `&` |
| RequestRouter.QueryValueFound | cross_lib/wuwu/ww_camera_server.cpp:529-534 | the value is `substr(start, end - start)`, with the end at the `&` found or at the length of the path |
| RequestRouter.EncodedSpaceIsOccurrence | cross_lib/wuwu/ww_camera_server.cpp:538 | an encoded space at `k` is an occurrence of `%20` at `k` |
| RequestRouter.DecodeNothing | cross_lib/wuwu/ww_camera_server.cpp:537-541 | a value without `%20` is left as it is |
| RequestRouter.DecodeSpaces | cross_lib/wuwu/ww_camera_server.cpp:537-541 | decoding never lengthens the value |
| RequestRouter.DecodeUpTo | cross_lib/wuwu/ww_camera_server.cpp:537-541 | decoding copies up to the first `%20`, puts one space and carries on after the three characters |
| RequestRouter.DecodeHead | cross_lib/wuwu/ww_camera_server.cpp:537-541 | decoding a non-empty value gives a non-empty one, whose first character is a space for a leading `%20` and is kept otherwise |
| RequestRouter.DecodeLeavesNoEncodedSpace | cross_lib/wuwu/ww_camera_server.cpp:537-541 | after decoding no `%20` is left, including one formed across a replacement |
| RequestRouter.EncodedSpaceDecodesToSpace | cross_lib/wuwu/ww_camera_server.cpp:537-541 | a value that holds `%20` decodes to one that holds a space |
| RequestRouter.DecodeExit | cross_lib/wuwu/ww_camera_server.cpp:538 | when `find("%20", pos)` fails, what is left after `pos` is already decoded |
| RequestRouter.DecodeReplace | cross_lib/wuwu/ww_camera_server.cpp:538-540 | one `replace(pos, 3, " ")` followed by `pos += 1` keeps the decoding of the whole value unchanged |
| RequestRouter.DecodeSpacesInPlace | cross_lib/wuwu/ww_camera_server.cpp:537-541 | the replacement loop computes the decoding of the value |
| RequestRouter.IsValidPrefix | cross_lib/wuwu/ww_camera_server.cpp:544-550 | the check loop answers true exactly when every character is a letter, a digit, `_` or `-` |
| RequestRouter.SnapshotPrefix | cross_lib/wuwu/ww_camera_server.cpp:526-554 | the prefix is never empty and holds only letters, digits, `_` and `-` |
| RequestRouter.ParsePrefixParameter | cross_lib/wuwu/ww_camera_server.cpp:526-554 | the extraction, decoding loop and check compute the snapshot prefix |
| RequestRouter.PrefixDefaultWhenAbsent | cross_lib/wuwu/ww_camera_server.cpp:526-528 | without `?prefix=` the prefix is `snapshot` |
| RequestRouter.PrefixPassesThrough | cross_lib/wuwu/ww_camera_server.cpp:534-553 | a non-empty value made of name characters is the prefix unchanged |
| RequestRouter.PrefixInvalidFallsBack | cross_lib/wuwu/ww_camera_server.cpp:551-553 | a decoded value that is empty or holds another character gives `snapshot` |
| RequestRouter.EncodedSpaceForcesDefault | cross_lib/wuwu/ww_camera_server.cpp:537-553 | any `%20` in the value forces `snapshot` |
| HttpResponse.SendResponse | cross_lib/wuwu/ww_camera_server.cpp:351-361 | the message starts with `HTTP/1.1 200 OK` and ends with the body |
| HttpResponse.ResponseRoundTrip | cross_lib/wuwu/ww_camera_server.cpp:351-361 | parsing the status line, the `Content-Type`, `Content-Length` and `Connection: close` lines and the blank line gives back the content type and the body, with the length equal to the body's |
| HttpResponse.ExpectFront | cross_lib/wuwu/ww_camera_server.cpp:353-357 | a fixed header text is read off the front of what follows it |
| HttpResponse.TakeLineFront | cross_lib/wuwu/ww_camera_server.cpp:355-356 | a header value without a carriage return is read up to its CRLF |
| HttpResponse.DigitsHaveNoCr | cross_lib/wuwu/ww_camera_server.cpp:356 | a decimal length cannot end its header line early |
| HttpResponse.StreamStartsWithStatus | cross_lib/wuwu/ww_camera_server.cpp:395-400 | the stream's header also starts with `HTTP/1.1 200 OK` |
| HttpResponse.PartBoundary | cross_lib/wuwu/ww_camera_server.cpp:426-429 | the 256-byte part header keeps at most 255 characters and always starts with the boundary line, the `Content-Type` line and `Content-Length: ` |
| HttpResponse.MjpegPart | cross_lib/wuwu/ww_camera_server.cpp:426-433 | a part starts with that header text and ends with the JPEG bytes followed by CRLF |
| HttpResponse.BoundaryNotTruncated | cross_lib/wuwu/ww_camera_server.cpp:426-429 | for every `size_t` size the 256-byte `snprintf` keeps the boundary, the `Content-Type` line, the `Content-Length` line and the blank line whole |
| HttpResponse.PartRoundTrip | cross_lib/wuwu/ww_camera_server.cpp:426-433 | a client reading one part recovers the JPEG bytes and the rest of the stream |
| HttpResponse.PartsAppend | cross_lib/wuwu/ww_camera_server.cpp:404-434 | sending one more part appends exactly its bytes |
| HttpResponse.Payloads | cross_lib/wuwu/ww_camera_server.cpp:432 | the payload texts are the JPEGs' octets, one per part |
| HttpResponse.PartsRoundTrip | cross_lib/wuwu/ww_camera_server.cpp:404-434 | a client splitting the stream into parts recovers every JPEG in order |
| HttpResponse.StatsJson | cross_lib/wuwu/ww_camera_server.cpp:379-383 | the `/stats` body opens with `{"latestFrameId":` and closes with `}` |
| HttpResponse.ReadNumber | cross_lib/wuwu/ww_camera_server.cpp:379-383 | a client's read of one integer field never yields a longer rest than its input |
| HttpResponse.ReadNumberFront | cross_lib/wuwu/ww_camera_server.cpp:379-383 | a key, a decimal number and a text starting with `,` read back as that number and that text |
| HttpResponse.StatsRoundTrip | cross_lib/wuwu/ww_camera_server.cpp:379-383 | a client parsing the `/stats` body recovers the frame id, the capture time, the server time and the fps text |
| HttpResponse.StatsFrameIdReadBack | cross_lib/wuwu/ww_camera_server.cpp:378-385 | the digits after `"latestFrameId":` up to the next comma read back as the frame id |
| HttpResponse.SnapshotFilename | cross_lib/wuwu/ww_camera_server.cpp:472-476 | the filename is a prefix of `<prefix>_YYYYMMDD_HHMMSS.png` of at most 255 characters; a sanitised prefix leaves only name characters and `.` |
| HttpResponse.FilenameTextChars | cross_lib/wuwu/ww_camera_server.cpp:473-476 | with a sanitised prefix the untruncated filename holds only name characters and `.` |
| HttpResponse.FilenameText | cross_lib/wuwu/ww_camera_server.cpp:473-476 | the untruncated name starts with `<prefix>_`, is at least 20 characters longer than the prefix and ends in `.png` |
| HttpResponse.FilenameNotTruncated | cross_lib/wuwu/ww_camera_server.cpp:472-476 | with a prefix of at most 235 characters and date fields of their usual widths, the name is kept whole and is 20 characters longer than the prefix |
| HttpResponse.SnapshotResponse | cross_lib/wuwu/ww_camera_server.cpp:443-493 | an empty frame gives the "no frame" page, a failed PNG encode the "encode failed" page, otherwise the image message; each starts with `HTTP/1.1 200 OK` |
| HttpResponse.SnapshotImageRoundTrip | cross_lib/wuwu/ww_camera_server.cpp:479-489 | a client parsing the image message recovers the filename and the PNG bytes |
| HttpResponse.SnapshotImageResponse | cross_lib/wuwu/ww_camera_server.cpp:479-489 | the PNG download starts with `HTTP/1.1 200 OK` and ends with the PNG bytes |
| HttpResponse.ClosingQuote | cross_lib/wuwu/ww_camera_server.cpp:483 | a quoted name without quotes or carriage returns reads back up to its closing quote |
| HttpResponse.FilenameCannotBreakHeader | cross_lib/wuwu/ww_camera_server.cpp:483 | a sanitised prefix cannot put a quote, CR or LF into the `Content-Disposition` line |
| FrameStore.ElapsedMs | cross_lib/wuwu/ww_camera_server.cpp:755 | the `uint64_t` difference is zero exactly when the times are equal, and wraps modulo `2^64` when time goes back |
| FrameStore.FpsGating | cross_lib/wuwu/ww_camera_server.cpp:754-765 | the estimate is updated exactly when there is an earlier capture time and the new one differs from it |
| FrameStore.NextFpsEstimate | cross_lib/wuwu/ww_camera_server.cpp:754-765 | an estimate `update_frame` computes is positive |
| FrameStore.BlendBetween | cross_lib/wuwu/ww_camera_server.cpp:757-762 | the first sample is taken as is; later estimates lie between the old estimate and the new sample |
| FrameStore.Blend | cross_lib/wuwu/ww_camera_server.cpp:757-762 | the first sample is taken as is; afterwards the estimate moves 15% of the way from the old estimate to the new sample |
| FrameStore.ProcessGlobals.constructor | cross_lib/wuwu/ww_camera_server.cpp:752-753 | no instance, no earlier capture time and a zero estimate at start |
| FrameStore.NextStreamStep | cross_lib/wuwu/ww_camera_server.cpp:404-424 | the loop exits exactly when not running, waits exactly when the id equals `last_frame_sent`, goes round on an empty JPEG, and sends otherwise |
| FrameStore.Ids | cross_lib/wuwu/ww_camera_server.cpp:423 | the ids of the delivered parts, in order |
| FrameStore.Jpegs | cross_lib/wuwu/ww_camera_server.cpp:422 | the JPEGs of the delivered parts, in order |
| FrameStore.StreamIdsIncrease | cross_lib/wuwu/ww_camera_server.cpp:402-434 | while the store's id only grows, the ids a client receives are above the start, strictly increasing, and each part has bytes |
| FrameStore.StreamRun | cross_lib/wuwu/ww_camera_server.cpp:402-434 | a client receives at most one part per view of the store, and never a part without bytes |
| FrameStore.NoResendOfSameFrame | cross_lib/wuwu/ww_camera_server.cpp:408-410 | views showing only the id already sent deliver nothing |
| FrameStore.StreamRunUnfold | cross_lib/wuwu/ww_camera_server.cpp:404-434 | one iteration either ends the run, skips the view, or delivers a part and continues from the new id |
| FrameStore.DeliveredAppend | cross_lib/wuwu/ww_camera_server.cpp:422-433 | recording one more delivered part appends its id, its JPEG and its wire bytes |
| FrameStore.SendMjpegStream | cross_lib/wuwu/ww_camera_server.cpp:393-435 | the loop sends the stream header and then exactly the parts of the stream run from `last_frame_sent = 0`, and returns their ids |
| FrameStore.CameraStreamServer.constructor | cross_lib/wuwu/ww_camera_server.cpp:186-199 | default port 9595, not running, no frame, id 0, zero fps |
| FrameStore.CameraStreamServer.IsRunning | cross_lib/wuwu/ww_camera_server.cpp:819-822 | the result is the `running` flag |
| FrameStore.CameraStreamServer.StartServer | cross_lib/wuwu/ww_camera_server.cpp:700-728 | when running, returns 0 and changes nothing; otherwise sets the port, resets the id and the JPEG, sets `instance`, and runs and returns 0 exactly when the thread was created (else -1) |
| FrameStore.CameraStreamServer.StopServer | cross_lib/wuwu/ww_camera_server.cpp:791-806 | a stopped server is left alone; otherwise `running` is cleared and `instance` too when it is this object; nothing else changes |
| FrameStore.CameraStreamServer.StopServerTwice | cross_lib/wuwu/ww_camera_server.cpp:791-806 | two calls end in the state one call gives: `running` cleared, `instance` cleared when it was this object, every other field of the server and of the process state unchanged; when the server was already stopped nothing changes at all |
| FrameStore.CameraStreamServer.UpdateFrame | cross_lib/wuwu/ww_camera_server.cpp:740-782 | an empty frame changes nothing. Otherwise the original frame is replaced and the fps statics follow the gating. A successful encode replaces the JPEG, adds exactly 1 to the id and records the capture time. A failed one keeps all three. |
| FrameStore.CameraStreamServer.View | cross_lib/wuwu/ww_camera_server.cpp:407-424 | what the loop reads under the mutex is the store's current fields |
| FrameStore.CameraStreamServer.ConsistentStoreNeverSkips | cross_lib/wuwu/ww_camera_server.cpp:417-420 | a store whose published id always has bytes never takes the `continue` branch from `last_frame_sent = 0` |
| FrameStore.CameraStreamServer.HandleClientRequest | cross_lib/wuwu/ww_camera_server.cpp:500-565 | nothing is sent exactly when nothing was received. Every reply starts with `HTTP/1.1 200 OK`. Each route sends its response: viewer HTML, the stream, the stats JSON, the snapshot for the sanitised prefix, or the 404 body as `text/html`. |
| LocalIp.PriorityTiers | cross_lib/wuwu/ww_camera_server.cpp:246-269 | any up-and-running interface outscores any that is not, and any up interface outscores any down one |
| LocalIp.Priority | cross_lib/wuwu/ww_camera_server.cpp:246-269 | an up-and-running interface scores 105..120, an up-only one 50..60, a down one 10 |
| LocalIp.MaxPriority | cross_lib/wuwu/ww_camera_server.cpp:229-275 | the best score of the usable entries, -1 when there is none |
| LocalIp.FirstBestUnique | cross_lib/wuwu/ww_camera_server.cpp:272-275 | there is at most one first strictly-best entry |
| LocalIp.FallbackUnique | cross_lib/wuwu/ww_camera_server.cpp:278-280 | there is at most one first fallback entry |
| LocalIp.FirstWithPriority | cross_lib/wuwu/ww_camera_server.cpp:272-275 | the first usable entry with a given score, or the end |
| LocalIp.FirstBest | cross_lib/wuwu/ww_camera_server.cpp:231-282 | none exactly when no entry is IPv4, not `lo` and has host text; otherwise the first entry of maximal score |
| LocalIp.FirstFallback | cross_lib/wuwu/ww_camera_server.cpp:277-280 | none exactly when no usable entry has a host other than `127.0.0.1`; otherwise the first such entry |
| LocalIp.ReportedIsUsable | cross_lib/wuwu/ww_camera_server.cpp:218-292 | the address reported is `127.0.0.1` or the host of a usable entry |
| LocalIp.ExpectedIp | cross_lib/wuwu/ww_camera_server.cpp:218-292 | `127.0.0.1` is reported when the list cannot be read or holds no usable entry |
| LocalIp.ReportedBeatsTheRest | cross_lib/wuwu/ww_camera_server.cpp:272-291 | a best entry with a non-loopback host is reported, and no usable entry scores above it |
| LocalIp.MaxPriorityStep | cross_lib/wuwu/ww_camera_server.cpp:272-275 | scanning one more entry raises `best_priority` only for a usable entry that scores higher |
| LocalIp.FirstBestKeep | cross_lib/wuwu/ww_camera_server.cpp:272 | an entry that does not score strictly higher keeps the current best |
| LocalIp.FirstBestNew | cross_lib/wuwu/ww_camera_server.cpp:272-275 | an entry that scores strictly higher becomes the best |
| LocalIp.FallbackKeep | cross_lib/wuwu/ww_camera_server.cpp:278 | once a fallback is chosen it stays |
| LocalIp.FallbackNew | cross_lib/wuwu/ww_camera_server.cpp:278-280 | the first non-loopback host becomes the fallback |
| LocalIp.ScanStep | cross_lib/wuwu/ww_camera_server.cpp:231-282 | one loop pass keeps the relation between the loop variables and that definition on the entries scanned so far |
| LocalIp.ScanDone | cross_lib/wuwu/ww_camera_server.cpp:286-289 | after the loop, the fallback step gives the defined address |
| LocalIp.GetLocalIp | cross_lib/wuwu/ww_camera_server.cpp:218-292 | the loop and the fallback step compute the defined address, and `127.0.0.1` when the list cannot be read |
| Rgb565.PackRoundTrip | libraries/zf_device/zf_device_ips200_fb.cpp:304-307 | channels in range are read back from the packed colour, and every colour is the packing of its channels |
| Rgb565.PaletteChannels | libraries/zf_common/zf_common_font.hpp:9-23 | each named palette colour packs the channel values it is named for |
| Rgb565.GrayColor | libraries/zf_device/zf_device_ips200_fb.cpp:304-307 | red and blue are the top five bits of the level, green its top six |
| Rgb565.GrayEnds | libraries/zf_device/zf_device_ips200_fb.cpp:304-307 | gray 0 gives `0x0000`, gray 255 gives `0xFFFF`, and red always equals blue |
| Rgb565.GrayMonotone | libraries/zf_device/zf_device_ips200_fb.cpp:304-307 | a lighter level never gives a darker channel or a smaller colour |
| Raster.Rect | libraries/zf_device/zf_device_ips200_fb.cpp:63-69 | a box drawn through `drawPoint` leaves the length alone; each cell in the box takes its picture pixel and every other cell keeps its value |
| Raster.RectPoint | libraries/zf_device/zf_device_ips200_fb.cpp:298-311 | point `(x+i, y+j)` of the box holds picture pixel `i + j*w` |
| Raster.RectFrame | libraries/zf_device/zf_device_ips200_fb.cpp:63-69 | a cell outside the box is unchanged |
| Raster.PaintStep | libraries/zf_device/zf_device_ips200_fb.cpp:45-51 | writing the next point in visiting order paints one more point |
| Raster.PaintedProgressed | libraries/zf_device/zf_device_ips200_fb.cpp:45-51 | after `p` points, exactly the first `p` points in visiting order have their picture pixel |
| Raster.PaintDone | libraries/zf_device/zf_device_ips200_fb.cpp:45-51 | once every point is visited, in either order, the buffer is the drawn box |
| Raster.VisitIsRank | libraries/zf_device/zf_device_ips200_fb.cpp:298-301 | the nested loops visit point `r` of the numbering at step `r` |
| Ips200.Fill | libraries/zf_device/zf_device_ips200_fb.cpp:42-52 | the picture `full` draws is 240x320 of one colour |
| Ips200.FullPoint | libraries/zf_device/zf_device_ips200_fb.cpp:42-52 | after `full(c)` every cell `j*width + i` with `i < 240`, `j < 320` is `c`, and every other cell is unchanged |
| Ips200.GlyphPixels | libraries/zf_device/zf_device_ips200_fb.cpp:141-170 | a glyph expands to 8x16 = 128 pixels |
| Ips200.GlyphPixelsPicture | libraries/zf_device/zf_device_ips200_fb.cpp:141-170 | column `i`, row `r` is the pen colour when bit `r` of byte `i` (rows 0-7) or bit `r-8` of byte `i+8` (rows 8-15) is set, else the background |
| Ips200.GlyphPictureUnique | libraries/zf_device/zf_device_ips200_fb.cpp:141-170 | that picture is unique |
| Ips200.GlyphCell | libraries/zf_device/zf_device_ips200_fb.cpp:147-168 | testing `temp & 0x01` after `j` right shifts selects the glyph's pixel for that cell |
| Ips200.GlyphStep | libraries/zf_device/zf_device_ips200_fb.cpp:147-168 | one `drawPoint` of `showChar` paints the next cell, column after column |
| Ips200.GlyphDone | libraries/zf_device/zf_device_ips200_fb.cpp:141-170 | all 128 writes leave exactly the glyph's box drawn |
| Ips200.CharScreen | libraries/zf_device/zf_device_ips200_fb.cpp:138-171 | drawing a character leaves the length of the buffer alone |
| Ips200.TextScreenUnfold | libraries/zf_device/zf_device_ips200_fb.cpp:186-190 | a string's screen is its last character's box drawn over the screen of the characters before it |
| Ips200.TextCharShown | libraries/zf_device/zf_device_ips200_fb.cpp:184-190 | pixel `(col, row)` of character `n` appears at `(x + 8n + col, y + row)` and no later character overwrites it |
| Ips200.TextOutside | libraries/zf_device/zf_device_ips200_fb.cpp:184-190 | a point outside the string's box keeps its colour |
| Ips200.TextScreenExtend | libraries/zf_device/zf_device_ips200_fb.cpp:186-189 | drawing character `j` at `x + 8j` extends the screen of the first `j` characters |
| Ips200.TerminatedString | libraries/zf_device/zf_device_ips200_fb.cpp:186 | a buffer holding a NUL ends its string before its end, at the first NUL |
| Ips200.RowEnd | libraries/zf_device/zf_device_ips200_fb.cpp:298-300 | row `r` of a `w`-wide picture ends `w` points after it starts, within the picture |
| Ips200.GrayPixels | libraries/zf_device/zf_device_ips200_fb.cpp:302-307 | each gray level becomes its RGB565 grey |
| Ips200.GrayImagePoint | libraries/zf_device/zf_device_ips200_fb.cpp:298-311 | point `(x+i, y+j)` shows the grey of level `i + j*w` |
| Ips200.CRem | libraries/zf_device/zf_device_ips200_fb.cpp:218 | C's `%` truncates toward zero: the remainder's size is that of `|a| mod b` and it has the dividend's sign |
| Ips200.Pow10Bound | libraries/zf_device/zf_device_ips200_fb.cpp:214-217 | every `offset` the loop builds fits an `int32` |
| Ips200.TruncateInt | libraries/zf_device/zf_device_ips200_fb.cpp:205-219 | for `num < 10` the value becomes `dat % 10^num` with C's sign rule; otherwise it is unchanged |
| Ips200.TruncateUint | libraries/zf_device/zf_device_ips200_fb.cpp:236-249 | for `num < 10` the value becomes `dat mod 10^num`; otherwise it is unchanged |
| Ips200.TruncationKeepsShortValues | libraries/zf_device/zf_device_ips200_fb.cpp:212-219 | a value that already has at most `num` digits is kept whole; `num == 0` gives 0 |
| Ips200.DisplayIps200.constructor | libraries/zf_device/zf_device_ips200_fb.cpp:18-22 | pen red, background white, width and height 0, no buffer |
| Ips200.DisplayIps200.DrawPoint | libraries/zf_device/zf_device_ips200_fb.cpp:63-69 | exactly cell `y*width + x` takes the colour; with no buffer nothing changes |
| Ips200.DisplayIps200.Full | libraries/zf_device/zf_device_ips200_fb.cpp:42-52 | the buffer becomes the old one with the 240x320 box filled with the colour |
| Ips200.DisplayIps200.Clear | libraries/zf_device/zf_device_ips200_fb.cpp:30-33 | `clear` is `full` in white (`0xFFFF`) |
| Ips200.DisplayIps200.InitMapped | libraries/zf_device/zf_device_ips200_fb.cpp:377-394 | the reported resolution and mapped buffer become the display's, and the panel is painted white |
| Ips200.DisplayIps200.ShowGlyphPoint | libraries/zf_device/zf_device_ips200_fb.cpp:147-154 | one inner-loop pass paints the next cell of the glyph |
| Ips200.DisplayIps200.ShowGlyphBits | libraries/zf_device/zf_device_ips200_fb.cpp:145-169 | one inner loop paints eight cells of a column, shifting the byte right once per cell |
| Ips200.DisplayIps200.ShowGlyphColumn | libraries/zf_device/zf_device_ips200_fb.cpp:143-169 | one outer pass paints column `i` from byte `i`, then byte `i+8` |
| Ips200.DisplayIps200.ShowGlyph | libraries/zf_device/zf_device_ips200_fb.cpp:141-170 | the two loops paint all 128 cells column after column |
| Ips200.DisplayIps200.ShowChar | libraries/zf_device/zf_device_ips200_fb.cpp:138-171 | the 8x16 box at `(x, y)` shows the glyph of `dat - 32` in the pen and background colours; every other cell is unchanged |
| Ips200.DisplayIps200.ShowTextChar | libraries/zf_device/zf_device_ips200_fb.cpp:188 | one loop pass draws character `j` at `x + 8j` |
| Ips200.DisplayIps200.ShowString | libraries/zf_device/zf_device_ips200_fb.cpp:182-191 | the characters before the first NUL are drawn, character `j` at `x + 8j` |
| Ips200.DisplayIps200.ShowGrayRow | libraries/zf_device/zf_device_ips200_fb.cpp:300-310 | one row of the picture is drawn, left to right, as greys |
| Ips200.DisplayIps200.ShowGrayImage | libraries/zf_device/zf_device_ips200_fb.cpp:293-312 | the `w`x`h` box at `(x, y)` shows the greys of the first `w*h` levels row by row; every other cell is unchanged |
| Ips200.DisplayIps200.ShowRgbRow | libraries/zf_device/zf_device_ips200_fb.cpp:330-334 | one row of the picture is copied, left to right |
| Ips200.DisplayIps200.ShowRgbImage | libraries/zf_device/zf_device_ips200_fb.cpp:325-336 | the `w`x`h` box at `(x, y)` shows the first `w*h` pixels unchanged; every other cell is unchanged |

## Left out

- Sockets are left out because they are I/O: `socket`, `bind`, `listen`, the accept loop, `recv`, `send`, `setsockopt` and `close`.
  - A request is the received text, empty when `recv` returned 0 or an error.
  - A reply is the text that would be sent.
  - `server_thread_func`, `client_thread_func` and `close_server_socket` are not part of this model.
- Threads, mutexes and the condition variable are left out as concurrency.
  - The stream loop is modelled over a sequence of snapshots of the store, one per check.
  - A `pthread_cond_wait` that wakes with nothing new appears as a view with the same id.
  - `pthread_create` is a boolean input of `StartServer`.
- The signal handler and `signal()` registration are left out. Only the `instance` pointer it uses is kept.
- `cv::imencode` and `Mat::clone` are a foreign library.
  - The JPEG and PNG encoders are `Option` inputs, where `None` is a failed encode.
  - A frame is reduced to its pixel bytes.
- `now_ms`, `time` and `localtime_r` are the clock and time zone. The times and date fields are inputs.
- The embedded viewer page is static content and an input of `HandleClientRequest`.
- The `estimatedFps` text is an input of the statistics JSON, because it is floating-point formatting.
  - The EWMA is modelled in exact `real`, without `double` rounding.
- The console messages are `std::cout` and `std::cerr` output.
- `getifaddrs`, `getnameinfo` and `freeifaddrs` are OS calls. They are replaced by an optional list of interface records.
- FrameStore.CameraStreamServer.UpdateFrame: `latest_frame_id` is a `nat`, so its `uint64_t` wrap-around after `2^64` frames is not modelled.
- FrameStore.SendMjpegStream: a failed `send` ends the loop. The model does not say which of a part's three writes failed.
- `drawLine` and `showFloat` are not modelled, because they are `float`/`double` arithmetic.
- Ips200.DisplayIps200.InitMapped models only what `init` does after `mmap` returns the buffer. Not modelled:
  - `rmmod`/`insmod`, `open`, `ioctl`, `mmap` and `exit` on failure;
  - `line_length`, since the buffer's row width is taken as `xres`.
- `showInt` and `showUint` are not modelled past the truncation step:
  - `func_int_to_str` and `func_uint_to_str` are not part of this model;
  - the `memset` of the digit buffer is not modelled.
- The 8x16 font table is an input sequence, not its data.
- The truncation to `uint16` of the coordinates passed to `drawPoint` is not modelled. Drawing methods require their box to have `uint16` coordinates (`x + w <= 0x1_0000`, `y + h <= 0x1_0000`) and to fit the mapped buffer. So the coordinates passed to `drawPoint` (`x + i`, `y + j`, `x + 8 * j`, `x_start`, `y_start`) never exceed `uint16`, and the `int` index `y * width + x` never leaves the buffer. The source does not check either.
- Drawing past the right edge is not modelled. Every drawing method requires its box to lie inside its rows (`x + w <= width`), so `full` and `init` need `240 <= xres`. The source does not check this: `drawPoint` writes `screen_base[y * width + x]`, so a string or picture that runs off the right edge, or a 240-wide fill on a narrower buffer, is drawn into the start of the following row.
- The image pointers of `showGrayImage` and `showRgbImage` are sequences of at least `w*h` pixels.
- HttpResponse.FilenameText: the `Tm` date fields are `nat`, so a negative `struct tm` field, which `%02d` would print with a minus sign, is not modelled. `localtime_r` fills them with non-negative values.
