# noVNC decoder and handshake core, modelled in Dafny

This project models the byte-level core of the noVNC remote-framebuffer
client: the resumable rectangle decoders (CopyRect, RRE, Hextile, Tight,
TightPNG, ZRLE, JPEG, H.264), the cryptographic compositions noVNC builds
on top of WebCrypto (AES-ECB block by block, AES-CMAC subkeys and padding
and the AES-EAX mode of the `AESEAXCipher` class, RSAES-PKCS1-v1_5 padding
and unpadding, Diffie-Hellman), the RSA-AES ("RA2") security type (the
per-direction message cipher with its nonce counter, and the client side
of the handshake with its length checks, byte layouts and pending-request
slots), and small application helpers (the event listener registry,
language negotiation, URL and cookie parsing and the settings cache).

Each decoder except CopyRect is a class whose fields are the source's
resume state and whose `DecodeRect` method is proved equal to a
specification function of the old state and the unread bytes; CopyRect,
which keeps no state, is a method of its module with the same contract
shape. `Ok(false)` stands for the source's `false` ("call me again with
more data"), `Ok(true)` for `true`, and `Err` for a thrown error. The
properties the source promises are lemmas about those specification
functions. The stateful classes elsewhere (the AES and RSA ciphers, the
RA2 cipher and handshake state, the listener registry, the localizer and
the settings cache) are likewise classes whose methods are proved against
functions of their old state.

The RA2 handshake is one asynchronous function in the source. The model
splits it at the awaits on its pending-request promises (the socket, the
server-key approval and the credentials): each stretch is a method of
`RA2Auth.RSAAESAuthenticationState`, the wait that ends a stretch is
recorded in the state's promise slots, and the next stretch requires what
the awaited promise stands for. Events the handshake dispatches are
appended to an `events` log. The awaits on WebCrypto and on the RA2
cipher inside a stretch are treated as synchronous calls.

Collaborators that are not part of the model are reduced to the interface
the core uses:

- the socket (`Websock.Socket`): a receive queue with a read index, and a
  send queue with the bytes flushed so far; `Wait(need, goback)` counts
  `need` from the read index and moves the index back by `goback` only
  when data is missing;
- the display (`Display.Display`): an append-only log of drawing calls;
- the zlib inflator (`Inflator.Inflator`): an abstract per-stream source of
  decompressed bytes that can be reset;
- the AES block cipher, SHA-1, `modPow`, Base64 decoding, UTF-8 encoding,
  `decodeURIComponent` and random bytes: function parameters.

## Model

| member | source | states |
|---|---|---|
| CopyRect.DecodeRect | core/decoders/copyrect.ts:13-29 | with fewer than 4 bytes queued, returns false and consumes and draws nothing; otherwise consumes exactly the two big-endian 16-bit source coordinates and returns true, with no display call for a zero-area rectangle and exactly one copyImage(srcX, srcY, x, y, w, h) otherwise |
| RRE.RREDecoder.DecodeRect | core/decoders/rre.ts:19-48 | one call leaves the decoder's count, the read index and the display log exactly as `RRE.Step` says |
| RRE.StepHeader | core/decoders/rre.ts:21-30 | the 8-byte header is read only when the saved count is 0 and only when all 8 bytes are queued; the background fill is the first call, and the count read from the header then drops by one per subrectangle drawn |
| RRE.SubrectsCount | core/decoders/rre.ts:32-45 | the subrectangle loop only appends to the log, consumes 12 bytes per subrectangle, lowers the count by one per subrectangle and stops early only when the next record is incomplete |
| RRE.SubrectsDrawRecords | core/decoders/rre.ts:37-42 | the i-th subrectangle drawn is the i-th 12-byte record, at (x+sx, y+sy) with size (sw, sh) in its own colour |
| RRE.StepResume | core/decoders/rre.ts:19-48 | a rectangle delivered in two parts, with a false return in between, consumes and draws exactly what one call on all its bytes does |
| RRE.SubrectsDoneIgnoresRest | core/decoders/rre.ts:32-47 | bytes after a finished rectangle are not read by it |
| RRE.GreenWithBlueSquare | core/decoders/rre.ts:19-48 | a 4x4 rectangle with a green background and one 2x2 blue subrectangle at the origin draws the green fill and then the blue square, consuming all 20 bytes |
| Hextile.HextileDecoder.DecodeRect | core/decoders/hextile.ts:42-156 | one call leaves the decoder's fields, its tile buffer, the read index and the display log exactly as `Hextile.Step` says |
| Hextile.StepVisits | core/decoders/hextile.ts:44-70 | a call finishes tiles TileAt(k0), TileAt(k0 + 1), ... in row-major order, where k0 is 0 when it starts a rectangle (the grid of ceil(w/16) * ceil(h/16) tiles is set up only then) and the saved counter when it resumes one; it returns true exactly when the last tile of the grid is finished |
| Hextile.TilesVisit | core/decoders/hextile.ts:50-155 | the loop finishes at most the tiles that were left, each the next in row-major order after the one before, and completes exactly when it finishes all of them |
| Hextile.TileInside | core/decoders/hextile.ts:64-70 | every tile is between 1 and 16 pixels on each side and lies inside the rectangle |
| Hextile.TileNext | core/decoders/hextile.ts:64-68 | tiles are visited left to right, then from the start of the next row |
| Hextile.BadSubencoding | core/decoders/hextile.ts:58-62 | a subencoding above 30 is an error and nothing is consumed |
| Hextile.TileWhole | core/decoders/hextile.ts:52-103 | a tile is consumed only when its whole byte count is queued, and then exactly that count |
| Hextile.RawTile | core/decoders/hextile.ts:111-118 | a raw tile takes tw*th*4 bytes, is drawn with every alpha byte 255, and leaves the colours alone |
| Hextile.BlankTile | core/decoders/hextile.ts:104-110 | a blank tile is not painted right after a raw one and is otherwise filled with the current background |
| Hextile.ColoursPersist | core/decoders/hextile.ts:120-127 | background and foreground are read only when their bits are set and otherwise carry over from the previous tile |
| Hextile.SubrectBytes | core/decoders/hextile.ts:128-147 | a subrectangle paints (high nibble, low nibble) to (high+1, low+1) more, unclipped, in its own colour or the foreground |
| Hextile.TilesResume | core/decoders/hextile.ts:51-153 | a rectangle delivered in two parts, with a false return in between, consumes and draws exactly what one call on all its bytes does |
| Hextile.TilesDone | core/decoders/hextile.ts:51-155 | bytes after a finished rectangle are not read by it |
| Tight.TightDecoder.constructor | core/decoders/tight.ts:24-36 | a new decoder has no saved control byte or filter, no palette size, no pending length, a zeroed 1024-byte palette, an empty scratch buffer and four distinct zlib streams with no history |
| Tight.TightDecoder.DecodeRect | core/decoders/tight.ts:38-83 | one call leaves the resume fields, the palette, the four streams, the read index and the display log exactly as `Tight.Step` says, for Tight and for TightPNG |
| Tight.Step | core/decoders/tight.ts:38-83 | the control byte is read only when none is saved; a completed rectangle forgets it, and a call that returns false or throws after reading it keeps it |
| Tight.TightDecoder.ResetZlibs | core/decoders/tight.ts:47-53 | exactly the streams whose bit is set in the low nibble are reset; the others keep their history |
| Tight.ResetStreams | core/decoders/tight.ts:47-53 | stream i is empty afterwards when bit i of the control byte is set and unchanged otherwise |
| Tight.Control | core/decoders/tight.ts:45-56 | the saved mode is the high nibble of the control byte and the streams are reset as its low nibble asks |
| Tight.Mode | core/decoders/tight.ts:59-82 | the mode is forgotten exactly when the call returns true and kept otherwise |
| Tight.TightDecoder.DecodeMode | core/decoders/tight.ts:59-82 | the dispatch on the saved mode does what `Tight.Mode` says |
| Tight.ModeDispatch | core/decoders/tight.ts:61-112 | modes 11-15 throw, PNG throws in plain Tight and basic compression throws in TightPNG, all without consuming; fill takes exactly three bytes and draws one fillRect; JPEG and TightPNG's PNG return true exactly when their data block is complete and then hand it to imageRect with its MIME type |
| Tight.PngInherits | core/decoders/tightpng.ts:13-30 | for the fill, JPEG and illegal modes, and before a mode is known, TightPNG behaves exactly as Tight |
| Tight.TightDecoder.FillRect | core/decoders/tight.ts:85-95 | false with nothing consumed when fewer than three bytes are queued, else one fillRect with the three colour bytes |
| Tight.TightDecoder.PictureRect | core/decoders/tight.ts:97-107 | one data block, then one imageRect with the given MIME type, as `Tight.Picture` says; also TightPNG's PNG rectangle (core/decoders/tightpng.ts:14-24) |
| Tight.Basic | core/decoders/tight.ts:114-156 | a completed basic rectangle forgets its filter; TightPNG refuses basic compression (core/decoders/tightpng.ts:26-29) |
| Tight.TightDecoder.BasicRect | core/decoders/tight.ts:114-156 | one call does what `Tight.Basic` says |
| Tight.TightDecoder.ReadFilter | core/decoders/tight.ts:116-127 | the filter byte is read only in modes 4-7, only once and only when queued; modes 0-3 use the copy filter |
| Tight.TightDecoder.RunFilter | core/decoders/tight.ts:129-155 | the stream is the low two bits of the mode, the filter is dispatched, and it is forgotten exactly on a true return |
| Tight.CompactLength | core/decoders/tight.ts:383-394 | a compact length takes one to three bytes and is below 2^22 |
| Tight.LengthRoundTrip | core/decoders/tight.ts:383-394 | decoding the shortest encoding of any length below 2^22 gives it back and consumes exactly its bytes |
| Tight.LengthExample | core/decoders/tight.ts:383-394 | 0x90 0x4E is the length 10000 |
| Tight.TightDecoder.ReadLength | core/decoders/tight.ts:383-394 | reads low seven bits first while the top bit is set, the third byte with all eight bits, as `Tight.CompactLength` says |
| Tight.DataBlock | core/decoders/tight.ts:377-405 | a data block that has arrived is the bytes right after its length |
| Tight.DataBlockFraming | core/decoders/tight.ts:377-405 | a block framed as its compact length followed by its bytes is read back whole, consuming exactly the length and the block whatever follows, with no length left pending; with the length already pending, the block alone is read |
| Tight.DataBlockWaits | core/decoders/tight.ts:377-397 | a framed block that has not fully arrived yields nothing: below three queued bytes nothing is consumed, and otherwise the length is consumed and kept pending |
| Tight.DataBlockResume | core/decoders/tight.ts:377-405 | a block split over two deliveries is read as if it had come at once |
| Tight.DataBlockExtend | core/decoders/tight.ts:377-405 | bytes after a complete block are not read |
| Tight.TightDecoder.ReadData | core/decoders/tight.ts:377-405 | the pending length, the read index and the block are as `Tight.DataBlock` says |
| Tight.FetchBlock | core/decoders/tight.ts:167-182 | fetching touches no resume field but the pending length and one stream, and returns exactly `size` bytes when it returns data |
| Tight.FetchThreshold | core/decoders/tight.ts:167-182 | below 12 bytes the data is read raw and no stream changes; from 12 on it is the first `size` bytes inflated from the block, an error when the stream yields fewer, and only the selected stream changes |
| Tight.FetchResume | core/decoders/tight.ts:167-182 | data split over two deliveries is fetched as if it had come at once |
| Tight.FetchExtend | core/decoders/tight.ts:167-182 | bytes after fetched data are not read |
| Tight.TightDecoder.FetchData | core/decoders/tight.ts:167-182 | the pending length, the streams, the read index and the data are as `Tight.FetchBlock` says |
| Tight.ZeroSizeNoRead | core/decoders/tight.ts:163-165 | a zero-size filter returns true without reading; otherwise it consumes exactly what fetching consumes |
| Tight.RgbxPixel | core/decoders/tight.ts:184-190 | each copy-filter pixel is its three data bytes followed by alpha 255 |
| Tight.CopyPixels | core/decoders/tight.ts:184-190 | the conversion loop yields exactly `Tight.Rgbx` |
| Tight.TightDecoder.CopyFilter | core/decoders/tight.ts:158-195 | one call does what `Tight.FilterStep` says for the copy filter |
| Tight.TightDecoder.PaletteFilter | core/decoders/tight.ts:197-254 | one call does what `Tight.FilterStep` says for the palette filter |
| Tight.TightDecoder.ReadPalette | core/decoders/tight.ts:199-215 | the count byte and the palette are consumed together and only when all of them are queued; the count is the first byte plus one and the colours go to the start of the palette buffer |
| Tight.PaletteHeaderAtomic | core/decoders/tight.ts:199-215 | an incomplete palette header consumes nothing; a complete one sets the count to the first byte plus one and the first 3n palette bytes to the colours, before the data is read |
| Tight.PaletteStep | core/decoders/tight.ts:199-219 | with the header queued, the palette filter is the header followed by the data step on the rest |
| Tight.WithPalette | core/decoders/tight.ts:204-214 | the colour count becomes the first byte plus one and the first three bytes per colour of the buffer hold the colours; nothing else changes |
| Tight.TightDecoder.PaletteBody | core/decoders/tight.ts:217-253 | the palette data step does what `Tight.FilterBody` says |
| Tight.RowSizeBounds | core/decoders/tight.ts:217-219 | up to two colours a row takes one bit per pixel padded to a whole byte; more colours take a byte per pixel |
| Tight.PaletteColours | core/decoders/tight.ts:223-251 | a palette rectangle that draws resets the colour count to 0; a zero-area one returns true and keeps the count, so the next palette rectangle reads no palette header |
| Tight.MonoTwoColours | core/decoders/tight.ts:256-288 | every two-colour pixel is palette entry 0 or 1, opaque |
| Tight.MonoRowStart | core/decoders/tight.ts:264-284 | bits are taken most significant first and every row starts on a new byte |
| Tight.MonoInto | core/decoders/tight.ts:260-285 | the unpacking loop fills the buffer with exactly `Tight.Mono` |
| Tight.TightDecoder.MonoRect | core/decoders/tight.ts:256-288 | one blitImage of the two-colour pixels through the scratch buffer |
| Tight.PalettePixel | core/decoders/tight.ts:290-304 | each pixel is the palette entry its data byte names; a pixel past the end of the data (a one-colour palette) is black; alpha is 255 |
| Tight.PaletteInto | core/decoders/tight.ts:293-301 | the conversion loop fills the buffer with exactly `Tight.PaletteRgbx` |
| Tight.TightDecoder.PaletteRect | core/decoders/tight.ts:290-304 | one blitImage of the palette pixels through the scratch buffer |
| Tight.GradientRoundTrip | core/decoders/tight.ts:333-370 | decoding the residuals of the server's gradient encoding of any image gives every channel of every pixel back |
| Tight.GradientEdges | core/decoders/tight.ts:333-370 | along the first row the prediction is the left neighbour alone; the first pixel of a later row is predicted from the pixel above; the first pixel is its residual |
| Tight.GradientAt | core/decoders/tight.ts:350-369 | a channel is its residual plus the clamped left + up - upper-left prediction, modulo 256 |
| Tight.GradientPixels | core/decoders/tight.ts:333-370 | the decoding loop, which reads the neighbours back from the pixels it has written, yields exactly `Tight.Gradient` |
| Tight.TightDecoder.GradientFilter | core/decoders/tight.ts:306-375 | one call does what `Tight.FilterStep` says for the gradient filter |
| Tight.TightDecoder.GetScratchBuffer | core/decoders/tight.ts:407-412 | the scratch buffer is reused when large enough and replaced by a fresh one of exactly the requested size otherwise |
| Tight.FilterStepResume | core/decoders/tight.ts:158-254 | filter data split over two deliveries is decoded and drawn as if it had come at once |
| Tight.BasicResume | core/decoders/tight.ts:114-156 | a basic rectangle split over two deliveries is decoded and drawn as if it had come at once |
| Tight.ModeResume | core/decoders/tight.ts:59-82 | so is every mode |
| Tight.StepResume | core/decoders/tight.ts:38-83 | a rectangle delivered in two parts, with a false return in between, consumes, draws and leaves the decoder exactly as one call on all its bytes |
| Tight.StepExtend | core/decoders/tight.ts:38-83 | bytes after a rectangle that completed or threw are not read by it |
| Tight.FillExample | core/decoders/tight.ts:40-95 | control byte 0x81 resets stream 0 and selects fill; the rectangle draws the colour and consumes four bytes |
| ZRLE.ZRLEDecoder.constructor | core/decoders/zrle.ts:22-28 | a new decoder has no saved length, a stream with no history and no pending input, and a zeroed 64x64x4-byte pixel buffer distinct from the tile buffer |
| ZRLE.ZRLEDecoder.DecodeRect | core/decoders/zrle.ts:30-78 | one call leaves the saved length, the zlib stream, the pixel buffer, the read index and the display log exactly as `ZRLE.Step` says |
| ZRLE.StepWaits | core/decoders/zrle.ts:31-40 | a false return draws nothing and leaves the stream and the pixel buffer alone; it consumes the 4-byte length exactly when it reads it, and a length that was read is kept for the next call |
| ZRLE.StepDone | core/decoders/zrle.ts:31-77 | a call that does not return false consumes the length field if it was not read before and then exactly the block, hands exactly that block to the stream, clears the length when the rectangle is done and keeps it when a tile throws |
| ZRLE.StepResume | core/decoders/zrle.ts:30-78 | a rectangle delivered in two parts, with a false return in between, consumes and draws exactly what one call on all its bytes does |
| ZRLE.StepExtend | core/decoders/zrle.ts:30-78 | bytes after a rectangle that completed or threw are not read by it |
| ZRLE.ZRLEDecoder.DecodeTileRows | core/decoders/zrle.ts:45-73 | the two tile loops do what `ZRLE.TileRows` says: tiles in row-major order, stopping at the first tile that throws with the calls of the tiles before it kept |
| ZRLE.TileRowsGeometry | core/decoders/zrle.ts:45-50 | a finished rectangle is drawn tile by tile in row-major order: the tile in row r and column c is call r * cols + c, at (x + 64c, y + 64r), 64x64 except in the last column and row, which are clipped to the rectangle |
| ZRLE.Tile | core/decoders/zrle.ts:52-72 | a tile is drawn with exactly one call that covers exactly the tile, or, when it throws, with none |
| ZRLE.ZRLEDecoder.DecodeTile | core/decoders/zrle.ts:52-72 | one tile leaves the stream, the pixel buffer, the display log and the result exactly as `ZRLE.Tile` says |
| ZRLE.TileRaw | core/decoders/zrle.ts:54-57 | subencoding 0 draws the tile's own 3 * tw * th bytes, widened to RGBA with alpha 255, and consumes exactly them after the subencoding byte |
| ZRLE.TileSolid | core/decoders/zrle.ts:58-61 | subencoding 1 fills the tile with the three bytes that follow and consumes exactly them |
| ZRLE.TileUnknown | core/decoders/zrle.ts:70-72 | subencodings 17 to 127 and 129 throw after the subencoding byte and draw nothing |
| ZRLE.BppCovers | core/decoders/zrle.ts:80-90 | the index width of a palette of 1 to 16 colours is the smallest of 1, 2 and 4 bits that can name every entry |
| ZRLE.ReadPixels | core/decoders/zrle.ts:92-102 | reading n pixels succeeds exactly when 3n bytes are left and then consumes exactly them; a short stream throws with nothing consumed and the buffer untouched |
| ZRLE.ReadPixelsRgba | core/decoders/zrle.ts:95-100 | after reading n pixels, pixel i < n of the buffer is the i-th triple with alpha 255 and every later byte of the buffer is unchanged |
| ZRLE.ZRLEDecoder.InflatePixels | core/decoders/zrle.ts:92-102 | the inflate and the widening loop leave the stream and the pixel buffer exactly as `ZRLE.ReadPixels` says |
| ZRLE.ZRLEDecoder.Widen | core/decoders/zrle.ts:95-100 | after the loop, the pixel buffer holds the widened triples followed by its old bytes from pixel n on |
| ZRLE.ShiftIs | core/decoders/zrle.ts:115-128 | a byte holds 8 / bpp indices, and the shift of the i-th is 8 - bpp * (i + 1) |
| ZRLE.UnpackIs | core/decoders/zrle.ts:109-121 | `(encoded >> shift) & mask` is `(encoded / 2^shift) % 2^bpp`, an index below 2^bpp |
| ZRLE.RowBytesIs | core/decoders/zrle.ts:114-133 | every row of a palette tile takes ceil(tw / (8 / bpp)) bytes, rows starting on a fresh byte |
| ZRLE.PaletteTileBytes | core/decoders/zrle.ts:104-135 | a palette tile succeeds exactly when the stream holds the 3 * ps palette bytes and th rows of packed indices, and then consumes exactly them |
| ZRLE.PaletteTilePixel | core/decoders/zrle.ts:114-129 | pixel c of row r of a palette tile is the palette entry named by the bpp bits of byte r * rb + c / k after the palette, shifted right by the shift of slot c % k |
| ZRLE.ZRLEDecoder.DecodePaletteTile | core/decoders/zrle.ts:104-135 | the nested loops leave the stream and the pixel buffer as `ZRLE.PaletteTile` says and the tile buffer holding the decoded tile |
| ZRLE.RunLengthSum | core/decoders/zrle.ts:186-194 | a run length is k - 1 bytes of 255 and a last byte b, worth 255 (k - 1) + b + 1; a stream holding only bytes of 255 throws |
| ZRLE.RunLengthExample | core/decoders/zrle.ts:186-194 | the bytes 255, 255, 10 make a run of 521 |
| ZRLE.ZRLEDecoder.ReadRunLength | core/decoders/zrle.ts:186-194 | the do-while loop leaves the stream and returns exactly as `ZRLE.RunLength` says |
| ZRLE.RleTile | core/decoders/zrle.ts:137-152 | a plain run-length tile fills exactly the tile, and every pixel is opaque |
| ZRLE.RleRunClipped | core/decoders/zrle.ts:140-150 | a run that reaches past the end of the tile ends the tile without an error, cut at the tile's end |
| ZRLE.ZRLEDecoder.DecodeRleTile | core/decoders/zrle.ts:137-152 | the run loop leaves the stream and the pixel buffer as `ZRLE.RleTile` says and the tile buffer holding the decoded tile |
| ZRLE.RlePaletteChecks | core/decoders/zrle.ts:168-173 | an index above the palette size throws, and so does a run longer than what is left of the tile |
| ZRLE.RlePaletteIndexAtSize | core/decoders/zrle.ts:168-170 | an index equal to the palette size passes the check and paints the buffer entry just past the palette |
| ZRLE.RlePaletteRunsFromPalette | core/decoders/zrle.ts:158-183 | every pixel of a palette run-length tile is one of the buffer's entries 0 to ps |
| ZRLE.ZRLEDecoder.DecodeRlePaletteTile | core/decoders/zrle.ts:154-184 | the palette and the run loop leave the stream and the pixel buffer as `ZRLE.RlePaletteTile` says and the tile buffer holding the decoded tile |
| JPEG.JPEGDecoder.constructor | core/decoders/jpeg.ts:17-24 | a new decoder has no cached quantisation or Huffman tables and no collected segments |
| JPEG.JPEGDecoder.DecodeRect | core/decoders/jpeg.ts:26-93 | one call leaves the caches, the collected segments, the read index and the display log exactly as `JPEG.Step` says |
| JPEG.JPEGDecoder.CollectSegments | core/decoders/jpeg.ts:29-39 | the segment loop appends segments and moves the read index as `JPEG.Collect` says, leaving the caches alone |
| JPEG.JPEGDecoder.SplitTables | core/decoders/jpeg.ts:41-52 | the Huffman tables are exactly the C4 segments and the quantisation tables exactly the DB segments, in order |
| JPEG.JPEGDecoder.Join | core/decoders/jpeg.ts:69-79 | the image handed to the display is the segments laid end to end |
| JPEG.JPEGDecoder.ReadSegment | core/decoders/jpeg.ts:95-153 | the segment returned and the read index left are as `JPEG.ReadSeg` says |
| JPEG.JPEGDecoder.ReadLongSegment | core/decoders/jpeg.ts:110-153 | after a marker with a length field, the segment and read index are as `JPEG.ReadLong` says |
| JPEG.JPEGDecoder.ScanSegment | core/decoders/jpeg.ts:121-141 | the scan loop returns the payload length `JPEG.ScanLength` gives, and moves the read index back by the 4 head bytes when it has to wait |
| JPEG.ScanFirst | core/decoders/jpeg.ts:121-141 | a scan ends at the first 0xFF followed by a byte other than 0x00 and D0-D7, and waits when no such pair has arrived |
| JPEG.HeadOf | core/decoders/jpeg.ts:145-149 | the 4-byte head rebuilt from the marker and the 16-bit length is the head that was received, so a segment is the bytes read for it |
| JPEG.ReadSegErrors | core/decoders/jpeg.ts:96-119 | reading a segment raises exactly when, with its bytes there, the first byte is not 0xFF or the length field of a marker that has one is below 2 |
| JPEG.ReadSegShort | core/decoders/jpeg.ts:104-107 | markers D0-D9 and 0x01 are two-byte segments without a length field |
| JPEG.ReadSegLength | core/decoders/jpeg.ts:110-153 | a segment other than a scan takes the two marker bytes plus its length |
| JPEG.ReadSegScan | core/decoders/jpeg.ts:121-141 | a scan runs from its length to the first marker that ends the entropy-coded data, which is left unread |
| JPEG.ReadSegExtend | core/decoders/jpeg.ts:95-153 | once a segment read is decided, bytes that arrive later do not change it |
| JPEG.CollectBytes | core/decoders/jpeg.ts:29-39 | the collected segments are the bytes read, in order |
| JPEG.CollectEnds | core/decoders/jpeg.ts:35-38 | a complete image ends with the two-byte end-of-image segment FF D9 |
| JPEG.EndOfImage | core/decoders/jpeg.ts:104-107 | the end-of-image marker is read as a segment of its own two bytes |
| JPEG.CollectResume | core/decoders/jpeg.ts:29-39 | segments collected over two deliveries, with a false return in between, are those one call on all the bytes collects |
| JPEG.TablesOf | core/decoders/jpeg.ts:41-52 | only segments of the asked type are gathered, and none exactly when no segment has that type |
| JPEG.SofIndexOf | core/decoders/jpeg.ts:53-55 | the start-of-frame index is the first C0 or C2 segment, or the end when there is none |
| JPEG.StepVerbatim | core/decoders/jpeg.ts:41-93 | an image that brings its own tables is drawn as exactly the bytes received for it, its tables replace the cached ones and the collected segments are cleared |
| JPEG.StepUsesCache | core/decoders/jpeg.ts:60-92 | an image without tables is drawn with the cached Huffman and then the cached quantisation tables inserted right after its start-of-frame segment, and the caches are kept |
| JPEG.StepWithoutSof | core/decoders/jpeg.ts:53-58 | a complete image without a C0 or C2 segment raises, draws nothing and keeps its segments |
| JPEG.StepResume | core/decoders/jpeg.ts:26-93 | a rectangle delivered in two parts, with a false return in between, does exactly what one call on all its bytes does |
| H264.StartCodes | core/decoders/h264.ts:38-47 | the start sequence is 4 long exactly at 00 00 00 01 and 3 long exactly at 00 00 01 that is not the former; otherwise 0 |
| H264.H264Parser.GetStartSequenceLen | core/decoders/h264.ts:38-47 | returns `H264.StartLen` of the data at the index |
| H264.NextUnitFirst | core/decoders/h264.ts:49-57 | the next NAL unit found is the first start code at or after the index, and -1 means there is none |
| H264.H264Parser.IndexOfNextNalUnit | core/decoders/h264.ts:49-57 | the loop returns the position `H264.NextUnit` gives, or -1 |
| H264.H264Parser.ParseNalUnit | core/decoders/h264.ts:59-89 | the result and the recorded SPS fields are as `H264.NalInfo` says, and the cursor is not moved |
| H264.H264Parser.Parse | core/decoders/h264.ts:91-126 | the frame, the new cursor and the SPS fields are as `H264.ParseFrom` says |
| H264.H264Parser.ParseOne | core/decoders/h264.ts:95-116 | one round of the loop either ends it with the result the loop gives or moves the cursor strictly forward |
| H264.ParseFrames | core/decoders/h264.ts:91-126 | a frame is the bytes from the old cursor to the new one, which is at the end of the data or at a start code, so successive calls cut the stream into consecutive frames |
| H264.ParseNull | core/decoders/h264.ts:118-120 | null is returned exactly when the cursor is already at the end of the data |
| H264.ParseNeedsStartCode | core/decoders/h264.ts:96-99 | a cursor not at a start code raises |
| H264.ParseForbiddenBit | core/decoders/h264.ts:66-69 | a NAL header with the forbidden zero bit set raises |
| H264.ParseSlice | core/decoders/h264.ts:72-76 | a slice unit of type 1 or 5 makes a frame of its own, up to the next start code, which is a key frame exactly for type 5 |
| H264.ParseRecordsSps | core/decoders/h264.ts:59-63 | a sequence parameter set records the three bytes after its header as profile, constraint set and level |
| H264.CodecStringDigits | core/decoders/h264.ts:181-184 | the codec string is "avc1." followed by the profile, constraint set and level, two lower-case hex digits each |
| H264.H264Context.constructor | core/decoders/h264.ts:139-148 | a new context has the given size, age 0, no SPS, no decoder and no pending frames |
| H264.H264Context.HandleFrame | core/decoders/h264.ts:150-168 | the decoder's output goes to the oldest pending frame, which leaves the queue; an empty queue or a timestamp mismatch raises |
| H264.H264Context.ConfigureDecoder | core/decoders/h264.ts:174-191 | a decoder is made unless one is open and is configured with the codec string and the context's size, as `H264.Configure` says |
| H264.H264Context.PreparePendingFrame | core/decoders/h264.ts:193-208 | a pending frame with the timestamp, not ready and not kept, is appended to the queue and returned |
| H264.H264Context.OfferFrame | core/decoders/h264.ts:230-255 | a frame is skipped until the decoder is configured or a key frame with a known SPS configures it; otherwise a pending frame is queued and the chunk is given to the decoder |
| H264.H264Context.DecodeStep | core/decoders/h264.ts:218-256 | one round of the decode loop does what `H264.DecodeRound` says |
| H264.H264Context.Decode | core/decoders/h264.ts:210-264 | the context and the returned frame are as `H264.Decoded` says |
| H264.DecodedFrames | core/decoders/h264.ts:210-264 | decoding keeps the context's size and age, queues one pending frame per chunk given to the decoder, all with the call's timestamp, keeps only the last and returns it, returns null when none was queued, and gives an unconfigured decoder a key frame first |
| H264.DecodeLoopQueue | core/decoders/h264.ts:243-263 | every frame prepared goes to the end of the queue with the call's timestamp, and only the last is kept |
| H264.DecodeLoopGated | core/decoders/h264.ts:230-241 | a decoder that is not configured is given nothing until a key frame arrives with the SPS known |
| H264.DecodeLoopKeeps | core/decoders/h264.ts:218-256 | the loop leaves the context's size and age alone and gives the decoder one chunk per pending frame |
| H264.ContextIdInjective | core/decoders/h264.ts:276-278 | different rectangles have different context keys |
| H264.OldestFirstMinimum | core/decoders/h264.ts:280-290 | the oldest context is the first of those least recently used, and there is none only when every age reaches Number.MAX_VALUE |
| H264.H264Decoder.constructor | core/decoders/h264.ts:271-274 | a new decoder has tick 0 and no contexts |
| H264.H264Decoder.FindOldestContextId | core/decoders/h264.ts:280-290 | returns the key of the context `H264.Oldest` picks, or undefined |
| H264.H264Decoder.Evict | core/decoders/h264.ts:293-299 | with 64 contexts or more the oldest is deleted, as `H264.Evicted` says |
| H264.CreatedEvicts | core/decoders/h264.ts:292-303 | with 64 contexts the oldest gives way and the new key goes last |
| H264.H264Decoder.CreateContext | core/decoders/h264.ts:292-303 | a fresh context is stored under the rectangle's key after the eviction |
| H264.H264Decoder.GetContext | core/decoders/h264.ts:305-308 | the context stored under the rectangle's key, made when missing, as `H264.Got` says |
| H264.GotFacts | core/decoders/h264.ts:292-308 | after a lookup the key is present once, at most 64 contexts are kept, and every other context was there before |
| H264.H264Decoder.ResetContext | core/decoders/h264.ts:310-312 | the rectangle's context is deleted and the others keep their order |
| H264.RemoveFacts | core/decoders/h264.ts:310-312 | deleting a key removes exactly that property and keeps the keys distinct |
| H264.H264Decoder.ResetAllContexts | core/decoders/h264.ts:314-316 | no context is left |
| H264.H264Decoder.ApplyResets | core/decoders/h264.ts:334-338 | flag bit 1 drops every context, else flag bit 0 drops the rectangle's |
| H264.StampResetsAll | core/decoders/h264.ts:334-341 | with bit 1 of the flags the rectangle's context is the only one and is new |
| H264.StampResetsOne | core/decoders/h264.ts:336-341 | with bit 0 of the flags the rectangle's context is new |
| H264.StampReuses | core/decoders/h264.ts:305-308 | without reset flags an existing context is reused as it is |
| H264.H264Decoder.StampContext | core/decoders/h264.ts:334-341 | the resets, the lookup and the tick stamp leave the registry as `H264.Stamped` says |
| H264.H264Decoder.Touch | core/decoders/h264.ts:341 | the context's age becomes the tick, and the tick goes up by one |
| H264.ReadHeader | core/decoders/h264.ts:323-332 | length and flags are read only when the 8-byte header and the whole payload are there, and otherwise nothing is consumed |
| H264.H264Decoder.DecodeRect | core/decoders/h264.ts:318-352 | one call leaves the registry, the read index and the display log exactly as `H264.RectStep` says |
| H264.RectOutcome | core/decoders/h264.ts:318-352 | the call waits, consuming and changing nothing, exactly when the header or the payload is incomplete; otherwise it consumes both, stamps the rectangle's context with the tick and draws at most one video frame, none for an empty payload |
| H264.ApplyStamps | core/decoders/h264.ts:334-349 | the rectangle's context is stamped with the tick, an empty payload returns no frame, and a returned frame carries the call's timestamp |
| H264.RectKeepsRegistry | core/decoders/h264.ts:292-352 | at most 64 contexts, one per key, each last used before the tick, is kept by every call |
| EventTarget.EventTargetMixin.constructor | core/util/eventtarget.ts:14-16 | a new target has no listeners and has called nothing |
| EventTarget.EventTargetMixin.AddEventListener | core/util/eventtarget.ts:18-23 | the registry becomes `EventTarget.Add` of the old one and nothing is called |
| EventTarget.AddOrder | core/util/eventtarget.ts:18-23 | the first listener of a type creates its set; a later one goes to the end of it unless it is already there |
| EventTarget.AddTwice | core/util/eventtarget.ts:18-23 | adding the same callback twice leaves one registration |
| EventTarget.EventTargetMixin.RemoveEventListener | core/util/eventtarget.ts:25-29 | the registry becomes `EventTarget.Remove` of the old one and nothing is called |
| EventTarget.RemoveOnly | core/util/eventtarget.ts:25-29 | removing under an unknown type changes nothing; otherwise only that callback leaves that type's set, the set stays and other types are untouched |
| EventTarget.AddRemove | core/util/eventtarget.ts:18-29 | removing a callback just added to an existing set restores the registry |
| EventTarget.EventTargetMixin.DispatchEvent | core/util/eventtarget.ts:31-38 | every callback of the event's type is called once with the event, in insertion order, the registry is unchanged, and the result is `EventTarget.DispatchResult` |
| EventTarget.DispatchUnknown | core/util/eventtarget.ts:32-34 | an event whose type was never registered calls nothing and yields true, even when already prevented |
| EventTarget.DispatchRegistered | core/util/eventtarget.ts:35-37 | for a registered type the result is false exactly when the event was already prevented, or is cancelable and one of its callbacks prevents it |
| EventTarget.RemoveLast | core/util/eventtarget.ts:25-37 | a type whose last listener was removed keeps an empty set, so its events yield whether they were already prevented rather than a plain true |
| EventTarget.DispatchStep | core/util/eventtarget.ts:35-36 | each callback called adds one invocation, and the event is prevented afterwards if it was before or that callback prevents it |
| Localization.Localizer.constructor | app/localization.ts:21-27 | a new localizer has language "en" and no dictionary |
| Localization.Localizer.Setup | app/localization.ts:30-36 | the language becomes the negotiated one (English when none is chosen), nothing is fetched for English, otherwise base + language + ".json" is fetched, and a failed response is an error that leaves no dictionary |
| Localization.Localizer.SetupLanguage | app/localization.ts:50-96 | the outer loop assigns the language `Localization.Choose` picks and otherwise keeps the old one |
| Localization.Localizer.ExactPass | app/localization.ts:56-72 | the first pass stops at the first supported language with the same primary tag and region |
| Localization.Localizer.GenericPass | app/localization.ts:79-95 | the third pass stops at the first supported language with the same primary tag and no region |
| Localization.TagOfSplit | app/localization.ts:51-54 | the compared tag is parts 0 and 1 of the lower-cased tag with its first `_` replaced by `-`, split at `-` |
| Localization.NormalAt | app/localization.ts:51-53 | each character is lower-cased, and only the first `_` becomes `-` |
| Localization.ExactFirst | app/localization.ts:56-72 | an exact match of the first user language wins over anything the later ones would match, and the first such supported entry is chosen |
| Localization.EnglishStops | app/localization.ts:74-77 | an English user language without an exact match keeps English, whatever the later user languages are |
| Localization.Skipped | app/localization.ts:50-96 | a user language that matches nothing is skipped |
| Localization.GenericStaysGeneric | app/localization.ts:79-95 | user languages without a region never select a regional language |
| Localization.RegionFallbackExample | app/localization.ts:50-96 | a pt-BR user offered fr, pt and de gets pt |
| Localization.BaseSlash | app/localization.ts:100-115 | a base URL with or without its trailing `/` gives the same dictionary path, base + "/" + language + ".json" |
| Localization.Localizer.SetupDictionary | app/localization.ts:99-121 | nothing is fetched for English; otherwise the dictionary path is fetched, a good response becomes the dictionary and a failed one is an error |
| Localization.Localizer.Get | app/localization.ts:124-131 | the dictionary text for the id when it is there and not empty, else the id itself |
| WebUtil.LastMatchIs | app/webutil.ts:48-49 | the greedy `.*` before `[?&]name=` settles on the last position where the separator and `name=` occur |
| WebUtil.QueryVarLast | app/webutil.ts:46-57 | a query variable is the decoded text after the last `?name=` or `&name=` of the address, up to `&` or `#`, and the default (or null) exactly when there is none |
| WebUtil.HashVarLast | app/webutil.ts:60-71 | a fragment variable is the decoded text after the last `&name=` or `#name=` of the fragment, up to `&`, and the default (or null) exactly when there is none |
| WebUtil.ConfigVarPrecedence | app/webutil.ts:75-84 | a variable in the fragment wins, even with an empty value; without one the query decides, with the default |
| WebUtil.QueryVarOf | app/webutil.ts:46-57 | an address ending `?name=v` or `&name=v`, with no later separator, gives the decoded `v` |
| WebUtil.FragmentWins | app/webutil.ts:75-84 | a fragment `#name=v` wins over anything in the query |
| WebUtil.QueryOnly | app/webutil.ts:75-84 | without a fragment, `?name=v` gives the decoded `v` |
| WebUtil.ReadCookie | app/webutil.ts:111-127 | splitting the cookie string at `;` and looking the name up gives `WebUtil.Cookie` |
| WebUtil.FindCookie | app/webutil.ts:116-124 | the loop returns the rest of the first piece that starts with `name=` once its leading spaces are dropped, as `WebUtil.CookieLookup` says |
| WebUtil.TrimLeading | app/webutil.ts:118-120 | the inner loop drops exactly the leading spaces |
| WebUtil.TrimStartSpaces | app/webutil.ts:118-120 | trimming keeps a suffix and drops only spaces |
| WebUtil.CookieIn | app/webutil.ts:111-127 | for a cookie string made of pieces, the value read is that of the first piece named `name`, whatever follows it |
| WebUtil.CookieAbsent | app/webutil.ts:126 | without a piece named `name` the default, or null, is read |
| WebUtil.CookieNoSeparator | app/webutil.ts:111-127 | a value read never holds a `;` |
| WebUtil.LookupExample | app/webutil.ts:116-124 | in `a=1; b=2` the value of `b` is `2`, the space after `;` being dropped |
| WebUtil.PrefixLookupExample | app/webutil.ts:121-123 | in `ab=1; a=2` the value of `a` is `2`, and `c` has none |
| WebUtil.Settings.constructor | app/webutil.ts:138 | the cache starts empty over the given storage |
| WebUtil.Settings.InitSettings | app/webutil.ts:140-148 | with local storage the cache is emptied; with the extension storage it is a copy of the stored items |
| WebUtil.Settings.SetSetting | app/webutil.ts:151-153 | only the cache changes, as `WebUtil.Set` says |
| WebUtil.SetThenRead | app/webutil.ts:151-185 | setting a value leaves the storage alone, and a read returns the value |
| WebUtil.Settings.WriteSetting | app/webutil.ts:156-165 | the cache and storage change as `WebUtil.Write` says |
| WebUtil.WriteThenRead | app/webutil.ts:156-185 | writing the value already cached changes nothing; otherwise a read returns the new value and local storage holds it |
| WebUtil.Settings.ReadSetting | app/webutil.ts:167-185 | the cache and the value returned are as `WebUtil.Read` says |
| WebUtil.FirstReadLoads | app/webutil.ts:170-175 | with local storage, the first read of an uncached name loads it and caches it, null when absent, and gives the default for null |
| WebUtil.CachedReadIgnoresStorage | app/webutil.ts:170-171 | once cached, a name reads the same whatever the storage then holds, and the read changes nothing |
| WebUtil.AbsentStaysAbsent | app/webutil.ts:170-184 | a name found absent stays absent for later reads, each giving its own default, even after the storage gains it |
| WebUtil.Settings.EraseSetting | app/webutil.ts:187-200 | the name leaves the cache and the storage, as `WebUtil.Erase` says |
| WebUtil.EraseThenReload | app/webutil.ts:187-200 | after an erase, the next read with local storage loads the name from storage again and sees a value stored after the erase |
| AES.AESECBCipher.constructor | core/crypto/aes.ts:4-6 | a new ECB cipher has no key |
| AES.AESECBCipher.ImportKey | core/crypto/aes.ts:18-21 | the raw key becomes the cipher's AES key |
| AES.AESECBCipher.Encrypt | core/crypto/aes.ts:23-37 | null when the length is not a whole number of blocks or no key is set; otherwise every 16-byte block is replaced by its own encryption, as `AES.Ecb` says |
| AES.EcbStep | core/crypto/aes.ts:29-35 | each pass of the loop replaces block i by its encryption and keeps the blocks after it |
| AES.AESEAXCipher.constructor | core/crypto/aes.ts:51-59 | a new EAX cipher has no raw, CTR or CBC key |
| AES.AESEAXCipher.ImportKey | core/crypto/aes.ts:142-149 | the raw key is kept and becomes both the CTR and the CBC key, and the CMAC subkeys are derived from it |
| AES.AESEAXCipher.EncryptBlock | core/crypto/aes.ts:65-71 | one block through AES-CBC with a zero IV, cut to 16 bytes, is the block's AES encryption |
| AES.CbcOneBlock | core/crypto/aes.ts:65-71 | the first output block of CBC with a zero IV is the AES encryption of the input block |
| AES.AESEAXCipher.InitCmac | core/crypto/aes.ts:73-87 | k1 is L = AES(0^128) doubled and k2 is k1 doubled, in the sense of section 2.3 of RFC 4493, and the keys are untouched |
| AES.SubkeyShifts | core/crypto/aes.ts:76-84 | the one-pass shifting loop with the `lut` table yields k1 = double(L) and k2 = double(k1) |
| AES.K2IsDoubleDouble | core/crypto/aes.ts:78-83 | shifting L left two bits and folding in `lut` of its top two bits, with the carry into byte 14, is doubling twice |
| AES.LastByte1 | core/crypto/aes.ts:81-84 | the last byte of k1 gets 0x87 exactly when the top bit of L is set |
| AES.AESEAXCipher.CmacBuffer | core/crypto/aes.ts:111-126 | the buffer is the prefix block, the data, then either the complete last block xored with k1 or 0x80 padding with the last block xored with k2, as the CMAC input of section 2.4 of RFC 4493 |
| AES.CmacBufferComplete | core/crypto/aes.ts:117-121 | for data of whole blocks the buffer is the message with k1 xored into its last block |
| AES.CmacBufferPartial | core/crypto/aes.ts:121-126 | for a partial last block the buffer gets 0x80 right after the data, zeros after it, and k2 xored into that block |
| AES.CmacFromBuffer | core/crypto/aes.ts:127-133 | the CBC output block at length - 32 of the buffer's encryption is the AES-CMAC of the message |
| AES.AESEAXCipher.ComputeCmac | core/crypto/aes.ts:107-134 | an empty result for a prefix that is not 16 bytes; otherwise the AES-CMAC of the prefix block followed by the data |
| AES.Prefix | core/crypto/aes.ts:55-58 | the EAX tweak blocks are 15 zero bytes followed by 0, 1 or 2 |
| AES.AESEAXCipher.Encrypt | core/crypto/aes.ts:151-165 | the output is the CTR encryption of the message from OMAC^0 of the nonce followed by the tag OMAC^2(C) xor OMAC^0(N) xor OMAC^1(AD), as `AES.Seal` says |
| AES.MixTag | core/crypto/aes.ts:158-160 | the tag loop xors the three OMAC values byte by byte |
| AES.AESEAXCipher.Decrypt | core/crypto/aes.ts:167-188 | null unless the last 16 bytes equal the tag recomputed from the rest; otherwise the CTR decryption of the rest, as `AES.Open` says |
| AES.SameBytes | core/crypto/aes.ts:178-185 | the comparison succeeds exactly when both tags have the same length and agree in every byte |
| AES.OpenSeal | core/crypto/aes.ts:151-188 | decrypting what was encrypted under the same key, nonce and associated data gives the message back |
| AES.OpenRejectsTag | core/crypto/aes.ts:175-185 | a sealed message whose 16-byte tag is changed is rejected |
| AES.OpenOnlySealed | core/crypto/aes.ts:167-188 | anything accepted is exactly the encryption of what it decrypts to |
| AES.CtrInverse | core/crypto/aes.ts:89-105 | CTR with the same key and counter undoes itself |
| RSA.Base64UrlToStd | core/crypto/rsa.ts:36-40 | '-' and '_' become '+' and '/', everything else is kept, and '=' pads the text to the next multiple of four characters |
| RSA.PadArray | core/crypto/rsa.ts:42-46 | a `length`-byte array of leading zeros followed by the input, and an error exactly when the input is longer than `length` |
| RSA.PadArrayValue | core/crypto/rsa.ts:42-46 | left padding keeps the big-endian integer the array stands for |
| RSA.RSACipher.constructor | core/crypto/rsa.ts:20-30 | a new cipher has zero sizes, no key members and is not extractable |
| RSA.RSACipher.GenerateKey | core/crypto/rsa.ts:54-73 | keyLength is the modulus length and keyBytes its byte ceiling; n, e, d are the JWK members decoded and left-padded to keyBytes, with their integers; a member longer than keyBytes throws and leaves the earlier members set |
| RSA.GenerateKey | core/crypto/rsa.ts:48-52 | a fresh cipher with n, e and d all keyBytes long, or the error of the member that did not fit |
| RSA.RSACipher.ImportRaw | core/crypto/rsa.ts:84-99 | a throw that changes nothing exactly when n and e differ in length; otherwise keyBytes is that length, keyLength eight times it, n and e are stored with their integers and d is untouched |
| RSA.ImportKey | core/crypto/rsa.ts:75-82 | only the usage list ["encrypt"] is accepted; the result is a fresh public-only cipher holding n and e |
| RSA.NonZero | core/crypto/rsa.ts:107-109 | the mapping of a random byte into 1..255, fixing 0 to 1 and 255 to 255 |
| RSA.PaddingString | core/crypto/rsa.ts:105-109 | PS has the asked length and no zero byte |
| RSA.RSACipher.Encrypt | core/crypto/rsa.ts:101-117 | null for a message longer than keyBytes - 11; otherwise 0x00 0x02 PS 0x00 M raised to e modulo n, written in keyBytes bytes |
| RSA.EncryptValue | core/crypto/rsa.ts:101-117 | a result exactly when the message fits in keyBytes - 11 bytes, and then keyBytes long |
| RSA.EncodeBlock | core/crypto/rsa.ts:105-113 | the block built for a message that fits is keyBytes long, has at least eight padding bytes and unpads to the message |
| RSA.RSACipher.Decrypt | core/crypto/rsa.ts:119-139 | null unless the input is keyBytes long; otherwise the block raised to d modulo n, unpadded |
| RSA.DecryptValue | core/crypto/rsa.ts:119-122 | an input that is not keyBytes long is refused, and any message recovered is at least three bytes shorter than the block |
| RSA.ZeroFrom | core/crypto/rsa.ts:129-134 | the index of the first zero byte at or after k, or none when every later byte is nonzero |
| RSA.Unpad | core/crypto/rsa.ts:126-138 | null exactly when the block does not start 0x00 0x02 or has no zero byte from index 2 on; otherwise the bytes after the first such zero |
| RSA.UnpadEncode | core/crypto/rsa.ts:126-138 | unpadding inverts the encoding for any padding string without zero bytes |
| RSA.UnpadEmptyPs | core/crypto/rsa.ts:129-138 | an empty padding string is accepted too: the scan does not enforce the eight-byte minimum of RFC 8017 |
| RSA.DecryptEncrypt | core/crypto/rsa.ts:101-139 | with inverse exponents and a modulus whose top byte is nonzero, decrypting an encryption gives the message back |
| RSA.BlockBelowModulus | core/crypto/rsa.ts:110-115 | the encoded block, starting with a zero byte, is below such a modulus |
| RSA.RSACipher.ExportKey | core/crypto/rsa.ts:141-146 | a throw exactly when the key is not extractable; otherwise n, e and d as stored |
| DH.DHPublicKey.constructor | core/crypto/dh.ts:6-8 | the wrapper holds the given bytes |
| DH.DHPublicKey.ExportKey | core/crypto/dh.ts:14-16 | the wrapped bytes come back unchanged |
| DH.DHCipher.constructor | core/crypto/dh.ts:27-31 | a new cipher has no g, p or private key |
| DH.DHCipher.GenerateKeyFields | core/crypto/dh.ts:43-53 | keyBytes is the length of p, the private key that many random bytes, and the public key g^x mod p in keyBytes big-endian bytes |
| DH.GenerateKey | core/crypto/dh.ts:37-41 | the exported public key is exactly the cipher's public key, p's length long |
| DH.DHCipher.DeriveBits | core/crypto/dh.ts:55-61 | the larger of ceil(length / 8) and keyBytes bytes, holding pub^x mod p reduced to that width |
| DH.PublicValue | core/crypto/dh.ts:51-52 | a public key read back from its bytes is g^x mod p |
| DH.Agreement | core/crypto/dh.ts:43-61 | both parties over the same g and p derive the same secret from each other's public key |
| RA2.Increment | core/ra2.ts:48 | the counter keeps its length after each message |
| RA2.IncrementLE | core/ra2.ts:48 | read little-endian, the counter goes up by one modulo 2^128 |
| RA2.IncrementStops | core/ra2.ts:48 | the carry stops at the first byte below 255: the bytes before it become 0, it goes up by one, the rest is kept |
| RA2.IncrementWraps | core/ra2.ts:48 | a counter of all 255s wraps to all zeros |
| RA2.Frame | core/ra2.ts:41-53 | a frame is 18 bytes longer than the message and starts with its length modulo 65536 in two big-endian bytes |
| RA2.Unframe | core/ra2.ts:55-64 | a message comes back only from data of at least 16 bytes, and is 16 bytes shorter |
| RA2.FrameRoundTrip | core/ra2.ts:41-64 | a receiver with the same key and counter reads the length field as the message length and decrypts the rest to the message |
| RA2.RA2Cipher.constructor | core/ra2.ts:31-34 | no key yet and a fresh counter of sixteen zero bytes |
| RA2.RA2Cipher.SetKey | core/ra2.ts:36-39 | a fresh AES-EAX cipher whose key is imported from the raw bytes |
| RA2.RA2Cipher.Advance | core/ra2.ts:48 | the in-place carry loop leaves the counter incremented |
| RA2.RA2Cipher.MakeMessage | core/ra2.ts:41-53 | the frame of the message under the counter before the call, and the counter incremented |
| RA2.RA2Cipher.ReceiveMessage | core/ra2.ts:55-64 | the decryption under the counter before the call, or null when the tag does not match; the counter is incremented either way |
| RA2.Exchange | core/ra2.ts:41-64 | two ciphers with the same key and counter: what one sends the other receives intact, and their counters stay equal |
| RA2Auth.SettleAt | core/ra2.ts:91-171 | settling a promise through a slot keeps the number of promises |
| RA2Auth.WaitSockSlots | core/ra2.ts:91-107 | a new promise, resolved at once when enough bytes are queued, otherwise pending with the socket check and reject stored |
| RA2Auth.WaitApproveSlots | core/ra2.ts:109-114 | a new pending promise whose resolve and reject are stored |
| RA2Auth.WaitCredentialsSlots | core/ra2.ts:116-140 | a new promise, resolved at once when the subtype's credentials are present, otherwise pending with the credentials check and reject stored |
| RA2Auth.CheckSockSlots | core/ra2.ts:97-103 | a stored socket check resolves its promise and clears both socket slots once enough bytes are queued |
| RA2Auth.CheckCredentialsSlots | core/ra2.ts:130-136 | a stored credentials check resolves its promise and clears both credentials slots once the credentials are present |
| RA2Auth.ApproveSlots | core/ra2.ts:151-156 | the pending approval resolves and its resolve slot is cleared, the reject slot is left |
| RA2Auth.DisconnectSlots | core/ra2.ts:158-171 | every stored reject is called with "disconnect normally" and its slot cleared |
| RA2Auth.DisconnectSettlesAll | core/ra2.ts:158-171 | after a disconnect no promise of the handshake is left pending |
| RA2Auth.WaitSockKeepsHeld | core/ra2.ts:91-107 | a socket wait taken while no earlier one is pending keeps every pending promise reachable from a slot |
| RA2Auth.WaitApproveKeepsHeld | core/ra2.ts:109-114 | the same for an approval wait |
| RA2Auth.WaitCredentialsKeepsHeld | core/ra2.ts:116-140 | the same for a credentials wait |
| RA2Auth.CheckKeepsHeld | core/ra2.ts:142-149 | running the stored checks keeps every pending promise reachable |
| RA2Auth.ApproveKeepsHeld | core/ra2.ts:151-156 | approving keeps every pending promise reachable |
| RA2Auth.ServerKeyBytes | core/ra2.ts:178-184 | accepted exactly for 1024 to 8192 bits, with the "too short" or "too long" error otherwise, and then ceil(bits / 8) bytes |
| RA2Auth.ServerKeyBytesRange | core/ra2.ts:184-187 | an accepted key has 128 to 1024 bytes: room for the 16-byte random under PKCS #1 v1.5 padding and a size that fits two bytes |
| RA2Auth.Place | core/ra2.ts:190-193 | `set(src, off)` copies src over the bytes from off and keeps the rest |
| RA2Auth.JoinedIsConcat | core/ra2.ts:190-193 | two arrays set one after the other into a buffer of their joint size are their concatenation |
| RA2Auth.ServerPublicKey | core/ra2.ts:190-193 | the blob shown for approval is the 4-byte length field, then n, then e |
| RA2Auth.ClientKeyLengthField | core/ra2.ts:214-217 | the masked shifts give four bytes |
| RA2Auth.ClientPublicKey | core/ra2.ts:213-219 | the client's blob is the length field of 2048, then n, then e |
| RA2Auth.ClientKeyLengthAccepted | core/ra2.ts:214-217 | the client's length field reads back as 2048, which the server-side bounds accept as 256 bytes |
| RA2Auth.ClientRandomMessage | core/ra2.ts:228-231 | the client random message is 2 + keyBytes long and carries the ciphertext from byte 2 on |
| RA2Auth.ClientRandomMessageLayout | core/ra2.ts:228-231 | for a ciphertext as long as the key, the message is the 2-byte big-endian size followed by the ciphertext |
| RA2Auth.SessionKey | core/ra2.ts:248-257 | a session key is the first 16 bytes of the SHA-1 of the two randoms in order |
| RA2Auth.HashInput | core/ra2.ts:264-269 | a hash input has the size of both blobs plus 8 |
| RA2Auth.HashInputLayout | core/ra2.ts:264-269 | with blobs of the sizes the handshake builds, each hash input is the own blob followed by the other's |
| RA2Auth.HandshakeHash | core/ra2.ts:264-273 | each side's hash is the SHA-1 of its own blob followed by the other's |
| RA2Auth.Truncate | core/ra2.ts:322-326 | `slice(0, 255)` keeps a prefix of at most 255 bytes, and the whole of a shorter input |
| RA2Auth.CredentialsMessage | core/ra2.ts:327-335 | the credentials message is two bytes longer than the two fields |
| RA2Auth.ParseCredentials | core/ra2.ts:327-335 | a parsed message accounts for every byte: two length bytes and the two fields |
| RA2Auth.CredentialsRoundTrip | core/ra2.ts:327-335 | fields of at most 255 bytes are read back unchanged from the message |
| RA2Auth.BuildCredentials | core/ra2.ts:327-335 | the byte-by-byte filling loops produce exactly the credentials message |
| RA2Auth.SameHash | core/ra2.ts:285-289 | the comparison loop accepts exactly when the received hash equals the expected one |
| RA2Auth.ImportServerKey | core/ra2.ts:186-189 | the server's n and e are imported as a public-only key of n's length |
| RA2Auth.GenerateClientKey | core/ra2.ts:203-212 | a 2048-bit key pair is produced exactly when its exported members fit 256 bytes, with its exported n and e |
| RA2Auth.EncryptClientRandom | core/ra2.ts:224-227 | 16 random bytes, encrypted with PKCS #1 v1.5 under the server's key |
| RA2Auth.SessionCiphers | core/ra2.ts:248-261 | two fresh message ciphers with separate zero counters, the client's keyed by SHA-1(server random ‖ client random) and the server's by SHA-1(client random ‖ server random) |
| RA2Auth.RequiredEvents | core/ra2.ts:303-318 | at most one `credentialsrequired` event |
| RA2Auth.RequiredExactlyWhenMissing | core/ra2.ts:303-315 | for subtypes 1 and 2, credentials are asked for exactly when the wait could not resolve at once |
| RA2Auth.UsernameField | core/ra2.ts:320-325 | at most 255 bytes, and empty unless the subtype is 1 |
| RA2Auth.PasswordField | core/ra2.ts:326 | a prefix of at most 255 bytes of the encoded password |
| RA2Auth.CredentialsDelivered | core/ra2.ts:327-337 | the server, with the same key and counter, authenticates the credentials frame and parses both fields back |
| RA2Auth.RSAAESAuthenticationState.constructor | core/ra2.ts:78-89 | not started, every slot empty and no events |
| RA2Auth.RSAAESAuthenticationState.WaitSock | core/ra2.ts:91-107 | the slots change as `WaitSockSlots` says, and the promise is the next one |
| RA2Auth.RSAAESAuthenticationState.WaitApproveKey | core/ra2.ts:109-114 | the slots change as `WaitApproveSlots` says |
| RA2Auth.RSAAESAuthenticationState.WaitCredentials | core/ra2.ts:116-140 | the slots change as `WaitCredentialsSlots` says |
| RA2Auth.RSAAESAuthenticationState.CheckInternalEvents | core/ra2.ts:142-149 | the socket check runs, then the credentials check |
| RA2Auth.RSAAESAuthenticationState.ApproveServer | core/ra2.ts:151-156 | the slots change as `ApproveSlots` says |
| RA2Auth.RSAAESAuthenticationState.Disconnect | core/ra2.ts:158-171 | the slots change as `DisconnectSlots` says, which settles every pending promise |
| RA2Auth.RSAAESAuthenticationState.Start | core/ra2.ts:173-176 | the started flag is set and a 4-byte socket wait is taken |
| RA2Auth.RSAAESAuthenticationState.ReadServerKeyLength | core/ra2.ts:177-185 | the 4-byte field is peeked and then shifted as a 32-bit length, checked against the bounds, and a wait for n and e is taken |
| RA2Auth.RSAAESAuthenticationState.ReadServerKey | core/ra2.ts:186-200 | n and e are shifted and imported; the blob is the length field, n and e; a `serververification` event carries it and an approval wait is taken |
| RA2Auth.RSAAESAuthenticationState.SendClientKey | core/ra2.ts:203-221 | the generated key's blob is queued and flushed, or nothing is sent when the key does not fit |
| RA2Auth.RSAAESAuthenticationState.SendClientRandom | core/ra2.ts:224-236 | the client random message goes out, and a 2-byte wait is taken |
| RA2Auth.RSAAESAuthenticationState.ReadServerRandom | core/ra2.ts:236-245 | "wrong encrypted message length" unless the length is 256, "corrupted server encrypted random" unless the decryption gives 16 bytes, and otherwise those 16 bytes |
| RA2Auth.RSAAESAuthenticationState.SendMessage | core/ra2.ts:274-275 | the frame under the cipher's counter is appended to what was sent, and the counter advances |
| RA2Auth.RSAAESAuthenticationState.SendClientHash | core/ra2.ts:263-276 | the client hash goes out framed, and a 38-byte wait is taken |
| RA2Auth.RSAAESAuthenticationState.ReceiveServerHash | core/ra2.ts:264-289 | "wrong server hash" for a length other than 20 or a mismatch, "failed to authenticate the message" for a bad tag, and success exactly when the message decrypts to SHA-1 of the server's key blob followed by the client's |
| RA2Auth.RSAAESAuthenticationState.CheckServerHash | core/ra2.ts:264-292 | accepted exactly when the length is 20 and the message decrypts to SHA-1 of the server's key blob followed by the client's; an accepted hash goes on to a 19-byte wait, a refused one leaves the slots alone |
| RA2Auth.RSAAESAuthenticationState.ReceiveSubtype | core/ra2.ts:292-301 | "wrong subtype" for a length other than 1, "failed to authenticate the message" for a bad tag, else the decrypted byte |
| RA2Auth.RSAAESAuthenticationState.AwaitCredentials | core/ra2.ts:302-319 | the credentials wait is taken and the events are those `RequiredEvents` gives; subtypes other than 1 and 2 are refused with "wrong subtype" |
| RA2Auth.RSAAESAuthenticationState.DispatchRequired | core/ra2.ts:303-315 | the events dispatched are those `RequiredEvents` gives |
| RA2Auth.RSAAESAuthenticationState.SendCredentials | core/ra2.ts:320-337 | the credentials message of the two truncated fields goes out framed under the client cipher |

## Left out

- EventTarget.EventTargetMixin.DispatchEvent: a callback's only effect
  kept is whether it calls `preventDefault()`. A callback that adds or
  removes listeners while `forEach` runs (so that an added one is visited
  and a removed one is skipped), or one that throws and aborts the
  dispatch, is not modelled; the contract that every callback is called
  once and the registry is unchanged holds only for callbacks without
  those effects.
- Strings.LowerChar: lower-cases ASCII letters only, where the source's
  `toLowerCase` maps all of Unicode; `Strings.Lower` and the language tag
  matching built on it inherit this.
- Localization.Localizer.Get: the dictionary is a map of its own entries;
  a lookup that in the source finds an `Object.prototype` member (such as
  `get("toString")` returning a function) is not modelled.
- WebUtil.Settings.ReadSetting: the `name in settings` test sees only the
  settings' own entries; a name such as `constructor`, which the source
  finds on `Object.prototype` and so never reads from storage, is not
  modelled.
- RA2Auth.RSAAESAuthenticationState.ReadServerRandom: the ciphertext is
  what is queued, at most 256 bytes. The source's receive buffer is
  larger than its data, so a short queue there yields 256 bytes whose
  tail is stale buffer content and a read index past the data; those
  stale bytes and that index are not modelled.
- The socket lifecycle and transport (open, attach, close, ready states,
  base64 mode, buffer growth) are not part of this model; only the receive
  queue's read operations and the send queue's push and flush are.
- Tight: the flat pixel loops of the copy, palette, two-colour and
  gradient conversions visit the pixels in the same order as the nested
  loops of the source; the gradient loop reads the left, upper and
  upper-left neighbours back from the output buffer rather than keeping
  them in three-byte arrays, and the first row's plain left prediction is
  the clamped prediction with the upper neighbours at 0.
- Tight: the three filters share one `FetchData` method for the
  duplicated raw-or-inflated data blocks of the source.
- Tight: error messages leave out the numeric suffix the source appends
  ("(ctl: N)").
- Tight: the scratch buffer starts as an empty array instead of null.
- Tight: logging, the unused colour-depth parameter and the blitImage and
  fillRect flags are not modelled.
- ZRLE: error messages leave out the numbers the source appends to them
  ("Unknown subencoding: N", the index, length and sizes of the palette
  run errors).
- ZRLE: the contents of the tile buffer beyond the decoded tile, and after
  a tile that throws, are not stated. The source keeps writing an
  over-long plain run past the tile's end; the model cuts it there, and
  the display never reads those bytes.
- ZRLE: the colour-depth parameter and the blitImage offset and flag are
  not modelled; the loops and the dispatch are split into methods of one
  pass or one case each.
- JPEG and H.264: error messages leave out the values the source appends
  ("(byte: N)", "(length: N)", the expected and received timestamps).
- H.264: the browser's `VideoDecoder`, `EncodedVideoChunk` and
  `VideoFrame.close()` are not modelled; the decoder is its state (none,
  configured with a codec string, closed) and the log of chunks it was
  given, and the frames it produces arrive through `H264Context.HandleFrame`.
  `performance.now()` is a timestamp parameter. Decoding errors reported by
  the browser ("Failed to decode frame") and logging are not modelled.
- Localization: `translateDOM` (the walk over the document's elements)
  is not part of this model. The dictionary `fetch` is foreign code: its
  outcome, the parsed dictionary or the failed response's status, is a
  parameter.
- WebUtil: `createCookie`, `eraseCookie`, `initLogging` and `logOnce` are
  not modelled, and neither are the `DOMException`s of `localStorage`,
  which the source only logs. `chrome.storage.sync` is modelled as a
  synchronous map: its callbacks run at once.
- WebUtil.QueryVar: the variable name is matched as plain text, here and
  in `WebUtil.HashVar`; a name holding regular-expression metacharacters,
  which the source would interpret, is not modelled.
- WebUtil: `decodeURIComponent` is a parameter, so a malformed escape
  sequence, which throws in the source, is not modelled.
- AES, RSA and DH: the WebCrypto operations (the AES block encryption, key
  import, RSA-OAEP key generation and JWK export, SHA-1, random bytes),
  `modPow` and `Base64.decode` are function parameters. The big-integer
  conversions are the big-endian value `BE` and its inverse `ToBE`;
  `core/crypto/bigint.ts` is not part of this model.
- AES: WebCrypto's rejection of a raw key that is not 16, 24 or 32 bytes
  long is not modelled; every key imports.
- `core/crypto/crypto.ts`, the name-based dispatch over the cipher classes,
  is not part of this model; the handshake calls the classes directly.
- RSA.RSACipher.Decrypt: requires the private exponent to be set, where
  the source would fail on a missing one with a type error.
- The `algorithm` and `hasStarted` getters, which only return a constant or
  a field, are not modelled as members; the fields are read directly.
- RA2: the nonce counter is incremented from byte 0 upward, that is
  little-endian, as the code does. A big-endian description of the
  counter does not match the code; the model follows the code.
- RA2Auth: Promise scheduling and `CustomEvent` dispatch are not modelled.
  Each stretch of the handshake between two waits on the socket, the
  approval or the credentials is a method; the WebCrypto and cipher awaits
  inside a stretch are synchronous calls; promises
  are numbered entries in the state's slots, and dispatched events are
  appended to an `events` log.
- RA2Auth: `getCredentials` is read as a snapshot parameter at each step,
  and `encodeUTF8` is a parameter.
- RA2Auth: error messages are the source's, with the key length appended
  where the source appends it; the WebCrypto failures of key generation
  and digest are not modelled.
