/** The CopyRect encoding: two 16-bit big-endian source coordinates, and
    the rectangle is copied from there on the screen. */
module CopyRect {
  import opened Bytes
  import opened Display
  import opened Websock

  method DecodeRect(x: int, y: int, width: int, height: int, sock: Socket, display: Display)
    returns (r: Result<bool>)
    requires sock.Valid()
    modifies sock, display
    ensures sock.Valid() && sock.data == old(sock.data)
    ensures sock.sendQueue == old(sock.sendQueue) && sock.sent == old(sock.sent)
    // fewer than 4 bytes: nothing consumed, nothing drawn
    ensures |old(sock.Unread())| < 4 ==>
              r == Ok(false) && sock.index == old(sock.index) && display.log == old(display.log)
    // otherwise exactly the 4 coordinate bytes are consumed and the call is done
    ensures |old(sock.Unread())| >= 4 ==>
              r == Ok(true) && sock.index == old(sock.index) + 4
    ensures |old(sock.Unread())| >= 4 && (width == 0 || height == 0) ==>
              display.log == old(display.log)
    ensures |old(sock.Unread())| >= 4 && width != 0 && height != 0 ==>
              var u := old(sock.Unread());
              display.log == old(display.log) + [CopyImage(U16(u[0], u[1]), U16(u[2], u[3]), x, y, width, height)]
  {
    var short := sock.Lacks(4);
    if short {
      return Ok(false);
    }
    var deltaX := sock.Shift16();
    var deltaY := sock.Shift16();
    if width == 0 || height == 0 {
      return Ok(true);
    }
    display.CopyImage(deltaX, deltaY, x, y, width, height);
    return Ok(true);
  }
}
