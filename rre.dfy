/** The RRE encoding: a 32-bit subrectangle count and a background colour,
    then per subrectangle a colour and four 16-bit fields. The count still
    to be read survives a call that runs out of data. */
module RRE {
  import opened Bytes
  import opened Display
  import opened Websock
  import opened Decoder

  /** The fill for one 12-byte subrectangle record: colour, sx, sy, sw, sh. */
  function SubrectFill(x: int, y: int, rec: seq<byte>): Call
    requires |rec| == 12
  {
    FillRect(x + U16(rec[4], rec[5]), y + U16(rec[6], rec[7]),
             U16(rec[8], rec[9]), U16(rec[10], rec[11]), rec[..4])
  }

  /** The subrectangle loop from byte `at` of the received data, with the
      display calls `log` already made: `n` records still to read. The
      state is the count left when the loop stops. */
  function Subrects(n: nat, data: seq<byte>, at: nat, log: seq<Call>, x: int, y: int): (o: Run<nat>)
    requires at <= |data|
    ensures o.result.Ok? && at <= o.at <= |data|
    ensures o.result == Ok(true) <==> o.state == 0
    decreases n
  {
    if n == 0 then Run(0, at, log, Ok(true))
    else if |data| - at < 12 then Run(n, at, log, Ok(false))
    else Subrects(n - 1, data, at + 12, log + [SubrectFill(x, y, data[at..at + 12])], x, y)
  }

  /** The loop only appends to the log, one fill and one 12-byte record
      per subrectangle; the count drops by exactly that many, and the loop
      stops short only when the next record is incomplete. */
  lemma {:induction false} SubrectsCount(n: nat, data: seq<byte>, at: nat, log: seq<Call>, x: int, y: int)
    requires at <= |data|
    ensures var o := Subrects(n, data, at, log, x, y);
            log <= o.log && o.at - at == 12 * (|o.log| - |log|) && o.state + (|o.log| - |log|) == n &&
            (o.state > 0 ==> |data| - o.at < 12)
    decreases n
  {
    if n > 0 && |data| - at >= 12 {
      var l := log + [SubrectFill(x, y, data[at..at + 12])];
      SubrectsCount(n - 1, data, at + 12, l, x, y);
      var o := Subrects(n - 1, data, at + 12, l, x, y);
      assert log <= l <= o.log;
    }
  }

  /** The i-th subrectangle drawn is the i-th 12-byte record, at its own
      offset and in its own colour. */
  lemma {:induction false} SubrectsDrawRecords(n: nat, data: seq<byte>, at: nat, log: seq<Call>, x: int, y: int, i: nat)
    requires at <= |data| && |log| + i < |Subrects(n, data, at, log, x, y).log|
    ensures at + 12 * i + 12 <= |data|
    ensures Subrects(n, data, at, log, x, y).log[|log| + i] == SubrectFill(x, y, data[at + 12 * i..at + 12 * i + 12])
    decreases n
  {
    var l := log + [SubrectFill(x, y, data[at..at + 12])];
    if i == 0 {
      SubrectsCount(n - 1, data, at + 12, l, x, y);
    } else {
      SubrectsDrawRecords(n - 1, data, at + 12, l, x, y, i - 1);
    }
  }

  /** One `decodeRect` call from the saved count `subrects`. */
  function Step(subrects: nat, data: seq<byte>, at: nat, log: seq<Call>, x: int, y: int, w: int, h: int): (o: Run<nat>)
    requires at <= |data|
    ensures o.result.Ok? && at <= o.at <= |data|
    // done only with the count back at 0, ready for the next rectangle
    ensures o.result == Ok(true) ==> o.state == 0
  {
    if subrects == 0 then
      if |data| - at < 8 then Run(0, at, log, Ok(false))
      else Subrects(U32(data[at..at + 4]), data, at + 8, log + [FillRect(x, y, w, h, data[at + 4..at + 8])], x, y)
    else
      Subrects(subrects, data, at, log, x, y)
  }

  /** The header is read only when the saved count is 0, and only whole;
      the background fill comes first and the count read from it then
      drops by one per subrectangle. A resumed call starts at the next
      subrectangle record. */
  lemma {:induction false} StepHeader(subrects: nat, data: seq<byte>, at: nat, log: seq<Call>, x: int, y: int, w: int, h: int)
    requires at <= |data|
    ensures var o := Step(subrects, data, at, log, x, y, w, h);
            (subrects == 0 && |data| - at < 8 ==> o == Run(0, at, log, Ok(false))) &&
            (subrects == 0 && |data| - at >= 8 ==>
               |log| < |o.log| && o.log[..|log|] == log && o.log[|log|] == FillRect(x, y, w, h, data[at + 4..at + 8]) &&
               o.state + (|o.log| - |log| - 1) == U32(data[at..at + 4]) &&
               o.at == at + 8 + 12 * (|o.log| - |log| - 1)) &&
            (subrects > 0 ==> o == Subrects(subrects, data, at, log, x, y))
  {
    if subrects == 0 && |data| - at >= 8 {
      var l := log + [FillRect(x, y, w, h, data[at + 4..at + 8])];
      SubrectsCount(U32(data[at..at + 4]), data, at + 8, l, x, y);
      var o := Subrects(U32(data[at..at + 4]), data, at + 8, l, x, y);
      assert o.log[..|log|] == l[..|log|] == log;
      assert o.log[|log|] == l[|log|];
    }
  }

  /** Delivering the bytes of a rectangle in two parts, with a call that
      returns false in between, draws and consumes exactly what one call on
      all the bytes does. */
  lemma {:induction false} SubrectsResume(n: nat, d1: seq<byte>, d2: seq<byte>, at: nat, log: seq<Call>, x: int, y: int)
    requires at <= |d1| && Subrects(n, d1, at, log, x, y).result == Ok(false)
    ensures var o1 := Subrects(n, d1, at, log, x, y);
            Subrects(n, d1 + d2, at, log, x, y) == Subrects(o1.state, d1 + d2, o1.at, o1.log, x, y)
    decreases n
  {
    if |d1| - at >= 12 {
      assert (d1 + d2)[at..at + 12] == d1[at..at + 12];
      SubrectsResume(n - 1, d1, d2, at + 12, log + [SubrectFill(x, y, d1[at..at + 12])], x, y);
    }
  }

  lemma {:induction false} StepResume(subrects: nat, d1: seq<byte>, d2: seq<byte>, at: nat, log: seq<Call>, x: int, y: int, w: int, h: int)
    requires at <= |d1| && Step(subrects, d1, at, log, x, y, w, h).result == Ok(false)
    ensures var o1 := Step(subrects, d1, at, log, x, y, w, h);
            Step(subrects, d1 + d2, at, log, x, y, w, h) == Step(o1.state, d1 + d2, o1.at, o1.log, x, y, w, h)
  {
    var o1 := Step(subrects, d1, at, log, x, y, w, h);
    if subrects == 0 && |d1| - at >= 8 {
      assert (d1 + d2)[at..at + 4] == d1[at..at + 4] && (d1 + d2)[at + 4..at + 8] == d1[at + 4..at + 8];
      SubrectsResume(U32(d1[at..at + 4]), d1, d2, at + 8, log + [FillRect(x, y, w, h, d1[at + 4..at + 8])], x, y);
    } else if subrects > 0 {
      SubrectsResume(subrects, d1, d2, at, log, x, y);
    }
  }

  /** Bytes after a finished rectangle are left for the next one. */
  lemma {:induction false} SubrectsDoneIgnoresRest(n: nat, d1: seq<byte>, d2: seq<byte>, at: nat, log: seq<Call>, x: int, y: int)
    requires at <= |d1| && Subrects(n, d1, at, log, x, y).result == Ok(true)
    ensures Subrects(n, d1 + d2, at, log, x, y) == Subrects(n, d1, at, log, x, y)
    decreases n
  {
    if n > 0 {
      assert (d1 + d2)[at..at + 12] == d1[at..at + 12];
      SubrectsDoneIgnoresRest(n - 1, d1, d2, at + 12, log + [SubrectFill(x, y, d1[at..at + 12])], x, y);
    }
  }

  /** The example of an RRE rectangle: a 4x4 green background and one 2x2
      blue subrectangle at the origin. */
  lemma {:induction false} GreenWithBlueSquare(u: seq<byte>)
    requires u == [0, 0, 0, 1, 0, 255, 0, 255, 0, 0, 255, 255, 0, 0, 0, 0, 0, 2, 0, 2]
    ensures Step(0, u, 0, [], 0, 0, 4, 4) == Run(0, 20, [FillRect(0, 0, 4, 4, [0, 255, 0, 255]),
                                                     FillRect(0, 0, 2, 2, [0, 0, 255, 255])], Ok(true))
  {
    GreenHeader(u);
    BlueSubrect(u);
  }

  /** The header part of the example: the count 1 and the green fill. */
  lemma {:induction false} GreenHeader(u: seq<byte>)
    requires u == [0, 0, 0, 1, 0, 255, 0, 255, 0, 0, 255, 255, 0, 0, 0, 0, 0, 2, 0, 2]
    ensures Step(0, u, 0, [], 0, 0, 4, 4) == Subrects(1, u, 8, [FillRect(0, 0, 4, 4, [0, 255, 0, 255])], 0, 0)
  {
    var none: seq<Call> := [];
    assert U32(u[0..4]) == 1 by {
      assert u[0..4] == [0, 0, 0, 1];
    }
    assert none + [FillRect(0, 0, 4, 4, u[4..8])] == [FillRect(0, 0, 4, 4, [0, 255, 0, 255])] by {
      assert u[4..8] == [0, 255, 0, 255];
    }
  }

  /** The subrectangle part of the example: one blue 2x2 fill at the origin. */
  lemma {:induction false} BlueSubrect(u: seq<byte>)
    requires u == [0, 0, 0, 1, 0, 255, 0, 255, 0, 0, 255, 255, 0, 0, 0, 0, 0, 2, 0, 2]
    ensures Subrects(1, u, 8, [FillRect(0, 0, 4, 4, [0, 255, 0, 255])], 0, 0) ==
            Run(0, 20, [FillRect(0, 0, 4, 4, [0, 255, 0, 255]), FillRect(0, 0, 2, 2, [0, 0, 255, 255])], Ok(true))
  {
    var bg := [FillRect(0, 0, 4, 4, [0, 255, 0, 255])];
    var blue := FillRect(0, 0, 2, 2, [0, 0, 255, 255]);
    assert SubrectFill(0, 0, u[8..20]) == blue by {
      var rec := u[8..20];
      assert rec == [0, 0, 255, 255, 0, 0, 0, 0, 0, 2, 0, 2];
      assert rec[..4] == [0, 0, 255, 255];
    }
    assert Subrects(1, u, 8, bg, 0, 0) == Subrects(0, u, 20, bg + [blue], 0, 0);
  }

  class RREDecoder {
    /** Subrectangles of the current rectangle still to be read. */
    var subrects: nat

    constructor()
      ensures subrects == 0
    {
      subrects := 0;
    }

    method DecodeRect(x: int, y: int, width: int, height: int, sock: Socket, display: Display)
      returns (r: Result<bool>)
      requires sock.Valid()
      modifies this, sock, display
      ensures sock.Valid() && sock.data == old(sock.data)
      ensures sock.sendQueue == old(sock.sendQueue) && sock.sent == old(sock.sent)
      ensures Step(old(subrects), sock.data, old(sock.index), old(display.log), x, y, width, height) ==
              Run(subrects, sock.index, display.log, r)
    {
      if subrects == 0 {
        var short := sock.Lacks(4 + 4);
        if short {
          return Ok(false);
        }
        ghost var at := sock.index;
        subrects := sock.Shift32();
        assert sock.data[at..at + 4] == old(sock.Unread())[..4];
        var color := sock.ShiftBytes(4);
        assert color == sock.data[at + 4..at + 8];
        display.FillRect(x, y, width, height, color);
      }
      r := DrawSubrects(x, y, sock, display);
    }

    /** One iteration's reads and fill. */
    static method DrawSubrect(x: int, y: int, sock: Socket, display: Display)
      requires sock.Valid() && |sock.Unread()| >= 12
      modifies sock, display
      ensures sock.Valid() && sock.data == old(sock.data)
      ensures sock.sendQueue == old(sock.sendQueue) && sock.sent == old(sock.sent)
      ensures sock.index == old(sock.index) + 12
      ensures display.log == old(display.log) + [SubrectFill(x, y, sock.data[old(sock.index)..old(sock.index) + 12])]
    {
      ghost var i := sock.index;
      ghost var u := sock.data[i..i + 12];
      var color := sock.ShiftBytes(4);
      assert color == u[..4] && sock.index == i + 4;
      var sx := sock.Shift16();
      assert sx == U16(u[4], u[5]) && sock.index == i + 6;
      var sy := sock.Shift16();
      assert sy == U16(u[6], u[7]) && sock.index == i + 8;
      var swidth := sock.Shift16();
      assert swidth == U16(u[8], u[9]) && sock.index == i + 10;
      var sheight := sock.Shift16();
      assert sheight == U16(u[10], u[11]);
      display.FillRect(x + sx, y + sy, swidth, sheight, color);
    }

    /** The `while` loop of decodeRect: one subrectangle per iteration. */
    method DrawSubrects(x: int, y: int, sock: Socket, display: Display) returns (r: Result<bool>)
      requires sock.Valid()
      modifies this, sock, display
      ensures sock.Valid() && sock.data == old(sock.data)
      ensures sock.sendQueue == old(sock.sendQueue) && sock.sent == old(sock.sent)
      ensures Subrects(old(subrects), sock.data, old(sock.index), old(display.log), x, y) ==
              Run(subrects, sock.index, display.log, r)
    {
      ghost var i0, l0 := sock.index, display.log;
      while subrects > 0
        invariant sock.Valid() && sock.data == old(sock.data)
        invariant sock.sendQueue == old(sock.sendQueue) && sock.sent == old(sock.sent)
        invariant Subrects(old(subrects), sock.data, i0, l0, x, y) ==
                  Subrects(subrects, sock.data, sock.index, display.log, x, y)
        decreases subrects
      {
        var short := sock.Lacks(4 + 8);
        if short {
          return Ok(false);
        }
        DrawSubrect(x, y, sock, display);
        subrects := subrects - 1;
      }
      return Ok(true);
    }
  }
}
