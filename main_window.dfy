/** The receive side of the main window: the buffer that carries an
    incomplete packet from one chunk to the next, the receive parser that
    splits the buffer into packets, and its header search. */
module SerialPortSticky {
  import opened Packet
  import opened Loop
  import opened ParseTrace

  class MainWindow {
    /** The bytes kept over from earlier chunks, `_receivedBuffer`; a null
        array is the empty sequence. */
    var receivedBuffer: seq<byte>

    constructor()
      ensures receivedBuffer == []
    {
      receivedBuffer := [];
    }

    /** The header search: the first marker byte from `pos`, then the second
        marker byte from just after it. */
    method GetHeadPosition(pos: nat) returns (rst: int)
      ensures rst == HeadPosition(receivedBuffer, pos)
    {
      var p := pos;
      var hLen := |Header|;
      var size := |receivedBuffer|;
      ghost var afterFirst := SecondSearchFrom(receivedBuffer, pos);
      rst := -1;
      for i := 0 to hLen
        invariant i == 0 ==> p == pos
        invariant i > 0 ==> p == afterFirst
        invariant i < hLen ==> rst == -1
        invariant i == hLen ==> rst == HeadPosition(receivedBuffer, pos)
      {
        ghost var p0 := p;
        var j := p;
        while j < size
          invariant p == p0 && p0 <= j
          invariant forall k :: p0 <= k < j && k < size ==> receivedBuffer[k] != Header[i]
        {
          if Header[i] == receivedBuffer[j] {
            FirstIndexOfFinds(receivedBuffer, Header[i], p0, j);
            if i == hLen - 1 {
              rst := j - hLen + 1;
              break;
            }
            j := j + 1;
            p := j;
            break;
          }
          j := j + 1;
        }
        FirstIndexOfIsFirst(receivedBuffer, Header[i], p0);
      }
    }

    /** One pass of the decoding loop, the body of its `while` loop, from
        cursor `p`: the pass `StepAt` describes. When the loop returns in
        this pass (`done`), `next` is where the bytes to keep start;
        otherwise `next` is the cursor for the next pass, and `logged` says
        whether the pass logged `frame`, the bytes of the accepted frame. */
    method ParsePass(p: nat, totalLen: nat) returns (next: nat, logged: bool, frame: seq<byte>, done: bool)
      requires totalLen == |receivedBuffer| && p <= totalLen
      ensures var st := StepAt(receivedBuffer, p);
              PassWithin(receivedBuffer, p, st)
              && done == st.Retain? && logged == st.Accept?
              && (done ==> next == st.from)
              && (!done ==> Next(st) == Some(next))
              && (logged ==> frame == receivedBuffer[st.head..st.next])
    {
      ghost var buf := receivedBuffer;
      StepAtWithin(buf, p);
      next, logged, frame, done := p, false, [], false;
      var pos := GetHeadPosition(p);
      if pos < 0 {
        NoHeaderStep(buf, p);
        done := true;
        return;
      }
      next := pos;
      if next == totalLen - |Header| {
        HeaderOnlyStep(buf, p);
        done := true;
        return;
      }
      var dataLen := receivedBuffer[next + |Header|];
      if dataLen < MinDataLen {
        ShortLengthStep(buf, p, next);
        return;
      }
      if next + |Header| + 1 + dataLen + 1 > totalLen {
        IncompleteStep(buf, p, next);
        done := true;
        return;
      }
      var sumPosition := next + |Header| + 1 + dataLen;
      FullLengthStep(buf, p, next, sumPosition);
      var b := receivedBuffer[sumPosition] == Footer;
      if b {
        var dataLength := |Header| + 1 + dataLen + 1;
        frame := receivedBuffer[next..next + dataLength];
        logged := true;
        next := next + dataLength;
      } else {
        next := next + |Header|;
      }
    }

    /** One pass of the decoding loop taken after `n` passes that logged
        `parsed` and visited the cursors `visited`, not `p` among them: the
        pass either returns, ending the decoding, or moves on to pass `n + 1`. */
    method DecodePass(p: nat, totalLen: nat, ghost n: nat, ghost parsed: seq<seq<byte>>, ghost visited: set<nat>)
      returns (next: nat, logged: bool, frame: seq<byte>, done: bool)
      requires totalLen == |receivedBuffer| && p <= totalLen
      requires Decoding(receivedBuffer, n, p, parsed, visited) && p !in visited
      ensures done ==> next <= totalLen && Decoded(receivedBuffer, n, parsed, false, next, receivedBuffer[next..])
      ensures !done ==> Decoding(receivedBuffer, n + 1, next, if logged then parsed + [frame] else parsed, visited + {p})
      ensures !done ==> next <= totalLen && |visited + {p}| <= totalLen + 1
    {
      next, logged, frame, done := ParsePass(p, totalLen);
      if done {
        DecodingReturns(receivedBuffer, n, p, parsed, visited);
      } else {
        DecodingContinues(receivedBuffer, n, p, parsed, visited, next, logged, frame);
      }
    }

    /** The `while` loop of the receive parser over the kept buffer: pass
        after pass from cursor 0, collecting the logged frames in `parsed`,
        until a pass returns, replacing the buffer by the bytes that pass
        keeps. Each pass depends only on its cursor, so a pass from a cursor
        seen before means the source loop spins forever: the method then
        stops and reports `hangs`. */
    method Decode() returns (parsed: seq<seq<byte>>, hangs: bool, ghost steps: nat, ghost kept: nat)
      modifies this
      ensures Decoded(old(receivedBuffer), steps, parsed, hangs, kept, receivedBuffer)
    {
      parsed, hangs, steps, kept := [], false, 0, 0;
      ghost var whole := receivedBuffer;
      var p: nat := 0;
      var from: nat := 0;
      var totalLen := |receivedBuffer|;
      var visited: set<nat> := {};
      DecodingStarts(whole);
      while p <= totalLen
        invariant receivedBuffer == whole && totalLen == |whole| && p <= totalLen
        invariant Decoding(whole, steps, p, parsed, visited)
        decreases totalLen + 1 - |visited|
      {
        if p in visited {
          DecodingRevisits(whole, steps, p, parsed, visited);
          hangs, kept := true, 0;
          break;
        }
        var cursor := p;
        var logged, frame, done;
        p, logged, frame, done := DecodePass(p, totalLen, steps, parsed, visited);
        if done {
          from, kept := p, p;
          break;
        }
        visited := visited + {cursor};
        parsed := if logged then parsed + [frame] else parsed;
        steps := steps + 1;
      }
      if !hangs {
        receivedBuffer := receivedBuffer[from..];
      }
    }

    /** Receives one chunk: an empty chunk changes nothing; otherwise the
        chunk is appended to the kept bytes and the decoding loop runs over
        the result. `parsed` holds the frames the source writes to the log. */
    method ParseReceiveData(bt: seq<byte>)
      returns (parsed: seq<seq<byte>>, hangs: bool, ghost steps: nat, ghost kept: nat)
      modifies this
      ensures |bt| == 0 ==> receivedBuffer == old(receivedBuffer) && parsed == [] && !hangs
      ensures |bt| > 0 ==> Decoded(old(receivedBuffer) + bt, steps, parsed, hangs, kept, receivedBuffer)
    {
      parsed, hangs, steps, kept := [], false, 0, 0;
      var readBytesLength := |bt|;
      if readBytesLength <= 0 {
        return;
      }
      if |receivedBuffer| > 0 {
        receivedBuffer := receivedBuffer + bt;
      } else {
        receivedBuffer := bt;
      }
      assert receivedBuffer == old(receivedBuffer) + bt;
      parsed, hangs, steps, kept := Decode();
    }
  }
}
