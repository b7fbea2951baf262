/** One pass of the receive parser's `while` loop over a buffer, as a
    function of the cursor `p` at the top of the pass, and the runs of such
    passes. Everything a pass does is determined by `p` and the buffer,
    which the loop does not change, so a run is the sequence of cursors. */
module ParseTrace {
  import opened Packet
  import opened Loop

  /** The frame `[s, e)` of `buf` has the shape the parser accepts. */
  predicate AcceptedAt(buf: seq<byte>, s: nat, e: nat)
  {
    s <= e <= |buf| && AcceptedShape(buf[s..e])
  }

  /** The pass that starts with cursor `p`: it searches for a header from
      `p`, returns when there is none, when only the header is present or
      when the frame is incomplete; it continues at the same header when the
      length byte is below the floor; and otherwise it logs the frame when
      its trailer byte is 0xFF and skips the header's two bytes when not. */
  function StepAt(buf: seq<byte>, p: nat): Step
  {
    var pos := HeadPosition(buf, p);
    if pos < 0 then Retain(p, NoHeader)
    else if pos == |buf| - |Header| then Retain(pos, HeaderOnly)
    else
      var dataLen := buf[pos + |Header|];
      if dataLen < MinDataLen then Stall(pos)
      else if pos + |Header| + 1 + dataLen + 1 > |buf| then Retain(pos, Incomplete)
      else if buf[pos + |Header| + 1 + dataLen] == Footer then
        Accept(pos, pos + |Header| + 1 + dataLen + 1)
      else Reject(pos, pos + |Header|)
  }

  /** What a pass from `p` can do: keep a suffix starting at most one byte
      before `p`; log an accepted frame starting there or later; skip a
      header whose trailer byte is wrong; or stall at a header whose length
      byte is below the floor. Every index it reads lies inside the buffer. */
  predicate PassWithin(buf: seq<byte>, p: nat, st: Step)
  {
    match st
    case Retain(from, reason) => p <= from + 1 && from <= |buf| && (reason == NoHeader ==> from == p)
    case Accept(h, e) => p <= h + 1 && AcceptedAt(buf, h, e)
    case Reject(h, e) =>
      p < e && e == h + |Header| && h + |Header| < |buf|
      && h + |Header| + 1 + buf[h + |Header|] < |buf|
      && buf[h + |Header|] >= MinDataLen
      && buf[h + |Header| + 1 + buf[h + |Header|]] != Footer
    case Stall(h) => p <= h + 1 && h + |Header| < |buf| && buf[h + |Header|] < MinDataLen
  }

  /** Every pass from a cursor inside the buffer stays within it. */
  lemma StepAtWithin(buf: seq<byte>, p: nat)
    requires p <= |buf|
    ensures PassWithin(buf, p, StepAt(buf, p))
  {
    var pos := HeadPosition(buf, p);
    if pos >= 0 && pos != |buf| - |Header| {
      var dataLen := buf[pos + |Header|];
      if dataLen >= MinDataLen && pos + |Header| + 1 + dataLen + 1 <= |buf|
         && buf[pos + |Header| + 1 + dataLen] == Footer {
        var f := buf[pos..pos + |Header| + 1 + dataLen + 1];
        assert f[1] == buf[pos + 1] && f[2] == dataLen && f[|f| - 1] == Footer;
      }
    }
  }

  /** Every pass that hands on a cursor, except a stall, moves the cursor
      strictly forward, and the cursor stays inside the buffer. */
  lemma PassProgress(buf: seq<byte>, p: nat)
    requires p <= |buf|
    ensures var st := StepAt(buf, p);
            Next(st).Some? ==> Next(st).value <= |buf| && (!st.Stall? ==> p < Next(st).value)
  {
    StepAtWithin(buf, p);
  }

  /** The passes of the loop over `buf`, as a function of the cursor. */
  function Passes(buf: seq<byte>): nat -> Step
  {
    (q: nat) => StepAt(buf, q)
  }

  /** The cursor at the top of pass number `n` (counting from 0) of the loop
      over `buf` started at `p`, or None when the loop has returned before. */
  function Iterate(buf: seq<byte>, p: nat, n: nat): Option<nat>
  {
    Run(Passes(buf), p, n)
  }

  /** The frames logged by the first `n` passes of the loop over `buf`. */
  function Spans(buf: seq<byte>, p: nat, n: nat): seq<Span>
  {
    Emitted(Passes(buf), p, n)
  }

  /** A loop started inside the buffer only ever has cursors inside it. */
  lemma {:induction false} IterateWithin(buf: seq<byte>, p: nat, n: nat)
    requires p <= |buf|
    ensures Iterate(buf, p, n).Some? ==> Iterate(buf, p, n).value <= |buf|
  {
    if n > 0 {
      IterateWithin(buf, p, n - 1);
      if Iterate(buf, p, n - 1).Some? {
        var q := Iterate(buf, p, n - 1).value;
        StepAtWithin(buf, q);
        assert Passes(buf)(q) == StepAt(buf, q);
      }
    }
  }

  /** Every pass from `cs[i]` logs the frame `[cs[i], cs[i + 1])` and
      continues at its end. */
  ghost predicate AcceptsAlong(buf: seq<byte>, cs: seq<nat>)
  {
    forall i {:trigger StepAt(buf, cs[i])} :: 0 <= i < |cs| - 1 ==> StepAt(buf, cs[i]) == Accept(cs[i], cs[i + 1])
  }

  /** The frames between consecutive cursors of `cs[..n + 1]`. */
  function Links(cs: seq<nat>, n: nat): (sp: seq<Span>)
    requires n < |cs|
    ensures |sp| == n
  {
    if n == 0 then [] else Links(cs, n - 1) + [Span(cs[n - 1], cs[n])]
  }

  /** Frame `i` runs from cursor `i` to cursor `i + 1`. */
  lemma {:induction false} LinksAt(cs: seq<nat>, n: nat, i: nat)
    requires i < n < |cs|
    ensures Links(cs, n)[i] == Span(cs[i], cs[i + 1])
  {
    if i < n - 1 {
      LinksAt(cs, n - 1, i);
    }
  }

  /** A loop over `buf` whose passes accept frame after frame along `cs`
      reaches `cs[n]` after `n` passes, having logged the frames between
      consecutive cursors. */
  lemma {:induction false} IterateAlong(buf: seq<byte>, cs: seq<nat>, n: nat)
    requires n < |cs| && AcceptsAlong(buf, cs)
    ensures Iterate(buf, cs[0], n) == Some(cs[n])
    ensures Spans(buf, cs[0], n) == Links(cs, n)
  {
    if n > 0 {
      IterateAlong(buf, cs, n - 1);
      assert StepAt(buf, cs[n - 1]) == Accept(cs[n - 1], cs[n]);
      PassUnfolds(buf, cs[0], n - 1);
    }
  }

  /** The bytes of frame `x` of `buf`; none when the frame does not lie in `buf`. */
  function Bytes(buf: seq<byte>, x: Span): seq<byte>
  {
    if x.start <= x.end <= |buf| then buf[x.start..x.end] else []
  }

  /** The bytes of the frames `sp` of `buf`, in order. */
  function Slices(buf: seq<byte>, sp: seq<Span>): (fs: seq<seq<byte>>)
    ensures |fs| == |sp|
  {
    if sp == [] then [] else Slices(buf, sp[..|sp| - 1]) + [Bytes(buf, sp[|sp| - 1])]
  }

  /** Slice `i` holds the bytes of frame `i`. */
  lemma {:induction false} SlicesAt(buf: seq<byte>, sp: seq<Span>)
    ensures forall i :: 0 <= i < |sp| ==> Slices(buf, sp)[i] == Bytes(buf, sp[i])
  {
    if sp != [] {
      var init := sp[..|sp| - 1];
      SlicesAt(buf, init);
      forall i | 0 <= i < |sp| - 1 ensures Slices(buf, sp)[i] == Bytes(buf, sp[i]) {
        assert init[i] == sp[i];
      }
    }
  }

  /** Every frame the loop logs lies inside the buffer and has the accepted
      shape: second byte 0xBB, a length byte of at least four, that many data
      bytes, then 0xFF. */
  lemma FramesAccepted(buf: seq<byte>, p: nat, n: nat)
    requires p <= |buf|
    ensures forall i :: 0 <= i < |Spans(buf, p, n)| ==> Spans(buf, p, n)[i].start < Spans(buf, p, n)[i].end <= |buf|
    ensures forall i :: 0 <= i < |Slices(buf, Spans(buf, p, n))| ==>
              AcceptedShape(Slices(buf, Spans(buf, p, n))[i])
  {
    forall q: nat | Passes(buf)(q).Accept?
      ensures AcceptedAt(buf, Passes(buf)(q).head, Passes(buf)(q).next)
    {
      if q <= |buf| {
        StepAtWithin(buf, q);
      }
    }
    EmittedAll(Passes(buf), (s: nat, e: nat) => AcceptedAt(buf, s, e), p, n);
    SlicesAt(buf, Spans(buf, p, n));
  }

  /** Logging one more frame appends its bytes. */
  lemma SlicesSnoc(buf: seq<byte>, sp: seq<Span>, x: Span)
    ensures Slices(buf, sp + [x]) == Slices(buf, sp) + [Bytes(buf, x)]
  {
    assert (sp + [x])[..|sp|] == sp;
  }

  /** The loop over `buf` started at `p` returns in pass `n`, keeping `buf[from..]`. */
  predicate ReturnsAfter(buf: seq<byte>, p: nat, n: nat, from: nat)
  {
    Iterate(buf, p, n).Some? && StepAt(buf, Iterate(buf, p, n).value).Retain?
    && StepAt(buf, Iterate(buf, p, n).value).from == from
  }

  /** How pass `n` determines the cursor and the frames after it. */
  lemma PassUnfolds(buf: seq<byte>, p: nat, n: nat)
    requires Iterate(buf, p, n).Some?
    ensures Iterate(buf, p, n + 1) == Next(StepAt(buf, Iterate(buf, p, n).value))
    ensures var st := StepAt(buf, Iterate(buf, p, n).value);
            Spans(buf, p, n + 1) == if st.Accept? then Spans(buf, p, n) + [Span(st.head, st.next)] else Spans(buf, p, n)
  {
    assert Passes(buf)(Iterate(buf, p, n).value) == StepAt(buf, Iterate(buf, p, n).value);
  }

  /** A pass from `c` that hands on a cursor without logging a frame. */
  lemma ContinuePass(buf: seq<byte>, p: nat, n: nat, c: nat)
    requires Iterate(buf, p, n) == Some(c)
    requires StepAt(buf, c).Reject? || StepAt(buf, c).Stall?
    ensures Iterate(buf, p, n + 1) == Next(StepAt(buf, c)) && Spans(buf, p, n + 1) == Spans(buf, p, n)
  {
    PassUnfolds(buf, p, n);
  }

  /** A pass from `c` that logs the frame `[h, e)` and continues at `e`. */
  lemma AcceptPass(buf: seq<byte>, p: nat, n: nat, c: nat, h: nat, e: nat)
    requires Iterate(buf, p, n) == Some(c)
    requires StepAt(buf, c) == Accept(h, e) && h <= e <= |buf|
    ensures Iterate(buf, p, n + 1) == Some(e)
    ensures Spans(buf, p, n + 1) == Spans(buf, p, n) + [Span(h, e)]
    ensures Slices(buf, Spans(buf, p, n + 1)) == Slices(buf, Spans(buf, p, n)) + [buf[h..e]]
  {
    PassUnfolds(buf, p, n);
    SlicesSnoc(buf, Spans(buf, p, n), Span(h, e));
  }

  /** The decoding loop over `buf` at the top of pass `n`: the cursor is
      `p`, `parsed` holds the bytes of the frames logged so far and `visited`
      the cursors earlier passes started from, all distinct. */
  ghost predicate Decoding(buf: seq<byte>, n: nat, p: nat, parsed: seq<seq<byte>>, visited: set<nat>)
  {
    Iterate(buf, 0, n) == Some(p) && parsed == Slices(buf, Spans(buf, 0, n))
    && visited == Cursors(buf, 0, n) && |visited| == n
  }

  /** The loop starts at cursor 0 with nothing logged. */
  lemma DecodingStarts(buf: seq<byte>)
    ensures Decoding(buf, 0, 0, [], {})
  {
  }

  /** A pass from a cursor not visited before that hands on `next` moves the
      loop to pass `n + 1`, logging `frame` when the pass accepts; and the
      passes of a returning loop are fewer than the cursors there are. */
  lemma DecodingContinues(buf: seq<byte>, n: nat, c: nat, parsed: seq<seq<byte>>, visited: set<nat>,
                          next: nat, logged: bool, frame: seq<byte>)
    requires Decoding(buf, n, c, parsed, visited) && c !in visited && PassWithin(buf, c, StepAt(buf, c))
    requires Next(StepAt(buf, c)) == Some(next) && logged == StepAt(buf, c).Accept?
    requires logged ==> frame == buf[StepAt(buf, c).head..StepAt(buf, c).next]
    ensures Decoding(buf, n + 1, next, if logged then parsed + [frame] else parsed, visited + {c})
    ensures |visited + {c}| <= |buf| + 1
  {
    FreshCursor(buf, 0, n, c, visited);
    if logged {
      AcceptPass(buf, 0, n, c, StepAt(buf, c).head, next);
    } else {
      ContinuePass(buf, 0, n, c);
    }
  }

  /** What a run of the decoding loop over `buf` has produced after `steps`
      passes: `parsed` holds the bytes of the frames logged; when it `hangs`
      the loop spins forever, pass `steps` is the first to start from a
      cursor an earlier pass started from, and `rest` is the whole buffer;
      otherwise the loop returns in pass `steps`, keeping `rest == buf[kept..]`. */
  ghost predicate Decoded(buf: seq<byte>, steps: nat, parsed: seq<seq<byte>>, hangs: bool, kept: nat, rest: seq<byte>)
  {
    Iterate(buf, 0, steps).Some?
    && parsed == Slices(buf, Spans(buf, 0, steps))
    && (hangs ==> rest == buf && Endless(Passes(buf), 0)
                  && FirstRepeat(Passes(buf), 0, steps))
    && (!hangs ==> kept <= |buf| && ReturnsAfter(buf, 0, steps, kept) && rest == buf[kept..])
  }

  /** A loop that returns in pass `n`, keeping the bytes from `from`,
      leaves exactly one outcome: no hang, `n` passes, the frames they
      logged, and `buf[from..]` kept. */
  lemma DecodedAfterReturn(buf: seq<byte>, steps: nat, parsed: seq<seq<byte>>, hangs: bool, kept: nat,
                           rest: seq<byte>, n: nat, from: nat)
    requires Decoded(buf, steps, parsed, hangs, kept, rest) && ReturnsAfter(buf, 0, n, from)
    ensures !hangs && steps == n && kept == from
    ensures parsed == Slices(buf, Spans(buf, 0, n)) && rest == buf[from..]
  {
    if hangs {
      ReturnIsUnique(buf, 0, n, n, from, from);
    } else {
      ReturnIsUnique(buf, 0, steps, n, kept, from);
    }
  }

  /** A loop that spins forever leaves only the outcome that reports the hang. */
  lemma DecodedWhenDiverges(buf: seq<byte>, steps: nat, parsed: seq<seq<byte>>, hangs: bool, kept: nat,
                            rest: seq<byte>)
    requires Decoded(buf, steps, parsed, hangs, kept, rest) && Endless(Passes(buf), 0)
    ensures hangs && rest == buf
  {
    if !hangs {
      ReturnIsUnique(buf, 0, steps, steps, kept, kept);
    }
  }

  /** The loop over a buffer has one outcome: any two agree on whether it
      hangs, on the number of passes, on the frames logged and on the bytes
      kept. */
  lemma DecodedIsUnique(buf: seq<byte>, steps: nat, parsed: seq<seq<byte>>, hangs: bool, kept: nat, rest: seq<byte>,
                        steps': nat, parsed': seq<seq<byte>>, hangs': bool, kept': nat, rest': seq<byte>)
    requires Decoded(buf, steps, parsed, hangs, kept, rest)
    requires Decoded(buf, steps', parsed', hangs', kept', rest')
    ensures hangs == hangs' && steps == steps' && parsed == parsed' && rest == rest'
    ensures !hangs ==> kept == kept'
  {
    if !hangs {
      DecodedAfterReturn(buf, steps', parsed', hangs', kept', rest', steps, kept);
    } else if !hangs' {
      DecodedAfterReturn(buf, steps, parsed, hangs, kept, rest, steps', kept');
    } else {
      FirstRepeatIsUnique(Passes(buf), 0, steps, steps');
    }
  }

  /** A pass from a cursor visited before: the loop spins forever. */
  lemma DecodingRevisits(buf: seq<byte>, n: nat, c: nat, parsed: seq<seq<byte>>, visited: set<nat>)
    requires Decoding(buf, n, c, parsed, visited) && c in visited
    ensures Decoded(buf, n, parsed, true, 0, buf)
  {
    RevisitDiverges(buf, 0, n, n);
    CursorsVisited(buf, 0, n);
  }

  /** A pass that returns: the loop returns in pass `n`, keeping the bytes
      from a place inside the buffer. */
  lemma DecodingReturns(buf: seq<byte>, n: nat, c: nat, parsed: seq<seq<byte>>, visited: set<nat>)
    requires Decoding(buf, n, c, parsed, visited) && StepAt(buf, c).Retain?
    ensures StepAt(buf, c).from <= |buf|
    ensures Decoded(buf, n, parsed, false, StepAt(buf, c).from, buf[StepAt(buf, c).from..])
  {
    ReturnFrom(buf, 0, n, c);
  }

  /** The loop returns in pass `n`, from cursor `c`, keeping the bytes from a
      place inside the buffer. */
  lemma ReturnFrom(buf: seq<byte>, p: nat, n: nat, c: nat)
    requires p <= |buf| && Iterate(buf, p, n) == Some(c) && StepAt(buf, c).Retain?
    ensures StepAt(buf, c).from <= |buf| && ReturnsAfter(buf, p, n, StepAt(buf, c).from)
  {
    StepAtWithin(buf, c);
  }

  /** When the header search from `c` finds nothing, the pass keeps the bytes from `c` on. */
  lemma NoHeaderStep(buf: seq<byte>, c: nat)
    requires HeadPosition(buf, c) < 0
    ensures StepAt(buf, c) == Retain(c, NoHeader)
  {
  }

  /** When the header found is the last two bytes, the pass keeps the header. */
  lemma HeaderOnlyStep(buf: seq<byte>, c: nat)
    requires 0 <= HeadPosition(buf, c) == |buf| - |Header|
    ensures StepAt(buf, c) == Retain(|buf| - |Header|, HeaderOnly)
  {
  }

  /** When the length byte after the header found at `pos` is below the
      floor, the pass hands on `pos` itself. */
  lemma ShortLengthStep(buf: seq<byte>, c: nat, pos: nat)
    requires c <= |buf| && pos == HeadPosition(buf, c) && pos != |buf| - |Header|
    requires buf[pos + |Header|] < MinDataLen
    ensures StepAt(buf, c) == Stall(pos)
  {
  }

  /** When the frame announced at `pos` runs past the end of the buffer, the
      pass keeps the bytes from `pos` on. */
  lemma IncompleteStep(buf: seq<byte>, c: nat, pos: nat)
    requires c <= |buf| && pos == HeadPosition(buf, c) && pos != |buf| - |Header|
    requires buf[pos + |Header|] >= MinDataLen
    requires pos + |Header| + 1 + buf[pos + |Header|] + 1 > |buf|
    ensures StepAt(buf, c) == Retain(pos, Incomplete)
  {
  }

  /** When the frame announced at `pos` fits, its trailer byte being at
      `sum`: with 0xFF there the pass logs `[pos, sum]`, which has the
      accepted shape, and otherwise it hands on the cursor two bytes after
      `pos`. */
  lemma FullLengthStep(buf: seq<byte>, c: nat, pos: nat, sum: nat)
    requires c <= |buf| && pos == HeadPosition(buf, c) && pos != |buf| - |Header|
    requires buf[pos + |Header|] >= MinDataLen
    requires sum == pos + |Header| + 1 + buf[pos + |Header|] && sum < |buf|
    ensures buf[sum] == Footer ==> StepAt(buf, c) == Accept(pos, sum + 1) && AcceptedShape(buf[pos..sum + 1])
    ensures buf[sum] != Footer ==> StepAt(buf, c) == Reject(pos, pos + |Header|)
  {
  }

  /** A pass that starts from a cursor an earlier pass started from makes the
      loop spin forever. */
  lemma RepeatedCursorDiverges(buf: seq<byte>, p: nat, a: nat, b: nat)
    requires a < b
    requires Iterate(buf, p, b).Some? && Iterate(buf, p, a) == Iterate(buf, p, b)
    ensures Endless(Passes(buf), p)
  {
    RepeatIsEndless(Passes(buf), p, a, b);
  }

  /** The cursors at the top of the first `n` passes. */
  ghost function Cursors(buf: seq<byte>, p: nat, n: nat): set<nat>
    requires Iterate(buf, p, n).Some?
  {
    if n == 0 then {} else Cursors(buf, p, n - 1) + {Iterate(buf, p, n - 1).value}
  }

  /** `Cursors` are the cursors `Visited` by the passes of the loop over `buf`. */
  lemma {:induction false} CursorsVisited(buf: seq<byte>, p: nat, n: nat)
    requires Iterate(buf, p, n).Some?
    ensures Cursors(buf, p, n) == Visited(Passes(buf), p, n)
  {
    if n > 0 {
      CursorsVisited(buf, p, n - 1);
    }
  }

  /** The first `n` passes start at cursors within the buffer, and there are
      at most `n` distinct ones. */
  lemma {:induction false} CursorsBounded(buf: seq<byte>, p: nat, n: nat)
    requires p <= |buf| && Iterate(buf, p, n).Some?
    ensures forall q :: q in Cursors(buf, p, n) ==> q <= |buf|
    ensures |Cursors(buf, p, n)| <= n
  {
    if n > 0 {
      CursorsBounded(buf, p, n - 1);
    }
  }

  /** A set of cursors that all lie below `m` has at most `m` members. */
  lemma {:induction false} BoundedSetSize(s: set<nat>, m: nat)
    requires forall x :: x in s ==> x < m
    ensures |s| <= m
  {
    if m > 0 {
      BoundedSetSize(s - {m - 1}, m - 1);
    } else {
      assert s == {};
    }
  }

  /** A cursor not visited before adds one to the visited cursors, which
      number at most one more than the buffer's bytes. */
  lemma FreshCursor(buf: seq<byte>, p: nat, n: nat, c: nat, visited: set<nat>)
    requires p <= |buf| && Iterate(buf, p, n) == Some(c)
    requires visited == Cursors(buf, p, n) && |visited| == n && c !in visited
    ensures |visited + {c}| == n + 1 <= |buf| + 1
  {
    CursorsBounded(buf, p, n);
    BoundedSetSize(visited + {c}, |buf| + 1);
  }

  /** Reaching a cursor that an earlier pass started from makes the loop spin forever. */
  lemma {:induction false} RevisitDiverges(buf: seq<byte>, p: nat, n: nat, m: nat)
    requires m <= n && Iterate(buf, p, n).Some? && Iterate(buf, p, m).Some?
    requires Iterate(buf, p, n).value in Cursors(buf, p, m)
    ensures Endless(Passes(buf), p)
  {
    if m > 0 {
      var c := Iterate(buf, p, m - 1).value;
      if Iterate(buf, p, n).value == c {
        RepeatedCursorDiverges(buf, p, m - 1, n);
      } else {
        RevisitDiverges(buf, p, n, m - 1);
      }
    }
  }

  /** After the pass in which the loop returns, there is no further pass. */
  lemma {:induction false} NoPassAfterReturn(buf: seq<byte>, p: nat, m: nat, n: nat, from: nat)
    requires ReturnsAfter(buf, p, m, from) && m < n
    ensures Iterate(buf, p, n).None?
  {
    if n > m + 1 {
      NoPassAfterReturn(buf, p, m, n - 1, from);
    }
  }

  /** The loop returns at most once, and a loop that returns does not spin forever. */
  lemma ReturnIsUnique(buf: seq<byte>, p: nat, m: nat, n: nat, from: nat, from': nat)
    requires ReturnsAfter(buf, p, m, from) && ReturnsAfter(buf, p, n, from')
    ensures m == n && from == from'
    ensures !Endless(Passes(buf), p)
  {
    if m < n {
      NoPassAfterReturn(buf, p, m, n, from);
    } else if n < m {
      NoPassAfterReturn(buf, p, n, m, from');
    }
    NoPassAfterReturn(buf, p, m, m + 1, from);
  }

  /** When the header search steps back onto the trailer of the frame just
      logged, and the length byte there is below the floor, the next pass
      finds the same place again. */
  lemma StallBehindFrameEnd(buf: seq<byte>, e: nat)
    requires 0 < e <= |buf| && buf[e - 1] == Footer
    requires StepAt(buf, e) == Stall(e - 1)
    ensures StepAt(buf, e - 1) == Stall(e - 1)
  {
    assert FirstIndexOf(buf, Header[0], e) == -1;
    assert FirstIndexOf(buf, Header[0], e - 1) == -1;
    assert FirstIndexOf(buf, Header[1], e - 1) == e;
    assert HeadPosition(buf, e - 1) == HeadPosition(buf, e);
  }

  /** The places right after a 0xFF byte. */
  function AfterFooter(buf: seq<byte>): nat -> bool
  {
    (q: nat) => 0 < q <= |buf| && buf[q - 1] == Footer
  }

  /** Every pass moves forward, stepping back one place only onto a byte
      right after a 0xFF, and a stall stepped back that way stalls again. */
  lemma PassesForward(buf: seq<byte>)
    ensures Forward(Passes(buf), AfterFooter(buf))
    ensures StuckBehindMark(Passes(buf), AfterFooter(buf))
  {
    forall q: nat ensures ForwardAt(Passes(buf)(q), AfterFooter(buf), q) {
      if q <= |buf| {
        var st := StepAt(buf, q);
        assert Passes(buf)(q) == st;
        if st.Accept? {
          assert buf[st.head..st.next][st.next - st.head - 1] == buf[st.next - 1];
        }
      }
    }
    forall q: nat | 0 < q && AfterFooter(buf)(q) && Passes(buf)(q) == Stall(q - 1)
      ensures Passes(buf)(q - 1) == Stall(q - 1)
    {
      StallBehindFrameEnd(buf, q);
    }
  }

  /** `SpansOrdered` for the loop whose passes are `Passes(buf)`. */
  lemma EmittedInOrder(buf: seq<byte>, n: nat)
    requires Run(Passes(buf), 0, n).Some?
    ensures Ordered(Emitted(Passes(buf), 0, n))
    ensures LastEnd(Emitted(Passes(buf), 0, n)) <= Run(Passes(buf), 0, n).value
            || (Run(Passes(buf), 0, n).value + 1 == LastEnd(Emitted(Passes(buf), 0, n))
                && Passes(buf)(Run(Passes(buf), 0, n).value) == Stall(Run(Passes(buf), 0, n).value))
  {
    PassesForward(buf);
    EmittedOrdered(Passes(buf), AfterFooter(buf), n);
  }

  /** The frames logged by the decoding loop come in buffer order, and each
      starts at most one byte before the frame logged before it ends. The
      cursor never falls behind the end of the last frame, except by one byte
      at a place where the loop is stuck for good. */
  lemma SpansOrdered(buf: seq<byte>, n: nat)
    requires Iterate(buf, 0, n).Some?
    ensures Ordered(Spans(buf, 0, n))
    ensures LastEnd(Spans(buf, 0, n)) <= Iterate(buf, 0, n).value
            || (Iterate(buf, 0, n).value + 1 == LastEnd(Spans(buf, 0, n))
                && StepAt(buf, Iterate(buf, 0, n).value) == Stall(Iterate(buf, 0, n).value))
  {
    EmittedInOrder(buf, n);
    assert Passes(buf)(Iterate(buf, 0, n).value) == StepAt(buf, Iterate(buf, 0, n).value);
  }

  /** When the decoding loop returns, every frame it logged ends at most one
      byte past the start of the bytes it keeps. */
  lemma SpansBeforeResidual(buf: seq<byte>, n: nat, from: nat)
    requires ReturnsAfter(buf, 0, n, from)
    ensures forall i :: 0 <= i < |Spans(buf, 0, n)| ==> Spans(buf, 0, n)[i].end <= from + 1
  {
    SpansOrdered(buf, n);
  }

  /** A contiguous header followed by a length byte below the floor, reached
      as the first 0xAA at or after the cursor, stops the cursor at that
      header, and from then on every pass repeats: the loop never ends. */
  lemma ShortLengthAtContiguousHeaderDiverges(buf: seq<byte>, p: nat, k: nat)
    requires p <= k && k + |Header| < |buf|
    requires buf[k] == Header[0] && buf[k + 1] == Header[1] && buf[k + |Header|] < MinDataLen
    requires forall i :: p <= i < k ==> buf[i] != Header[0]
    ensures StepAt(buf, p) == Stall(k) && StepAt(buf, k) == Stall(k)
    ensures Endless(Passes(buf), p)
  {
    HeadPositionFindsContiguousHeader(buf, p, k);
    HeadPositionFindsContiguousHeader(buf, k, k);
    PassUnfolds(buf, p, 0);
    PassUnfolds(buf, p, 1);
    RepeatedCursorDiverges(buf, p, 1, 2);
  }

  /** A pass that stalls at its own cursor repeats forever, logging nothing. */
  lemma {:induction false} StallRepeats(buf: seq<byte>, p: nat, n: nat)
    requires StepAt(buf, p) == Stall(p)
    ensures Iterate(buf, p, n) == Some(p) && Spans(buf, p, n) == []
  {
    if n > 0 {
      StallRepeats(buf, p, n - 1);
      ContinuePass(buf, p, n - 1, p);
    }
  }
}
