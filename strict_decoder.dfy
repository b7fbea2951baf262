/** The receive parser as its packet layout evidently intends it: the header
    search looks for the two header bytes next to each other, and a length
    byte below the floor skips the header, as a wrong trailer byte does,
    instead of handing the same cursor to the next pass. Everything else
    is the parser's own behaviour. */
module StrictDecoder {
  import opened Packet
  import opened Loop
  import opened ParseTrace
  import PacketStreams

  /** A full header, 0xAA directly followed by 0xBB, starts at `k`. */
  predicate HeaderAt(buf: seq<byte>, k: nat)
  {
    k + 1 < |buf| && buf[k] == Header[0] && buf[k + 1] == Header[1]
  }

  /** The first full header at or after `from`, or -1 when there is none. */
  function FindHeader(buf: seq<byte>, from: nat): (k: int)
    decreases |buf| - from
    ensures k == -1 || (from <= k && HeaderAt(buf, k))
  {
    if from + 1 >= |buf| then -1
    else if HeaderAt(buf, from) then from
    else FindHeader(buf, from + 1)
  }

  /** `FindHeader` answers the first full header: none lies before the
      answer, and the answer is -1 exactly when there is none at all. */
  lemma {:induction false} FindHeaderIsFirst(buf: seq<byte>, from: nat)
    decreases |buf| - from
    ensures FindHeader(buf, from) == -1 <==> forall k: nat :: from <= k ==> !HeaderAt(buf, k)
    ensures forall k: nat :: from <= k < FindHeader(buf, from) ==> !HeaderAt(buf, k)
  {
    if from + 1 < |buf| && !HeaderAt(buf, from) {
      FindHeaderIsFirst(buf, from + 1);
    }
  }

  /** One pass of the corrected loop from cursor `p`. */
  function StrictStep(buf: seq<byte>, p: nat): Step
  {
    var pos := FindHeader(buf, p);
    if pos < 0 then Retain(p, NoHeader)
    else if pos == |buf| - |Header| then Retain(pos, HeaderOnly)
    else
      var dataLen := buf[pos + |Header|];
      if dataLen < MinDataLen then Reject(pos, pos + |Header|)
      else if pos + |Header| + 1 + dataLen + 1 > |buf| then Retain(pos, Incomplete)
      else if buf[pos + |Header| + 1 + dataLen] == Footer then
        Accept(pos, pos + |Header| + 1 + dataLen + 1)
      else Reject(pos, pos + |Header|)
  }

  /** What a corrected pass from `p` can do: keep a suffix starting at or
      after `p`, log a well-formed packet starting there or later, or skip
      a header found there or later. It never stalls. */
  predicate StrictWithin(buf: seq<byte>, p: nat, st: Step)
  {
    match st
    case Retain(from, _) => p <= from <= |buf|
    case Accept(h, e) => p <= h < e <= |buf| && WellFormedPacket(buf[h..e])
    case Reject(h, e) => p <= h && e == h + |Header| < |buf|
    case Stall(_) => false
  }

  /** Every corrected pass from a cursor inside the buffer stays inside it
      and, unless it returns, moves the cursor forward. */
  lemma StrictStepWithin(buf: seq<byte>, p: nat)
    requires p <= |buf|
    ensures StrictWithin(buf, p, StrictStep(buf, p))
  {
    var pos := FindHeader(buf, p);
    if pos >= 0 && pos != |buf| - |Header| {
      var dataLen := buf[pos + |Header|];
      if dataLen >= MinDataLen && pos + |Header| + 1 + dataLen + 1 <= |buf|
         && buf[pos + |Header| + 1 + dataLen] == Footer {
        var f := buf[pos..pos + |Header| + 1 + dataLen + 1];
        assert f[0] == buf[pos] && f[1] == buf[pos + 1] && f[2] == dataLen && f[|f| - 1] == Footer;
      }
    }
  }

  /** What the corrected loop produces: the frames it logs and the index
      from which the buffer keeps its bytes. */
  datatype Outcome = Outcome(frames: seq<Span>, kept: nat)

  /** The corrected loop from cursor `p`. It always returns, and it keeps a
      suffix of the buffer starting at or after `p`. */
  function StrictRun(buf: seq<byte>, p: nat): (o: Outcome)
    requires p <= |buf|
    ensures p <= o.kept <= |buf|
    decreases |buf| - p
  {
    StrictStepWithin(buf, p);
    match StrictStep(buf, p)
    case Retain(from, _) => Outcome([], from)
    case Accept(h, e) =>
      var o := StrictRun(buf, e);
      Outcome([Span(h, e)] + o.frames, o.kept)
    case Reject(_, e) => StrictRun(buf, e)
    case Stall(_) => assert false; Outcome([], p)
  }

  /** Well-formed packets of `buf`, one after the other from `lo` on, none
      sharing a byte with the next, the last ending at or before `hi`. */
  predicate Chained(buf: seq<byte>, sp: seq<Span>, lo: nat, hi: nat)
    decreases |sp|
  {
    if sp == [] then lo <= hi
    else lo <= sp[0].start < sp[0].end && WellFormedPacket(Bytes(buf, sp[0]))
         && Chained(buf, sp[1..], sp[0].end, hi)
  }

  /** Chained frames lie between `lo` and `hi`, in order and pairwise
      disjoint, and each holds a well-formed packet. */
  lemma {:induction false} ChainedDisjoint(buf: seq<byte>, sp: seq<Span>, lo: nat, hi: nat)
    requires Chained(buf, sp, lo, hi)
    decreases |sp|
    ensures forall i :: 0 <= i < |sp| ==> lo <= sp[i].start < sp[i].end <= hi
    ensures forall i, j :: 0 <= i < j < |sp| ==> sp[i].end <= sp[j].start
    ensures forall i :: 0 <= i < |sp| ==> WellFormedPacket(Bytes(buf, sp[i]))
  {
    if sp != [] {
      var rest := sp[1..];
      ChainedDisjoint(buf, rest, sp[0].end, hi);
      forall i | 0 < i < |sp| ensures sp[i] == rest[i - 1] {
      }
    }
  }

  /** The frames of the corrected loop are chained from its start cursor up
      to the bytes it keeps. */
  lemma {:induction false} StrictFramesChained(buf: seq<byte>, p: nat)
    requires p <= |buf|
    decreases |buf| - p
    ensures Chained(buf, StrictRun(buf, p).frames, p, StrictRun(buf, p).kept)
  {
    StrictStepWithin(buf, p);
    var st := StrictStep(buf, p);
    if st.Accept? {
      StrictFramesChained(buf, st.next);
      var o := StrictRun(buf, st.next);
      assert StrictRun(buf, p) == Outcome([Span(st.head, st.next)] + o.frames, o.kept);
      assert ([Span(st.head, st.next)] + o.frames)[1..] == o.frames;
    } else if st.Reject? {
      StrictFramesChained(buf, st.next);
      assert StrictRun(buf, p) == StrictRun(buf, st.next);
    }
  }

  /** The frames of the corrected loop lie between the cursor it starts
      from and the bytes it keeps, in buffer order and without sharing a
      byte, and each of them is a well-formed packet. */
  lemma StrictFramesDisjoint(buf: seq<byte>, p: nat)
    requires p <= |buf|
    ensures var o := StrictRun(buf, p);
            forall i :: 0 <= i < |o.frames| ==> p <= o.frames[i].start < o.frames[i].end <= o.kept
    ensures var sp := StrictRun(buf, p).frames;
            forall i, j :: 0 <= i < j < |sp| ==> sp[i].end <= sp[j].start
    ensures var sp := StrictRun(buf, p).frames;
            forall i :: 0 <= i < |sp| ==> WellFormedPacket(Bytes(buf, sp[i]))
  {
    StrictFramesChained(buf, p);
    ChainedDisjoint(buf, StrictRun(buf, p).frames, p, StrictRun(buf, p).kept);
  }

  /** A well-formed packet at the cursor is logged whole by the corrected pass. */
  lemma StrictPacketAccepted(buf: seq<byte>, q: nat, f: seq<byte>)
    requires WellFormedPacket(f) && q + |f| <= |buf| && buf[q..q + |f|] == f
    ensures StrictStep(buf, q) == Accept(q, q + |f|)
  {
    assert buf[q] == f[0] && buf[q + 1] == f[1] && buf[q + 2] == f[2];
    assert buf[q + |f| - 1] == f[|f| - 1];
  }

  /** A corrected loop whose passes from `cs[i]` to `cs[n - 1]` each log the
      frame up to the next cursor logs those frames, in order, and then goes
      on as from `cs[n]`. */
  lemma {:induction false} StrictAlong(buf: seq<byte>, cs: seq<nat>, i: nat, n: nat)
    requires i <= n < |cs| && forall k :: i <= k <= n ==> cs[k] <= |buf|
    requires forall k {:trigger StrictStep(buf, cs[k])} :: i <= k < n ==> StrictStep(buf, cs[k]) == Accept(cs[k], cs[k + 1])
    ensures StrictRun(buf, cs[i]).frames == Links(cs, n)[i..] + StrictRun(buf, cs[n]).frames
    ensures StrictRun(buf, cs[i]).kept == StrictRun(buf, cs[n]).kept
    decreases n - i
  {
    if i < n {
      StrictAlong(buf, cs, i + 1, n);
      assert StrictStep(buf, cs[i]) == Accept(cs[i], cs[i + 1]);
      LinksAt(cs, n, i);
      assert Links(cs, n)[i..] == [Span(cs[i], cs[i + 1])] + Links(cs, n)[i + 1..];
    }
  }

  /** The corrected pass from the start of piece `i` logs that piece. */
  lemma StrictPieceAccepted(buf: seq<byte>, fs: seq<seq<byte>>, i: nat)
    requires PacketStreams.ConcatAt(buf, 0, fs) && PacketStreams.AllWellFormed(fs) && i < |fs|
    ensures var cs := PacketStreams.Offsets(0, fs);
            cs[i + 1] <= |buf| && StrictStep(buf, cs[i]) == Accept(cs[i], cs[i + 1])
  {
    PacketStreams.PieceInConcat(buf, 0, fs, i);
    StrictPacketAccepted(buf, PacketStreams.Offsets(0, fs)[i], fs[i]);
  }

  /** A buffer holding well-formed packets back to back: the corrected loop
      logs exactly those packets and keeps nothing. */
  lemma StrictConcatenatedPacketsDecode(fs: seq<seq<byte>>)
    requires PacketStreams.AllWellFormed(fs)
    ensures var buf := PacketStreams.Concat(fs);
            Slices(buf, StrictRun(buf, 0).frames) == fs && StrictRun(buf, 0).kept == |buf|
  {
    var buf := PacketStreams.Concat(fs);
    var cs := PacketStreams.Offsets(0, fs);
    assert buf[0..|buf|] == buf;
    assert cs[0] == 0 && cs[|fs|] == |buf|;
    forall k | 0 <= k <= |fs| ensures cs[k] <= |buf| {
      if k < |fs| {
        StrictPieceAccepted(buf, fs, k);
      }
    }
    forall k | 0 <= k < |fs| ensures StrictStep(buf, cs[k]) == Accept(cs[k], cs[k + 1]) {
      StrictPieceAccepted(buf, fs, k);
    }
    StrictAlong(buf, cs, 0, |fs|);
    assert StrictRun(buf, |buf|) == Outcome([], |buf|);
    PacketStreams.PiecesLaidOut(buf, 0, fs);
    PacketStreams.PieceSlices(buf, cs, fs, |fs|);
    assert Links(cs, |fs|)[0..] + [] == Links(cs, |fs|);
    assert fs[..|fs|] == fs;
  }

  /** On the buffer whose first packet's trailer is also the first byte of a
      second packet, the corrected loop logs only the first packet and
      keeps the rest, which holds no full header. */
  lemma StrictOverlapping()
    ensures StrictRun(PacketStreams.Overlapping, 0) == Outcome([Span(0, 8)], 8)
  {
    assert HeaderAt(PacketStreams.Overlapping, 0);
    assert FindHeader(PacketStreams.Overlapping, 8) == -1;
  }

  /** On a header followed by a length byte of 2, the corrected loop skips
      the header and returns, keeping the bytes after it. */
  lemma StrictShortLength()
    ensures StrictRun(PacketStreams.ShortLength, 0) == Outcome([], 2)
  {
    assert HeaderAt(PacketStreams.ShortLength, 0);
    assert FindHeader(PacketStreams.ShortLength, 2) == -1;
  }
}
