/** What the receive parser makes of particular buffers: well-formed
    packets back to back, the same with the last packet cut short, and the
    two buffers on which it misbehaves. Each states how the loop returns (or
    that it does not) and what it logs; `DecodedAfterReturn` and
    `DecodedWhenDiverges` turn that into the parser's one possible outcome. */
module PacketStreams {
  import opened Packet
  import opened Loop
  import opened ParseTrace

  /** A well-formed packet at the cursor is logged whole, and the next pass
      starts right after it. */
  lemma PacketAccepted(buf: seq<byte>, q: nat, f: seq<byte>)
    requires WellFormedPacket(f) && q + |f| <= |buf| && buf[q..q + |f|] == f
    ensures StepAt(buf, q) == Accept(q, q + |f|)
  {
    assert buf[q] == f[0] && buf[q + 1] == f[1] && buf[q + 2] == f[2];
    assert buf[q + |f| - 1] == f[|f| - 1];
    HeadPositionFindsContiguousHeader(buf, q, q);
    FullLengthStep(buf, q, q, q + |f| - 1);
  }

  /** Byte sequences back to back, as packets arrive on the line. */
  function Concat(fs: seq<seq<byte>>): seq<byte>
  {
    if fs == [] then [] else fs[0] + Concat(fs[1..])
  }

  /** Every one of `fs` is a well-formed packet. */
  predicate AllWellFormed(fs: seq<seq<byte>>)
  {
    forall i :: 0 <= i < |fs| ==> WellFormedPacket(fs[i])
  }

  /** Where the pieces of `Concat(fs)` start when it is placed at `p`,
      and, last, where it ends. */
  function Offsets(p: nat, fs: seq<seq<byte>>): (cs: seq<nat>)
    ensures |cs| == |fs| + 1 && cs[0] == p && cs[|fs|] == p + |Concat(fs)|
    decreases |fs|
  {
    if fs == [] then [p] else [p] + Offsets(p + |fs[0]|, fs[1..])
  }

  /** `Concat(fs)` lies in `buf` from `p` on. */
  predicate ConcatAt(buf: seq<byte>, p: nat, fs: seq<seq<byte>>)
  {
    p + |Concat(fs)| <= |buf| && buf[p..p + |Concat(fs)|] == Concat(fs)
  }

  /** In a concatenation placed at `p`, piece `i` occupies `[cs[i], cs[i + 1])`. */
  lemma {:induction false} PieceInConcat(buf: seq<byte>, p: nat, fs: seq<seq<byte>>, i: nat)
    requires ConcatAt(buf, p, fs) && i < |fs|
    ensures Offsets(p, fs)[i] + |fs[i]| == Offsets(p, fs)[i + 1] <= |buf|
    ensures buf[Offsets(p, fs)[i]..Offsets(p, fs)[i + 1]] == fs[i]
    decreases i
  {
    var q, e := p + |fs[0]|, p + |Concat(fs)|;
    if i == 0 {
      assert buf[p..q] == buf[p..e][..|fs[0]|];
    } else {
      assert buf[q..e] == buf[p..e][|fs[0]|..];
      PieceInConcat(buf, q, fs[1..], i - 1);
      assert fs[i] == fs[1..][i - 1];
    }
  }

  /** The pass from the start of piece `i` logs that piece. */
  lemma PieceAccepted(buf: seq<byte>, p: nat, fs: seq<seq<byte>>, i: nat)
    requires ConcatAt(buf, p, fs) && AllWellFormed(fs) && i < |fs|
    ensures StepAt(buf, Offsets(p, fs)[i]) == Accept(Offsets(p, fs)[i], Offsets(p, fs)[i + 1])
  {
    PieceInConcat(buf, p, fs, i);
    PacketAccepted(buf, Offsets(p, fs)[i], fs[i]);
  }

  /** Every pass of the loop from the start of one of the packets logs that packet. */
  lemma PassesAlongPackets(buf: seq<byte>, p: nat, fs: seq<seq<byte>>)
    requires ConcatAt(buf, p, fs) && AllWellFormed(fs)
    ensures AcceptsAlong(buf, Offsets(p, fs))
  {
    var cs := Offsets(p, fs);
    forall i | 0 <= i < |cs| - 1 ensures StepAt(buf, cs[i]) == Accept(cs[i], cs[i + 1]) {
      PieceAccepted(buf, p, fs, i);
    }
  }

  /** The packets lie between consecutive piece starts. */
  lemma PiecesLaidOut(buf: seq<byte>, p: nat, fs: seq<seq<byte>>)
    requires ConcatAt(buf, p, fs)
    ensures PiecesAt(buf, Offsets(p, fs), fs)
  {
    var cs := Offsets(p, fs);
    forall i: nat | i < |fs| ensures PieceAt(buf, cs, fs, i) {
      PieceInConcat(buf, p, fs, i);
    }
  }

  /** Piece `i` of `fs` lies in `buf` between `cs[i]` and `cs[i + 1]`. */
  predicate PieceAt(buf: seq<byte>, cs: seq<nat>, fs: seq<seq<byte>>, i: nat)
  {
    i < |fs| && i + 1 < |cs| && cs[i] <= cs[i + 1] <= |buf| && buf[cs[i]..cs[i + 1]] == fs[i]
  }

  /** Every piece of `fs` lies in `buf` between consecutive cursors of `cs`. */
  ghost predicate PiecesAt(buf: seq<byte>, cs: seq<nat>, fs: seq<seq<byte>>)
  {
    |cs| == |fs| + 1 && forall i: nat :: i < |fs| ==> PieceAt(buf, cs, fs, i)
  }

  /** The frames between the first `n + 1` piece starts hold the first `n` pieces. */
  lemma {:induction false} PieceSlices(buf: seq<byte>, cs: seq<nat>, fs: seq<seq<byte>>, n: nat)
    requires PiecesAt(buf, cs, fs) && n <= |fs|
    ensures Slices(buf, Links(cs, n)) == fs[..n]
  {
    if n > 0 {
      PieceSlices(buf, cs, fs, n - 1);
      assert PieceAt(buf, cs, fs, n - 1);
      assert Links(cs, n)[..n - 1] == Links(cs, n - 1);
      assert fs[..n] == fs[..n - 1] + [fs[n - 1]];
    }
  }

  /** Well-formed packets lying back to back from `p` on are logged one per
      pass, each exactly, and the cursor ends right after the last of them. */
  lemma PacketsDecode(buf: seq<byte>, p: nat, fs: seq<seq<byte>>)
    requires ConcatAt(buf, p, fs) && AllWellFormed(fs)
    ensures Iterate(buf, p, |fs|) == Some(p + |Concat(fs)|)
    ensures Slices(buf, Spans(buf, p, |fs|)) == fs
  {
    var cs := Offsets(p, fs);
    assert cs[0] == p && cs[|fs|] == p + |Concat(fs)|;
    PassesAlongPackets(buf, p, fs);
    PiecesLaidOut(buf, p, fs);
    IterateAlong(buf, cs, |fs|);
    PieceSlices(buf, cs, fs, |fs|);
    assert fs[..|fs|] == fs;
  }

  /** Well-formed packets back to back from the start of `buf`, followed by
      a place where the pass returns keeping the bytes from there: the loop
      logs exactly those packets and returns in the next pass. */
  lemma PacketsThenReturn(buf: seq<byte>, fs: seq<seq<byte>>)
    requires ConcatAt(buf, 0, fs) && AllWellFormed(fs)
    requires StepAt(buf, |Concat(fs)|).Retain? && StepAt(buf, |Concat(fs)|).from == |Concat(fs)|
    ensures ReturnsAfter(buf, 0, |fs|, |Concat(fs)|)
    ensures Slices(buf, Spans(buf, 0, |fs|)) == fs
  {
    PacketsDecode(buf, 0, fs);
  }

  /** A buffer holding well-formed packets back to back: the loop logs
      exactly those packets and returns in the next pass, keeping nothing. */
  lemma ConcatenatedPacketsDecode(fs: seq<seq<byte>>)
    requires AllWellFormed(fs)
    ensures ReturnsAfter(Concat(fs), 0, |fs|, |Concat(fs)|)
    ensures Slices(Concat(fs), Spans(Concat(fs), 0, |fs|)) == fs
  {
    var buf := Concat(fs);
    assert buf[0..|buf|] == buf;
    NoHeaderStep(buf, |buf|);
    PacketsThenReturn(buf, fs);
  }

  /** The packets the encoder builds are decoded exactly. */
  lemma EncodedPacketsDecode(ds: seq<Payload>)
    ensures var fs := seq(|ds|, i requires 0 <= i < |ds| => EncodePacket(ds[i]));
            ReturnsAfter(Concat(fs), 0, |ds|, |Concat(fs)|)
            && Slices(Concat(fs), Spans(Concat(fs), 0, |ds|)) == fs
  {
    ConcatenatedPacketsDecode(seq(|ds|, i requires 0 <= i < |ds| => EncodePacket(ds[i])));
  }

  /** A pass from the start of a well-formed packet cut short after `k` of
      its bytes keeps those bytes for the next chunk. */
  lemma PartialPacketKept(buf: seq<byte>, c: nat, f: seq<byte>, k: nat)
    requires WellFormedPacket(f) && 0 < k < |f| && c + k == |buf|
    requires buf[c..] == f[..k]
    ensures StepAt(buf, c) == Retain(c, if k == 1 then NoHeader else if k == 2 then HeaderOnly else Incomplete)
  {
    assert buf[c] == f[0];
    if k == 1 {
      assert FirstIndexOf(buf, Header[0], c) == c;
      NoHeaderStep(buf, c);
    } else {
      assert buf[c + 1] == f[1];
      HeadPositionFindsContiguousHeader(buf, c, c);
      if k == 2 {
        HeaderOnlyStep(buf, c);
      } else {
        assert buf[c + 2] == f[2];
        IncompleteStep(buf, c, c);
      }
    }
  }

  /** A chunk ending inside a packet: the loop logs the complete packets
      before it and returns keeping the partial packet, whole, for the next
      chunk. */
  lemma SplitPacketKept(fs: seq<seq<byte>>, f: seq<byte>, k: nat)
    requires AllWellFormed(fs) && WellFormedPacket(f) && 0 < k < |f|
    ensures var buf := Concat(fs) + f[..k];
            ReturnsAfter(buf, 0, |fs|, |Concat(fs)|)
            && Slices(buf, Spans(buf, 0, |fs|)) == fs
            && buf[|Concat(fs)|..] == f[..k]
  {
    var buf := Concat(fs) + f[..k];
    var c := |Concat(fs)|;
    assert buf[0..c] == Concat(fs);
    assert buf[c..] == f[..k];
    PartialPacketKept(buf, c, f, k);
    PacketsThenReturn(buf, fs);
  }

  /** Every chunk holds at least one byte. */
  predicate NonEmptyChunks(chunks: seq<seq<byte>>)
  {
    forall i :: 0 <= i < |chunks| ==> chunks[i] != []
  }

  /** Putting two runs of chunks back to back puts their bytes back to back. */
  lemma {:induction false} ConcatAppend(xs: seq<seq<byte>>, ys: seq<seq<byte>>)
    ensures Concat(xs + ys) == Concat(xs) + Concat(ys)
    decreases |xs|
  {
    if xs == [] {
      assert xs + ys == ys;
    } else {
      assert (xs + ys)[1..] == xs[1..] + ys;
      ConcatAppend(xs[1..], ys);
    }
  }

  /** The bytes of the first `i + 1` chunks are those of the first `i`
      followed by chunk `i`; they start the bytes of all the chunks, and with
      no empty chunk there are some of them, and some left over unless chunk
      `i` is the last. */
  lemma ChunksReceived(chunks: seq<seq<byte>>, i: nat)
    requires NonEmptyChunks(chunks) && i < |chunks|
    ensures Concat(chunks[..i + 1]) == Concat(chunks[..i]) + chunks[i]
    ensures Concat(chunks) == Concat(chunks[..i + 1]) + Concat(chunks[i + 1..])
    ensures 0 < |Concat(chunks[..i + 1])|
    ensures i + 1 < |chunks| ==> 0 < |Concat(chunks[i + 1..])|
  {
    assert chunks[..i + 1] == chunks[..i] + [chunks[i]];
    ConcatAppend(chunks[..i], [chunks[i]]);
    assert Concat([chunks[i]]) == chunks[i] + Concat([]);
    assert chunks == chunks[..i + 1] + chunks[i + 1..];
    ConcatAppend(chunks[..i + 1], chunks[i + 1..]);
    if i + 1 < |chunks| {
      assert Concat(chunks[i + 1..]) == chunks[i + 1] + Concat(chunks[i + 2..]);
    }
  }

  /** A call before the last one of a packet split over non-empty chunks:
      it logs nothing and keeps all the bytes received so far. */
  lemma ChunkBeforeLast(f: seq<byte>, chunks: seq<seq<byte>>, i: nat, steps: nat,
                        parsed: seq<seq<byte>>, hangs: bool, kept: nat, rest: seq<byte>)
    requires WellFormedPacket(f) && Concat(chunks) == f && NonEmptyChunks(chunks) && i + 1 < |chunks|
    requires Decoded(Concat(chunks[..i + 1]), steps, parsed, hangs, kept, rest)
    ensures !hangs && parsed == [] && rest == Concat(chunks[..i + 1])
  {
    ChunksReceived(chunks, i);
    var b := Concat(chunks[..i + 1]);
    assert b == f[..|b|];
    SplitPacketKept([], f, |b|);
    DecodedAfterReturn(b, steps, parsed, hangs, kept, rest, 0, 0);
  }

  /** The last call for a packet split over non-empty chunks: it logs the
      packet and keeps nothing. */
  lemma LastChunk(f: seq<byte>, chunks: seq<seq<byte>>, steps: nat,
                  parsed: seq<seq<byte>>, hangs: bool, kept: nat, rest: seq<byte>)
    requires WellFormedPacket(f) && Concat(chunks) == f && NonEmptyChunks(chunks) && 0 < |chunks|
    requires Decoded(Concat(chunks), steps, parsed, hangs, kept, rest)
    ensures !hangs && parsed == [f] && rest == []
  {
    assert Concat([f]) == f + Concat([]);
    ConcatenatedPacketsDecode([f]);
    DecodedAfterReturn(f, steps, parsed, hangs, kept, rest, 1, |f|);
  }

  /** A packet split over successive non-empty chunks, received from an
      empty kept buffer: call `i` appends chunk `i` to what call `i - 1`
      kept, which is the bytes of the chunks before it. Whatever call `i`
      can produce, it does not hang; every call before the last logs nothing
      and keeps all the bytes received so far; the last call logs the
      packet, once, and keeps nothing. */
  lemma PacketAcrossChunks(f: seq<byte>, chunks: seq<seq<byte>>, i: nat, steps: nat,
                           parsed: seq<seq<byte>>, hangs: bool, kept: nat, rest: seq<byte>)
    requires WellFormedPacket(f) && Concat(chunks) == f && NonEmptyChunks(chunks) && i < |chunks|
    requires Decoded(Concat(chunks[..i]) + chunks[i], steps, parsed, hangs, kept, rest)
    ensures !hangs
    ensures i + 1 < |chunks| ==> parsed == [] && rest == Concat(chunks[..i + 1])
    ensures i + 1 == |chunks| ==> parsed == [f] && rest == []
  {
    ChunksReceived(chunks, i);
    if i + 1 < |chunks| {
      ChunkBeforeLast(f, chunks, i, steps, parsed, hangs, kept, rest);
    } else {
      assert chunks[..i + 1] == chunks;
      LastChunk(f, chunks, steps, parsed, hangs, kept, rest);
    }
  }

  /** A packet whose trailer is also the first byte of a second packet:
      `AA BB 04 01 02 03 04 FF` followed by `BB 04 05 06 07 08 FF`. */
  const Overlapping: seq<byte> := [0xAA, 0xBB, 4, 1, 2, 3, 4, 0xFF, 0xBB, 4, 5, 6, 7, 8, 0xFF]

  /** The first pass logs the first packet. */
  lemma OverlappingFirstPass()
    ensures StepAt(Overlapping, 0) == Accept(0, 8)
  {
    HeadPositionFindsContiguousHeader(Overlapping, 0, 0);
    FullLengthStep(Overlapping, 0, 0, 7);
  }

  /** The header search from the end of the first packet finds no 0xAA, so
      it places a header one byte back, on the 0xFF. */
  lemma OverlappingSecondPass()
    ensures StepAt(Overlapping, 8) == Accept(7, 15)
  {
    FirstIndexOfIsFirst(Overlapping, Header[0], 8);
    assert FirstIndexOf(Overlapping, Header[1], 8) == 8;
    FullLengthStep(Overlapping, 8, 7, 14);
  }

  /** On that buffer the loop logs both frames, which share byte 7, the
      second not starting with 0xAA, and returns keeping nothing. */
  lemma OverlappingFramesLogged()
    ensures ReturnsAfter(Overlapping, 0, 2, 15)
    ensures Spans(Overlapping, 0, 2) == [Span(0, 8), Span(7, 15)]
    ensures Slices(Overlapping, Spans(Overlapping, 0, 2)) == [Overlapping[0..8], Overlapping[7..15]]
    ensures !WellFormedPacket(Overlapping[7..15])
  {
    OverlappingFirstPass();
    AcceptPass(Overlapping, 0, 0, 0, 0, 8);
    OverlappingSecondPass();
    AcceptPass(Overlapping, 0, 1, 8, 7, 15);
    NoHeaderStep(Overlapping, 15);
  }

  /** A packet whose trailer byte is wrong, `AA BB 04 01 02 03 04 00`,
      followed by a good one, `AA BB 04 05 06 07 08 FF`. */
  const BadTrailer: seq<byte> := [0xAA, 0xBB, 4, 1, 2, 3, 4, 0, 0xAA, 0xBB, 4, 5, 6, 7, 8, 0xFF]

  /** The first pass finds the first header and skips its two bytes. */
  lemma BadTrailerFirstPass()
    ensures StepAt(BadTrailer, 0) == Reject(0, 2)
  {
    HeadPositionFindsContiguousHeader(BadTrailer, 0, 0);
    FullLengthStep(BadTrailer, 0, 0, 7);
  }

  /** The second pass, from byte 2, finds the second header and logs its packet. */
  lemma BadTrailerSecondPass()
    ensures StepAt(BadTrailer, 2) == Accept(8, 16)
  {
    HeadPositionFindsContiguousHeader(BadTrailer, 2, 8);
    FullLengthStep(BadTrailer, 2, 8, 15);
  }

  /** On that buffer the loop logs only the good packet and then returns
      keeping nothing. */
  lemma BadTrailerSkipped()
    ensures ReturnsAfter(BadTrailer, 0, 2, 16)
    ensures Slices(BadTrailer, Spans(BadTrailer, 0, 2)) == [BadTrailer[8..16]]
  {
    BadTrailerFirstPass();
    ContinuePass(BadTrailer, 0, 0, 0);
    BadTrailerSecondPass();
    AcceptPass(BadTrailer, 0, 1, 2, 8, 16);
    NoHeaderStep(BadTrailer, 16);
  }

  /** A header followed by a length byte of 2. */
  const ShortLength: seq<byte> := [0xAA, 0xBB, 2]

  /** On that buffer the loop never returns and logs nothing. */
  lemma ShortLengthHangs(n: nat)
    ensures Endless(Passes(ShortLength), 0) && Spans(ShortLength, 0, n) == []
  {
    ShortLengthAtContiguousHeaderDiverges(ShortLength, 0, 0);
    StallRepeats(ShortLength, 0, n);
  }
}
