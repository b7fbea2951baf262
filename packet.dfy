/** The wire layout of one packet, `[AA BB] [len] [data] [FF]`, and the
    header search that the receive parser uses to find a packet start. */
module Packet {

  type byte = x: int | 0 <= x < 256

  /** The two header marker bytes, `_header`. */
  const Header: seq<byte> := [0xAA, 0xBB]

  /** The trailer marker, `_footer`: a fixed byte, not a checksum. */
  const Footer: byte := 0xFF

  /** Length bytes below this value mark a malformed packet. */
  const MinDataLen: nat := 4

  /** The first index at or after `from` that holds `b`, or -1 when there is none. */
  function FirstIndexOf(s: seq<byte>, b: byte, from: nat): (k: int)
    decreases |s| - from
    ensures -1 <= k < |s|
    ensures k != -1 ==> from <= k && s[k] == b
  {
    if from >= |s| then -1
    else if s[from] == b then from
    else FirstIndexOf(s, b, from + 1)
  }

  /** `FirstIndexOf` answers the first occurrence: there is none before the
      answer, and -1 exactly when there is none at all. */
  lemma {:induction false} FirstIndexOfIsFirst(s: seq<byte>, b: byte, from: nat)
    decreases |s| - from
    ensures FirstIndexOf(s, b, from) == -1 <==> forall i :: from <= i < |s| ==> s[i] != b
    ensures FirstIndexOf(s, b, from) != -1 ==> forall i :: from <= i < FirstIndexOf(s, b, from) ==> s[i] != b
  {
    if from < |s| && s[from] != b {
      FirstIndexOfIsFirst(s, b, from + 1);
    }
  }

  /** The first occurrence of `b` at or after `from`, when it is at `k`, is found at `k`. */
  lemma {:induction false} FirstIndexOfFinds(s: seq<byte>, b: byte, from: nat, k: nat)
    requires from <= k < |s| && s[k] == b
    requires forall i :: from <= i < k ==> s[i] != b
    ensures FirstIndexOf(s, b, from) == k
    decreases k - from
  {
    if from < k {
      FirstIndexOfFinds(s, b, from + 1, k);
    }
  }

  /** Where the header search started at `pos` places a header: it looks for
      the first marker byte, then for the second marker byte strictly after it
      (from `pos` again when the first marker is missing), and answers one less
      than the index of the second marker. The two markers need not be adjacent,
      so the answer need not hold 0xAA, and it can be `pos - 1`. */
  function HeadPosition(buf: seq<byte>, pos: nat): (r: int)
    ensures r == -1 || (pos - 1 <= r <= |buf| - |Header| && buf[r + 1] == Header[1])
  {
    var b := FirstIndexOf(buf, Header[1], SecondSearchFrom(buf, pos));
    if b == -1 then -1 else b - |Header| + 1
  }

  /** Where the search for the second marker starts: just after the first
      0xAA at or after `pos`, or at `pos` itself when there is none. */
  function SecondSearchFrom(buf: seq<byte>, pos: nat): nat
  {
    var a := FirstIndexOf(buf, Header[0], pos);
    if a == -1 then pos else a + 1
  }

  /** The search is the two-stage search the header loop performs: the
      second stage starts after the first 0xAA (or at `pos` when there is
      none), and the answer sits just before the first 0xBB from there. The
      answer is -1 when there is no such 0xBB, and also when that 0xBB is
      the buffer's first byte, because one less than index 0 is -1. */
  lemma HeadPositionSearches(buf: seq<byte>, pos: nat)
    ensures var from := SecondSearchFrom(buf, pos);
            (from == pos && forall i :: pos <= i < |buf| ==> buf[i] != Header[0])
            || (pos < from <= |buf| && buf[from - 1] == Header[0]
                && forall i :: pos <= i < from - 1 ==> buf[i] != Header[0])
    ensures var from := SecondSearchFrom(buf, pos);
            HeadPosition(buf, pos) == -1
            <==> (forall i :: from <= i < |buf| ==> buf[i] != Header[1])
                 || (from == 0 && 0 < |buf| && buf[0] == Header[1])
    ensures var from, r := SecondSearchFrom(buf, pos), HeadPosition(buf, pos);
            r != -1 ==> from <= r + 1 && forall i :: from <= i <= r ==> buf[i] != Header[1]
  {
    FirstIndexOfIsFirst(buf, Header[0], pos);
    FirstIndexOfIsFirst(buf, Header[1], SecondSearchFrom(buf, pos));
  }

  /** A contiguous header whose 0xAA is the first 0xAA at or after `pos` is found exactly. */
  lemma HeadPositionFindsContiguousHeader(buf: seq<byte>, pos: nat, k: nat)
    requires pos <= k && k + 1 < |buf|
    requires buf[k] == Header[0] && buf[k + 1] == Header[1]
    requires forall i :: pos <= i < k ==> buf[i] != Header[0]
    ensures HeadPosition(buf, pos) == k
  {
    FirstIndexOfFinds(buf, Header[0], pos, k);
    assert FirstIndexOf(buf, Header[1], k + 1) == k + 1;
  }

  /** Without a 0xBB at or after `pos` the search reports "no header". */
  lemma HeadPositionWithoutSecondMarker(buf: seq<byte>, pos: nat)
    requires forall i :: pos <= i < |buf| ==> buf[i] != Header[1]
    ensures HeadPosition(buf, pos) == -1
  {
    FirstIndexOfIsFirst(buf, Header[1], SecondSearchFrom(buf, pos));
  }

  /** A byte sequence shaped like a packet the parser accepts: second byte
      0xBB, a length byte of at least four, that many data bytes and the
      trailer. The first byte is not constrained, because the header search
      does not check it. */
  predicate AcceptedShape(f: seq<byte>)
  {
    |f| >= 4 && f[1] == Header[1] && f[2] >= MinDataLen
    && |f| == |Header| + 1 + f[2] + 1 && f[|f| - 1] == Footer
  }

  /** A packet as the protocol defines it: the full header, then the accepted shape. */
  predicate WellFormedPacket(f: seq<byte>)
  {
    AcceptedShape(f) && f[0] == Header[0]
  }

  /** The data a packet can carry: at least four bytes, and few enough for a one-byte length. */
  type Payload = d: seq<byte> | MinDataLen <= |d| < 256 witness [0, 0, 0, 0]

  /** The bytes of a packet carrying `data`. */
  function EncodePacket(data: Payload): (f: seq<byte>)
    ensures WellFormedPacket(f) && f[3..|f| - 1] == data
  {
    Header + [|data|] + data + [Footer]
  }
}
