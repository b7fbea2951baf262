/** The decoding loop abstracted from its buffer: a loop whose every pass is
    a function of the cursor at its top. A pass either returns (keeping the
    bytes from some index on), or continues with a new cursor, possibly after
    logging one frame. */
module Loop {

  datatype Option<T> = None | Some(value: T)

  /** Which of the three `return` branches keeps the residual bytes. */
  datatype RetainReason =
    | NoHeader     // the header search found nothing
    | HeaderOnly   // the buffer ends right after the header
    | Incomplete   // the length byte announces more bytes than are present

  /** What one pass of the loop does. */
  datatype Step =
    | Retain(from: nat, reason: RetainReason)  // keep the bytes from `from` on and return
    | Accept(head: nat, next: nat)             // log the frame [head, next), continue at next
    | Reject(head: nat, next: nat)             // trailer mismatch, continue at next
    | Stall(head: nat)                         // length below the floor, continue at head

  /** A frame `[start, end)` of the buffer. */
  datatype Span = Span(start: nat, end: nat)

  /** The cursor the pass hands on, or None when it returns. */
  function Next(st: Step): Option<nat>
  {
    match st
    case Retain(_, _) => None
    case Accept(_, e) => Some(e)
    case Reject(_, e) => Some(e)
    case Stall(h) => Some(h)
  }

  /** The cursor at the top of pass number `n` (counting from 0) of the loop
      started at `p`, or None when the loop has returned before that pass. */
  function Run(step: nat -> Step, p: nat, n: nat): Option<nat>
  {
    if n == 0 then Some(p)
    else match Run(step, p, n - 1)
      case None => None
      case Some(q) => Next(step(q))
  }

  /** The frames after a pass `st`: one more when it logs one. */
  function Extend(sp: seq<Span>, st: Step): seq<Span>
  {
    if st.Accept? then sp + [Span(st.head, st.next)] else sp
  }

  /** The frames logged by the first `n` passes, in the order they are logged. */
  function Emitted(step: nat -> Step, p: nat, n: nat): seq<Span>
  {
    if n == 0 then []
    else match Run(step, p, n - 1)
      case None => Emitted(step, p, n - 1)
      case Some(q) => Extend(Emitted(step, p, n - 1), step(q))
  }

  /** The loop never returns. */
  ghost predicate Endless(step: nat -> Step, p: nat)
  {
    forall n :: Run(step, p, n).Some?
  }

  /** When every pass that logs a frame logs one satisfying `good`, every
      frame logged satisfies it. */
  lemma {:induction false} EmittedAll(step: nat -> Step, good: (nat, nat) -> bool, p: nat, n: nat)
    requires forall q: nat :: step(q).Accept? ==> good(step(q).head, step(q).next)
    ensures forall i :: 0 <= i < |Emitted(step, p, n)| ==>
              good(Emitted(step, p, n)[i].start, Emitted(step, p, n)[i].end)
  {
    if n > 0 {
      EmittedAll(step, good, p, n - 1);
    }
  }

  /** A loop that reaches pass `n` has passed every earlier pass. */
  lemma {:induction false} RunPrefix(step: nat -> Step, p: nat, m: nat, n: nat)
    requires m <= n && Run(step, p, n).Some?
    ensures Run(step, p, m).Some?
    decreases n - m
  {
    if m < n {
      RunPrefix(step, p, m + 1, n);
    }
  }

  /** Equal cursors stay equal: the passes are deterministic. */
  lemma {:induction false} RunShift(step: nat -> Step, p: nat, a: nat, b: nat, k: nat)
    requires Run(step, p, a) == Run(step, p, b)
    ensures Run(step, p, a + k) == Run(step, p, b + k)
  {
    if k > 0 {
      RunShift(step, p, a, b, k - 1);
    }
  }

  /** A pass that starts from a cursor an earlier pass started from makes the
      loop repeat those passes forever. */
  lemma RepeatIsEndless(step: nat -> Step, p: nat, a: nat, b: nat)
    requires a < b && Run(step, p, b).Some? && Run(step, p, a) == Run(step, p, b)
    ensures Endless(step, p)
  {
    forall n: nat ensures Run(step, p, n).Some? {
      ReachesPass(step, p, a, b, n);
    }
  }

  /** A loop whose pass `b` repeats the cursor of pass `a` reaches every pass. */
  lemma {:induction false} ReachesPass(step: nat -> Step, p: nat, a: nat, b: nat, n: nat)
    requires a < b && Run(step, p, b).Some? && Run(step, p, a) == Run(step, p, b)
    ensures Run(step, p, n).Some?
    decreases n
  {
    if n <= b {
      RunPrefix(step, p, n, b);
    } else {
      RunShift(step, p, a, b, n - b);
      ReachesPass(step, p, a, b, a + (n - b));
    }
  }

  /** The cursors at the top of the first `n` passes. */
  ghost function Visited(step: nat -> Step, p: nat, n: nat): set<nat>
    requires Run(step, p, n).Some?
  {
    if n == 0 then {} else Visited(step, p, n - 1) + {Run(step, p, n - 1).value}
  }

  /** Pass `n` is the first pass to start from a cursor an earlier pass
      started from: the first `n` passes started from `n` distinct cursors. */
  ghost predicate FirstRepeat(step: nat -> Step, p: nat, n: nat)
  {
    Run(step, p, n).Some? && |Visited(step, p, n)| == n && Run(step, p, n).value in Visited(step, p, n)
  }

  /** The first `n` passes start from at most `n` distinct cursors, and from
      fewer once a pass before pass `n` has started from a visited cursor. */
  lemma {:induction false} VisitedCount(step: nat -> Step, p: nat, m: nat, n: nat)
    requires m <= n && Run(step, p, n).Some?
    ensures |Visited(step, p, n)| <= n
    ensures m < n && FirstRepeat(step, p, m) ==> |Visited(step, p, n)| < n
  {
    if n > 0 {
      VisitedCount(step, p, if m < n then m else n - 1, n - 1);
      RunPrefix(step, p, m, n);
    }
  }

  /** At most one pass is the first to repeat a cursor. */
  lemma FirstRepeatIsUnique(step: nat -> Step, p: nat, m: nat, n: nat)
    requires FirstRepeat(step, p, m) && FirstRepeat(step, p, n)
    ensures m == n
  {
    if m < n {
      VisitedCount(step, p, m, n);
    } else if n < m {
      VisitedCount(step, p, n, m);
    }
  }

  /** The end of the last frame of `sp`, or 0 when there is none. */
  function LastEnd(sp: seq<Span>): nat
  {
    if sp == [] then 0 else sp[|sp| - 1].end
  }

  /** Frames in buffer order, each starting at most one byte before the
      previous one ends. */
  predicate Ordered(sp: seq<Span>)
  {
    (forall i, j :: 0 <= i < j < |sp| ==> sp[i].end <= sp[j].start + 1)
    && (forall i :: 0 <= i < |sp| ==> sp[i].end <= LastEnd(sp))
  }

  /** Ordered frames stay ordered when a frame starting at most one byte
      before the last one ends is appended, and it becomes the last one. */
  lemma ExtendOrdered(sp: seq<Span>, x: Span)
    requires Ordered(sp) && LastEnd(sp) <= x.start + 1 && x.start < x.end
    ensures Ordered(sp + [x]) && LastEnd(sp + [x]) == x.end
  {
    var sp' := sp + [x];
    forall i, j | 0 <= i < j < |sp'| ensures sp'[i].end <= sp'[j].start + 1 {
      if j == |sp| {
        assert sp'[i] == sp[i];
      } else {
        assert sp'[i] == sp[i] && sp'[j] == sp[j];
      }
    }
  }

  /** The passes never move the cursor back by more than one place, and
      `marked` holds at the end of every logged frame. */
  ghost predicate Forward(step: nat -> Step, marked: nat -> bool)
  {
    forall q: nat :: ForwardAt(step(q), marked, q)
  }

  /** The pass from `q` moves the cursor back by at most one place. */
  ghost predicate ForwardAt(st: Step, marked: nat -> bool, q: nat)
  {
    match st
    case Retain(_, _) => true
    case Accept(h, e) => q <= h + 1 && h < e && marked(e)
    case Reject(_, e) => q < e
    case Stall(h) => q <= h + 1
  }

  /** At a marked place, a pass that steps back by one place stalls there for good. */
  ghost predicate StuckBehindMark(step: nat -> Step, marked: nat -> bool)
  {
    forall q: nat :: 0 < q && marked(q) && step(q) == Stall(q - 1) ==> step(q - 1) == Stall(q - 1)
  }

  /** The frames `sp` logged before a pass from `c` are ordered, `c` lies
      at or after the end of the last of them, or one place before it where
      the loop stalls for good, and that end is marked. */
  ghost predicate OrderedUpTo(step: nat -> Step, marked: nat -> bool, sp: seq<Span>, c: nat)
  {
    Ordered(sp)
    && (LastEnd(sp) <= c || (c + 1 == LastEnd(sp) && step(c) == Stall(c)))
    && (sp != [] ==> marked(LastEnd(sp)))
  }

  /** One pass that hands on a cursor keeps the frames in order behind it. */
  lemma OrderedPass(step: nat -> Step, marked: nat -> bool, sp: seq<Span>, c: nat)
    requires Forward(step, marked) && StuckBehindMark(step, marked)
    requires OrderedUpTo(step, marked, sp, c) && Next(step(c)).Some?
    ensures OrderedUpTo(step, marked, Extend(sp, step(c)), Next(step(c)).value)
  {
    assert ForwardAt(step(c), marked, c);
    if LastEnd(sp) <= c {
      match step(c)
      case Accept(h, e) =>
        ExtendOrdered(sp, Span(h, e));
      case Reject(h, e) =>
      case Stall(h) =>
    }
  }

  /** Under those two conditions the frames of a loop started at 0 are
      ordered, and the cursor never falls behind the end of the last frame
      except by one place, at a cursor where the loop stalls for good. */
  lemma {:induction false} EmittedOrdered(step: nat -> Step, marked: nat -> bool, n: nat)
    requires Forward(step, marked) && StuckBehindMark(step, marked)
    requires Run(step, 0, n).Some?
    ensures OrderedUpTo(step, marked, Emitted(step, 0, n), Run(step, 0, n).value)
  {
    if n > 0 {
      RunPrefix(step, 0, n - 1, n);
      EmittedOrdered(step, marked, n - 1);
      var c := Run(step, 0, n - 1).value;
      OrderedPass(step, marked, Emitted(step, 0, n - 1), c);
    }
  }
}
