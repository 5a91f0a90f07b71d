/** The PTY byte channel: one single-producer/single-consumer circle in shared
    memory, written by one process and read by another.  The head and tail words
    are 32-bit and wrap; a data index is a counter masked to the capacity.  Each
    load or store of a shared cell is one atomic step, and the two processes'
    steps interleave arbitrarily. */
module PtyChannel {
  import opened Common

  const CAP: nat := 32768

  /** A counter reduced to a data index: `x & (PTY_CAP - 1)` for the power of two PTY_CAP. */
  function Mask(x: nat): (i: nat)
    ensures i < CAP
  {
    x % CAP
  }

  /** The agent's clipping of a request: the comparison truncates the length to
      32 bits, the assignment does not. */
  function ClipAgent(len: nat, avail: nat): nat {
    if Wrap(len) > avail then avail else len
  }

  /** The host's clipping: the length itself is truncated first. */
  function ClipHost(len: nat, avail: nat): nat {
    if Wrap(len) <= avail then Wrap(len) else avail
  }

  /** Which requests never run past the space there is, at each end, and where
      the two ends agree. */
  lemma ClipStaysInside(len: nat, avail: nat)
    requires avail <= CAP
    ensures ClipHost(len, avail) <= avail
    ensures ClipAgent(len, avail) <= avail <==> (len < U32 || Wrap(len) > avail)
    ensures len < U32 ==> ClipAgent(len, avail) == ClipHost(len, avail) == Min(len, avail)
  {
    if len >= U32 {
      assert len > avail;
    }
  }

  /** A length of 2^32 is clipped to nothing at the host and not at all at the agent. */
  lemma LongLengthIsNotClipped()
    ensures ClipHost(U32, CAP) == 0 && ClipAgent(U32, CAP) == U32 > CAP
  {
  }

  // ---------------------------------------------------------------------------
  // The machine

  /** The shared words and bytes of one circle. */
  datatype Circle = Circle(head: nat, tail: nat, data: seq<Byte>)

  /** The producer's local state inside its write call. */
  datatype Writer =
    | WIdle
    | WGotHead(buf: seq<Byte>, head: nat)
    | WCopy(buf: seq<Byte>, head: nat, n: nat, i: nat)

  /** The consumer's local state inside its read call.  `seen` is the unbounded
      number of bytes that had been accepted when the head word was loaded. */
  datatype Reader =
    | RIdle
    | RGotHead(want: nat, head: nat, seen: nat)
    | RCopy(tail: nat, n: nat, got: seq<Byte>)

  /** `accepted` is every byte published by a write call so far and `delivered`
      every byte handed out by a finished read call so far. */
  datatype State = State(mem: Circle, w: Writer, r: Reader, accepted: seq<Byte>, delivered: seq<Byte>)

  datatype Action =
    | WCall(buf: seq<Byte>) | WLoadTail | WCopyByte | WPublish
    | RCall(want: nat) | RLoadTail | RCopyByte | RPublish

  function Init(d: seq<Byte>): State { State(Circle(0, 0, d), WIdle, RIdle, [], []) }

  function WriterLoadsTail(s: State): State
    requires s.w.WGotHead?
  {
    var avail := Wrap(CAP - Wrap(s.w.head - s.mem.tail));
    s.(w := WCopy(s.w.buf, s.w.head, ClipAgent(|s.w.buf|, avail), 0))
  }

  function WriterStores(s: State): State
    requires |s.mem.data| == CAP && s.w.WCopy? && s.w.i < |s.w.buf|
  {
    var d := s.mem.data[Mask(Wrap(s.w.head + s.w.i)) := s.w.buf[s.w.i]];
    s.(mem := s.mem.(data := d), w := s.w.(i := s.w.i + 1))
  }

  function WriterPublishes(s: State): State
    requires s.w.WCopy? && s.w.n <= |s.w.buf|
  {
    s.(mem := s.mem.(head := Wrap(s.w.head + s.w.n)), w := WIdle, accepted := s.accepted + s.w.buf[..s.w.n])
  }

  function ReaderLoadsTail(s: State): State
    requires s.r.RGotHead?
  {
    var avail := Wrap(s.r.head - s.mem.tail);
    s.(r := RCopy(s.mem.tail, ClipAgent(s.r.want, avail), []))
  }

  function ReaderCopies(s: State): State
    requires |s.mem.data| == CAP && s.r.RCopy?
  {
    s.(r := s.r.(got := s.r.got + [s.mem.data[Mask(Wrap(s.r.tail + |s.r.got|))]]))
  }

  function ReaderPublishes(s: State): State
    requires s.r.RCopy?
  {
    s.(mem := s.mem.(tail := Wrap(s.r.tail + s.r.n)), r := RIdle, delivered := s.delivered + s.r.got)
  }

  predicate Enabled(s: State, a: Action) {
    match a
    case WCall(buf) => s.w.WIdle? && |buf| < U32
    case WLoadTail => s.w.WGotHead?
    case WCopyByte => s.w.WCopy? && s.w.i < s.w.n && s.w.i < |s.w.buf|
    case WPublish => s.w.WCopy? && s.w.i == s.w.n <= |s.w.buf|
    case RCall(want) => s.r.RIdle? && want < U32
    case RLoadTail => s.r.RGotHead?
    case RCopyByte => s.r.RCopy? && |s.r.got| < s.r.n
    case RPublish => s.r.RCopy? && |s.r.got| == s.r.n
  }

  /** One atomic step; an action that is not enabled changes nothing. */
  function Next(s: State, a: Action): (t: State)
    requires |s.mem.data| == CAP
    ensures |t.mem.data| == CAP
  {
    if !Enabled(s, a) then s else
      match a
      case WCall(buf) => s.(w := WGotHead(buf, s.mem.head))
      case WLoadTail => WriterLoadsTail(s)
      case WCopyByte => WriterStores(s)
      case WPublish => WriterPublishes(s)
      case RCall(want) => s.(r := RGotHead(want, s.mem.head, |s.accepted|))
      case RLoadTail => ReaderLoadsTail(s)
      case RCopyByte => ReaderCopies(s)
      case RPublish => ReaderPublishes(s)
  }

  // ---------------------------------------------------------------------------
  // The inductive invariant

  /** Every accepted byte from position `from` on is in its cell. */
  ghost predicate Window(data: seq<Byte>, accepted: seq<Byte>, from: nat)
    requires |data| == CAP
  {
    forall k | from <= k < |accepted| :: data[Mask(k)] == accepted[k]
  }

  /** The cells after position `at` hold `bs`. */
  ghost predicate Stored(data: seq<Byte>, at: nat, bs: seq<Byte>)
    requires |data| == CAP
  {
    forall j | 0 <= j < |bs| :: data[Mask(at + j)] == bs[j]
  }

  ghost predicate Shared(s: State) {
    && |s.mem.data| == CAP
    && s.mem.head == Wrap(|s.accepted|)
    && s.mem.tail == Wrap(|s.delivered|)
    && |s.delivered| <= |s.accepted| <= |s.delivered| + CAP
    && s.delivered == s.accepted[..|s.delivered|]
    && Window(s.mem.data, s.accepted, |s.delivered|)
  }

  ghost predicate WriterOk(s: State)
    requires |s.mem.data| == CAP
  {
    match s.w
    case WIdle => true
    case WGotHead(buf, head) => |buf| < U32 && head == s.mem.head
    case WCopy(buf, head, n, i) =>
      && head == s.mem.head
      && i <= n <= |buf|
      && |s.accepted| + n <= |s.delivered| + CAP
      && Stored(s.mem.data, |s.accepted|, buf[..i])
  }

  ghost predicate ReaderOk(s: State) {
    match s.r
    case RIdle => true
    case RGotHead(want, head, seen) =>
      want < U32 && head == Wrap(seen) && |s.delivered| <= seen <= |s.accepted|
    case RCopy(tail, n, got) =>
      && tail == s.mem.tail
      && |got| <= n
      && |s.delivered| + n <= |s.accepted|
      && got == s.accepted[|s.delivered|..|s.delivered| + |got|]
  }

  ghost predicate Inv(s: State) { Shared(s) && WriterOk(s) && ReaderOk(s) }

  // Arithmetic of the counters

  lemma WrapAdd(x: int, y: int)
    ensures Wrap(Wrap(x) + y) == Wrap(x + y)
  {
  }

  lemma ModMultiple(x: int, m: int)
    ensures (x + m * CAP) % CAP == x % CAP
  {
    assert x + m * CAP == (x / CAP + m) * CAP + x % CAP;
  }

  lemma MaskWrap(x: nat)
    ensures Mask(Wrap(x)) == Mask(x)
  {
    assert U32 == 131072 * CAP;
    var q := x / U32;
    assert x == x % U32 + 131072 * q * CAP;
    ModMultiple(x % U32, 131072 * q);
  }

  /** Masking the wrapped counter gives the unbounded position's cell. */
  lemma MaskIsPosition(count: nat, i: nat)
    ensures Mask(Wrap(Wrap(count) + i)) == Mask(count + i)
  {
    WrapAdd(count, i);
    MaskWrap(count + i);
  }

  /** Two positions less than one capacity apart use different cells. */
  lemma DistinctCells(x: nat, y: nat)
    requires x < y < x + CAP
    ensures Mask(x) != Mask(y)
  {
  }

  /** The wrapped difference of two counters is their true difference. */
  lemma WrappedDifference(x: nat, y: nat)
    requires y <= x <= y + CAP
    ensures Wrap(Wrap(x) - Wrap(y)) == x - y
    ensures Wrap(CAP - Wrap(Wrap(x) - Wrap(y))) == CAP - (x - y)
  {
    assert Wrap(x) - Wrap(y) == x - y - (x / U32 - y / U32) * U32;
  }

  // The window under a store and under a publication

  lemma StoreKeepsWindow(data: seq<Byte>, accepted: seq<Byte>, from: nat, i: nat, b: Byte)
    requires |data| == CAP && from <= |accepted| && |accepted| + i < from + CAP
    requires Window(data, accepted, from)
    ensures Window(data[Mask(|accepted| + i) := b], accepted, from)
  {
    forall k | from <= k < |accepted| ensures Mask(k) != Mask(|accepted| + i) {
      DistinctCells(k, |accepted| + i);
    }
  }

  lemma StoreExtends(data: seq<Byte>, at: nat, bs: seq<Byte>, i: nat)
    requires |data| == CAP && i < |bs| && i < CAP && Stored(data, at, bs[..i])
    ensures Stored(data[Mask(at + i) := bs[i]], at, bs[..i + 1])
  {
    var d, more := data[Mask(at + i) := bs[i]], bs[..i + 1];
    forall j | 0 <= j < |more| ensures d[Mask(at + j)] == more[j] {
      if j < i {
        DistinctCells(at + j, at + i);
        assert bs[..i][j] == bs[j];
      }
    }
  }

  lemma PublishExtendsWindow(data: seq<Byte>, accepted: seq<Byte>, from: nat, bs: seq<Byte>)
    requires |data| == CAP && Window(data, accepted, from) && Stored(data, |accepted|, bs)
    ensures Window(data, accepted + bs, from)
  {
    var all := accepted + bs;
    forall k | from <= k < |all| ensures data[Mask(k)] == all[k] {
      if k >= |accepted| {
        var j := k - |accepted|;
        assert data[Mask(|accepted| + j)] == bs[j];
      }
    }
  }

  // One lemma per step

  lemma LoadTailKeepsInv(s: State)
    requires Inv(s) && s.w.WGotHead?
    ensures Inv(WriterLoadsTail(s))
    ensures WriterLoadsTail(s).w.n == Min(|s.w.buf|, CAP - (|s.accepted| - |s.delivered|))
  {
    WrappedDifference(|s.accepted|, |s.delivered|);
  }

  lemma StoreKeepsInv(s: State)
    requires Inv(s) && Enabled(s, WCopyByte)
    ensures Inv(WriterStores(s))
  {
    MaskIsPosition(|s.accepted|, s.w.i);
    StoreKeepsWindow(s.mem.data, s.accepted, |s.delivered|, s.w.i, s.w.buf[s.w.i]);
    StoreExtends(s.mem.data, |s.accepted|, s.w.buf, s.w.i);
  }

  lemma PublishKeepsInv(s: State)
    requires Inv(s) && Enabled(s, WPublish)
    ensures Inv(WriterPublishes(s))
  {
    var bs := s.w.buf[..s.w.n];
    WrapAdd(|s.accepted|, s.w.n);
    PublishExtendsWindow(s.mem.data, s.accepted, |s.delivered|, bs);
    assert forall k | 0 <= k <= |s.accepted| :: (s.accepted + bs)[..k] == s.accepted[..k];
    if s.r.RCopy? {
      var D, g := |s.delivered|, |s.r.got|;
      assert (s.accepted + bs)[D..D + g] == s.accepted[D..D + g];
    }
  }

  lemma ReadLoadKeepsInv(s: State)
    requires Inv(s) && s.r.RGotHead?
    ensures Inv(ReaderLoadsTail(s))
    ensures ReaderLoadsTail(s).r.n == Min(s.r.want, s.r.seen - |s.delivered|)
  {
    WrappedDifference(s.r.seen, |s.delivered|);
  }

  lemma ReadByteKeepsInv(s: State)
    requires Inv(s) && Enabled(s, RCopyByte)
    ensures Inv(ReaderCopies(s))
  {
    var D, g := |s.delivered|, |s.r.got|;
    MaskIsPosition(D, g);
    assert s.mem.data[Mask(D + g)] == s.accepted[D + g];
    assert s.accepted[D..D + g + 1] == s.accepted[D..D + g] + [s.accepted[D + g]];
  }

  lemma ReadPublishKeepsInv(s: State)
    requires Inv(s) && Enabled(s, RPublish)
    ensures Inv(ReaderPublishes(s))
    ensures ReaderPublishes(s).delivered == s.accepted[..|s.delivered| + s.r.n]
  {
    var D := |s.delivered|;
    WrapAdd(D, s.r.n);
    assert s.accepted[..D + s.r.n] == s.accepted[..D] + s.accepted[D..D + s.r.n];
  }

  lemma NextKeepsInv(s: State, a: Action)
    requires Inv(s)
    ensures Inv(Next(s, a))
  {
    if Enabled(s, a) {
      match a
      case WCall(_) =>
      case WLoadTail => LoadTailKeepsInv(s);
      case WCopyByte => StoreKeepsInv(s);
      case WPublish => PublishKeepsInv(s);
      case RCall(_) =>
      case RLoadTail => ReadLoadKeepsInv(s);
      case RCopyByte => ReadByteKeepsInv(s);
      case RPublish => ReadPublishKeepsInv(s);
    }
  }

  // ---------------------------------------------------------------------------
  // Whole runs

  /** The state after a schedule of steps. */
  function Run(s: State, acts: seq<Action>): (t: State)
    requires |s.mem.data| == CAP
    ensures |t.mem.data| == CAP
  {
    if acts == [] then s else Next(Run(s, acts[..|acts| - 1]), acts[|acts| - 1])
  }

  lemma {:induction false} RunKeepsInv(s: State, acts: seq<Action>)
    requires Inv(s)
    ensures Inv(Run(s, acts))
  {
    if acts != [] {
      RunKeepsInv(s, acts[..|acts| - 1]);
      NextKeepsInv(Run(s, acts[..|acts| - 1]), acts[|acts| - 1]);
    }
  }

  /** A state some schedule leads to, whatever the buffer held at first. */
  ghost predicate Reachable(s: State) {
    exists d, acts :: |d| == CAP && s == Run(Init(d), acts)
  }

  lemma ReachableInv(s: State)
    requires Reachable(s)
    ensures Inv(s)
  {
    var d, acts :| |d| == CAP && s == Run(Init(d), acts);
    RunKeepsInv(Init(d), acts);
  }

  /** FIFO: in every interleaving, for any number of bytes and so through every
      wrap of the counters, what has been read is a prefix of what has been
      accepted, at most one capacity is unread, and the two shared words are the
      true counts modulo 2^32. */
  lemma EveryRunIsFifo(s: State)
    requires Reachable(s)
    ensures s.delivered <= s.accepted
    ensures 0 <= |s.accepted| - |s.delivered| <= CAP
    ensures s.mem.head == |s.accepted| % U32 && s.mem.tail == |s.delivered| % U32
  {
    ReachableInv(s);
  }

  /** In every reachable state an accepted byte that is not read yet is in its
      cell, and no next step of either side changes that cell. */
  lemma NoUnreadByteOverwritten(s: State, a: Action, k: nat)
    requires Reachable(s) && |s.delivered| <= k < |s.accepted|
    ensures |s.mem.data| == CAP
    ensures Next(s, a).mem.data[k % CAP] == s.mem.data[k % CAP] == s.accepted[k]
  {
    ReachableInv(s);
    assert s.mem.data[Mask(k)] == s.accepted[k];
    if a == WCopyByte && Enabled(s, a) {
      MaskIsPosition(|s.accepted|, s.w.i);
      DistinctCells(k, |s.accepted| + s.w.i);
    }
  }

  // ---------------------------------------------------------------------------
  // The two calls as the loops they are, each run without interference

  lemma StoreStep(data: seq<Byte>, accepted: seq<Byte>, from: nat, buf: seq<Byte>, i: nat)
    requires |data| == CAP && from <= |accepted| && |accepted| + i < from + CAP && i < |buf|
    requires Window(data, accepted, from) && Stored(data, |accepted|, buf[..i])
    ensures var d := data[Mask(Wrap(Wrap(|accepted|) + i)) := buf[i]];
            Window(d, accepted, from) && Stored(d, |accepted|, buf[..i + 1])
  {
    MaskIsPosition(|accepted|, i);
    StoreKeepsWindow(data, accepted, from, i, buf[i]);
    StoreExtends(data, |accepted|, buf, i);
  }

  lemma WriteRoom(a: nat, d: nat, len: nat)
    requires d <= a <= d + CAP && len < U32
    ensures ClipAgent(len, Wrap(CAP - Wrap(Wrap(a) - Wrap(d)))) == Min(len, CAP - (a - d))
  {
    WrappedDifference(a, d);
  }

  lemma ReadRoom(a: nat, d: nat, want: nat)
    requires d <= a <= d + CAP && want < U32
    ensures ClipAgent(want, Wrap(Wrap(a) - Wrap(d))) == Min(want, a - d)
  {
    WrappedDifference(a, d);
  }

  /** Publishing stored bytes keeps the shared invariant. */
  lemma PublishShares(data: seq<Byte>, accepted: seq<Byte>, delivered: seq<Byte>, bs: seq<Byte>)
    requires |data| == CAP && delivered <= accepted && |accepted| + |bs| <= |delivered| + CAP
    requires Window(data, accepted, |delivered|) && Stored(data, |accepted|, bs)
    ensures Shared(State(Circle(Wrap(Wrap(|accepted|) + |bs|), Wrap(|delivered|), data), WIdle, RIdle,
                         accepted + bs, delivered))
  {
    WrapAdd(|accepted|, |bs|);
    PublishExtendsWindow(data, accepted, |delivered|, bs);
  }

  /** Taking the next bytes keeps it too. */
  lemma TakeShares(data: seq<Byte>, accepted: seq<Byte>, delivered: seq<Byte>, n: nat)
    requires |data| == CAP && delivered <= accepted && |delivered| + n <= |accepted| <= |delivered| + CAP
    requires Window(data, accepted, |delivered|)
    ensures Shared(State(Circle(Wrap(|accepted|), Wrap(Wrap(|delivered|) + n), data), WIdle, RIdle,
                         accepted, delivered + accepted[|delivered|..|delivered| + n]))
  {
    WrapAdd(|delivered|, n);
    var d := |delivered|;
    assert accepted[..d + n] == accepted[..d] + accepted[d..d + n];
  }

  class SharedCircle {
    var head: nat
    var tail: nat
    const data: array<Byte>
    ghost var accepted: seq<Byte>
    ghost var delivered: seq<Byte>

    /** The shared part of the machine's invariant. */
    ghost predicate Valid()
      reads this, data
    {
      data.Length == CAP && Shared(State(Circle(head, tail, data[..]), WIdle, RIdle, accepted, delivered))
    }

    constructor ()
      ensures Valid() && accepted == [] && delivered == []
    {
      head, tail, accepted, delivered := 0, 0, [], [];
      data := new Byte[CAP](_ => 0);
    }

    /** The copy loop of a write: `n` bytes to the cells behind the accepted ones. */
    method CopyIn(h: nat, buf: seq<Byte>, n: nat)
      requires data.Length == CAP && h == Wrap(|accepted|) && n <= |buf|
      requires |delivered| <= |accepted| && |accepted| + n <= |delivered| + CAP
      requires Window(data[..], accepted, |delivered|)
      modifies data
      ensures Window(data[..], accepted, |delivered|) && Stored(data[..], |accepted|, buf[..n])
    {
      for i := 0 to n
        invariant Window(data[..], accepted, |delivered|)
        invariant Stored(data[..], |accepted|, buf[..i])
      {
        StoreStep(data[..], accepted, |delivered|, buf, i);
        data[Mask(Wrap(h + i))] := buf[i];
      }
    }

    method WriteCirc(buf: seq<Byte>) returns (n: nat)
      requires Valid() && |buf| < U32
      modifies this`head, this`accepted, data
      ensures Valid()
      ensures n == Min(|buf|, CAP - (|old(accepted)| - |delivered|))
      ensures accepted == old(accepted) + buf[..n]
    {
      WriteRoom(|accepted|, |delivered|, |buf|);
      var h := head;
      var avail := Wrap(CAP - Wrap(h - tail));
      n := ClipAgent(|buf|, avail);
      CopyIn(h, buf, n);
      PublishShares(data[..], accepted, delivered, buf[..n]);
      head := Wrap(h + n);
      accepted := accepted + buf[..n];
    }

    /** The copy loop of a read. */
    method CopyOut(t: nat, n: nat) returns (buf: seq<Byte>)
      requires data.Length == CAP && t == Wrap(|delivered|) && |delivered| + n <= |accepted|
      requires Window(data[..], accepted, |delivered|)
      ensures buf == accepted[|delivered|..|delivered| + n]
    {
      ghost var d := |delivered|;
      buf := [];
      for i := 0 to n
        invariant buf == accepted[d..d + i]
      {
        MaskIsPosition(d, i);
        assert data[..][Mask(d + i)] == accepted[d + i];
        buf := buf + [data[Mask(Wrap(t + i))]];
      }
    }

    method ReadCirc(want: nat) returns (buf: seq<Byte>)
      requires Valid() && want < U32
      modifies this`tail, this`delivered
      ensures Valid()
      ensures |buf| == Min(want, |accepted| - |old(delivered)|)
      ensures delivered == old(delivered) + buf
    {
      ReadRoom(|accepted|, |delivered|, want);
      var t := tail;
      var avail := Wrap(head - t);
      var n := ClipAgent(want, avail);
      buf := CopyOut(t, n);
      TakeShares(data[..], accepted, delivered, n);
      tail := Wrap(t + n);
      delivered := delivered + buf;
    }
  }
}
