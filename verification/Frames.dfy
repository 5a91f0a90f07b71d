/** The response stream of the guest agent: stdout and stderr frames in the order
    they were read, then an exit frame and the exit code.  The agent cuts its
    output into frames and appends them; the host parses, again and again while
    the response still grows, until the exit frame is there. */
module Frames {
  import opened Common

  const I31: int := 0x8000_0000
  const EXIT: nat := 0
  const STDOUT: nat := 1
  const STDERR: nat := 2
  const IO_CHUNK: nat := 0x2_0000

  datatype Error = ShortHeader | ShortExitCode | ShortBody

  datatype Result = Ok(code: int, out: seq<Byte>, err: seq<Byte>) | Err(error: Error)

  // ---------------------------------------------------------------------------
  // Little-endian words

  ghost function Pow256(k: nat): nat { if k == 0 then 1 else 256 * Pow256(k - 1) }

  /** The `k` low bytes of a number, lowest first. */
  function LowBytes(n: nat, k: nat): (s: seq<Byte>)
    ensures |s| == k
  {
    if k == 0 then [] else [n % 256] + LowBytes(n / 256, k - 1)
  }

  function ValueOf(s: seq<Byte>): (n: nat)
    ensures n < Pow256(|s|)
  {
    if s == [] then 0 else s[0] + 256 * ValueOf(s[1..])
  }

  function Le32(n: int): (s: seq<Byte>)
    requires 0 <= n < U32
    ensures |s| == 4
  {
    LowBytes(n, 4)
  }

  function U32At(s: seq<Byte>, i: nat): (n: int)
    requires i + 4 <= |s|
    ensures 0 <= n < U32
  {
    WordsFit();
    ValueOf(s[i..i + 4])
  }

  lemma WordsFit()
    ensures Pow256(4) == U32
  {
    assert Pow256(2) == 65536;
  }

  lemma {:induction false} ValueOfLowBytes(n: nat, k: nat)
    requires n < Pow256(k)
    ensures ValueOf(LowBytes(n, k)) == n
  {
    if k > 0 {
      assert LowBytes(n, k)[1..] == LowBytes(n / 256, k - 1);
      ValueOfLowBytes(n / 256, k - 1);
    }
  }

  lemma WordRoundTrip(n: int)
    requires 0 <= n < U32
    ensures ValueOf(Le32(n)) == n
  {
    WordsFit();
    ValueOfLowBytes(n, 4);
  }

  /** Words are read lowest byte first. */
  lemma WordIsLittleEndian(s: seq<Byte>, i: nat)
    requires i + 4 <= |s|
    ensures U32At(s, i) == s[i] as int + 256 * s[i + 1] as int + 65536 * s[i + 2] as int + 16777216 * s[i + 3] as int
  {
    var w := s[i..i + 4];
    var d3: nat, d2: nat, d1: nat := ValueOf(w[3..]), ValueOf(w[2..]), ValueOf(w[1..]);
    assert w[1..][1..] == w[2..] && w[2..][1..] == w[3..] && w[3..][1..] == [];
    assert d3 == w[3] && d2 == w[2] + 256 * d3 && d1 == w[1] + 256 * d2;
    assert U32At(s, i) == w[0] + 256 * d1;
  }

  /** The bits of a 32-bit signed number, read as an unsigned one. */
  function Bits(code: int): int
    requires -I31 <= code < I31
  {
    if code < 0 then code + U32 else code
  }

  function Signed(n: int): int
    requires 0 <= n < U32
  {
    if n < I31 then n else n - U32
  }

  // ---------------------------------------------------------------------------
  // Parsing

  /** What `acc`, which collects the stream `mine`, is after a frame. */
  function Gather(stream: int, mine: int, acc: seq<Byte>, body: seq<Byte>): seq<Byte> {
    if stream == mine then acc + body else acc
  }

  /** What is left to parse, and what the frames before it brought. */
  function Parse(cur: seq<Byte>, out: seq<Byte>, err: seq<Byte>): Result
    decreases |cur|
  {
    if |cur| < 8 then Err(ShortHeader)
    else
      var stream, len, rest := U32At(cur, 0), U32At(cur, 4), cur[8..];
      if stream == EXIT then
        if |rest| < 4 then Err(ShortExitCode) else Ok(Signed(U32At(rest, 0)), out, err)
      else if |rest| < len then Err(ShortBody)
      else Parse(rest[len..], Gather(stream, STDOUT, out, rest[..len]), Gather(stream, STDERR, err, rest[..len]))
  }

  method ParseFrames(buf: seq<Byte>) returns (r: Result)
    ensures r == Parse(buf, [], [])
  {
    var cur, out, err := buf, [], [];
    while true
      invariant Parse(cur, out, err) == Parse(buf, [], [])
      decreases |cur|
    {
      if |cur| < 8 { return Err(ShortHeader); }
      var stream, len := U32At(cur, 0), U32At(cur, 4);
      var rest := cur[8..];
      if stream == EXIT {
        if |rest| < 4 { return Err(ShortExitCode); }
        return Ok(Signed(U32At(rest, 0)), out, err);
      }
      if |rest| < len { return Err(ShortBody); }
      if stream == STDOUT {
        out := out + rest[..len];
      } else if stream == STDERR {
        err := err + rest[..len];
      }
      cur := rest[len..];
    }
  }

  lemma ContinueParse(cur: seq<Byte>, out: seq<Byte>, err: seq<Byte>)
    requires |cur| >= 8 && U32At(cur, 0) != EXIT && U32At(cur, 4) <= |cur| - 8
    ensures var stream, len, rest := U32At(cur, 0), U32At(cur, 4), cur[8..];
            Parse(cur, out, err)
            == Parse(rest[len..], Gather(stream, STDOUT, out, rest[..len]), Gather(stream, STDERR, err, rest[..len]))
  {
  }

  lemma FrontReads(cur: seq<Byte>, more: seq<Byte>, i: nat)
    requires i + 4 <= |cur|
    ensures U32At(cur + more, i) == U32At(cur, i)
  {
    assert (cur + more)[i..i + 4] == cur[i..i + 4];
  }

  lemma SuffixAfterExit(cur: seq<Byte>, more: seq<Byte>, out: seq<Byte>, err: seq<Byte>)
    requires |cur| >= 12 && U32At(cur, 0) == EXIT
    ensures Parse(cur + more, out, err) == Parse(cur, out, err)
  {
    FrontReads(cur, more, 0);
    assert (cur + more)[8..] == cur[8..] + more;
    FrontReads(cur[8..], more, 0);
  }

  /** The frame in front is consumed alike with and without more bytes behind. */
  lemma SuffixStep(cur: seq<Byte>, more: seq<Byte>, out: seq<Byte>, err: seq<Byte>)
    returns (rest: seq<Byte>, out': seq<Byte>, err': seq<Byte>)
    requires Parse(cur, out, err).Ok? && U32At(cur, 0) != EXIT
    ensures |rest| < |cur| && Parse(cur, out, err) == Parse(rest, out', err')
    ensures Parse(cur + more, out, err) == Parse(rest + more, out', err')
  {
    var stream, len := U32At(cur, 0), U32At(cur, 4);
    var body := cur[8..][..len];
    rest := cur[8..][len..];
    out', err' := Gather(stream, STDOUT, out, body), Gather(stream, STDERR, err, body);
    FrontReads(cur, more, 0);
    FrontReads(cur, more, 4);
    ContinueParse(cur, out, err);
    ContinueParse(cur + more, out, err);
    assert (cur + more)[8..][..len] == body && (cur + more)[8..][len..] == rest + more;
  }

  /** Bytes after a complete response change nothing. */
  lemma {:induction false} SuffixIsIgnored(cur: seq<Byte>, more: seq<Byte>, out: seq<Byte>, err: seq<Byte>)
    requires Parse(cur, out, err).Ok?
    ensures Parse(cur + more, out, err) == Parse(cur, out, err)
    decreases |cur|
  {
    if U32At(cur, 0) == EXIT {
      SuffixAfterExit(cur, more, out, err);
    } else {
      var rest, out', err' := SuffixStep(cur, more, out, err);
      SuffixIsIgnored(rest, more, out', err');
    }
  }

  // ---------------------------------------------------------------------------
  // Encoding

  /** A frame that is not the exit frame. */
  datatype Frame = Frame(stream: int, body: seq<Byte>) {
    predicate Valid() { 0 < stream < U32 && |body| < U32 }
  }

  function Header(stream: int, len: int): (h: seq<Byte>)
    requires 0 <= stream < U32 && 0 <= len < U32
    ensures |h| == 8
  {
    Le32(stream) + Le32(len)
  }

  ghost predicate AllValid(fs: seq<Frame>) { forall k | 0 <= k < |fs| :: fs[k].Valid() }

  function Encode(fs: seq<Frame>): seq<Byte>
    requires AllValid(fs)
  {
    if fs == [] then [] else Header(fs[0].stream, |fs[0].body|) + fs[0].body + Encode(fs[1..])
  }

  function ExitFrame(code: int): seq<Byte>
    requires -I31 <= code < I31
  {
    Header(EXIT, 0) + Le32(Bits(code))
  }

  /** The bytes of one stream, in order. */
  function Bodies(fs: seq<Frame>, stream: int): seq<Byte> {
    if fs == [] then []
    else if fs[0].stream == stream then fs[0].body + Bodies(fs[1..], stream)
    else Bodies(fs[1..], stream)
  }

  lemma HeaderReads(stream: int, len: int, rest: seq<Byte>)
    requires 0 <= stream < U32 && 0 <= len < U32
    ensures var s := Header(stream, len) + rest;
            |s| >= 8 && U32At(s, 0) == stream && U32At(s, 4) == len && s[8..] == rest
  {
    var s := Header(stream, len) + rest;
    assert s[0..4] == Le32(stream) && s[4..8] == Le32(len) && s[8..] == rest;
    WordRoundTrip(stream);
    WordRoundTrip(len);
  }

  /** One frame is consumed and lands in its stream. */
  lemma ParseFrame(f: Frame, rest: seq<Byte>, out: seq<Byte>, err: seq<Byte>)
    requires f.Valid()
    ensures Parse(Header(f.stream, |f.body|) + f.body + rest, out, err)
         == Parse(rest, Gather(f.stream, STDOUT, out, f.body), Gather(f.stream, STDERR, err, f.body))
  {
    HeaderReads(f.stream, |f.body|, f.body + rest);
    assert Header(f.stream, |f.body|) + f.body + rest == Header(f.stream, |f.body|) + (f.body + rest);
    assert (f.body + rest)[..|f.body|] == f.body && (f.body + rest)[|f.body|..] == rest;
  }

  lemma ParseExitWord(w: seq<Byte>, more: seq<Byte>, out: seq<Byte>, err: seq<Byte>)
    requires |w| == 4
    ensures Parse(Header(EXIT, 0) + w + more, out, err) == Ok(Signed(U32At(w, 0)), out, err)
  {
    assert Header(EXIT, 0) + w + more == Header(EXIT, 0) + (w + more);
    HeaderReads(EXIT, 0, w + more);
    assert (w + more)[0..4] == w[0..4];
  }

  /** The bytes of a short frame's header. */
  lemma HeaderBytes(stream: Byte, len: Byte)
    ensures Header(stream, len) == [stream, 0, 0, 0, len, 0, 0, 0]
  {
    WordBytes(stream);
    WordBytes(len);
  }

  lemma WordBytes(n: nat)
    requires n < 256
    ensures Le32(n) == [n, 0, 0, 0]
  {
    assert n / 256 == 0 && n % 256 == n;
    assert LowBytes(0, 3) == [0] + LowBytes(0, 2) && LowBytes(0, 2) == [0] + LowBytes(0, 1);
    assert LowBytes(0, 1) == [0] + LowBytes(0, 0);
  }

  lemma ParseExit(code: int, more: seq<Byte>, out: seq<Byte>, err: seq<Byte>)
    requires -I31 <= code < I31
    ensures Parse(ExitFrame(code) + more, out, err) == Ok(code, out, err)
  {
    var w := Le32(Bits(code));
    ParseExitWord(w, more, out, err);
    WordRoundTrip(Bits(code));
    assert w[0..4] == w;
  }

  /** Stream 1 is stdout and stream 2 stderr. */
  lemma StreamNumbers(stream: int, body: seq<Byte>, code: int)
    requires (stream == 1 || stream == 2) && |body| < U32 && -I31 <= code < I31
    ensures Parse(Header(stream, |body|) + body + ExitFrame(code), [], [])
         == if stream == 1 then Ok(code, body, []) else Ok(code, [], body)
  {
    OneFrame(Frame(stream, body), code);
    assert [] + body == body;
  }

  lemma OneFrame(f: Frame, code: int)
    requires f.Valid() && -I31 <= code < I31
    ensures Parse(Header(f.stream, |f.body|) + f.body + ExitFrame(code), [], [])
         == Ok(code, Gather(f.stream, STDOUT, [], f.body), Gather(f.stream, STDERR, [], f.body))
  {
    var exit, out, err := ExitFrame(code), Gather(f.stream, STDOUT, [], f.body), Gather(f.stream, STDERR, [], f.body);
    ParseFrame(f, exit, [], []);
    ParseExit(code, [], out, err);
    assert exit + [] == exit;
  }

  lemma GatherThenBodies(fs: seq<Frame>, mine: int, acc: seq<Byte>)
    requires fs != []
    ensures Gather(fs[0].stream, mine, acc, fs[0].body) + Bodies(fs[1..], mine) == acc + Bodies(fs, mine)
  {
  }

  /** Frames are consumed one by one, in front of anything. */
  lemma {:induction false} ParseAllFrames(fs: seq<Frame>, rest: seq<Byte>, out: seq<Byte>, err: seq<Byte>)
    requires AllValid(fs)
    ensures Parse(Encode(fs) + rest, out, err) == Parse(rest, out + Bodies(fs, STDOUT), err + Bodies(fs, STDERR))
  {
    if fs == [] {
      assert Encode(fs) + rest == rest;
      assert out + [] == out && err + [] == err;
    } else {
      var f, tail := fs[0], Encode(fs[1..]) + rest;
      assert Encode(fs) + rest == Header(f.stream, |f.body|) + f.body + tail;
      ParseFrame(f, tail, out, err);
      ParseAllFrames(fs[1..], rest, Gather(f.stream, STDOUT, out, f.body), Gather(f.stream, STDERR, err, f.body));
      GatherThenBodies(fs, STDOUT, out);
      GatherThenBodies(fs, STDERR, err);
    }
  }

  lemma ParseFromStart(fs: seq<Frame>, end: seq<Byte>, more: seq<Byte>)
    requires AllValid(fs)
    ensures Parse(Encode(fs) + end + more, [], []) == Parse(end + more, Bodies(fs, STDOUT), Bodies(fs, STDERR))
  {
    var o, e, rest := Bodies(fs, STDOUT), Bodies(fs, STDERR), end + more;
    ParseAllFrames(fs, rest, [], []);
    assert Encode(fs) + end + more == Encode(fs) + rest && [] + o == o && [] + e == e;
  }

  /** Every chunking of the two streams parses back to the streams and the code,
      whatever follows. */
  lemma ParseInvertsEncode(fs: seq<Frame>, code: int, more: seq<Byte>)
    requires AllValid(fs) && -I31 <= code < I31
    ensures Parse(Encode(fs) + ExitFrame(code) + more, [], []) == Ok(code, Bodies(fs, STDOUT), Bodies(fs, STDERR))
  {
    ParseFromStart(fs, ExitFrame(code), more);
    ParseExit(code, more, Bodies(fs, STDOUT), Bodies(fs, STDERR));
  }

  /** A parse that succeeds has read 12 bytes at least. */
  lemma ShortFails(cur: seq<Byte>, out: seq<Byte>, err: seq<Byte>)
    requires |cur| < 12
    ensures Parse(cur, out, err).Err?
    decreases |cur|
  {
    if |cur| >= 8 && U32At(cur, 0) != EXIT && U32At(cur, 4) <= |cur[8..]| {
      var len, rest := U32At(cur, 4), cur[8..];
      var stream, body := U32At(cur, 0), rest[..len];
      ShortFails(rest[len..], Gather(stream, STDOUT, out, body), Gather(stream, STDERR, err, body));
    }
  }

  lemma CutInsideFrame(f: Frame, tail: seq<Byte>, n: nat, out: seq<Byte>, err: seq<Byte>)
    requires f.Valid() && n < 8 + |f.body|
    ensures Parse((Header(f.stream, |f.body|) + f.body + tail)[..n], out, err).Err?
  {
    if n >= 8 {
      var cut := (f.body + tail)[..n - 8];
      assert (Header(f.stream, |f.body|) + f.body + tail)[..n] == Header(f.stream, |f.body|) + cut;
      HeaderReads(f.stream, |f.body|, cut);
    }
  }

  lemma CutAfterFrame(f: Frame, tail: seq<Byte>, n: nat, out: seq<Byte>, err: seq<Byte>)
    requires f.Valid() && 8 + |f.body| <= n <= 8 + |f.body| + |tail|
    ensures Parse((Header(f.stream, |f.body|) + f.body + tail)[..n], out, err)
         == Parse(tail[..n - 8 - |f.body|], Gather(f.stream, STDOUT, out, f.body),
                  Gather(f.stream, STDERR, err, f.body))
  {
    var h, cut := Header(f.stream, |f.body|) + f.body, tail[..n - 8 - |f.body|];
    assert (h + tail)[..n] == h + cut;
    ParseFrame(f, cut, out, err);
  }

  lemma EncodeFirst(fs: seq<Frame>, after: seq<Byte>)
    requires AllValid(fs) && fs != []
    ensures Encode(fs) + after == Header(fs[0].stream, |fs[0].body|) + fs[0].body + (Encode(fs[1..]) + after)
  {
  }

  /** A response cut short anywhere is refused. */
  lemma {:induction false} StrictPrefixFails(fs: seq<Frame>, code: int, n: nat, out: seq<Byte>, err: seq<Byte>)
    requires AllValid(fs) && -I31 <= code < I31 && n < |Encode(fs) + ExitFrame(code)|
    ensures Parse((Encode(fs) + ExitFrame(code))[..n], out, err).Err?
    decreases |fs|
  {
    if fs == [] {
      ShortFails((Encode(fs) + ExitFrame(code))[..n], out, err);
    } else {
      var f, tail := fs[0], Encode(fs[1..]) + ExitFrame(code);
      EncodeFirst(fs, ExitFrame(code));
      if n < 8 + |f.body| {
        CutInsideFrame(f, tail, n, out, err);
      } else {
        CutAfterFrame(f, tail, n, out, err);
        var out', err' := Gather(f.stream, STDOUT, out, f.body), Gather(f.stream, STDERR, err, f.body);
        StrictPrefixFails(fs[1..], code, n - 8 - |f.body|, out', err');
      }
    }
  }

  // ---------------------------------------------------------------------------
  // Polling a growing response

  /** A snapshot of a growing response parses exactly when it is complete, and
      then to the right answer. */
  lemma SnapshotParses(fs: seq<Frame>, code: int, more: seq<Byte>, n: nat)
    requires AllValid(fs) && -I31 <= code < I31 && n <= |Encode(fs) + ExitFrame(code) + more|
    ensures var snap := (Encode(fs) + ExitFrame(code) + more)[..n];
            if n < |Encode(fs) + ExitFrame(code)| then Parse(snap, [], []).Err?
            else Parse(snap, [], []) == Ok(code, Bodies(fs, STDOUT), Bodies(fs, STDERR))
  {
    var whole := Encode(fs) + ExitFrame(code);
    if n < |whole| {
      assert (whole + more)[..n] == whole[..n];
      StrictPrefixFails(fs, code, n, [], []);
    } else {
      assert (whole + more)[..n] == whole + more[..n - |whole|];
      ParseInvertsEncode(fs, code, more[..n - |whole|]);
    }
  }

  /** Reads the response again until it parses or the deadline has passed;
      `lengths` are the sizes found at the successive reads up to the deadline. */
  method PollResponse(response: seq<Byte>, lengths: seq<nat>, ghost fs: seq<Frame>, ghost code: int,
                      ghost more: seq<Byte>)
    returns (r: Result)
    requires AllValid(fs) && -I31 <= code < I31 && response == Encode(fs) + ExitFrame(code) + more
    requires lengths != [] && forall k | 0 <= k < |lengths| :: lengths[k] <= |response|
    ensures r.Ok? <==> exists k | 0 <= k < |lengths| :: lengths[k] >= |Encode(fs) + ExitFrame(code)|
    ensures r.Ok? ==> r == Ok(code, Bodies(fs, STDOUT), Bodies(fs, STDERR))
  {
    var k := 0;
    r := Err(ShortHeader);
    while k < |lengths|
      invariant k <= |lengths| && r.Err?
      invariant forall j | 0 <= j < k :: lengths[j] < |Encode(fs) + ExitFrame(code)|
    {
      r := ParseFrames(response[..lengths[k]]);
      SnapshotParses(fs, code, more, lengths[k]);
      if r.Ok? { return; }
      k := k + 1;
    }
  }

  // ---------------------------------------------------------------------------
  // The agent's side

  /** Cuts data to pieces of at most one chunk; no data is one empty piece. */
  ghost function Pieces(stream: int, data: seq<Byte>): (fs: seq<Frame>)
    requires 0 < stream < U32
    ensures AllValid(fs)
  {
    if |data| <= IO_CHUNK then [Frame(stream, data)]
    else [Frame(stream, data[..IO_CHUNK])] + Pieces(stream, data[IO_CHUNK..])
  }

  /** What is still to be written when `p` is left of the data. */
  ghost function Unsent(stream: int, p: seq<Byte>): seq<Byte>
    requires 0 < stream < U32
  {
    if p == [] then [] else Encode(Pieces(stream, p))
  }

  lemma SendOne(stream: int, p: seq<Byte>)
    requires 0 < stream < U32 && p != []
    ensures var c := if |p| > IO_CHUNK then IO_CHUNK else |p|;
            Unsent(stream, p) == Header(stream, c) + p[..c] + Unsent(stream, p[c..])
  {
    if |p| <= IO_CHUNK {
      assert p[..|p|] == p && Pieces(stream, p)[1..] == [];
      assert Encode(Pieces(stream, p)) == Header(stream, |p|) + p + [];
    } else {
      assert Pieces(stream, p)[1..] == Pieces(stream, p[IO_CHUNK..]);
    }
  }

  lemma SendStep(bytes: seq<Byte>, stream: int, p: seq<Byte>, h: seq<Byte>, c: nat)
    requires 0 < stream < U32 && p != [] && c == (if |p| > IO_CHUNK then IO_CHUNK else |p|) && h == Header(stream, c)
    ensures bytes + h + p[..c] + Unsent(stream, p[c..]) == bytes + Unsent(stream, p)
  {
    SendOne(stream, p);
    Regroup(bytes, h, p[..c], Unsent(stream, p[c..]));
  }

  lemma Regroup(a: seq<Byte>, b: seq<Byte>, c: seq<Byte>, d: seq<Byte>)
    ensures a + b + c + d == a + (b + c + d)
  {
  }

  lemma {:induction false} PiecesHoldData(stream: int, data: seq<Byte>, mine: int)
    requires 0 < stream < U32
    ensures Bodies(Pieces(stream, data), mine) == if mine == stream then data else []
  {
    if |data| <= IO_CHUNK {
      assert Pieces(stream, data)[1..] == [];
      assert data + [] == data;
    } else {
      var p := Pieces(stream, data[IO_CHUNK..]);
      assert Pieces(stream, data)[1..] == p;
      PiecesHoldData(stream, data[IO_CHUNK..], mine);
      assert data[..IO_CHUNK] + data[IO_CHUNK..] == data;
    }
  }

  lemma {:induction false} EncodeConcat(fs: seq<Frame>, gs: seq<Frame>)
    requires AllValid(fs) && AllValid(gs)
    ensures Encode(fs + gs) == Encode(fs) + Encode(gs)
  {
    if fs == [] {
      assert fs + gs == gs;
    } else {
      assert (fs + gs)[1..] == fs[1..] + gs;
      EncodeConcat(fs[1..], gs);
    }
  }

  lemma {:induction false} BodiesConcat(fs: seq<Frame>, gs: seq<Frame>, mine: int)
    ensures Bodies(fs + gs, mine) == Bodies(fs, mine) + Bodies(gs, mine)
  {
    if fs == [] {
      assert fs + gs == gs;
    } else {
      assert (fs + gs)[1..] == fs[1..] + gs;
      BodiesConcat(fs[1..], gs, mine);
    }
  }

  /** One read of the child's output: no bytes means the end of that stream. */
  datatype Read = Read(isErr: bool, data: seq<Byte>)

  /** The frames the pump sends for the reads that select reports in turn, as
      long as a stream is open. */
  ghost function Pumped(chunks: seq<Read>, outOpen: bool, errOpen: bool): (fs: seq<Frame>)
    ensures AllValid(fs)
  {
    if chunks == [] || (!outOpen && !errOpen) then []
    else
      var r := chunks[0];
      if !(if r.isErr then errOpen else outOpen) then Pumped(chunks[1..], outOpen, errOpen)
      else if r.data == [] then Pumped(chunks[1..], outOpen && r.isErr, errOpen && !r.isErr)
      else Pieces(if r.isErr then STDERR else STDOUT, r.data) + Pumped(chunks[1..], outOpen, errOpen)
  }

  lemma PumpStep(bytes: seq<Byte>, chunks: seq<Read>, k: nat, outOpen: bool, errOpen: bool)
    requires k < |chunks| && (outOpen || errOpen)
    ensures var r, now := chunks[k], Pumped(chunks[k..], outOpen, errOpen);
            if !(if r.isErr then errOpen else outOpen) then now == Pumped(chunks[k + 1..], outOpen, errOpen)
            else if r.data == [] then now == Pumped(chunks[k + 1..], outOpen && r.isErr, errOpen && !r.isErr)
            else bytes + Encode(now) == bytes + Encode(Pieces(if r.isErr then STDERR else STDOUT, r.data))
                                        + Encode(Pumped(chunks[k + 1..], outOpen, errOpen))
  {
    var r := chunks[k];
    assert chunks[k..][1..] == chunks[k + 1..] && chunks[k..][0] == r;
    if (if r.isErr then errOpen else outOpen) && r.data != [] {
      var p, rest := Pieces(if r.isErr then STDERR else STDOUT, r.data), Pumped(chunks[k + 1..], outOpen, errOpen);
      EncodeConcat(p, rest);
      assert bytes + (Encode(p) + Encode(rest)) == bytes + Encode(p) + Encode(rest);
    }
  }

  /** What one stream delivers up to its end. */
  ghost function Delivered(chunks: seq<Read>, isErr: bool): seq<Byte> {
    if chunks == [] then []
    else if chunks[0].isErr != isErr then Delivered(chunks[1..], isErr)
    else if chunks[0].data == [] then []
    else chunks[0].data + Delivered(chunks[1..], isErr)
  }

  lemma {:induction false} PumpedDelivers(chunks: seq<Read>, outOpen: bool, errOpen: bool)
    ensures Bodies(Pumped(chunks, outOpen, errOpen), STDOUT) == if outOpen then Delivered(chunks, false) else []
    ensures Bodies(Pumped(chunks, outOpen, errOpen), STDERR) == if errOpen then Delivered(chunks, true) else []
  {
    if chunks != [] && (outOpen || errOpen) {
      var r := chunks[0];
      if !(if r.isErr then errOpen else outOpen) {
        PumpedDelivers(chunks[1..], outOpen, errOpen);
      } else if r.data == [] {
        PumpedDelivers(chunks[1..], outOpen && r.isErr, errOpen && !r.isErr);
      } else {
        PumpedDelivers(chunks[1..], outOpen, errOpen);
        var stream := if r.isErr then STDERR else STDOUT;
        var p, rest := Pieces(stream, r.data), Pumped(chunks[1..], outOpen, errOpen);
        PiecesHoldData(stream, r.data, STDOUT);
        PiecesHoldData(stream, r.data, STDERR);
        BodiesConcat(p, rest, STDOUT);
        BodiesConcat(p, rest, STDERR);
      }
    }
  }

  /** The file or socket the agent writes to. */
  class Wire {
    var bytes: seq<Byte>

    constructor ()
      ensures bytes == []
    {
      bytes := [];
    }

    /** Sends data of a stream, at most one chunk to a frame. */
    method SendFrame(stream: int, data: seq<Byte>)
      requires 0 < stream < U32
      modifies this
      ensures bytes == old(bytes) + Encode(Pieces(stream, data))
    {
      if data == [] {
        bytes := bytes + Header(stream, 0);
        return;
      }
      var p := data;
      ghost var goal := bytes + Unsent(stream, data);
      while p != []
        invariant bytes + Unsent(stream, p) == goal
      {
        var c := if |p| > IO_CHUNK then IO_CHUNK else |p|;
        var h := Header(stream, c);
        SendStep(bytes, stream, p, h, c);
        bytes := bytes + h + p[..c];
        p := p[c..];
      }
    }

    /** Forwards both streams of the child until each has ended. */
    method Pump(chunks: seq<Read>)
      modifies this
      ensures bytes == old(bytes) + Encode(Pumped(chunks, true, true))
    {
      var outOpen, errOpen, k := true, true, 0;
      ghost var goal := bytes + Encode(Pumped(chunks, true, true));
      assert chunks[0..] == chunks;
      while k < |chunks| && (outOpen || errOpen)
        invariant k <= |chunks| && bytes + Encode(Pumped(chunks[k..], outOpen, errOpen)) == goal
      {
        var r := chunks[k];
        PumpStep(bytes, chunks, k, outOpen, errOpen);
        if (if r.isErr then errOpen else outOpen) {
          if r.data == [] {
            if r.isErr { errOpen := false; } else { outOpen := false; }
          } else {
            SendFrame(if r.isErr then STDERR else STDOUT, r.data);
          }
        }
        k := k + 1;
      }
    }

    /** The whole response to an exec request. */
    method Respond(chunks: seq<Read>, code: int)
      requires -I31 <= code < I31
      modifies this
      ensures bytes == old(bytes) + Encode(Pumped(chunks, true, true)) + ExitFrame(code)
    {
      Pump(chunks);
      bytes := bytes + Header(EXIT, 0);
      bytes := bytes + Le32(Bits(code));
    }
  }

  /** From the child's output to the host's result: both streams complete and in
      order, and the exit code. */
  lemma ResponseParses(chunks: seq<Read>, code: int, more: seq<Byte>)
    requires -I31 <= code < I31
    ensures Parse(Encode(Pumped(chunks, true, true)) + ExitFrame(code) + more, [], [])
         == Ok(code, Delivered(chunks, false), Delivered(chunks, true))
  {
    ParseInvertsEncode(Pumped(chunks, true, true), code, more);
    PumpedDelivers(chunks, true, true);
  }
}
