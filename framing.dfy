/** The framing of the control channel shared by server and client. A frame
    is the payload's length in decimal, left-justified and space-padded to
    `HeaderWidth` characters, followed by the payload. The receiver reads
    chunks as they arrive: the chunk that starts a frame has its first
    `HeaderWidth` characters parsed by Python's `int()`, and the frame is
    complete when the collected text minus the header is exactly as long as
    the header said. The payload stands for the pickled message; the
    serialisation itself is not modelled. */
module Framing {
  import opened Common

  /** `HEADER` in both programs. */
  const HeaderWidth: nat := 10

  function Pow10(k: nat): nat {
    if k == 0 then 1 else 10 * Pow10(k - 1)
  }

  predicate IsDigit(c: char) {
    '0' <= c <= '9'
  }

  function DigitChar(d: nat): char
    requires d < 10
  {
    ('0' as int + d) as char
  }

  function DigitValue(c: char): nat
    requires IsDigit(c)
  {
    c as int - '0' as int
  }

  /** The decimal numeral of `n`, most significant digit first. */
  function Decimal(n: nat): (s: string)
    ensures 1 <= |s| && forall i :: 0 <= i < |s| ==> IsDigit(s[i])
    decreases n
  {
    if n < 10 then [DigitChar(n)] else Decimal(n / 10) + [DigitChar(n % 10)]
  }

  /** `f"{s:<{w}}"`: `s` followed by spaces up to width `w`; a longer `s`
      is left as it is. */
  function LeftJustify(s: string, w: nat): (r: string)
    ensures |r| == if |s| < w then w else |s|
    ensures r[..|s|] == s && forall i :: |s| <= i < |r| ==> r[i] == ' '
  {
    if |s| >= w then s else s + seq(w - |s|, _ => ' ')
  }

  function Header(n: nat): string {
    LeftJustify(Decimal(n), HeaderWidth)
  }

  /** What either side writes to the socket for one message. */
  function Frame(payload: string): string {
    Header(|payload|) + payload
  }

  /** `s[:k]` in Python. */
  function Take(s: string, k: nat): (r: string)
    ensures |r| == if |s| < k then |s| else k
    ensures r == s[..|r|]
  {
    if |s| < k then s else s[..k]
  }

  /** `s[k:]` in Python. */
  function Drop(s: string, k: nat): (r: string)
    ensures |s| >= k ==> r == s[k..]
    ensures |s| < k ==> r == []
  {
    if |s| < k then [] else s[k..]
  }

  // ---------------------------------------------------------------------
  // Python's int() on the header text

  /** ASCII whitespace as `int()` strips it from bytes: space, tab, line
      feed, vertical tab, form feed and carriage return. */
  predicate IsSpace(c: char) {
    c == ' ' || '\t' <= c <= '\r'
  }

  /** `s.lstrip()` of the whitespace `int()` ignores. */
  function TrimLeft(s: string): string {
    if s != [] && IsSpace(s[0]) then TrimLeft(s[1..]) else s
  }

  /** `s.rstrip()` of the whitespace `int()` ignores. */
  function TrimRight(s: string): string {
    if s != [] && IsSpace(s[|s| - 1]) then TrimRight(s[..|s| - 1]) else s
  }

  /** Trimming on the left removes exactly the leading whitespace: what is
      left is a suffix that does not start with a space. */
  lemma {:induction false} TrimLeftMeaning(s: string)
    ensures var r := TrimLeft(s);
      && |r| <= |s| && r == s[|s| - |r|..] && (r == [] || !IsSpace(r[0]))
      && forall i :: 0 <= i < |s| - |r| ==> IsSpace(s[i])
    decreases |s|
  {
    if s != [] && IsSpace(s[0]) {
      TrimLeftMeaning(s[1..]);
      var r := TrimLeft(s[1..]);
      assert s[|s| - |r|..] == s[1..][|s| - 1 - |r|..];
      forall i | 0 < i < |s| - |r| ensures IsSpace(s[i]) {
        assert s[i] == s[1..][i - 1];
      }
    }
  }

  /** Trimming on the right removes exactly the trailing whitespace: what
      is left is a prefix that does not end with a space. */
  lemma {:induction false} TrimRightMeaning(s: string)
    ensures var r := TrimRight(s);
      && |r| <= |s| && r == s[..|r|] && (r == [] || !IsSpace(r[|r| - 1]))
      && forall i :: |r| <= i < |s| ==> IsSpace(s[i])
    decreases |s|
  {
    if s != [] && IsSpace(s[|s| - 1]) {
      TrimRightMeaning(s[..|s| - 1]);
      var r := TrimRight(s[..|s| - 1]);
      assert s[..|r|] == s[..|s| - 1][..|r|];
      forall i | |r| <= i < |s| - 1 ensures IsSpace(s[i]) {
        assert s[i] == s[..|s| - 1][i];
      }
    }
  }

  /** Digits as `int()` accepts them: at least one, each underscore alone
      and between two digits. Read from the end: a digit, after a digit
      run or after an underscore that follows one. */
  predicate DigitRun(s: string)
    decreases |s|
  {
    && |s| > 0 && IsDigit(s[|s| - 1])
    && (|s| == 1 || DigitRun(s[..|s| - 1]) || (|s| >= 3 && s[|s| - 2] == '_' && DigitRun(s[..|s| - 2])))
  }

  /** A digit run starts with a digit, and holds only digits and
      underscores, each underscore followed by a digit. */
  lemma {:induction false} DigitRunMeaning(s: string)
    requires DigitRun(s)
    ensures IsDigit(s[0])
    ensures forall i :: 0 <= i < |s| ==> IsDigit(s[i]) || s[i] == '_'
    ensures forall i :: 0 <= i < |s| - 1 ==> s[i] == '_' ==> IsDigit(s[i + 1])
    decreases |s|
  {
    if |s| > 1 {
      var n := |s| - 1;
      if DigitRun(s[..n]) {
        DigitRunMeaning(s[..n]);
        assert forall i :: 0 <= i < n ==> s[i] == s[..n][i];
      } else {
        DigitRunMeaning(s[..n - 1]);
        assert forall i :: 0 <= i < n - 1 ==> s[i] == s[..n - 1][i];
      }
    }
  }

  /** The number a digit run denotes; underscores do not count. */
  function RunValue(s: string): nat {
    if s == [] then 0
    else if IsDigit(s[|s| - 1]) then 10 * RunValue(s[..|s| - 1]) + DigitValue(s[|s| - 1])
    else RunValue(s[..|s| - 1])
  }

  /** `int(s)` in base 10: `None` where Python raises `ValueError`. */
  function ParseInt(s: string): Option<int> {
    var t := TrimRight(TrimLeft(s));
    if |t| > 0 && (t[0] == '+' || t[0] == '-') then
      if DigitRun(t[1..]) then
        var v: int := RunValue(t[1..]);
        Some(if t[0] == '-' then -v else v)
      else None
    else if DigitRun(t) then Some(RunValue(t))
    else None
  }

  /** `Decimal` writes exactly the numbers below `10^k` in at most `k`
      digits. */
  lemma {:induction false} DecimalWidth(n: nat, k: nat)
    requires k >= 1
    ensures |Decimal(n)| <= k <==> n < Pow10(k)
    decreases n
  {
    if n >= 10 {
      if k == 1 {
        assert Pow10(1) == 10;
      } else {
        DecimalWidth(n / 10, k - 1);
      }
    } else {
      PowAtLeastTen(k);
    }
  }

  lemma {:induction false} PowAtLeastTen(k: nat)
    requires k >= 1
    ensures Pow10(k) >= 10
  {
    if k > 1 {
      PowAtLeastTen(k - 1);
    }
  }

  /** The header is exactly `HeaderWidth` characters long precisely when
      the length fits in `HeaderWidth` digits; a longer length overflows
      the field, and the receiver then reads only its first digits. */
  lemma HeaderExactWidth(n: nat)
    ensures |Header(n)| == HeaderWidth <==> n < Pow10(HeaderWidth)
  {
    DecimalWidth(n, HeaderWidth);
  }

  lemma {:induction false} RunValueDecimal(n: nat)
    ensures DigitRun(Decimal(n)) && RunValue(Decimal(n)) == n
    decreases n
  {
    var s := Decimal(n);
    if n >= 10 {
      RunValueDecimal(n / 10);
      assert s[..|s| - 1] == Decimal(n / 10);
    }
  }

  lemma {:induction false} TrimPadding(d: string, k: nat)
    requires d != [] && !IsSpace(d[|d| - 1])
    ensures TrimRight(d + seq(k, _ => ' ')) == d
    decreases k
  {
    if k > 0 {
      var s := d + seq(k, _ => ' ');
      assert s[..|s| - 1] == d + seq(k - 1, _ => ' ');
      TrimPadding(d, k - 1);
    }
  }

  lemma ParseUnsigned(s: string, d: string)
    requires TrimRight(TrimLeft(s)) == d && DigitRun(d)
    ensures ParseInt(s) == Some(RunValue(d))
  {
    DigitRunMeaning(d);
  }

  /** `int()` reads back every header, padded or not. */
  lemma HeaderParses(n: nat)
    ensures ParseInt(Header(n)) == Some(n)
  {
    var d := Decimal(n);
    var h := Header(n);
    RunValueDecimal(n);
    assert h[0] == d[0] && !IsSpace(h[0]);
    assert TrimLeft(h) == h;
    if |d| >= HeaderWidth {
      assert h == d + seq(0, _ => ' ');
      TrimPadding(d, 0);
    } else {
      assert h == d + seq(HeaderWidth - |d|, _ => ' ');
      TrimPadding(d, HeaderWidth - |d|);
    }
    ParseUnsigned(h, d);
  }

  /** An empty chunk, where the header should be, is no number. */
  lemma EmptyIsNoNumber()
    ensures ParseInt([]) == None
  {
  }

  // ---------------------------------------------------------------------
  // The receiving accumulator

  /** The receiver between chunks: at the start of a frame
      (`message_start`), or collecting one in `message_total` with the
      `message_length` its header declared. */
  datatype Rx = AtStart | InFrame(total: string, length: int)

  /** One chunk's effect: the next state and the payload it completed, or
      the failure of `int()` on the header. */
  datatype Step = Next(rx: Rx, delivered: Option<string>) | HeaderError

  /** The server skips empty chunks; the client handles every chunk. */
  datatype Side = ServerSide | ClientSide

  /** The completion test: the frame is done when the collected text minus
      the header has exactly the declared length. */
  function Collect(total: string, length: int): Step {
    if |total| - HeaderWidth == length then Next(AtStart, Some(Drop(total, HeaderWidth)))
    else Next(InFrame(total, length), None)
  }

  function Feed(side: Side, rx: Rx, chunk: string): Step {
    if side == ServerSide && chunk == [] then Next(rx, None)
    else match rx
      case AtStart =>
        (match ParseInt(Take(chunk, HeaderWidth))
         case None => HeaderError
         case Some(n) => Collect(chunk, n))
      case InFrame(total, length) => Collect(total + chunk, length)
  }

  /** The receiver state held in `message_start`, `message_total` and
      `message_length`. */
  function RxOf(messageStart: bool, messageTotal: string, messageLength: int): Rx {
    if messageStart then AtStart else InFrame(messageTotal, messageLength)
  }

  /** The body of both receive loops for one chunk: read the header at the
      start of a frame, add the chunk, and hand out the payload once the
      frame is complete. `ok` is false where `int()` raises; the server
      passes over an empty chunk. */
  method Accumulate(side: Side, messageStart: bool, messageTotal: string, messageLength: int, chunk: string)
    returns (ok: bool, start: bool, total: string, length: int, message: Option<string>)
    requires messageStart ==> messageTotal == []
    ensures ok <==> Feed(side, RxOf(messageStart, messageTotal, messageLength), chunk) != HeaderError
    ensures ok ==> Feed(side, RxOf(messageStart, messageTotal, messageLength), chunk) == Next(RxOf(start, total, length), message)
    ensures start ==> total == []
  {
    start, total, length, message := messageStart, messageTotal, messageLength, None;
    if side == ServerSide && chunk == [] {
      return true, start, total, length, message;
    }
    if start {
      var n := ParseInt(Take(chunk, HeaderWidth));
      if n.None? {
        return false, start, total, length, message;
      }
      length := n.value;
      start := false;
      assert total + chunk == chunk;
    }
    total := total + chunk;
    if |total| - HeaderWidth == length {
      message := Some(Drop(total, HeaderWidth));
      start := true;
      total := [];
    }
    ok := true;
  }

  /** Reading chunks until one message is complete. */
  datatype Pulled = Message(payload: string, rest: seq<string>) | BadHeader | Starved(rx: Rx)

  function Pull(side: Side, rx: Rx, chunks: seq<string>): (r: Pulled)
    ensures r.Message? ==> |r.rest| < |chunks|
    decreases |chunks|
  {
    if chunks == [] then Starved(rx)
    else match Feed(side, rx, chunks[0])
      case HeaderError => BadHeader
      case Next(next, None) => Pull(side, next, chunks[1..])
      case Next(_, Some(p)) => Message(p, chunks[1..])
  }

  /** How reading a whole stream ends: on an unreadable header, or waiting
      for more data in the given state. */
  datatype Ending = Broken | Waiting(rx: Rx)

  /** Every message a stream of chunks carries, in order. */
  function ReadAll(side: Side, chunks: seq<string>): (seq<string>, Ending)
    decreases |chunks|
  {
    match Pull(side, AtStart, chunks)
    case Message(p, rest) => var (ps, e) := ReadAll(side, rest); ([p] + ps, e)
    case BadHeader => ([], Broken)
    case Starved(rx) => ([], Waiting(rx))
  }

  function Concat(chunks: seq<string>): string {
    if chunks == [] then [] else chunks[0] + Concat(chunks[1..])
  }

  /** `chunks` carries `text`, cut anywhere, with the first cut leaving the
      whole header in the first chunk and no chunk empty. */
  predicate Chunking(chunks: seq<string>, text: string) {
    && chunks != [] && |chunks[0]| >= HeaderWidth
    && (forall i :: 0 <= i < |chunks| ==> chunks[i] != [])
    && Concat(chunks) == text
  }

  /** Non-empty chunks carry at least one character each. */
  lemma {:induction false} ConcatCovers(chunks: seq<string>)
    requires forall i :: 0 <= i < |chunks| ==> chunks[i] != []
    ensures |Concat(chunks)| >= |chunks|
    decreases |chunks|
  {
    if chunks != [] {
      assert forall i :: 0 <= i < |chunks[1..]| ==> chunks[1..][i] == chunks[i + 1];
      ConcatCovers(chunks[1..]);
    }
  }

  lemma {:induction false} Collecting(side: Side, t: string, p: string, chunks: seq<string>, rest: seq<string>)
    requires |t| < |Frame(p)| && t + Concat(chunks) == Frame(p)
    requires |p| < Pow10(HeaderWidth)
    requires forall i :: 0 <= i < |chunks| ==> chunks[i] != []
    ensures Pull(side, InFrame(t, |p|), chunks + rest) == Message(p, rest)
    decreases |chunks|
  {
    HeaderExactWidth(|p|);
    assert chunks != [];
    var c := chunks[0];
    assert Concat(chunks) == c + Concat(chunks[1..]);
    assert (chunks + rest)[0] == c && (chunks + rest)[1..] == chunks[1..] + rest;
    var t' := t + c;
    assert t' + Concat(chunks[1..]) == Frame(p);
    if |t'| == |Frame(p)| {
      assert t' == Frame(p);
      ConcatCovers(chunks[1..]);
      assert Drop(t', HeaderWidth) == p;
    } else {
      forall i | 0 <= i < |chunks[1..]| ensures chunks[1..][i] != [] {
        assert chunks[1..][i] == chunks[i + 1];
      }
      Collecting(side, t', p, chunks[1..], rest);
    }
  }

  /** A first chunk holding the whole header of a frame starts collecting
      it with the payload's length. */
  lemma HeaderChunk(side: Side, p: string, c: string, more: string)
    requires |p| < Pow10(HeaderWidth)
    requires |c| >= HeaderWidth && c + more == Frame(p)
    ensures Feed(side, AtStart, c) == Collect(c, |p|)
  {
    HeaderExactWidth(|p|);
    HeaderParses(|p|);
    assert Take(c, HeaderWidth) == Header(|p|) by {
      assert Frame(p)[..HeaderWidth] == Header(|p|);
      assert c == Frame(p)[..|c|];
    }
  }

  /** A frame of a payload whose length fits the header arrives intact, on
      either side, however the sender's bytes are cut into chunks, provided
      the first chunk holds the whole header; reading stops right after
      the frame's last chunk. */
  lemma FrameRoundTrip(side: Side, p: string, chunks: seq<string>, rest: seq<string>)
    requires |p| < Pow10(HeaderWidth)
    requires Chunking(chunks, Frame(p))
    ensures Pull(side, AtStart, chunks + rest) == Message(p, rest)
  {
    var c := chunks[0];
    assert Concat(chunks) == c + Concat(chunks[1..]);
    HeaderChunk(side, p, c, Concat(chunks[1..]));
    assert (chunks + rest)[0] == c && (chunks + rest)[1..] == chunks[1..] + rest;
    HeaderExactWidth(|p|);
    if |c| == |Frame(p)| {
      assert c == Frame(p);
      ConcatCovers(chunks[1..]);
      assert Drop(c, HeaderWidth) == p;
    } else {
      forall i | 0 <= i < |chunks[1..]| ensures chunks[1..][i] != [] {
        assert chunks[1..][i] == chunks[i + 1];
      }
      Collecting(side, c, p, chunks[1..], rest);
    }
  }

  function Flatten(cuts: seq<seq<string>>): seq<string> {
    if cuts == [] then [] else cuts[0] + Flatten(cuts[1..])
  }

  /** Several frames sent back to back, each cut into chunks that do not
      cross a frame boundary, arrive as their payloads in order, and the
      receiver is left waiting at the start of a frame. */
  lemma {:induction false} FramesRoundTrip(side: Side, ps: seq<string>, cuts: seq<seq<string>>)
    requires |cuts| == |ps|
    requires forall k :: 0 <= k < |ps| ==> |ps[k]| < Pow10(HeaderWidth) && Chunking(cuts[k], Frame(ps[k]))
    ensures ReadAll(side, Flatten(cuts)) == (ps, Waiting(AtStart))
    decreases |ps|
  {
    if ps != [] {
      FrameRoundTrip(side, ps[0], cuts[0], Flatten(cuts[1..]));
      forall k | 0 <= k < |ps[1..]|
        ensures |ps[1..][k]| < Pow10(HeaderWidth) && Chunking(cuts[1..][k], Frame(ps[1..][k]))
      {
        assert ps[1..][k] == ps[k + 1] && cuts[1..][k] == cuts[k + 1];
      }
      FramesRoundTrip(side, ps[1..], cuts[1..]);
      assert Flatten(cuts) == cuts[0] + Flatten(cuts[1..]);
      assert ps == [ps[0]] + ps[1..];
    }
  }

  /** Once the collected text is longer than the frame, no chunk can bring
      the count back: the frame never completes and the receiver waits
      forever with everything it received. */
  lemma {:induction false} OvershootStalls(side: Side, t: string, n: int, chunks: seq<string>)
    requires |t| - HeaderWidth > n
    ensures Pull(side, InFrame(t, n), chunks) == Starved(InFrame(t + Concat(chunks), n))
    decreases |chunks|
  {
    if chunks != [] {
      var c := chunks[0];
      OvershootStalls(side, t + c, n, chunks[1..]);
      assert t + c + Concat(chunks[1..]) == t + Concat(chunks);
      assert Feed(side, InFrame(t, n), c) == Next(InFrame(t + c, n), None) by {
        if side == ServerSide && c == [] {
          assert t + c == t;
        }
      }
    } else {
      assert t + Concat(chunks) == t;
    }
  }

  /** A chunk holding a whole frame and the start of the next one (two
      messages sent in quick succession) loses both: the receiver never
      delivers the first message. */
  lemma CoalescedFramesStall(side: Side, p: string, extra: string, chunks: seq<string>)
    requires |p| < Pow10(HeaderWidth) && extra != []
    ensures Pull(side, AtStart, [Frame(p) + extra] + chunks) ==
      Starved(InFrame(Frame(p) + extra + Concat(chunks), |p|))
  {
    HeaderExactWidth(|p|);
    HeaderParses(|p|);
    var c := Frame(p) + extra;
    assert Take(c, HeaderWidth) == Header(|p|);
    assert ([c] + chunks)[1..] == chunks;
    OvershootStalls(side, c, |p|, chunks);
  }

  /** The client does not skip an empty chunk: at the start of a frame it
      is parsed as the header and `int()` fails. */
  lemma ClientEmptyChunkBreaks(chunks: seq<string>)
    ensures Pull(ClientSide, AtStart, [[]] + chunks) == BadHeader
  {
    EmptyIsNoNumber();
  }

  /** The server ignores an empty chunk in any state. */
  lemma ServerSkipsEmptyChunk(rx: Rx, chunks: seq<string>)
    ensures Pull(ServerSide, rx, [[]] + chunks) == Pull(ServerSide, rx, chunks)
  {
    assert ([[]] + chunks)[1..] == chunks;
  }
}
